/** The orders the tabs list people in: participants by `nom`, accounts by username, both with
    `localeCompare` taken as plain character order. */
module Ordering {
  import opened Sorting
  import opened Types

  predicate NomFirst(a: Participant, b: Participant) {
    StrLe(a.nom, b.nom)
  }

  lemma NomFirstTotalPreorder()
    ensures TotalPreorder(NomFirst)
  {
    forall a: Participant, b: Participant ensures NomFirst(a, b) || NomFirst(b, a) {
      StrLeTotal(a.nom, b.nom);
    }
    forall a: Participant, b: Participant, c: Participant | NomFirst(a, b) && NomFirst(b, c)
      ensures NomFirst(a, c)
    {
      StrLeTrans(a.nom, b.nom, c.nom);
    }
  }

  /** `.sort((a, b) => a.nom.localeCompare(b.nom))`. */
  function SortByNom(ps: seq<Participant>): seq<Participant> {
    SortBy(ps, NomFirst)
  }

  /** Sorting by `nom` reorders the participants and puts them in `nom` order. */
  lemma SortByNomSpec(ps: seq<Participant>)
    ensures multiset(SortByNom(ps)) == multiset(ps)
    ensures forall i, j :: 0 <= i < j < |ps| ==> StrLe(SortByNom(ps)[i].nom, SortByNom(ps)[j].nom)
  {
    NomFirstTotalPreorder();
    SortBySorted(ps, NomFirst);
  }

  predicate UsernameFirst(a: User, b: User) {
    StrLe(a.username, b.username)
  }

  lemma UsernameFirstTotalPreorder()
    ensures TotalPreorder(UsernameFirst)
  {
    forall a: User, b: User ensures UsernameFirst(a, b) || UsernameFirst(b, a) {
      StrLeTotal(a.username, b.username);
    }
    forall a: User, b: User, c: User | UsernameFirst(a, b) && UsernameFirst(b, c)
      ensures UsernameFirst(a, c)
    {
      StrLeTrans(a.username, b.username, c.username);
    }
  }

  /** `.sort((a, b) => a.username.localeCompare(b.username))`. */
  function SortByUsername(us: seq<User>): seq<User> {
    SortBy(us, UsernameFirst)
  }

  /** Sorting by username reorders the accounts and puts them in username order. */
  lemma SortByUsernameSpec(us: seq<User>)
    ensures multiset(SortByUsername(us)) == multiset(us)
    ensures forall i, j :: 0 <= i < j < |us| ==>
      StrLe(SortByUsername(us)[i].username, SortByUsername(us)[j].username)
  {
    UsernameFirstTotalPreorder();
    SortBySorted(us, UsernameFirst);
  }

  lemma StrLeTotalPreorder()
    ensures TotalPreorder(StrLe)
  {
    forall a: string, b: string ensures StrLe(a, b) || StrLe(b, a) {
      StrLeTotal(a, b);
    }
    forall a: string, b: string, c: string | StrLe(a, b) && StrLe(b, c) ensures StrLe(a, c) {
      StrLeTrans(a, b, c);
    }
  }

  /** `.sort()` on strings. */
  function SortStrings(xs: seq<string>): seq<string> {
    SortBy(xs, StrLe)
  }

  lemma SortStringsSpec(xs: seq<string>)
    ensures multiset(SortStrings(xs)) == multiset(xs)
    ensures forall i, j :: 0 <= i < j < |xs| ==> StrLe(SortStrings(xs)[i], SortStrings(xs)[j])
  {
    StrLeTotalPreorder();
    SortBySorted(xs, StrLe);
  }

  /** The comparator `(a, b) => b.localeCompare(a)`: later strings first. */
  predicate StrGe(a: string, b: string) {
    StrLe(b, a)
  }

  lemma StrGeTotalPreorder()
    ensures TotalPreorder(StrGe)
  {
    forall a: string, b: string ensures StrGe(a, b) || StrGe(b, a) {
      StrLeTotal(a, b);
    }
    forall a: string, b: string, c: string | StrGe(a, b) && StrGe(b, c) ensures StrGe(a, c) {
      StrLeTrans(c, b, a);
    }
  }

  /** `.sort((a, b) => b.localeCompare(a))` on strings. */
  function SortStringsDescending(xs: seq<string>): seq<string> {
    SortBy(xs, StrGe)
  }

  lemma SortStringsDescendingSpec(xs: seq<string>)
    ensures multiset(SortStringsDescending(xs)) == multiset(xs)
    ensures forall i, j :: 0 <= i < j < |xs| ==>
      StrLe(SortStringsDescending(xs)[j], SortStringsDescending(xs)[i])
  {
    StrGeTotalPreorder();
    SortBySorted(xs, StrGe);
  }
}
