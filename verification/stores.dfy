/** The in-memory store that stands in for the beer repository: a map from
    id to item, with the invariant the service is meant to maintain. */
module Stores {
  import opened Beers

  type Store = map<int, Item>

  /** Some stored item carries `name`; this is the repository's find-by-name
      returning a present value. */
  predicate HasName(s: Store, name: string) {
    exists id :: id in s && s[id].name == name
  }

  /** `rec` is what the store holds under `rec.id`. */
  predicate Holds(s: Store, rec: Record) {
    rec.id in s && s[rec.id] == rec.item
  }

  ghost predicate UniqueNames(s: Store) {
    forall a, b :: a in s && b in s && s[a].name == s[b].name ==> a == b
  }

  /** The store invariant: every item keeps 0 <= quantity <= max, and no two
      items share a name. */
  ghost predicate Valid(s: Store) {
    && (forall id :: id in s ==> InBounds(s[id]))
    && UniqueNames(s)
  }

  /** `r` lists the store: every stored entry exactly once, in some order,
      and nothing else. */
  ghost predicate Enumerates(s: Store, r: seq<Record>) {
    && |r| == |s|
    && (forall i :: 0 <= i < |r| ==> Holds(s, r[i]))
    && (forall i, j :: 0 <= i < j < |r| ==> r[i].id != r[j].id)
    && (forall id :: id in s ==> exists i :: 0 <= i < |r| && r[i].id == id)
  }

  /** The store a listing describes, read back record by record. */
  function FromRecords(r: seq<Record>): Store
  {
    if r == [] then map[] else FromRecords(r[..|r| - 1])[r[|r| - 1].id := r[|r| - 1].item]
  }

  /** A listing loses nothing: the records it returns rebuild exactly the
      store they were listed from. */
  lemma {:induction false} ListingRebuildsStore(s: Store, r: seq<Record>)
    requires Enumerates(s, r)
    ensures FromRecords(r) == s
    decreases |r|
  {
    if r == [] {
      assert |s.Keys| == 0;
    } else {
      var front, last := r[..|r| - 1], r[|r| - 1];
      var rest := s - {last.id};
      assert Holds(s, r[|r| - 1]);
      forall i | 0 <= i < |front| ensures Holds(rest, front[i]) {
        assert front[i] == r[i] && r[i].id != r[|r| - 1].id;
        assert Holds(s, r[i]);
      }
      forall id | id in rest ensures exists i :: 0 <= i < |front| && front[i].id == id {
        var i :| 0 <= i < |r| && r[i].id == id;
        assert i < |front| && front[i] == r[i];
      }
      assert Enumerates(rest, front);
      ListingRebuildsStore(rest, front);
      assert rest[last.id := last.item] == s;
    }
  }
}
