/** The stock service: the validation rules in front of the repository.
    Every mutating operation takes the store and returns a Step: the store
    afterwards together with the operation's result. A failing operation
    returns the store it was given. */
module BeerService {
  import opened Beers
  import opened StockErrors
  import opened Stores

  datatype Step<+T> = Step(store: Store, result: Result<T>)

  /** `after` is `before` with the item under `id` changed to quantity `q`
      and every other field and every other entry left alone. */
  ghost predicate OnlyQuantityChanged(before: Store, after: Store, id: int, q: int)
    requires id in before
  {
    && after.Keys == before.Keys
    && after[id] == before[id].(quantity := q)
    && (forall k :: k in before && k != id ==> after[k] == before[k])
  }

  /** A non-empty set of ids offers one to pick. */
  lemma NonEmptyHasMember(ids: set<int>)
    requires ids != {}
    ensures exists k :: k in ids
  {
    if forall k :: k !in ids {
      assert false;
    }
  }

  /** Registers `it` under `id`, the id the persistence layer assigns to a
      new row. A name that is already stored is refused. */
  function Create(s: Store, id: int, it: Item): (r: Step<Record>)
    requires id !in s
    ensures r.result.Failure? <==> HasName(s, it.name)
    ensures r.result.Failure? ==> r.store == s && r.result.error == AlreadyRegistered(it.name)
    ensures r.result.Success? ==>
              && r.result.value == Record(id, it)
              && Holds(r.store, r.result.value)
              && r.store.Keys == s.Keys + {id}
              && (forall k :: k in s ==> r.store[k] == s[k])
    ensures Valid(s) && InBounds(it) ==> Valid(r.store)
  {
    if HasName(s, it.name) then Step(s, Failure(AlreadyRegistered(it.name)))
    else Step(s[id := it], Success(Record(id, it)))
  }

  /** Looks an item up by name. When several items carried the name (which
      a valid store rules out) any one of them may be returned. */
  method FindByName(s: Store, name: string) returns (r: Result<Record>)
    ensures r.Success? <==> HasName(s, name)
    ensures r.Success? ==> Holds(s, r.value) && r.value.item.name == name
    ensures r.Failure? ==> r.error == NotFound(ByName(name))
  {
    var unseen := s.Keys;
    while unseen != {}
      invariant unseen <= s.Keys
      invariant forall k :: k in s && k !in unseen ==> s[k].name != name
      decreases unseen
    {
      NonEmptyHasMember(unseen);
      var k :| k in unseen;
      if s[k].name == name {
        return Success(Record(k, s[k]));
      }
      unseen := unseen - {k};
    }
    return Failure(NotFound(ByName(name)));
  }

  /** Lists every stored item, in no particular order; an empty store gives
      an empty list. */
  method ListAll(s: Store) returns (r: seq<Record>)
    ensures Enumerates(s, r)
    ensures s == map[] ==> r == []
  {
    var unseen := s.Keys;
    r := [];
    while unseen != {}
      invariant unseen <= s.Keys
      invariant |r| + |unseen| == |s|
      invariant forall i :: 0 <= i < |r| ==> Holds(s, r[i]) && r[i].id !in unseen
      invariant forall i, j :: 0 <= i < j < |r| ==> r[i].id != r[j].id
      invariant forall id :: id in s && id !in unseen ==> exists i :: 0 <= i < |r| && r[i].id == id
      decreases unseen
    {
      NonEmptyHasMember(unseen);
      var k :| k in unseen;
      ghost var before := r;
      r := r + [Record(k, s[k])];
      assert r[|before|].id == k;
      forall id | id in s && id !in unseen - {k}
        ensures exists i :: 0 <= i < |r| && r[i].id == id
      {
        if id != k {
          var i :| 0 <= i < |before| && before[i].id == id;
          assert r[i] == before[i];
        }
      }
      unseen := unseen - {k};
    }
  }

  /** Removes the item stored under `id`. */
  function DeleteById(s: Store, id: int): (r: Step<()>)
    ensures r.result.Failure? <==> id !in s
    ensures r.result.Failure? ==> r.store == s && r.result.error == NotFound(ById(id))
    ensures r.result.Success? ==>
              && r.store.Keys == s.Keys - {id}
              && (forall k :: k in r.store ==> r.store[k] == s[k])
    ensures Valid(s) ==> Valid(r.store)
  {
    if id !in s then Step(s, Failure(NotFound(ById(id))))
    else Step(s - {id}, Success(()))
  }

  /** Adds `delta` to the stock of the item under `id`, refusing a result
      above the item's ceiling; reaching the ceiling exactly is allowed. */
  function Increment(s: Store, id: int, delta: int): (r: Step<Record>)
    requires delta > 0
    ensures id !in s ==> r == Step(s, Failure(NotFound(ById(id))))
    ensures id in s && s[id].quantity + delta > s[id].max ==>
              r == Step(s, Failure(StockExceeded(id, delta, s[id].max, s[id].quantity)))
    ensures r.result.Success? ==>
              && id in s
              && OnlyQuantityChanged(s, r.store, id, s[id].quantity + delta)
              && r.store[id].quantity <= r.store[id].max
              && r.result.value == Record(id, r.store[id])
    ensures r.result.Failure? ==> r.store == s
    ensures Valid(s) ==> Valid(r.store)
  {
    if id !in s then Step(s, Failure(NotFound(ById(id))))
    else
      var it := s[id];
      var candidate := it.quantity + delta;
      if candidate > it.max then Step(s, Failure(StockExceeded(id, delta, it.max, it.quantity)))
      else
        var updated := it.(quantity := candidate);
        Step(s[id := updated], Success(Record(id, updated)))
  }

  /** Takes `delta` from the stock of the item under `id`, refusing a result
      below zero; reaching zero exactly is allowed. The refusal reuses the
      StockExceeded error. */
  function Decrement(s: Store, id: int, delta: int): (r: Step<Record>)
    requires delta > 0
    ensures id !in s ==> r == Step(s, Failure(NotFound(ById(id))))
    ensures id in s && s[id].quantity - delta < 0 ==>
              r == Step(s, Failure(StockExceeded(id, delta, s[id].max, s[id].quantity)))
    ensures r.result.Success? ==>
              && id in s
              && OnlyQuantityChanged(s, r.store, id, s[id].quantity - delta)
              && r.store[id].quantity >= 0
              && r.result.value == Record(id, r.store[id])
    ensures r.result.Failure? ==> r.store == s
    ensures Valid(s) ==> Valid(r.store)
  {
    if id !in s then Step(s, Failure(NotFound(ById(id))))
    else
      var it := s[id];
      var candidate := it.quantity - delta;
      if candidate < 0 then Step(s, Failure(StockExceeded(id, delta, it.max, it.quantity)))
      else
        var updated := it.(quantity := candidate);
        Step(s[id := updated], Success(Record(id, updated)))
  }
}
