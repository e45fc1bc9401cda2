/** Properties that relate several service operations to each other. */
module StockProperties {
  import opened Beers
  import opened StockErrors
  import opened Stores
  import opened BeerService

  /** A freshly created item is what find-by-name must then return: the name
      is present, and every stored record carrying it is the created one. */
  lemma CreatedItemIsFound(s: Store, id: int, it: Item)
    requires id !in s && !HasName(s, it.name)
    ensures Create(s, id, it).result == Success(Record(id, it))
    ensures HasName(Create(s, id, it).store, it.name)
    ensures forall rec :: Holds(Create(s, id, it).store, rec) && rec.item.name == it.name ==>
              rec == Record(id, it)
  {
  }

  /** In a valid store a name picks out one record, so find-by-name has
      exactly one possible answer. */
  lemma NameIdentifiesRecord(s: Store, a: Record, b: Record)
    requires Valid(s) && Holds(s, a) && Holds(s, b) && a.item.name == b.item.name
    ensures a == b
  {
  }

  /** Deleting what was just created gives back the store from before. */
  lemma CreateThenDeleteRestores(s: Store, id: int, it: Item)
    requires id !in s && !HasName(s, it.name)
    ensures DeleteById(Create(s, id, it).store, id) == Step(s, Success(()))
  {
  }

  /** After a delete the id is gone for every later operation, and in a
      valid store so is the deleted item's name. */
  lemma DeletedItemIsGone(s: Store, id: int, delta: int)
    requires Valid(s) && id in s && delta > 0
    ensures !HasName(DeleteById(s, id).store, s[id].name)
    ensures DeleteById(DeleteById(s, id).store, id).result == Failure(NotFound(ById(id)))
    ensures Increment(DeleteById(s, id).store, id, delta).result == Failure(NotFound(ById(id)))
    ensures Decrement(DeleteById(s, id).store, id, delta).result == Failure(NotFound(ById(id)))
  {
  }

  /** An increment succeeds exactly when the delta fits in the room left
      below the ceiling. */
  lemma IncrementAcceptsUpToCeiling(s: Store, id: int, delta: int)
    requires id in s && delta > 0
    ensures Increment(s, id, delta).result.Success? <==> delta <= s[id].max - s[id].quantity
  {
  }

  /** A decrement succeeds exactly when the delta does not exceed the
      current stock. */
  lemma DecrementAcceptsUpToStock(s: Store, id: int, delta: int)
    requires id in s && delta > 0
    ensures Decrement(s, id, delta).result.Success? <==> delta <= s[id].quantity
  {
  }

  /** Taking back what an increment added restores the store. The item must
      start in bounds: from a negative quantity the decrement is refused. */
  lemma IncrementThenDecrementRestores(s: Store, id: int, delta: int)
    requires id in s && InBounds(s[id]) && delta > 0 && Increment(s, id, delta).result.Success?
    ensures Decrement(Increment(s, id, delta).store, id, delta) == Step(s, Success(Record(id, s[id])))
  {
  }

  /** Putting back what a decrement took restores the store. The item must
      start in bounds: from above its ceiling the increment is refused. */
  lemma DecrementThenIncrementRestores(s: Store, id: int, delta: int)
    requires id in s && InBounds(s[id]) && delta > 0 && Decrement(s, id, delta).result.Success?
    ensures Increment(Decrement(s, id, delta).store, id, delta) == Step(s, Success(Record(id, s[id])))
  {
  }

  /** The boundary cases the service's unit tests exercise, on an item with
      quantity 10 and ceiling 50: 40 more is accepted and reaches the ceiling,
      41 more is refused; 10 less is accepted and reaches zero, 11 less is
      refused. Refusals leave the item at 10. */
  lemma TestedBoundaries(s: Store, id: int)
    requires id in s && s[id].quantity == 10 && s[id].max == 50
    ensures Increment(s, id, 40).result.Success? && Increment(s, id, 40).store[id].quantity == 50
    ensures Increment(s, id, 41) == Step(s, Failure(StockExceeded(id, 41, 50, 10)))
    ensures Decrement(s, id, 10).result.Success? && Decrement(s, id, 10).store[id].quantity == 0
    ensures Decrement(s, id, 11) == Step(s, Failure(StockExceeded(id, 11, 50, 10)))
  {
  }

  /** The test constants pin the item down: if +40 and -10 are accepted
      while +41 and -11 are refused, the item holds 10 with a ceiling of 50. */
  lemma BoundariesDetermineItem(s: Store, id: int)
    requires id in s
    requires Increment(s, id, 40).result.Success? && Increment(s, id, 41).result.Failure?
    requires Decrement(s, id, 10).result.Success? && Decrement(s, id, 11).result.Failure?
    ensures s[id].quantity == 10 && s[id].max == 50
  {
  }

  /** Create checks only the name, so an item whose quantity is above its
      ceiling is stored as given and the store stops being valid. */
  lemma UncheckedCreateBreaksBounds()
    ensures Create(map[], 0, Item("a", "b", 5, 10, "x")).result.Success?
    ensures !Valid(Create(map[], 0, Item("a", "b", 5, 10, "x")).store)
  {
  }
}
