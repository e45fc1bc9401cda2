/** The service as a state machine: a request stream applied one request at
    a time to the store, with the persistence layer's id counter alongside. */
module StockMachine {
  import opened Beers
  import opened StockErrors
  import opened Stores
  import opened BeerService

  /** The mutating requests. Look-ups and listings leave the state alone
      and are not part of the stream. */
  datatype Request =
    | CreateRequest(item: Item)
    | DeleteRequest(id: int)
    | IncrementRequest(id: int, delta: int)
    | DecrementRequest(id: int, delta: int)

  /** The store, and the id the persistence layer hands to the next new row. */
  datatype State = State(store: Store, nextId: int)

  /** Every stored id lies below the next one to be handed out, so that id
      is always fresh. */
  ghost predicate IdsBelow(st: State) {
    forall k :: k in st.store ==> k < st.nextId
  }

  /** The model's demand on a request: a positive delta. The service takes a
      plain int; its tests only ever pass positive deltas. */
  predicate Admissible(req: Request) {
    match req
    case IncrementRequest(_, delta) => delta > 0
    case DecrementRequest(_, delta) => delta > 0
    case _ => true
  }

  /** A new item is already within its bounds. This is an assumption: the
      create rule checks only the name, and no bounds check on a new item
      appears anywhere else either (see UncheckedCreateBreaksBounds). */
  predicate ItemChecked(req: Request) {
    req.CreateRequest? ==> InBounds(req.item)
  }

  /** Carries out one request; the counter moves only when a row is added. */
  function Apply(st: State, req: Request): (st': State)
    requires IdsBelow(st) && Admissible(req)
    ensures IdsBelow(st')
    ensures Valid(st.store) && ItemChecked(req) ==> Valid(st'.store)
    ensures st'.store.Keys <= st.store.Keys + {st.nextId}
  {
    match req
    case CreateRequest(it) =>
      var r := Create(st.store, st.nextId, it);
      if r.result.Success? then State(r.store, st.nextId + 1) else st
    case DeleteRequest(id) => State(DeleteById(st.store, id).store, st.nextId)
    case IncrementRequest(id, delta) => State(Increment(st.store, id, delta).store, st.nextId)
    case DecrementRequest(id, delta) => State(Decrement(st.store, id, delta).store, st.nextId)
  }

  /** Carries out a stream of requests in order. */
  function Run(st: State, reqs: seq<Request>): (st': State)
    requires IdsBelow(st)
    requires forall i :: 0 <= i < |reqs| ==> Admissible(reqs[i])
    ensures IdsBelow(st')
    ensures st'.nextId >= st.nextId
    decreases |reqs|
  {
    if reqs == [] then st else Run(Apply(st, reqs[0]), reqs[1..])
  }

  /** The store invariant survives any stream of admissible requests whose new items are in bounds,
      whichever of them succeed and whichever fail. */
  lemma {:induction false} RunPreservesValid(st: State, reqs: seq<Request>)
    requires IdsBelow(st) && Valid(st.store)
    requires forall i :: 0 <= i < |reqs| ==> Admissible(reqs[i]) && ItemChecked(reqs[i])
    ensures Valid(Run(st, reqs).store)
    decreases |reqs|
  {
    if reqs != [] {
      var next := Apply(st, reqs[0]);
      assert forall i :: 0 <= i < |reqs[1..]| ==> reqs[1..][i] == reqs[i + 1];
      RunPreservesValid(next, reqs[1..]);
    }
  }
}
