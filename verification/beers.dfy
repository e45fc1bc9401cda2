/** The catalogue entry the stock service keeps, and the view of it that the
    service hands back to its callers. */
module Beers {

  /** A stored beer, without its id. `max` is the stock ceiling and
      `quantity` the current stock. `kind` stands for the beer-type
      enumeration: the service never inspects it, so its constants are not
      part of this model. */
  datatype Item = Item(name: string, brand: string, max: int, quantity: int, kind: string)

  /** The transfer representation: an item together with the id it is
      stored under. */
  datatype Record = Record(id: int, item: Item)

  /** The stock bound every stored item is meant to keep. */
  predicate InBounds(it: Item) {
    0 <= it.quantity <= it.max
  }
}
