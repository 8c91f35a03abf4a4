/** Values that may be absent: an empty weight cell in the history, or a lookup that found no row. */
module Maybes {

  /** `Nothing` marks the absent value; `Just` carries a present one. */
  datatype Maybe<T> = Nothing | Just(value: T)
}
