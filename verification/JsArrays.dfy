/** JavaScript arrays that the modelled code mutates in place, and the enumeration of keys. */
module JsArrays {

  /** The next key of an enumeration, in some order. */
  method NextKey<K(==)>(keys: set<K>) returns (key: K)
    requires keys != {}
    ensures key in keys
  {
    key :| key in keys;
  }

  /** A resizable array: the items are a field that every mutation reassigns. */
  class JsArray<T> {
    var items: seq<T>

    constructor (items: seq<T>)
      ensures this.items == items
    {
      this.items := items;
    }

    method Push(x: T)
      modifies this
      ensures items == old(items) + [x]
    {
      items := items + [x];
    }

    /** goog.array.insertAt: splice in one element before index i. */
    method InsertAt(x: T, i: nat)
      requires i <= |items|
      modifies this
      ensures items == old(items)[..i] + [x] + old(items)[i..]
    {
      items := items[..i] + [x] + items[i..];
    }

    /** goog.array.removeAt: splice out one element; true when one was removed. */
    method RemoveAt(i: nat) returns (removed: bool)
      modifies this
      ensures removed == (i < |old(items)|)
      ensures items == if removed then old(items)[..i] + old(items)[i + 1..] else old(items)
    {
      removed := i < |items|;
      if removed {
        items := items[..i] + items[i + 1..];
      }
    }
  }
}
