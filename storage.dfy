/** The browser's `localStorage` as the preference cells see it: string
    values under string keys, where reading or writing may throw (storage
    disabled, quota exceeded). Whether each kind of access works is fixed
    for the session. */
module Storage {
  import opened Wrappers

  /** What `localStorage.getItem(key)` gives: the stored string, `null`
      (`None`) when nothing is stored, or an exception. */
  datatype Read = Got(stored: Option<string>) | ReadFailed

  class Store {
    var items: map<string, string>
    const readable: bool
    const writable: bool

    constructor (items: map<string, string>, readable: bool, writable: bool)
      ensures this.items == items && this.readable == readable && this.writable == writable
    {
      this.items := items;
      this.readable := readable;
      this.writable := writable;
    }

    /** `getItem(key)`: the outcome a read of `key` has in the current
        state. */
    function Get(key: string): (r: Read)
      reads this
      ensures r.Got? <==> readable
      ensures r.Got? ==> (r.stored.Some? <==> key in items)
      ensures r.Got? && r.stored.Some? ==> r.stored.value == items[key]
    {
      if !readable then ReadFailed
      else if key in items then Got(Some(items[key]))
      else Got(None)
    }

    /** The items after `setItem(key, value)` in the current state: the
        value replaces the old one, or nothing changes when writing throws. */
    function AfterSet(key: string, value: string): (m: map<string, string>)
      reads this
      ensures writable ==> key in m && m[key] == value
      ensures forall k :: k != key ==> (k in m <==> k in items)
      ensures forall k :: k in m && k != key ==> m[k] == items[k]
      ensures !writable ==> m == items
    {
      if writable then items[key := value] else items
    }

    /** `setItem`; `ok` is false when it threw. */
    method SetItem(key: string, value: string) returns (ok: bool)
      modifies this
      ensures ok == writable
      ensures items == old(AfterSet(key, value))
    {
      ok := writable;
      if ok {
        items := items[key := value];
      }
    }
  }
}
