/**
 * The browser's `localStorage`: a string-to-string map shared by the storage
 * manager's fallback wrappers and by the legacy flat layout the migration reads.
 */
module WebStorage {
  import opened Js
  import opened Collections

  class LocalStorage {
    var items: map<string, string>

    constructor (initial: map<string, string>)
      ensures items == initial
    {
      items := initial;
    }

    /** `localStorage.getItem(k)`; None stands for null. */
    method GetItem(k: string) returns (r: Option<string>)
      ensures r.Some? <==> k in items
      ensures r.Some? ==> r.value == items[k]
    {
      r := if k in items then Some(items[k]) else None;
    }

    method SetItem(k: string, v: string)
      modifies this
      ensures items == old(items)[k := v]
    {
      items := items[k := v];
    }

    method RemoveItem(k: string)
      modifies this
      ensures items == old(items) - {k}
    {
      items := items - {k};
    }

    /** The loop of a wrapper's `clear()`: remove, one by one, every key that starts with `p`. */
    method RemovePrefixed(p: string)
      modifies this
      ensures items == WithoutPrefix(old(items), p)
    {
      var all := Keys();
      var doomed := KeepPrefixed(all, p);
      var i := 0;
      while i < |doomed|
        invariant 0 <= i <= |doomed|
        invariant forall k :: k in items <==> k in old(items) && k !in doomed[..i]
        invariant forall k :: k in items ==> items[k] == old(items)[k]
      {
        assert doomed[..i + 1] == doomed[..i] + [doomed[i]];
        RemoveItem(doomed[i]);
        i := i + 1;
      }
      assert doomed[..i] == doomed;
      assert items == WithoutPrefix(old(items), p);
    }

    /** `Object.keys(localStorage)`, in the browser's order. */
    method Keys() returns (ks: seq<string>)
      ensures Lists(ks, items.Keys)
    {
      ks := Enumerate(items.Keys);
    }
  }
}
