/**
 * Client-side walks through a fresh map, stating what a caller of map.rs
 * observes from a given sequence of calls.
 */
module Scenarios {
  import opened Entries
  import opened LinkedMap

  /** `add("a", 1)`, `add("b", 2)`, `add("c", 3)` on a new map. */
  method ThreeEntries() returns (m: Map<string, int>)
    ensures m.Valid() && fresh(m.Repr)
    ensures m.Contents == [Entry("c", 3), Entry("b", 2), Entry("a", 1)]
  {
    m := new Map<string, int>();
    var added := m.Add("a", 1);
    added := m.Add("b", 2);
    added := m.Add("c", 3);
  }

  /**
   * After the three additions of `ThreeEntries`: a lookup, a removal, the
   * same lookup again and a second removal of the same key.
   */
  method AddGetRemove() returns (count1: nat, got1: Option<int>, removed1: bool,
                                 count2: nat, got2: Option<int>, removed2: bool)
    ensures count1 == 3 && got1 == Some(2)
    ensures removed1 && count2 == 2 && got2 == None
    ensures !removed2
  {
    var m := ThreeEntries();
    count1 := m.size;
    got1 := m.Get("b");
    removed1 := m.RemoveItem("b");
    count2 := m.size;
    got2 := m.Get("b");
    removed2 := m.RemoveItem("b");
  }

  /** A second `add` of a key is refused, and the first value stays. */
  method DuplicateRejected<K(==), V>(k: K, v1: V, v2: V) returns (first: bool, second: bool, got: Option<V>)
    ensures first && !second && got == Some(v1)
  {
    var m := new Map<K, V>();
    first := m.Add(k, v1);
    second := m.Add(k, v2);
    got := m.Get(k);
  }

  /**
   * map.rs as written: removing the only key reports `false`, and leaves
   * `size` at zero while `head` is still set.
   */
  method RemoveOnlyKeyAsWritten<K(==), V>(k: K, v: V) returns (removed: bool, count: nat, headSet: bool)
    ensures !removed && count == 0 && headSet
  {
    var m := new Map<K, V>();
    var added := m.Add(k, v);
    removed := m.RemoveItemAsWritten(k);
    count := m.size;
    headSet := m.head != null;
  }
}
