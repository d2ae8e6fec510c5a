/**
 * The abstract view of the map: the entries of its chain listed from the
 * head (the most recently added entry) towards the oldest one, which is the
 * order every scan of the map visits them in.
 */
module Entries {

  datatype Option<T> = None | Some(value: T)

  datatype Entry<K, V> = Entry(key: K, value: V)

  /** Some entry of `s` has key `k`. */
  predicate HasKey<K(==), V>(s: seq<Entry<K, V>>, k: K)
  {
    exists i :: 0 <= i < |s| && s[i].key == k
  }

  /** No key occurs twice in `s`. */
  predicate DistinctKeys<K(==), V>(s: seq<Entry<K, V>>)
  {
    forall i, j :: 0 <= i < j < |s| ==> s[i].key != s[j].key
  }

  /** The set of keys that occur in `s`. */
  function Keys<K(==), V>(s: seq<Entry<K, V>>): set<K>
  {
    if s == [] then {} else {s[0].key} + Keys(s[1..])
  }

  /** `Keys` holds exactly the keys that some entry carries. */
  lemma {:induction false} InKeys<K, V>(s: seq<Entry<K, V>>, k: K)
    ensures k in Keys(s) <==> HasKey(s, k)
  {
    if s != [] {
      HasKeyCons(s);
      InKeys(s[1..], k);
    }
  }

  /** A key occurs in a non-empty list exactly when it is the first key or occurs in the rest. */
  lemma HasKeyCons<K, V>(s: seq<Entry<K, V>>)
    requires s != []
    ensures forall k :: HasKey(s, k) <==> s[0].key == k || HasKey(s[1..], k)
  {
    forall k | HasKey(s, k) && s[0].key != k
      ensures HasKey(s[1..], k)
    {
      var i :| 0 <= i < |s| && s[i].key == k;
      assert s[1..][i - 1].key == k;
    }
    forall k | HasKey(s[1..], k)
      ensures HasKey(s, k)
    {
      var i :| 0 <= i < |s[1..]| && s[1..][i].key == k;
      assert s[i + 1].key == k;
    }
  }

  /** The value of the first entry with key `k`, scanning from the head. */
  function Find<K(==), V>(s: seq<Entry<K, V>>, k: K): (r: Option<V>)
    ensures r.Some? <==> HasKey(s, k)
    ensures r.Some? ==> Entry(k, r.value) in s
  {
    if s == [] then None
    else
      HasKeyCons(s);
      if s[0].key == k then Some(s[0].value) else Find(s[1..], k)
  }

  /** The position of the first entry with key `k`. */
  function IndexOf<K(==), V>(s: seq<Entry<K, V>>, k: K): (i: nat)
    requires HasKey(s, k)
    ensures i < |s| && s[i].key == k
    ensures forall j :: 0 <= j < i ==> s[j].key != k
  {
    HasKeyCons(s);
    if s[0].key == k then 0 else 1 + IndexOf(s[1..], k)
  }

  /** `s` without its first entry with key `k`; `s` itself when there is none. */
  function Remove<K(==), V>(s: seq<Entry<K, V>>, k: K): (r: seq<Entry<K, V>>)
    ensures |r| == if HasKey(s, k) then |s| - 1 else |s|
  {
    if s == [] then []
    else
      HasKeyCons(s);
      if s[0].key == k then s[1..] else [s[0]] + Remove(s[1..], k)
  }

  /** Skipping a prefix that holds no entry with key `k` does not change what a scan finds. */
  lemma {:induction false} FindSkip<K, V>(s: seq<Entry<K, V>>, k: K, i: nat)
    requires i <= |s|
    requires forall j :: 0 <= j < i ==> s[j].key != k
    ensures Find(s, k) == Find(s[i..], k)
  {
    if i > 0 {
      FindSkip(s[1..], k, i - 1);
      assert s[1..][i - 1..] == s[i..];
    }
  }

  /** A scan returns the value at position `i` exactly when `i` holds the first entry with that key. */
  lemma FindIsFirstMatch<K, V>(s: seq<Entry<K, V>>, k: K, v: V)
    ensures Find(s, k) == Some(v) <==>
              HasKey(s, k) && s[IndexOf(s, k)] == Entry(k, v)
  {
    if HasKey(s, k) {
      var i := IndexOf(s, k);
      FindSkip(s, k, i);
    }
  }

  /** With distinct keys, a scan finds `v` under `k` exactly when the entry (k, v) is present. */
  lemma FindDistinct<K, V>(s: seq<Entry<K, V>>, k: K, v: V)
    requires DistinctKeys(s)
    ensures Find(s, k) == Some(v) <==> Entry(k, v) in s
  {
    if Entry(k, v) in s {
      var i :| 0 <= i < |s| && s[i] == Entry(k, v);
      FindSkip(s, k, i);
    }
  }

  /** Removing the first entry with key `k` deletes exactly position `IndexOf(s, k)`. */
  lemma {:induction false} RemoveAt<K, V>(s: seq<Entry<K, V>>, k: K, i: nat)
    requires i < |s| && s[i].key == k
    requires forall j :: 0 <= j < i ==> s[j].key != k
    ensures Remove(s, k) == s[..i] + s[i + 1..]
  {
    if i > 0 {
      RemoveAt(s[1..], k, i - 1);
      assert s[1..][..i - 1] == s[1..i];
      assert s[1..][i..] == s[i + 1..];
      assert [s[0]] + s[1..i] == s[..i];
    }
  }

  /** Removing an absent key leaves the list unchanged. */
  lemma {:induction false} RemoveAbsent<K, V>(s: seq<Entry<K, V>>, k: K)
    requires !HasKey(s, k)
    ensures Remove(s, k) == s
  {
    if s != [] {
      HasKeyCons(s);
      RemoveAbsent(s[1..], k);
    }
  }

  /** Removal keeps exactly the other keys, and keeps them distinct. */
  lemma RemoveKeys<K, V>(s: seq<Entry<K, V>>, k: K)
    requires DistinctKeys(s)
    ensures DistinctKeys(Remove(s, k))
    ensures forall k' :: HasKey(Remove(s, k), k') <==> HasKey(s, k') && k' != k
  {
    if HasKey(s, k) {
      var i := IndexOf(s, k);
      RemoveAt(s, k, i);
      DistinctKeysDelete(s, i);
      forall k' ensures HasKey(s[..i] + s[i + 1..], k') <==> HasKey(s, k') && k' != k {
        HasKeyDelete(s, i, k');
      }
    } else {
      RemoveAbsent(s, k);
    }
  }

  /** After deleting position `i`, a key occurs exactly when it occurs at some other position. */
  lemma HasKeyDelete<K, V>(s: seq<Entry<K, V>>, i: nat, k: K)
    requires i < |s|
    ensures HasKey(s[..i] + s[i + 1..], k) <==> exists j :: 0 <= j < |s| && j != i && s[j].key == k
  {
    var r := s[..i] + s[i + 1..];
    if HasKey(r, k) {
      var j :| 0 <= j < |r| && r[j].key == k;
      var j' := if j < i then j else j + 1;
      assert r[j] == s[j'];
    }
    if exists j :: 0 <= j < |s| && j != i && s[j].key == k {
      var j :| 0 <= j < |s| && j != i && s[j].key == k;
      var j' := if j < i then j else j - 1;
      assert r[j'] == s[j];
    }
  }

  /** After a removal a scan for the removed key finds nothing; every other key is found as before. */
  lemma {:induction false} FindAfterRemove<K, V>(s: seq<Entry<K, V>>, k: K, k': K)
    requires DistinctKeys(s)
    ensures Find(Remove(s, k), k') == if k' == k then None else Find(s, k')
  {
    if s != [] {
      DistinctKeysTail(s);
      if s[0].key == k {
        if k' == k {
          assert !HasKey(s[1..], k) by {
            forall j | 0 <= j < |s[1..]| ensures s[1..][j].key != k {
              assert s[1..][j] == s[j + 1];
            }
          }
        }
      } else {
        FindAfterRemove(s[1..], k, k');
        assert ([s[0]] + Remove(s[1..], k))[1..] == Remove(s[1..], k);
      }
    }
  }

  /** The entries after the first one still have distinct keys, none of them the first key. */
  lemma DistinctKeysTail<K, V>(s: seq<Entry<K, V>>)
    requires DistinctKeys(s) && s != []
    ensures DistinctKeys(s[1..]) && !HasKey(s[1..], s[0].key)
  {
    var t := s[1..];
    forall i, j | 0 <= i < j < |t| ensures t[i].key != t[j].key {
      assert t[i] == s[i + 1] && t[j] == s[j + 1];
    }
    forall j | 0 <= j < |t| ensures t[j].key != s[0].key {
      assert t[j] == s[j + 1];
    }
  }

  /** Deleting one position keeps the keys distinct. */
  lemma DistinctKeysDelete<K, V>(s: seq<Entry<K, V>>, i: nat)
    requires DistinctKeys(s) && i < |s|
    ensures DistinctKeys(s[..i] + s[i + 1..])
  {
    var r := s[..i] + s[i + 1..];
    forall a, b | 0 <= a < b < |r| ensures r[a].key != r[b].key {
      assert r[a] == s[if a < i then a else a + 1];
      assert r[b] == s[if b < i then b else b + 1];
    }
  }

  /** Adding a fresh key at the head keeps the keys distinct. */
  lemma PrependDistinct<K, V>(s: seq<Entry<K, V>>, k: K, v: V)
    requires DistinctKeys(s) && !HasKey(s, k)
    ensures DistinctKeys([Entry(k, v)] + s)
  {
    var t := [Entry(k, v)] + s;
    forall i, j | 0 <= i < j < |t| ensures t[i].key != t[j].key {
      assert t[j] == s[j - 1];
      if i > 0 { assert t[i] == s[i - 1]; }
    }
  }

  /** A scan after adding (k, v) at the head finds v under k and is otherwise unchanged. */
  lemma FindAfterPrepend<K, V>(s: seq<Entry<K, V>>, k: K, v: V, k': K)
    ensures Find([Entry(k, v)] + s, k') == if k' == k then Some(v) else Find(s, k')
  {
    assert ([Entry(k, v)] + s)[1..] == s;
  }

  /** With distinct keys, the number of entries is the number of different keys. */
  lemma {:induction false} DistinctKeysCount<K, V>(s: seq<Entry<K, V>>)
    requires DistinctKeys(s)
    ensures |Keys(s)| == |s|
  {
    if s != [] {
      DistinctKeysTail(s);
      DistinctKeysCount(s[1..]);
      InKeys(s[1..], s[0].key);
    }
  }
}
