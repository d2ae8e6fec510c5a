/**
 * The map of map.rs: a chain of heap nodes reached from `head`, the most
 * recently added node, by following `previousNode` towards the oldest node.
 *
 * The ghost field `chain` lists the nodes in that order, `Contents` lists
 * their entries, and `Repr` is the footprint: the map object and the nodes it
 * owns. Allocation is `new Node`; deallocation takes the node out of the
 * chain and out of `Repr`.
 */
module LinkedMap {
  import opened Entries

  /** One node of the chain: an entry and the two links of map.rs:4-9. */
  class Node<K, V> {
    var key: K
    var value: V
    var nextNode: Node?<K, V>
    var previousNode: Node?<K, V>

    constructor (key: K, value: V, nextNode: Node?<K, V>, previousNode: Node?<K, V>)
      ensures this.key == key && this.value == value
      ensures this.nextNode == nextNode && this.previousNode == previousNode
    {
      this.key := key;
      this.value := value;
      this.nextNode := nextNode;
      this.previousNode := previousNode;
    }
  }

  class Map<K(==), V> {
    var size: nat
    var head: Node?<K, V>

    ghost var chain: seq<Node<K, V>>
    ghost var Contents: seq<Entry<K, V>>
    ghost var Repr: set<object>

    /**
     * Everything the map keeps true except where `head` points: the footprint
     * holds the map and its chain, `size` counts the chain, each node carries its
     * entry, the links of neighbouring nodes point at each other, no node
     * occurs twice and no key occurs twice.
     */
    ghost predicate Linked()
      reads this, Repr
    {
      && this in Repr
      && (forall i :: 0 <= i < |chain| ==> chain[i] in Repr)
      && size == |chain| == |Contents|
      && (forall i :: 0 <= i < |chain| ==> Contents[i] == Entry(chain[i].key, chain[i].value))
      && (forall i {:trigger chain[i].previousNode} :: 0 <= i < |chain| ==>
            chain[i].previousNode == if i + 1 < |chain| then chain[i + 1] else null)
      && (forall i {:trigger chain[i].nextNode} :: 0 <= i < |chain| ==>
            chain[i].nextNode == if i == 0 then null else chain[i - 1])
      && (forall i, j :: 0 <= i < j < |chain| ==> chain[i] != chain[j])
      && DistinctKeys(Contents)
    }

    /** The object invariant: the chain is linked and starts at `head`. */
    ghost predicate Valid()
      reads this, Repr
    {
      Linked() && head == if chain == [] then null else chain[0]
    }

    /** `Map::new` (map.rs:17-22): an empty map. */
    constructor ()
      ensures Valid() && Repr == {this}
      ensures size == 0 && head == null && chain == [] && Contents == []
    {
      size := 0;
      head := null;
      chain := [];
      Contents := [];
      Repr := {this};
    }

    /** Every link of a valid map points back: map.rs relies on this when it unlinks a node. */
    lemma LinksPointBack(n: Node<K, V>)
      requires Valid() && n in chain
      ensures n.previousNode != null ==> n.previousNode in chain && n.previousNode.nextNode == n
      ensures n.nextNode != null ==> n.nextNode in chain && n.nextNode.previousNode == n
      ensures n.nextNode == null <==> n == head
    {
      var i :| 0 <= i < |chain| && chain[i] == n;
      NodeAt(i);
      if i + 1 < |chain| {
        NodeAt(i + 1);
        assert chain[i + 1] in chain;
      }
      if i > 0 {
        NodeAt(i - 1);
        assert chain[i - 1] in chain;
        assert n != chain[0];
      }
    }

    /** The two links of the node at position `i`, read off `Linked`. */
    lemma NodeAt(i: nat)
      requires Linked() && i < |chain|
      ensures chain[i].previousNode == if i + 1 < |chain| then chain[i + 1] else null
      ensures chain[i].nextNode == if i == 0 then null else chain[i - 1]
    {
    }

    /** `size` is the number of different keys stored, and is zero exactly when there is no head. */
    lemma SizeIsKeyCount()
      requires Valid()
      ensures size == |Keys(Contents)|
      ensures size == 0 <==> head == null
    {
      DistinctKeysCount(Contents);
    }

    /**
     * `check_key` (map.rs:81-93): walks from `head` along `previousNode` and
     * reports whether some node carries `key`.
     */
    method CheckKey(key: K) returns (present: bool)
      requires Valid()
      ensures present <==> exists i :: 0 <= i < |chain| && chain[i].key == key
      ensures present == HasKey(Contents, key)
    {
      if head == null {
        return false;
      }
      var iter := head;
      ghost var i := 0;
      while iter != null
        invariant 0 <= i <= |chain|
        invariant iter == if i < |chain| then chain[i] else null
        invariant forall j :: 0 <= j < i ==> chain[j].key != key
        decreases |chain| - i
      {
        if iter.key == key {
          assert Contents[i].key == key;
          return true;
        }
        iter := iter.previousNode;
        i := i + 1;
      }
      return false;
    }

    /**
     * `get` (map.rs:70-79): the value of the first node on the walk from
     * `head` whose key is `key`, or `None`.
     */
    method Get(key: K) returns (r: Option<V>)
      requires Valid()
      ensures r == Find(Contents, key)
      ensures r.None? <==> forall i :: 0 <= i < |chain| ==> chain[i].key != key
      ensures r.Some? ==> exists i :: 0 <= i < |chain| && chain[i].key == key && chain[i].value == r.value
    {
      var iter := head;
      ghost var i := 0;
      while iter != null
        invariant 0 <= i <= |chain|
        invariant iter == if i < |chain| then chain[i] else null
        invariant forall j :: 0 <= j < i ==> chain[j].key != key
        decreases |chain| - i
      {
        if iter.key == key {
          FindSkip(Contents, key, i);
          assert Contents[i..][0] == Contents[i];
          return Some(iter.value);
        }
        iter := iter.previousNode;
        i := i + 1;
      }
      FindSkip(Contents, key, i);
      return None;
    }

    /**
     * `add` (map.rs:23-44): refuses a key that is already present and
     * changes nothing; otherwise links a new node in front of the old head
     * and makes it the head.
     */
    method Add(key: K, value: V) returns (added: bool)
      requires Valid()
      modifies Repr
      ensures Valid()
      ensures added == !HasKey(old(Contents), key)
      ensures !added ==> size == old(size) && head == old(head) && chain == old(chain)
                         && Contents == old(Contents) && Repr == old(Repr)
      ensures !added ==> forall n :: n in old(chain) ==> unchanged(n)
      ensures added ==> head != null && fresh(head)
                        && head.key == key && head.value == value
                        && head.nextNode == null && head.previousNode == old(head)
      ensures added && old(head) != null ==> old(head).nextNode == head
      ensures added ==> size == old(size) + 1 && chain == [head] + old(chain)
                        && Contents == [Entry(key, value)] + old(Contents)
                        && Repr == old(Repr) + {head}
    {
      var present := CheckKey(key);
      if present {
        return false;
      }
      LinkNewHead(key, value);
      return true;
    }

    /**
     * The insertion half of `add` (map.rs:27-43) for a key known to be
     * absent: the new node goes in front of the old head and becomes the
     * head, and `size` grows by one.
     */
    method LinkNewHead(key: K, value: V)
      requires Valid() && !HasKey(Contents, key)
      modifies Repr
      ensures Valid()
      ensures head != null && fresh(head)
              && head.key == key && head.value == value
              && head.nextNode == null && head.previousNode == old(head)
      ensures old(head) != null ==> old(head).nextNode == head
      ensures size == old(size) + 1 && chain == [head] + old(chain)
              && Contents == [Entry(key, value)] + old(Contents)
              && Repr == old(Repr) + {head}
    {
      ghost var ch, c := chain, Contents;
      var newNode := NewFrontNode(key, value);
      head := newNode;
      size := size + 1;
      PrependDistinct(c, key, value);
      PrependedChain(newNode, ch, c);
      chain := [newNode] + ch;
      Contents := [Entry(key, value)] + c;
      Repr := Repr + {newNode};
    }

    /**
     * The allocation and pointer updates of map.rs:27-40: a new node holding
     * (key, value) whose `previousNode` is the head, and which the head's
     * `nextNode` now points to. Every other link and every entry stay as they were.
     */
    method NewFrontNode(key: K, value: V) returns (newNode: Node<K, V>)
      requires Valid()
      modifies Repr - {this}
      ensures fresh(newNode) && newNode.key == key && newNode.value == value
      ensures newNode.nextNode == null && newNode.previousNode == head
      ensures forall j {:trigger chain[j].previousNode} :: 0 <= j < |chain| ==>
                chain[j].previousNode == if j + 1 < |chain| then chain[j + 1] else null
      ensures forall j {:trigger chain[j].nextNode} :: 0 <= j < |chain| ==>
                chain[j].nextNode == if j == 0 then newNode else chain[j - 1]
      ensures forall j :: 0 <= j < |chain| ==> Contents[j] == Entry(chain[j].key, chain[j].value)
    {
      if head == null {
        newNode := new Node(key, value, null, null);
      } else {
        NodeAt(0);
        newNode := new Node(key, value, null, head);
        head.nextNode := newNode;
      }
      forall j | 0 <= j < |chain|
        ensures chain[j].previousNode == if j + 1 < |chain| then chain[j + 1] else null
        ensures chain[j].nextNode == if j == 0 then newNode else chain[j - 1]
      {
        assert old(chain[j].previousNode) == if j + 1 < |chain| then chain[j + 1] else null;
        if j > 0 {
          assert old(chain[j].nextNode) == chain[j - 1] && chain[j] != chain[0];
        }
      }
    }

    /**
     * A node whose `previousNode` is the old first node, and which that node's
     * `nextNode` points to, extends a linked chain at its front.
     */
    static lemma PrependedChain(n: Node<K, V>, ch: seq<Node<K, V>>, c: seq<Entry<K, V>>)
      requires |ch| == |c| && n !in ch
      requires n.nextNode == null && n.previousNode == if ch == [] then null else ch[0]
      requires forall j :: 0 <= j < |ch| ==> c[j] == Entry(ch[j].key, ch[j].value)
      requires forall j {:trigger ch[j].previousNode} :: 0 <= j < |ch| ==>
                 ch[j].previousNode == if j + 1 < |ch| then ch[j + 1] else null
      requires forall j {:trigger ch[j].nextNode} :: 0 <= j < |ch| ==>
                 ch[j].nextNode == if j == 0 then n else ch[j - 1]
      requires forall a, b :: 0 <= a < b < |ch| ==> ch[a] != ch[b]
      ensures var r, e := [n] + ch, [Entry(n.key, n.value)] + c;
              && (forall j :: 0 <= j < |r| ==> e[j] == Entry(r[j].key, r[j].value))
              && (forall j {:trigger r[j].previousNode} :: 0 <= j < |r| ==>
                    r[j].previousNode == if j + 1 < |r| then r[j + 1] else null)
              && (forall j {:trigger r[j].nextNode} :: 0 <= j < |r| ==>
                    r[j].nextNode == if j == 0 then null else r[j - 1])
              && (forall a, b :: 0 <= a < b < |r| ==> r[a] != r[b])
    {
      var r, e := [n] + ch, [Entry(n.key, n.value)] + c;
      forall j | 0 < j < |r|
        ensures r[j] == ch[j - 1] && e[j] == c[j - 1]
        ensures r[j].previousNode == if j + 1 < |r| then r[j + 1] else null
        ensures r[j].nextNode == r[j - 1]
      {
        assert ch[j - 1].previousNode == if j < |ch| then ch[j] else null;
        assert ch[j - 1].nextNode == if j == 1 then n else ch[j - 2];
      }
      forall a, b | 0 <= a < b < |r| ensures r[a] != r[b] {
        assert r[b] == ch[b - 1];
        if a > 0 { assert r[a] == ch[a - 1]; }
      }
    }

    /**
     * The unlink step of `remove_item` (map.rs:53-62) applied to the node at
     * position `i` of the chain: its next node's `previousNode` and its
     * previous node's `nextNode` skip it, `size` drops by one and the node
     * leaves the footprint. Like map.rs, it does not touch `head`. Returns the
     * node's previous node as read before the node was released (map.rs:54).
     */
    method Unlink(node: Node<K, V>, ghost i: nat) returns (previous: Node?<K, V>)
      requires Linked() && i < |chain| && chain[i] == node
      modifies Repr
      ensures Linked() && head == old(head)
      ensures previous == if i + 1 < |old(chain)| then old(chain)[i + 1] else null
      ensures chain == old(chain)[..i] + old(chain)[i + 1..]
      ensures Contents == old(Contents)[..i] + old(Contents)[i + 1..]
      ensures size == old(size) - 1
      ensures Repr == old(Repr) - {node}
      ensures i > 0 ==> old(chain)[i - 1].previousNode == previous
      ensures i + 1 < |old(chain)| ==>
                old(chain)[i + 1].nextNode == if i > 0 then old(chain)[i - 1] else null
    {
      ghost var ch, c := chain, Contents;
      previous := Splice(node, i);
      size := size - 1;
      chain := ch[..i] + ch[i + 1..];
      Contents := c[..i] + c[i + 1..];
      Repr := Repr - {node};
      DistinctKeysDelete(c, i);
      SplicedChain(ch, c, i);
    }

    /**
     * Once the neighbours of position `i` point at each other (as `Splice`
     * leaves them), the chain without position `i` is linked again.
     */
    static lemma SplicedChain(ch: seq<Node<K, V>>, c: seq<Entry<K, V>>, i: nat)
      requires i < |ch| == |c|
      requires forall j :: 0 <= j < |ch| ==> c[j] == Entry(ch[j].key, ch[j].value)
      requires forall j {:trigger ch[j].previousNode} :: 0 <= j < |ch| ==>
                 ch[j].previousNode ==
                   if j + 1 == i then (if i + 1 < |ch| then ch[i + 1] else null)
                   else if j + 1 < |ch| then ch[j + 1] else null
      requires forall j {:trigger ch[j].nextNode} :: 0 <= j < |ch| ==>
                 ch[j].nextNode ==
                   if j == i + 1 then (if i > 0 then ch[i - 1] else null)
                   else if j == 0 then null else ch[j - 1]
      requires forall a, b :: 0 <= a < b < |ch| ==> ch[a] != ch[b]
      ensures var r, e := ch[..i] + ch[i + 1..], c[..i] + c[i + 1..];
              && (forall j :: 0 <= j < |r| ==> r[j] == ch[if j < i then j else j + 1] && r[j] != ch[i])
              && (forall j :: 0 <= j < |r| ==> e[j] == Entry(r[j].key, r[j].value))
              && (forall j {:trigger r[j].previousNode} :: 0 <= j < |r| ==>
                    r[j].previousNode == if j + 1 < |r| then r[j + 1] else null)
              && (forall j {:trigger r[j].nextNode} :: 0 <= j < |r| ==>
                    r[j].nextNode == if j == 0 then null else r[j - 1])
              && (forall a, b :: 0 <= a < b < |r| ==> r[a] != r[b])
    {
      var r, e := ch[..i] + ch[i + 1..], c[..i] + c[i + 1..];
      forall j | 0 <= j < |r|
        ensures r[j] == ch[if j < i then j else j + 1] && r[j] != ch[i]
        ensures e[j] == Entry(r[j].key, r[j].value)
      {
        var j' := if j < i then j else j + 1;
        assert r[j] == ch[j'] && e[j] == c[j'];
      }
      forall j | 0 <= j < |r|
        ensures r[j].previousNode == if j + 1 < |r| then r[j + 1] else null
      {
        if j + 1 < i {
          assert ch[j].previousNode == ch[j + 1];
        } else if j + 1 == i {
          assert ch[j].previousNode == if i + 1 < |ch| then ch[i + 1] else null;
        } else {
          assert ch[j + 1].previousNode == if j + 2 < |ch| then ch[j + 2] else null;
        }
      }
      forall j | 0 <= j < |r|
        ensures r[j].nextNode == if j == 0 then null else r[j - 1]
      {
        if j < i {
          assert ch[j].nextNode == if j == 0 then null else ch[j - 1];
        } else {
          assert ch[j + 1].nextNode == if j == i then (if i > 0 then ch[i - 1] else null) else ch[j];
        }
      }
      forall a, b | 0 <= a < b < |r| ensures r[a] != r[b] {
        assert r[a] == ch[if a < i then a else a + 1];
        assert r[b] == ch[if b < i then b else b + 1];
      }
    }

    /**
     * The two pointer updates of map.rs:55-62: the node after `node` (its
     * `nextNode`) and the node before it (its `previousNode`) are linked to
     * each other, so that both skip `node`. Every other link, every entry and
     * the map's own fields stay as they were.
     */
    method Splice(node: Node<K, V>, ghost i: nat) returns (previous: Node?<K, V>)
      requires Linked() && i < |chain| && chain[i] == node
      modifies Repr - {this}
      ensures previous == if i + 1 < |chain| then chain[i + 1] else null
      ensures forall j {:trigger chain[j].previousNode} :: 0 <= j < |chain| ==>
                chain[j].previousNode ==
                  if j + 1 == i then previous
                  else if j + 1 < |chain| then chain[j + 1] else null
      ensures forall j {:trigger chain[j].nextNode} :: 0 <= j < |chain| ==>
                chain[j].nextNode ==
                  if j == i + 1 then (if i > 0 then chain[i - 1] else null)
                  else if j == 0 then null else chain[j - 1]
      ensures forall j :: 0 <= j < |chain| ==> Contents[j] == Entry(chain[j].key, chain[j].value)
    {
      var currNext := node.nextNode;
      var currPrevious := node.previousNode;
      assert currNext == if i == 0 then null else chain[i - 1];
      assert currPrevious == if i + 1 < |chain| then chain[i + 1] else null;
      if currNext != null {
        currNext.previousNode := currPrevious;
      }
      if currPrevious != null {
        currPrevious.nextNode := currNext;
      }
      previous := currPrevious;
      forall j | 0 <= j < |chain|
        ensures chain[j].previousNode ==
                  if j + 1 == i then previous
                  else if j + 1 < |chain| then chain[j + 1] else null
      {
        assert j + 1 != i ==> chain[j] != currNext;
        assert old(chain[j].previousNode) == if j + 1 < |chain| then chain[j + 1] else null;
      }
      forall j | 0 <= j < |chain|
        ensures chain[j].nextNode ==
                  if j == i + 1 then (if i > 0 then chain[i - 1] else null)
                  else if j == 0 then null else chain[j - 1]
      {
        assert j != i + 1 ==> chain[j] != currPrevious;
        assert old(chain[j].nextNode) == if j == 0 then null else chain[j - 1];
      }
    }

    /**
     * `remove_item` (map.rs:46-68) as the source evidently intends it: an
     * absent key returns `false` at once (map.rs:47-48), a present key is
     * unlinked and `true` is returned (map.rs:52-63), and removing the head
     * node moves `head` to its previous node, which map.rs never does.
     */
    method RemoveItem(key: K) returns (removed: bool)
      requires Valid()
      modifies Repr
      ensures Valid()
      ensures removed == HasKey(old(Contents), key)
      ensures Contents == Remove(old(Contents), key)
      ensures size == if removed then old(size) - 1 else old(size)
      ensures !removed ==> head == old(head) && chain == old(chain) && Repr == old(Repr)
      ensures !removed ==> forall n :: n in old(chain) ==> unchanged(n)
      ensures removed ==>
                var i := IndexOf(old(Contents), key);
                && chain == old(chain)[..i] + old(chain)[i + 1..]
                && Repr == old(Repr) - {old(chain)[i]}
                && (i > 0 ==>
                      old(chain)[i - 1].previousNode == if i + 1 < |old(chain)| then old(chain)[i + 1] else null)
                && (i + 1 < |old(chain)| ==>
                      old(chain)[i + 1].nextNode == if i > 0 then old(chain)[i - 1] else null)
    {
      var present := CheckKey(key);
      if !present {
        RemoveAbsent(Contents, key);
        return false;
      }
      var iter := head;
      ghost var i := 0;
      while iter != null && iter.key != key
        invariant 0 <= i <= |chain|
        invariant iter == if i < |chain| then chain[i] else null
        invariant forall j :: 0 <= j < i ==> chain[j].key != key
        decreases |chain| - i
      {
        iter := iter.previousNode;
        i := i + 1;
      }
      assert iter != null && Contents[i].key == key;
      RemoveAt(Contents, key, i);
      assert IndexOf(Contents, key) == i;
      RemoveNode(iter, i);
      return true;
    }

    /**
     * Unlinks the node at position `i` (map.rs:53-62) and, when it was the
     * head, moves `head` to its previous node so that the map stays valid.
     */
    method RemoveNode(node: Node<K, V>, ghost i: nat)
      requires Valid() && i < |chain| && chain[i] == node
      modifies Repr
      ensures Valid()
      ensures chain == old(chain)[..i] + old(chain)[i + 1..]
      ensures Contents == old(Contents)[..i] + old(Contents)[i + 1..]
      ensures size == old(size) - 1
      ensures Repr == old(Repr) - {node}
      ensures i > 0 ==>
                old(chain)[i - 1].previousNode == if i + 1 < |old(chain)| then old(chain)[i + 1] else null
      ensures i + 1 < |old(chain)| ==>
                old(chain)[i + 1].nextNode == if i > 0 then old(chain)[i - 1] else null
    {
      var wasHead := node == head;
      assert wasHead <==> i == 0;
      var previous := Unlink(node, i);
      if wasHead {
        head := previous;
      }
    }

    /**
     * `remove_item` exactly as map.rs:46-68 is written: the results of
     * `check_key` (map.rs:47-49) and of a removal (map.rs:63) are discarded,
     * so it returns `false` on every path; after a removal the walk goes on
     * from the removed node's saved previous node; and `head` is never
     * reassigned, so removing the newest key leaves `head` naming a node the
     * map no longer owns.
     */
    method RemoveItemAsWritten(key: K) returns (removed: bool)
      requires Valid()
      modifies Repr
      ensures !removed
      ensures Linked() && head == old(head)
      ensures Contents == Remove(old(Contents), key)
      ensures size == if HasKey(old(Contents), key) then old(size) - 1 else old(size)
      ensures !HasKey(old(Contents), key) ==> chain == old(chain) && Repr == old(Repr)
      ensures !HasKey(old(Contents), key) ==> forall n :: n in old(chain) ==> unchanged(n)
      ensures Valid() <==> old(Contents) == [] || old(Contents)[0].key != key
      ensures old(Contents) != [] && old(Contents)[0].key == key ==> head != null && head !in Repr
      ensures HasKey(old(Contents), key) ==>
                var i := IndexOf(old(Contents), key);
                chain == old(chain)[..i] + old(chain)[i + 1..] && Repr == old(Repr) - {old(chain)[i]}
    {
      var present := CheckKey(key);
      var iter := head;
      ghost var i := 0;
      while iter != null && iter.key != key
        invariant 0 <= i <= |chain|
        invariant iter == if i < |chain| then chain[i] else null
        invariant forall j :: 0 <= j < i ==> chain[j].key != key
        decreases |chain| - i
      {
        iter := iter.previousNode;
        i := i + 1;
      }
      if iter == null {
        RemoveAbsent(Contents, key);
        return false;
      }
      ghost var at := i;
      assert old(Contents)[0].key == key <==> at == 0;
      iter := RemoveMatch(iter, i, key);
      assert IndexOf(old(Contents), key) == at;
      // The walk goes on over the older nodes with the comparison of map.rs:52;
      // no entry has `key` any more, so it never succeeds again.
      var matchedAgain := WalkOn(iter, i, key);
      assert !matchedAgain;
      if at == 0 {
        assert head == old(chain)[0] && head !in Repr;
        assert chain == [] || chain[0] in Repr;
      } else {
        assert chain[0] == old(chain)[0];
      }
      return false;
    }

    /**
     * The rest of a walk (map.rs:51-52, 65) from the node at position `i` to
     * the end of the chain, reporting whether the key comparison of map.rs:52
     * succeeds for any node on the way.
     */
    method WalkOn(iter: Node?<K, V>, ghost i: nat, key: K) returns (matched: bool)
      requires Linked() && i <= |chain| && iter == if i < |chain| then chain[i] else null
      ensures matched <==> exists j :: i <= j < |chain| && chain[j].key == key
    {
      var it := iter;
      ghost var j := i;
      matched := false;
      while it != null
        invariant i <= j <= |chain|
        invariant it == if j < |chain| then chain[j] else null
        invariant matched <==> exists m :: i <= m < j && chain[m].key == key
        decreases |chain| - j
      {
        if it.key == key {
          matched := true;
        }
        it := it.previousNode;
        j := j + 1;
      }
    }

    /**
     * The body of the removal branch of map.rs:52-63 at position `i`, the
     * first node with `key`: unlinks the node and returns the node the walk
     * visits next, its previous node read as map.rs:65 reads it.
     */
    method RemoveMatch(node: Node<K, V>, ghost i: nat, key: K) returns (next: Node?<K, V>)
      requires Linked() && i < |chain| && chain[i] == node && node.key == key
      requires forall j :: 0 <= j < i ==> chain[j].key != key
      modifies Repr
      ensures Linked() && head == old(head)
      ensures HasKey(old(Contents), key) && IndexOf(old(Contents), key) == i
      ensures Contents == Remove(old(Contents), key) && !HasKey(Contents, key)
      ensures chain == old(chain)[..i] + old(chain)[i + 1..]
      ensures Repr == old(Repr) - {node}
      ensures size == old(size) - 1
      ensures next == if i < |chain| then chain[i] else null
      ensures forall j :: 0 <= j < i ==> chain[j].key != key
    {
      assert Contents[i].key == key;
      RemoveAt(Contents, key, i);
      RemoveKeys(Contents, key);
      next := Unlink(node, i);
      forall j | 0 <= j < i ensures chain[j].key != key {
        assert chain[j] == old(chain)[j];
      }
    }
  }
}
