/** hash.c: a chained hash table whose nodes are linked in both directions and whose values sit in
    cells of their own, handed out by reference and updated in place.

    hash_get_bucket hands out the address of one slot of the bucket array; the slots are objects here. */
module Hash {

  class Cell<V> {
    var value: V

    constructor (value: V)
      ensures this.value == value
    {
      this.value := value;
    }
  }

  class Node<K, V> {
    const key: K
    const cell: Cell<V>
    var prev: Node?<K, V>
    var next: Node?<K, V>

    constructor (key: K, cell: Cell<V>)
      ensures this.key == key && this.cell == cell && prev == null && next == null
    {
      this.key, this.cell, prev, next := key, cell, null, null;
    }
  }

  ghost function KeysOf<K, V>(chain: seq<Node<K, V>>): set<K> {
    set i | 0 <= i < |chain| :: chain[i].key
  }

  /** Keys and value cells are not shared within the chain. */
  ghost predicate Distinct<K, V>(chain: seq<Node<K, V>>) {
    forall i, j :: 0 <= i < j < |chain| ==> chain[i].key != chain[j].key && chain[i].cell != chain[j].cell
  }

  ghost predicate Within<K, V>(chain: seq<Node<K, V>>, repr: set<object>) {
    forall i :: 0 <= i < |chain| ==> chain[i] in repr && chain[i].cell in repr
  }

  lemma Pushed<K, V>(chain: seq<Node<K, V>>, repr: set<object>, node: Node<K, V>)
    requires Within(chain, repr) && Distinct(chain) && node.key !in KeysOf(chain) && node.cell !in repr
    ensures Within([node] + chain, repr + {node, node.cell})
    ensures Distinct([node] + chain)
    ensures KeysOf([node] + chain) == {node.key} + KeysOf(chain)
  {
    var now := [node] + chain;
    assert now[0] == node && forall i :: 0 <= i < |chain| ==> now[i + 1] == chain[i];
  }

  ghost function Without<T>(s: seq<T>, pos: nat): seq<T>
    requires pos < |s|
  {
    s[..pos] + s[pos + 1..]
  }

  lemma Removed<K, V>(chain: seq<Node<K, V>>, repr: set<object>, pos: nat)
    requires Within(chain, repr) && Distinct(chain) && pos < |chain|
    ensures Within(Without(chain, pos), repr) && Distinct(Without(chain, pos))
    ensures KeysOf(Without(chain, pos)) == KeysOf(chain) - {chain[pos].key}
  {
    var now := Without(chain, pos);
    assert forall i :: 0 <= i < pos ==> now[i] == chain[i];
    assert forall i :: pos < i < |chain| ==> now[i - 1] == chain[i];
  }

  /** The links of `chain` mirror each other, from `head` on. */
  ghost predicate Linked<K, V>(chain: seq<Node<K, V>>, head: Node?<K, V>)
    reads chain
  {
    && head == (if chain == [] then null else chain[0])
    && (forall i {:trigger chain[i].prev} :: 0 <= i < |chain| ==>
          chain[i].prev == if i == 0 then null else chain[i - 1])
    && (forall i {:trigger chain[i].next} :: 0 <= i < |chain| ==>
          chain[i].next == if i + 1 == |chain| then null else chain[i + 1])
  }

  class Bucket<K(==, !new), V> {
    var head: Node?<K, V>

    ghost var chain: seq<Node<K, V>>
    ghost var contents: map<K, V>
    ghost var repr: set<object>

    /** Every cell of the chain holds the value of its key. */
    ghost predicate Stored()
      requires Within(chain, repr)
      reads this, repr
    {
      forall i :: 0 <= i < |chain| ==>
        chain[i].key in contents && contents[chain[i].key] == chain[i].cell.value
    }

    /** The chain is a well-linked representation of `contents`. */
    ghost predicate Valid()
      reads this, repr
      ensures Valid() ==> this in repr
    {
      && this in repr && Within(chain, repr) && Distinct(chain)
      && Linked(chain, head)
      && contents.Keys == KeysOf(chain) && Stored()
    }

    constructor ()
      ensures Valid() && fresh(repr) && contents == map[]
    {
      head, chain, contents, repr := null, [], map[], {this};
    }

    twostate lemma Untouched()
      requires old(Valid()) && forall o :: o in old(repr) ==> unchanged(o)
      ensures Valid() && repr == old(repr) && contents == old(contents)
    {
    }

    /** hash_get_node_by_key. */
    method FindNode(key: K) returns (node: Node?<K, V>, ghost pos: nat)
      requires Valid()
      ensures node == null <==> key !in contents
      ensures node != null ==> pos < |chain| && node == chain[pos] && node.key == key
    {
      node, pos := head, 0;
      while node != null && node.key != key
        invariant 0 <= pos <= |chain|
        invariant node == if pos == |chain| then null else chain[pos]
        invariant forall i :: 0 <= i < pos ==> chain[i].key != key
        decreases |chain| - pos
      {
        assert node == chain[pos];
        node, pos := node.next, pos + 1;
      }
    }

    /** Puts a node in front of the chain. */
    method LinkFirst(node: Node<K, V>)
      requires Linked(chain, head) && node !in chain && node.prev == null && node.next == null && Distinct(chain)
      modifies this`head, this`chain, node`next, chain`prev
      ensures chain == [node] + old(chain) && Linked(chain, head)
    {
      if head != null {
        node.next := head;
        head.prev := node;
      }
      head := node;
      chain := [node] + chain;
    }

    method NewNode(key: K, value: V) returns (node: Node<K, V>)
      ensures fresh(node) && fresh(node.cell) && node.key == key && node.cell.value == value
      ensures node.prev == null && node.next == null
    {
      var cell := new Cell<V>(value);
      node := new Node<K, V>(key, cell);
    }

    method Insert(node: Node<K, V>)
      requires Valid() && node.key !in contents && node !in repr && node.cell !in repr
      requires node.prev == null && node.next == null
      modifies this, chain, node`next
      ensures Valid()
      ensures repr == old(repr) + {node, node.cell} && contents == old(contents)[node.key := node.cell.value]
    {
      Pushed(chain, repr, node);
      contents := contents[node.key := node.cell.value];
      repr := repr + {node, node.cell};
      LinkFirst(node);
    }

    /** hash_add_entry; a key already present is the caller's fault. */
    method Add(key: K, value: V)
      requires Valid() && key !in contents
      modifies repr
      ensures Valid() && fresh(repr - old(repr))
      ensures contents == old(contents)[key := value]
    {
      var node := NewNode(key, value);
      Insert(node);
    }

    /** A write through the reference to the value cell of the node at `pos`. */
    method Store(cell: Cell<V>, value: V, ghost pos: nat)
      requires Valid() && pos < |chain| && chain[pos].cell == cell
      modifies repr
      ensures Valid() && fresh(repr - old(repr))
      ensures contents == old(contents)[old(chain)[pos].key := value]
    {
      cell.value := value;
      contents := contents[chain[pos].key := value];
    }

    /** Takes a node out of the chain. */
    method Unlink(node: Node<K, V>, ghost pos: nat)
      requires Linked(chain, head) && Distinct(chain) && pos < |chain| && node == chain[pos]
      modifies this`head, this`chain, chain
      ensures chain == Without(old(chain), pos) && Linked(chain, head)
    {
      ghost var now := Without(chain, pos);
      assert Linked(chain, head);
      assert node.prev == (if pos == 0 then null else chain[pos - 1]);
      assert node.next == (if pos + 1 == |chain| then null else chain[pos + 1]);
      if node.prev != null {
        node.prev.next := node.next;
      } else {
        head := node.next;
      }
      if node.next != null {
        node.next.prev := node.prev;
      }
      chain := now;
    }

    /** hash_free_entry; a missing key is the caller's fault. */
    method Free(key: K)
      requires Valid() && key in contents
      modifies repr
      ensures Valid() && fresh(repr - old(repr))
      ensures contents == old(contents) - {key}
    {
      var node;
      ghost var pos;
      node, pos := FindNode(key);
      Removed(chain, repr, pos);
      Unlink(node, pos);
      contents := contents - {key};
    }
  }

  /** The two maps differ at most at `key`. */
  ghost predicate SameBut<K(!new), V>(key: K, m: map<K, V>, m': map<K, V>) {
    && (forall k :: k != key ==> (k in m <==> k in m'))
    && (forall k :: k != key && k in m ==> m'[k] == m[k])
  }

  class HashTable<K(==, !new), V(!new)> {
    const hash: K -> nat
    const buckets: seq<Bucket<K, V>>

    ghost var contents: map<K, V>
    ghost var repr: set<object>

    ghost predicate Owned(bucket: Bucket<K, V>)
      reads this, repr
    {
      bucket in repr && bucket.repr <= repr && this !in bucket.repr && bucket.Valid()
    }

    ghost predicate Shaped()
      reads this, repr
    {
      && this in repr
      && (forall k :: hash(k) < |buckets|)
      && (forall b :: 0 <= b < |buckets| ==> Owned(buckets[b]))
      && (forall b, c :: 0 <= b < |buckets| && 0 <= c < |buckets| && b != c ==> buckets[b].repr !! buckets[c].repr)
    }

    /** The table refines the map `contents`, every entry sitting in the bucket of its key. */
    ghost predicate Valid()
      reads this, repr
      ensures Valid() ==> this in repr
    {
      && Shaped()
      && (forall k :: k in contents <==> k in buckets[hash(k)].contents)
      && (forall k :: k in contents ==> contents[k] == buckets[hash(k)].contents[k])
      && (forall b, k :: 0 <= b < |buckets| && k in buckets[b].contents ==> hash(k) == b)
    }

    /** hash_alloc. */
    constructor (size: nat, hash: K -> nat)
      requires forall k :: hash(k) < size
      ensures Valid() && fresh(repr) && contents == map[] && this.hash == hash
    {
      var slots: seq<Bucket<K, V>> := [];
      ghost var all: set<object> := {};
      while |slots| < size
        invariant |slots| <= size && fresh(all)
        invariant forall b :: 0 <= b < |slots| ==>
          slots[b] in all && slots[b].repr <= all && slots[b].Valid() && slots[b].contents == map[]
        invariant forall b, c :: 0 <= b < c < |slots| ==> slots[b].repr !! slots[c].repr
      {
        var slot := new Bucket<K, V>();
        slots := slots + [slot];
        all := all + slot.repr;
      }
      this.hash, buckets, contents := hash, slots, map[];
      repr := {this} + all;
    }

    /** hash_lookup_entry: a reference to the value cell, or null. */
    method Lookup(key: K) returns (cell: Cell?<V>, ghost pos: nat)
      requires Valid()
      ensures cell == null <==> key !in contents
      ensures cell != null ==> IsCell(cell, key, pos) && cell.value == contents[key]
    {
      var node;
      node, pos := buckets[hash(key)].FindNode(key);
      cell := if node == null then null else node.cell;
    }

    /** `cell` is the value cell of the entry under `key`. */
    ghost predicate IsCell(cell: Cell<V>, key: K, pos: nat)
      requires Shaped()
      reads this, repr
    {
      var chain := buckets[hash(key)].chain;
      pos < |chain| && chain[pos].key == key && chain[pos].cell == cell
    }

    /** An operation that stays within bucket `b` leaves all others as they are. */
    twostate lemma OthersUntouched(b: nat)
      requires old(Shaped()) && b < |buckets|
      requires forall o :: o in old(repr) && o != this && o !in old(buckets[b].repr) ==> unchanged(o)
      ensures forall c :: 0 <= c < |buckets| && c != b ==>
                buckets[c].Valid() && buckets[c].repr == old(buckets[c].repr) && buckets[c].contents == old(buckets[c].contents)
    {
      forall c | 0 <= c < |buckets| && c != b
        ensures buckets[c].Valid() && buckets[c].repr == old(buckets[c].repr) && buckets[c].contents == old(buckets[c].contents)
      {
        assert old(Owned(buckets[c]));
        buckets[c].Untouched();
      }
    }

    twostate lemma StillShaped(b: nat)
      requires old(Shaped()) && b < |buckets|
      requires forall o :: o in old(repr) && o != this && o !in old(buckets[b].repr) ==> unchanged(o)
      requires buckets[b].Valid() && fresh(buckets[b].repr - old(buckets[b].repr))
      requires old(repr) <= repr && buckets[b].repr <= repr
      ensures Shaped()
      ensures forall c :: 0 <= c < |buckets| && c != b ==> buckets[c].contents == old(buckets[c].contents)
    {
      hide Bucket.Valid;
      assert old(Owned(buckets[b]));
      OthersUntouched(b);
      forall c | 0 <= c < |buckets| && c != b ensures Owned(buckets[c]) && buckets[c].repr !! buckets[b].repr {
        assert old(Owned(buckets[c]));
        assert old(buckets[c].repr) !! old(buckets[b].repr);
      }
    }

    /** A change to the entry under `key`, made within its bucket and in the map alike, keeps the table valid. */
    twostate lemma Reassembled(key: K)
      requires old(Valid()) && Shaped()
      requires forall c :: 0 <= c < |buckets| && c != hash(key) ==> buckets[c].contents == old(buckets[c].contents)
      requires SameBut(key, old(contents), contents)
      requires SameBut(key, old(buckets[hash(key)].contents), buckets[hash(key)].contents)
      requires key in contents <==> key in buckets[hash(key)].contents
      requires key in contents ==> contents[key] == buckets[hash(key)].contents[key]
      ensures Valid()
    {
      hide Bucket.Valid;
    }

    /** A write through the reference that Lookup handed out. */
    method Store(cell: Cell<V>, value: V, key: K, ghost pos: nat)
      requires Valid() && IsCell(cell, key, pos)
      modifies repr
      ensures Valid() && fresh(repr - old(repr)) && contents == old(contents)[key := value]
    {
      hide Bucket.Valid;
      var b := hash(key);
      assert Owned(buckets[b]);
      buckets[b].Store(cell, value, pos);
      contents := contents[key := value];
      repr := repr + buckets[b].repr;
      StillShaped(b);
      Reassembled(key);
    }

    method Add(key: K, value: V)
      requires Valid() && key !in contents
      modifies repr
      ensures Valid() && fresh(repr - old(repr)) && contents == old(contents)[key := value]
    {
      hide Bucket.Valid;
      var b := hash(key);
      assert Owned(buckets[b]);
      buckets[b].Add(key, value);
      contents := contents[key := value];
      repr := repr + buckets[b].repr;
      StillShaped(b);
      Reassembled(key);
    }

    method Free(key: K)
      requires Valid() && key in contents
      modifies repr
      ensures Valid() && fresh(repr - old(repr)) && contents == old(contents) - {key}
    {
      hide Bucket.Valid;
      var b := hash(key);
      assert Owned(buckets[b]);
      buckets[b].Free(key);
      contents := contents - {key};
      repr := repr + buckets[b].repr;
      StillShaped(b);
      Reassembled(key);
    }
  }
}
