/** `LRUCache<K, V>`: a recency list of key/value nodes, most recently used first, and
    an index from each key to its node. `Put` and `Get` move the node they touch to the
    front; `Put` of a new key evicts from the back while the list is over capacity.

    The reference behaviour is stated on plain sequences of pairs (`Lookup`, `Touched`,
    `Evicted`, `PutInto`, `GetFrom`); the class is proved to follow it. */
module LruCache {
  import opened Common

  /** The list position of `k` in `s`, if any: the first pair with key `k`. */
  function Locate<K(==), V>(s: seq<(K, V)>, k: K): (r: Option<nat>)
    ensures r.Some? ==> r.value < |s| && s[r.value].0 == k
    ensures r.Some? ==> forall j :: 0 <= j < r.value ==> s[j].0 != k
    ensures r.None? <==> forall j :: 0 <= j < |s| ==> s[j].0 != k
  {
    if |s| == 0 then None
    else if s[0].0 == k then Some(0)
    else match Locate(s[1..], k) {
      case None => None
      case Some(j) => Some(j + 1)
    }
  }

  /** The value stored under `k`, if any. */
  function Lookup<K(==), V>(s: seq<(K, V)>, k: K): Option<V> {
    match Locate(s, k) {
      case None => None
      case Some(i) => Some(s[i].1)
    }
  }

  /** No key occurs twice. */
  ghost predicate DistinctKeys<K, V>(s: seq<(K, V)>) {
    forall i, j :: 0 <= i < |s| && 0 <= j < |s| && i != j ==> s[i].0 != s[j].0
  }

  /** The element at `i` moved to the front, the others keeping their order. */
  function Touched<T>(s: seq<T>, i: nat): (r: seq<T>)
    requires i < |s|
    ensures |r| == |s| && r[0] == s[i]
    ensures forall j {:trigger r[j]} :: 0 < j <= i ==> r[j] == s[j - 1]
    ensures forall j {:trigger r[j]} :: i < j < |s| ==> r[j] == s[j]
  {
    [s[i]] + s[..i] + s[i + 1..]
  }

  /** `s` without its first occurrence of `x`: the node a splice takes out of the
      list. */
  function Unlinked<T(==)>(s: seq<T>, x: T): (r: seq<T>)
    ensures |r| <= |s|
  {
    if |s| == 0 then []
    else if s[0] == x then s[1..]
    else [s[0]] + Unlinked(s[1..], x)
  }

  /** When `x` occurs only at `i`, unlinking it removes exactly that position. */
  lemma {:induction false} UnlinkedAt<T>(s: seq<T>, x: T, i: nat)
    requires i < |s| && s[i] == x
    requires forall j :: 0 <= j < |s| && j != i ==> s[j] != x
    ensures Unlinked(s, x) == s[..i] + s[i + 1..]
  {
    if i > 0 {
      UnlinkedAt(s[1..], x, i - 1);
      assert s[1..][..i - 1] + s[1..][i..] == s[1..i] + s[i + 1..];
      assert s[..i] == [s[0]] + s[1..i];
    }
  }

  /** The list after dropping back elements until at most `cap` remain. */
  function Evicted<T>(s: seq<T>, cap: nat): (r: seq<T>)
    ensures |r| <= cap && r <= s
    ensures |s| <= cap ==> r == s
    ensures |s| > cap ==> |r| == cap
  {
    if |s| <= cap then s else s[..cap]
  }

  /** `Put` on the pair list: an existing key gets the new value and moves to the
      front; a new key is inserted at the front and the least recently used pairs are
      evicted beyond `cap`. */
  function PutInto<K(==), V>(s: seq<(K, V)>, k: K, v: V, cap: nat): seq<(K, V)> {
    match Locate(s, k) {
      case Some(i) => Touched(s[i := (k, v)], i)
      case None => Evicted([(k, v)] + s, cap)
    }
  }

  /** `Get` on the pair list: the value and the list with the key moved to the front,
      or nothing and the list unchanged. */
  function GetFrom<K(==), V>(s: seq<(K, V)>, k: K): (Option<V>, seq<(K, V)>) {
    match Locate(s, k) {
      case Some(i) => (Some(s[i].1), Touched(s, i))
      case None => (None, s)
    }
  }

  /** In a list with distinct keys, the one position holding `k` is where `Locate`
      finds it. */
  lemma LocateAt<K, V>(s: seq<(K, V)>, k: K, i: nat)
    requires DistinctKeys(s) && i < |s| && s[i].0 == k
    ensures Locate(s, k) == Some(i)
  {
    var r := Locate(s, k);
    assert r.Some? && r.value <= i;
  }

  /** A list that keeps at most `cap` pairs still does after `Put`. */
  lemma PutBounded<K, V>(s: seq<(K, V)>, k: K, v: V, cap: nat)
    requires |s| <= cap
    ensures |PutInto(s, k, v, cap)| <= cap
    ensures Locate(s, k).Some? ==> |PutInto(s, k, v, cap)| == |s|
  {
  }

  /** Moving one element to the front or dropping back elements keeps keys distinct. */
  lemma {:induction false} TouchedDistinct<K, V>(s: seq<(K, V)>, i: nat)
    requires DistinctKeys(s) && i < |s|
    ensures DistinctKeys(Touched(s, i))
  {
    var r := Touched(s, i);
    forall p, q | 0 <= p < |r| && 0 <= q < |r| && p != q
      ensures r[p].0 != r[q].0
    {
      var p' := if p == 0 then i else if p <= i then p - 1 else p;
      var q' := if q == 0 then i else if q <= i then q - 1 else q;
      assert r[p] == s[p'] && r[q] == s[q'];
    }
  }

  /** After `Put`, the keys are still distinct, `k` is the most recently used key and
      maps to `v` (unless a zero capacity evicted it at once), and every other key
      keeps its value or has been evicted. */
  lemma {:induction false} PutSemantics<K, V>(s: seq<(K, V)>, k: K, v: V, cap: nat, k': K)
    requires DistinctKeys(s) && k' != k
    ensures DistinctKeys(PutInto(s, k, v, cap))
    ensures cap > 0 ==> PutInto(s, k, v, cap)[0] == (k, v) && Lookup(PutInto(s, k, v, cap), k) == Some(v)
    ensures Lookup(PutInto(s, k, v, cap), k') == Lookup(s, k') || Lookup(PutInto(s, k, v, cap), k') == None
    ensures Locate(s, k).Some? ==> Lookup(PutInto(s, k, v, cap), k') == Lookup(s, k')
  {
    match Locate(s, k) {
      case Some(i) => PutCachedSemantics(s, k, v, cap, k', i);
      case None => PutNewSemantics(s, k, v, cap, k');
    }
  }

  /** `PutSemantics` for a key already in the list, found at `i`. */
  lemma PutCachedSemantics<K, V>(s: seq<(K, V)>, k: K, v: V, cap: nat, k': K, i: nat)
    requires DistinctKeys(s) && k' != k && Locate(s, k) == Some(i)
    ensures DistinctKeys(PutInto(s, k, v, cap))
    ensures cap > 0 ==> PutInto(s, k, v, cap)[0] == (k, v) && Lookup(PutInto(s, k, v, cap), k) == Some(v)
    ensures Lookup(PutInto(s, k, v, cap), k') == Lookup(s, k') || Lookup(PutInto(s, k, v, cap), k') == None
    ensures Locate(s, k).Some? ==> Lookup(PutInto(s, k, v, cap), k') == Lookup(s, k')
  {
    var s' := s[i := (k, v)];
    var r := PutInto(s, k, v, cap);
    assert r == Touched(s', i);
    assert DistinctKeys(s') by {
      forall p, q | 0 <= p < |s'| && 0 <= q < |s'| && p != q
        ensures s'[p].0 != s'[q].0
      {
        assert s'[p].0 == s[p].0 && s'[q].0 == s[q].0;
      }
    }
    TouchedDistinct(s', i);
    LocateAt(r, k, 0);
    match Locate(s, k') {
      case None =>
        assert Locate(r, k').None? by {
          forall j | 0 <= j < |r| ensures r[j].0 != k' {
            var j' := if j == 0 then i else if j <= i then j - 1 else j;
            assert r[j] == s'[j'];
          }
        }
      case Some(m) =>
        var j := if m < i then m + 1 else m;
        assert r[j] == s[m];
        LocateAt(r, k', j);
    }
  }

  /** `PutSemantics` for a key not in the list. */
  lemma PutNewSemantics<K, V>(s: seq<(K, V)>, k: K, v: V, cap: nat, k': K)
    requires DistinctKeys(s) && k' != k && Locate(s, k) == None
    ensures DistinctKeys(PutInto(s, k, v, cap))
    ensures cap > 0 ==> PutInto(s, k, v, cap)[0] == (k, v) && Lookup(PutInto(s, k, v, cap), k) == Some(v)
    ensures Lookup(PutInto(s, k, v, cap), k') == Lookup(s, k') || Lookup(PutInto(s, k, v, cap), k') == None
    ensures Locate(s, k).Some? ==> Lookup(PutInto(s, k, v, cap), k') == Lookup(s, k')
  {
    var r := PutInto(s, k, v, cap);
    var t := [(k, v)] + s;
    assert r == Evicted(t, cap);
    assert DistinctKeys(t) by {
      forall p, q | 0 <= p < |t| && 0 <= q < |t| && p != q
        ensures t[p].0 != t[q].0
      {
        if p > 0 && q > 0 {
          assert t[p] == s[p - 1] && t[q] == s[q - 1];
        } else if p > 0 {
          assert t[p] == s[p - 1];
        } else {
          assert t[q] == s[q - 1];
        }
      }
    }
    assert DistinctKeys(r) by {
      forall p, q | 0 <= p < |r| && 0 <= q < |r| && p != q
        ensures r[p].0 != r[q].0
      {
        assert r[p] == t[p] && r[q] == t[q];
      }
    }
    if cap > 0 {
      assert r[0] == t[0];
      LocateAt(r, k, 0);
    }
    match Locate(r, k') {
      case None =>
      case Some(j) =>
        assert r[j] == t[j] && j > 0 && t[j] == s[j - 1];
        LocateAt(s, k', j - 1);
    }
  }

  /** `Get` yields exactly what `Lookup` finds, and the reordering it does changes no
      key's value. */
  lemma {:induction false} GetSemantics<K, V>(s: seq<(K, V)>, k: K, k': K)
    requires DistinctKeys(s)
    ensures GetFrom(s, k).0 == Lookup(s, k)
    ensures DistinctKeys(GetFrom(s, k).1)
    ensures Lookup(GetFrom(s, k).1, k') == Lookup(s, k')
    ensures GetFrom(s, k).0.Some? ==> GetFrom(s, k).1[0].0 == k
  {
    match Locate(s, k) {
      case None =>
      case Some(i) =>
        var r := Touched(s, i);
        TouchedDistinct(s, i);
        match Locate(s, k') {
          case None =>
            assert Locate(r, k').None? by {
              forall j | 0 <= j < |r| ensures r[j].0 != k' {
                var j' := if j == 0 then i else if j <= i then j - 1 else j;
                assert r[j] == s[j'];
              }
            }
          case Some(m) =>
            var j := if m == i then 0 else if m < i then m + 1 else m;
            assert r[j] == s[m];
            LocateAt(r, k', j);
        }
    }
  }

  /** One node of the recency list: the key is fixed, the value is overwritten by
      `Put`. */
  class Entry<K, V> {
    const key: K
    var value: V

    constructor (key: K, value: V)
      ensures this.key == key && this.value == value
    {
      this.key := key;
      this.value := value;
    }
  }

  /** The list nodes, the index and the ghost positions agree: every node is indexed
      under its own key, every indexed key is in the list, and `pos` inverts the
      list's keys, so no key occurs twice; every indexed node belongs to `rs`. */
  ghost predicate IndexedBy<K, V>(l: seq<Entry<K, V>>, idx: map<K, Entry<K, V>>, pos: map<K, nat>, rs: set<Entry<K, V>>) {
    && (forall i :: 0 <= i < |l| ==> l[i].key in pos && pos[l[i].key] == i)
    && (forall k :: k in pos ==> pos[k] < |l| && l[pos[k]].key == k && k in idx)
    && (forall k :: k in idx ==> k in pos && idx[k] == l[pos[k]] && idx[k] in rs)
  }

  /** The key/value pair of each node. */
  ghost function Pairs<K, V>(l: seq<Entry<K, V>>): (r: seq<(K, V)>)
    reads l
    ensures |r| == |l|
    ensures forall i :: 0 <= i < |l| ==> r[i] == (l[i].key, l[i].value)
  {
    seq(|l|, i reads l requires 0 <= i < |l| => (l[i].key, l[i].value))
  }

  /** Reordering the nodes reorders their pairs the same way. */
  lemma PairsTouched<K, V>(l: seq<Entry<K, V>>, i: nat)
    requires i < |l|
    ensures Pairs(Touched(l, i)) == Touched(Pairs(l), i)
  {
  }

  /** A node put in front contributes its pair in front. */
  lemma PairsPushed<K, V>(e: Entry<K, V>, l: seq<Entry<K, V>>)
    ensures Pairs([e] + l) == [(e.key, e.value)] + Pairs(l)
  {
  }

  /** The positions after the node at `i` moves to the front. */
  ghost function MovedToFront<K>(pos: map<K, nat>, i: nat): map<K, nat> {
    if i == 0 then pos
    else map k | k in pos :: if pos[k] < i then pos[k] + 1 else if pos[k] == i then 0 else pos[k]
  }

  /** The positions after a node for `key` is put in front of all others. */
  ghost function PushedFront<K>(pos: map<K, nat>, key: K): map<K, nat> {
    (map k | k in pos :: pos[k] + 1)[key := 0]
  }

  /** Splicing the node at `i` to the front of an indexed list: unlinking it and
      putting it in front is `Touched`, the result stays indexed, and the node is
      the first one only when `i` is 0, where nothing moves. */
  lemma IndexTouched<K, V>(l: seq<Entry<K, V>>, idx: map<K, Entry<K, V>>, pos: map<K, nat>, rs: set<Entry<K, V>>, i: nat)
    requires IndexedBy(l, idx, pos, rs) && i < |l|
    ensures [l[i]] + Unlinked(l, l[i]) == Touched(l, i)
    ensures IndexedBy(Touched(l, i), idx, MovedToFront(pos, i), rs)
    ensures l[i] == l[0] <==> i == 0
    ensures i == 0 ==> Touched(l, i) == l
  {
    assert Unlinked(l, l[i]) == l[..i] + l[i + 1..] by {
      EntriesDistinct(l, idx, pos, rs, i);
      UnlinkedAt(l, l[i], i);
    }
    assert [l[i]] + (l[..i] + l[i + 1..]) == Touched(l, i);
    if i == 0 {
      assert Touched(l, i) == l;
    } else {
      assert l[i] != l[0] by {
        EntriesDistinct(l, idx, pos, rs, i);
      }
      IndexMoved(l, idx, pos, rs, i);
    }
  }

  /** The positions `MovedToFront` computes are those of the touched list. */
  lemma IndexMoved<K, V>(l: seq<Entry<K, V>>, idx: map<K, Entry<K, V>>, pos: map<K, nat>, rs: set<Entry<K, V>>, i: nat)
    requires IndexedBy(l, idx, pos, rs) && 0 < i < |l|
    ensures IndexedBy(Touched(l, i), idx, MovedToFront(pos, i), rs)
  {
    var t, p := Touched(l, i), MovedToFront(pos, i);
    forall j | 0 <= j < |t|
      ensures t[j].key in p && p[t[j].key] == j
    {
      var j' := if j == 0 then i else if j <= i then j - 1 else j;
      assert t[j] == l[j'] && pos[l[j'].key] == j';
    }
    forall k | k in p
      ensures p[k] < |t| && t[p[k]].key == k
    {
      var j := pos[k];
      var j' := if j == i then 0 else if j < i then j + 1 else j;
      assert p[k] == j' && t[j'] == l[j];
    }
  }

  /** No other position of an indexed list holds the node at `i`. */
  lemma EntriesDistinct<K, V>(l: seq<Entry<K, V>>, idx: map<K, Entry<K, V>>, pos: map<K, nat>, rs: set<Entry<K, V>>, i: nat)
    requires IndexedBy(l, idx, pos, rs) && i < |l|
    ensures forall j :: 0 <= j < |l| && j != i ==> l[j] != l[i]
  {
    forall j | 0 <= j < |l| && j != i
      ensures l[j] != l[i]
    {
      assert pos[l[j].key] == j;
    }
  }

  /** A node with a key not yet indexed can be put in front. */
  lemma IndexPushed<K, V>(l: seq<Entry<K, V>>, idx: map<K, Entry<K, V>>, pos: map<K, nat>, rs: set<Entry<K, V>>, e: Entry<K, V>)
    requires IndexedBy(l, idx, pos, rs) && e.key !in idx
    ensures IndexedBy([e] + l, idx[e.key := e], PushedFront(pos, e.key), rs + {e})
  {
    var l', pos' := [e] + l, PushedFront(pos, e.key);
    forall i | 0 <= i < |l'|
      ensures l'[i].key in pos' && pos'[l'[i].key] == i
    {
      if i > 0 {
        assert l'[i] == l[i - 1];
      }
    }
  }

  /** Removing the back node and its key keeps the list indexed. */
  lemma IndexDropped<K, V>(l: seq<Entry<K, V>>, idx: map<K, Entry<K, V>>, pos: map<K, nat>, rs: set<Entry<K, V>>)
    requires IndexedBy(l, idx, pos, rs) && |l| > 0
    ensures IndexedBy(l[..|l| - 1], idx - {l[|l| - 1].key}, pos - {l[|l| - 1].key}, rs)
  {
    var key := l[|l| - 1].key;
    forall k | k in pos - {key}
      ensures pos[k] < |l| - 1
    {
      assert pos[k] != pos[key];
    }
  }

  class LRUCache<K(==), V> {
    const capacity: nat
    /** Most recently used first. */
    var lru: seq<Entry<K, V>>
    var idx: map<K, Entry<K, V>>
    /** The list position of each key. */
    ghost var Pos: map<K, nat>
    /** Every node the cache has allocated. */
    ghost var Repr: set<Entry<K, V>>

    /** The list and the index agree, and the nodes are the cache's own. */
    ghost predicate Indexed()
      reads this
    {
      IndexedBy(lru, idx, Pos, Repr)
    }

    /** Indexed and within capacity. */
    ghost predicate Valid()
      reads this
    {
      Indexed() && |lru| <= capacity
    }

    /** The key/value pairs, most recently used first. */
    ghost function Contents(): (r: seq<(K, V)>)
      reads this, lru
      ensures |r| == |lru|
      ensures forall i :: 0 <= i < |lru| ==> r[i] == (lru[i].key, lru[i].value)
    {
      Pairs(lru)
    }

    /** An indexed list has distinct keys. */
    lemma Distinct()
      requires Indexed()
      ensures DistinctKeys(Contents())
    {
      var s := Contents();
      forall p, q | 0 <= p < |s| && 0 <= q < |s| && p != q
        ensures s[p].0 != s[q].0
      {
        assert Pos[lru[p].key] == p && Pos[lru[q].key] == q;
      }
    }

    /** `Pos` is where `Locate` finds a key. */
    lemma Positions(k: K)
      requires Indexed()
      ensures Locate(Contents(), k) == if k in Pos then Some(Pos[k]) else None
    {
      var s := Contents();
      if k in Pos {
        var r := Locate(s, k);
        assert r.Some? && r.value <= Pos[k];
        assert Pos[lru[r.value].key] == r.value;
      } else {
        forall j | 0 <= j < |s| ensures s[j].0 != k {
          assert lru[j].key in Pos;
        }
      }
    }

    /** An empty cache holding at most `capacity` entries. */
    constructor (capacity: nat)
      ensures Valid() && this.capacity == capacity && Contents() == [] && Repr == {}
    {
      this.capacity := capacity;
      lru, idx, Pos, Repr := [], map[], map[], {};
    }

    function Capacity(): (r: nat)
      ensures r == capacity
    {
      capacity
    }

    function Size(): (r: nat)
      reads this
      requires Valid()
      ensures r == |Contents()| && r <= Capacity()
    {
      |lru|
    }

    function Empty(): (r: bool)
      reads this
      requires Valid()
      ensures r <==> Contents() == []
    {
      |lru| == 0
    }

    /** The value under `key` without touching the recency order. */
    function Peek(key: K): (r: Option<V>)
      reads this, lru
      requires Valid()
      ensures r == Lookup(Contents(), key)
    {
      Positions(key);
      if key in idx then Some(idx[key].value) else None
    }

    /** Moves node `e`, at position `i`, to the front; the list is spliced only when
        `e` is not already its first node. */
    method Touch(e: Entry<K, V>, ghost i: nat)
      requires Indexed() && i < |lru| && lru[i] == e
      modifies this
      ensures Indexed() && idx == old(idx) && Repr == old(Repr)
      ensures lru == Touched(old(lru), i)
    {
      if e != lru[0] {
        var spliced := [e] + Unlinked(lru, e);
        ghost var moved := MovedToFront(Pos, i);
        assert spliced == Touched(lru, i) && IndexedBy(spliced, idx, moved, Repr) by {
          IndexTouched(lru, idx, Pos, Repr, i);
        }
        lru, Pos := spliced, moved;
      } else {
        assert Touched(lru, i) == lru by {
          IndexTouched(lru, idx, Pos, Repr, i);
        }
      }
    }

    /** Links a node for a key not yet cached in front of all others and indexes it. */
    method PushFront(e: Entry<K, V>)
      requires Indexed() && e.key !in idx
      modifies this
      ensures Indexed() && lru == [e] + old(lru)
      ensures idx == old(idx)[e.key := e] && Repr == old(Repr) + {e}
    {
      IndexPushed(lru, idx, Pos, Repr, e);
      lru := [e] + lru;
      idx := idx[e.key := e];
      Pos := PushedFront(Pos, e.key);
      Repr := Repr + {e};
    }

    /** Drops the back node, and its index entry, while the list is over capacity. */
    method EvictAsNeeded()
      requires Indexed()
      modifies this
      ensures Valid() && Repr == old(Repr)
      ensures lru == Evicted(old(lru), capacity)
      ensures Contents() == Evicted(old(Contents()), capacity)
    {
      while |lru| > capacity
        invariant Indexed() && Repr == old(Repr)
        invariant lru == old(lru)[..|lru|]
        invariant |old(lru)| > capacity ==> |lru| >= capacity
        invariant |old(lru)| <= capacity ==> lru == old(lru)
        decreases |lru|
      {
        var key := lru[|lru| - 1].key;
        IndexDropped(lru, idx, Pos, Repr);
        idx := idx - {key};
        Pos := Pos - {key};
        lru := lru[..|lru| - 1];
      }
    }

    /** Stores `value` under `key` and makes `key` the most recently used. */
    method Put(key: K, value: V)
      requires Valid()
      modifies this, Repr
      ensures Valid() && fresh(Repr - old(Repr))
      ensures Contents() == PutInto(old(Contents()), key, value, capacity)
    {
      if key in idx {
        PutCached(key, value);
      } else {
        PutNew(key, value);
      }
    }

    /** `Put` of a cached key: the node takes the new value and is spliced to the front. */
    method PutCached(key: K, value: V)
      requires Valid() && key in idx
      modifies this, Repr
      ensures Valid() && Repr == old(Repr)
      ensures Contents() == PutInto(old(Contents()), key, value, capacity)
    {
      var e := idx[key];
      ghost var i := Pos[key];
      ghost var c := old(Contents())[i := (key, value)];
      assert PutInto(old(Contents()), key, value, capacity) == Touched(c, i) by {
        Positions(key);
      }
      EntriesDistinct(lru, idx, Pos, Repr, i);
      e.value := value;
      ghost var l := lru;
      assert Pairs(l) == c;
      PairsTouched(l, i);
      Touch(e, i);
      assert Contents() == Pairs(Touched(l, i));
    }

    /** `Put` of a new key: a new node in front, then eviction down to the capacity. */
    method PutNew(key: K, value: V)
      requires Valid() && key !in idx
      modifies this
      ensures Valid() && fresh(Repr - old(Repr))
      ensures Contents() == PutInto(old(Contents()), key, value, capacity)
    {
      Positions(key);
      var e := new Entry(key, value);
      assert Pairs(lru) == old(Contents());
      PairsPushed(e, lru);
      PushFront(e);
      assert Contents() == [(key, value)] + old(Contents());
      EvictAsNeeded();
    }

    /** The value under `key`, which becomes the most recently used; nothing when the
        key is absent. */
    method Get(key: K) returns (r: Option<V>)
      requires Valid()
      modifies this
      ensures Valid() && Repr == old(Repr)
      ensures r == GetFrom(old(Contents()), key).0
      ensures Contents() == GetFrom(old(Contents()), key).1
    {
      Positions(key);
      if key !in idx {
        return None;
      }
      var e := idx[key];
      ghost var l := lru;
      Touch(e, Pos[key]);
      PairsTouched(l, old(Pos)[key]);
      r := Some(e.value);
    }
  }

  /** The start of `main`: a capacity-5 cache is empty, takes "hello" -> 111, and
      both `Peek` and `Get` see it. */
  method FirstPut() returns (c: LRUCache<string, int>, sizes: seq<nat>, empty: bool, cap: nat, seen: seq<Option<int>>)
    ensures fresh(c) && fresh(c.Repr) && c.Valid() && c.capacity == 5
    ensures c.Contents() == [("hello", 111)]
    ensures sizes == [0, 1] && empty && cap == 5 && seen == [Some(111), Some(111)]
  {
    c := new LRUCache<string, int>(5);
    var n0 := c.Size();
    empty := c.Empty();
    cap := c.Capacity();
    c.Put("hello", 111);
    assert fresh(c.Repr) && c.Contents() == [("hello", 111)];
    var n1 := c.Size();
    var p1 := c.Peek("hello");
    var g1 := c.Get("hello");
    sizes := [n0, n1];
    seen := [p1, g1];
  }

  /** The middle of `main`: putting "hello" again overwrites its value without
      growing the cache. */
  method Overwrite() returns (c: LRUCache<string, int>, size: nat, seen: seq<Option<int>>)
    ensures fresh(c) && fresh(c.Repr) && c.Valid() && c.capacity == 5
    ensures c.Contents() == [("hello", 222)]
    ensures size == 1 && seen == [Some(222), Some(222)]
  {
    var sizes, empty, cap, first;
    c, sizes, empty, cap, first := FirstPut();
    assert Locate(c.Contents(), "hello") == Some(0);
    c.Put("hello", 222);
    assert fresh(c.Repr) && c.Contents() == [("hello", 222)];
    size := c.Size();
    var p := c.Peek("hello");
    var g := c.Get("hello");
    seen := [p, g];
  }

  /** The end of `main`: a second key "world" -> 333 goes in front of "hello". */
  method SecondKey() returns (size: nat, seen: seq<Option<int>>)
    ensures size == 2 && seen == [Some(333), Some(333)]
  {
    var c, n, before := Overwrite();
    c.Put("world", 333);
    size := c.Size();
    var p := c.Peek("world");
    var g := c.Get("world");
    seen := [p, g];
  }
}
