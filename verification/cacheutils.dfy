/** The two caches of boltons/cacheutils.py.

    `BasicCache` is a dictionary that fills itself on a miss by calling
    `on_miss`, remembers the order in which keys were inserted and drops
    the oldest key once it holds more than `size` of them.

    `LRU` keeps its entries in a circular doubly linked list of links
    `[PREV, NEXT, KEY, RESULT]` with a sentinel `root`: `root[NEXT]` is the
    least recently used link and `root[PREV]` the most recently used one.
    The links are modelled as an arena: link number `x` has its four fields
    at position `x` of the sequences `prev`, `next`, `key` and `result`.
    The recency order is a ghost sequence of link numbers, least recent
    first. */
module CacheUtils {
  import opened Wrappers

  // =====================================================================
  // the LRU ring

  /** The links at `root` and at the positions in `order` form the circular
      list root, order[0], …, order[|order| - 1], root. */
  predicate Linked(prev: seq<nat>, next: seq<nat>, root: nat, order: seq<nat>) {
    |prev| == |next| && Members(|next|, root, order) && RootLinks(prev, next, root, order)
    && NextLinks(next, order) && PrevLinks(prev, order)
  }

  /** Distinct links of the arena, none of them the root. */
  predicate Members(size: nat, root: nat, order: seq<nat>) {
    root < size
    && (forall i :: 0 <= i < |order| ==> order[i] < size && order[i] != root)
    && (forall i, j :: 0 <= i < j < |order| ==> order[i] != order[j])
  }

  predicate RootLinks(prev: seq<nat>, next: seq<nat>, root: nat, order: seq<nat>)
    requires Members(|next|, root, order) && |prev| == |next|
  {
    (order == [] ==> next[root] == root && prev[root] == root)
    && (order != [] ==>
          next[root] == order[0] && prev[order[0]] == root
          && prev[root] == order[|order| - 1] && next[order[|order| - 1]] == root)
  }

  predicate NextLinks(next: seq<nat>, order: seq<nat>) {
    forall i {:trigger next[order[i]]} :: 0 <= i < |order| - 1 ==> order[i] < |next| && next[order[i]] == order[i + 1]
  }

  predicate PrevLinks(prev: seq<nat>, order: seq<nat>) {
    forall i {:trigger prev[order[i]]} :: 0 < i < |order| ==> order[i] < |prev| && prev[order[i]] == order[i - 1]
  }

  /** The order with its `i`-th element removed. */
  function RemoveAt<T>(order: seq<T>, i: nat): (o: seq<T>)
    requires i < |order|
    ensures |o| == |order| - 1
    ensures forall j :: 0 <= j < |o| ==> o[j] == if j < i then order[j] else order[j + 1]
  {
    order[..i] + order[i + 1..]
  }

  lemma MembersRemoveAt(size: nat, root: nat, order: seq<nat>, i: nat)
    requires Members(size, root, order) && i < |order|
    ensures Members(size, root, RemoveAt(order, i))
  {
    var o := RemoveAt(order, i);
    forall j, k | 0 <= j < k < |o|
      ensures o[j] != o[k]
    {
    }
  }

  lemma MembersAppend(size: nat, root: nat, order: seq<nat>, x: nat)
    requires Members(size, root, order) && x < size && x != root && x !in order
    ensures Members(size, root, order + [x])
  {
    var o := order + [x];
    assert forall i :: 0 <= i < |order| ==> o[i] == order[i];
  }

  /** `last = root[PREV]; last[NEXT] = root[PREV] = link`, then
      `link[PREV] = last; link[NEXT] = root`: `x` goes just before the root. */
  lemma SpliceAppends(prev: seq<nat>, next: seq<nat>, root: nat, order: seq<nat>, x: nat)
    requires Linked(prev, next, root, order) && x < |next| && x != root && x !in order
    ensures Linked(prev[root := x][x := prev[root]], next[prev[root] := x][x := root], root, order + [x])
  {
    var last := prev[root];
    var p, q := prev[root := x][x := last], next[last := x][x := root];
    var o := order + [x];
    var n := |order|;
    MembersAppend(|next|, root, order, x);
    assert forall i :: 0 <= i < n ==> o[i] == order[i];
    forall i | 0 <= i < |o| - 1
      ensures o[i] < |q| && q[o[i]] == o[i + 1]
    {
      if i < n - 1 {
        assert o[i] != last && o[i] != x;
      }
    }
    forall i | 0 < i < |o|
      ensures o[i] < |p| && p[o[i]] == o[i - 1]
    {
      if i < n {
        assert o[i] != root && o[i] != x;
      }
    }
  }

  /** `link_prev[NEXT] = link_next; link_next[PREV] = link_prev`: unlinking
      the `i`-th link leaves the others in the same order. */
  lemma UnlinkRemoves(prev: seq<nat>, next: seq<nat>, root: nat, order: seq<nat>, i: nat)
    requires Linked(prev, next, root, order) && i < |order|
    ensures prev[order[i]] < |next| && next[order[i]] < |next|
    ensures Linked(prev[next[order[i]] := prev[order[i]]], next[prev[order[i]] := next[order[i]]], root, RemoveAt(order, i))
  {
    var n := |order|;
    var lp := if i == 0 then root else order[i - 1];
    var ln := if i == n - 1 then root else order[i + 1];
    assert prev[order[i]] == lp && next[order[i]] == ln;
    MembersRemoveAt(|next|, root, order, i);
    UnlinkNext(prev, next, root, order, i);
    UnlinkPrev(prev, next, root, order, i);
    UnlinkRoot(prev, next, root, order, i);
  }

  lemma UnlinkNext(prev: seq<nat>, next: seq<nat>, root: nat, order: seq<nat>, i: nat)
    requires Linked(prev, next, root, order) && i < |order|
    ensures prev[order[i]] < |next|
    ensures NextLinks(next[prev[order[i]] := next[order[i]]], RemoveAt(order, i))
  {
    var n := |order|;
    var lp := if i == 0 then root else order[i - 1];
    var ln := if i == n - 1 then root else order[i + 1];
    var q := next[lp := ln];
    var o := RemoveAt(order, i);
    forall j | 0 <= j < |o| - 1
      ensures o[j] < |q| && q[o[j]] == o[j + 1]
    {
      if j < i - 1 {
        assert o[j] == order[j] && o[j] != lp;
      } else if j == i - 1 {
        assert o[j] == lp && o[j + 1] == ln;
      } else {
        assert o[j] == order[j + 1] && o[j] != lp;
      }
    }
  }

  lemma UnlinkPrev(prev: seq<nat>, next: seq<nat>, root: nat, order: seq<nat>, i: nat)
    requires Linked(prev, next, root, order) && i < |order|
    ensures next[order[i]] < |next|
    ensures PrevLinks(prev[next[order[i]] := prev[order[i]]], RemoveAt(order, i))
  {
    var n := |order|;
    var lp := if i == 0 then root else order[i - 1];
    var ln := if i == n - 1 then root else order[i + 1];
    var p := prev[ln := lp];
    var o := RemoveAt(order, i);
    forall j | 0 < j < |o|
      ensures o[j] < |p| && p[o[j]] == o[j - 1]
    {
      if j < i {
        assert o[j] == order[j] && o[j] != ln;
      } else if j == i {
        assert o[j] == ln && o[j - 1] == lp;
      } else {
        assert o[j] == order[j + 1] && o[j] != ln;
      }
    }
  }

  lemma UnlinkRoot(prev: seq<nat>, next: seq<nat>, root: nat, order: seq<nat>, i: nat)
    requires Linked(prev, next, root, order) && i < |order|
    requires Members(|next|, root, RemoveAt(order, i))
    ensures prev[order[i]] < |next| && next[order[i]] < |next|
    ensures RootLinks(prev[next[order[i]] := prev[order[i]]], next[prev[order[i]] := next[order[i]]], root, RemoveAt(order, i))
  {
    var n := |order|;
    var lp := if i == 0 then root else order[i - 1];
    var ln := if i == n - 1 then root else order[i + 1];
    var o := RemoveAt(order, i);
    if n > 1 {
      var m := |o| - 1;
      assert o[0] == (if i == 0 then ln else order[0]);
      assert o[m] == (if i == n - 1 then lp else order[n - 1]);
    }
  }

  /** The same ring read from its first link: re-rooting at `root[NEXT]`
      makes the old root the most recent link. */
  lemma RotateRoot(prev: seq<nat>, next: seq<nat>, root: nat, order: seq<nat>)
    requires Linked(prev, next, root, order) && order != []
    ensures Linked(prev, next, order[0], order[1..] + [root])
  {
    var o := order[1..] + [root];
    assert forall i :: 0 <= i < |o| - 1 ==> o[i] == order[i + 1];
  }

  // =====================================================================
  // the LRU state

  /** A snapshot of an `LRU`: the link arena, the sentinel `root`, the
      dictionary from keys to link numbers, `max_size` and the counters
      `hit_count`, `miss_count` and `soft_miss_count`. */
  datatype Cache<K(==), V> = Cache(
    prev: seq<nat>, next: seq<nat>, key: seq<Option<K>>, result: seq<Option<V>>,
    root: nat, dict: map<K, nat>, maxSize: int,
    hits: nat, misses: nat, softMisses: nat)

  /** Every link field and every dictionary value names a link of the arena:
      in the source these are object references, so this always holds. */
  predicate WellFormed<K, V>(c: Cache<K, V>) {
    |c.prev| == |c.next| && |c.key| == |c.next| && |c.result| == |c.next| && c.root < |c.next|
    && (forall x :: 0 <= x < |c.next| ==> c.prev[x] < |c.next| && c.next[x] < |c.next|)
    && (forall k :: k in c.dict ==> c.dict[k] < |c.next|)
  }

  /** `LRU(max_size)`: the root links to itself and the dictionary is empty. */
  function Empty<K, V>(maxSize: int): (c: Cache<K, V>)
    ensures Valid(c, [])
  {
    Cache([0], [0], [None], [None], 0, map[], maxSize, 0, 0, 0)
  }

  /** Link `x` is live: it holds a key and a result, and the dictionary maps
      that key back to `x`. */
  predicate Live<K, V>(c: Cache<K, V>, x: nat)
    requires WellFormed(c) && x < |c.next|
  {
    c.key[x].Some? && c.result[x].Some? && c.key[x].value in c.dict && c.dict[c.key[x].value] == x
  }

  /** The strong invariant: the ring holds exactly the links of the
      dictionary, least recently used first, and no more than `max_size`. */
  predicate Valid<K, V>(c: Cache<K, V>, order: seq<nat>) {
    WellFormed(c) && Linked(c.prev, c.next, c.root, order) && Agrees(c, order)
    && |c.dict| == |order|
    && (order == [] || |order| <= c.maxSize)
  }

  /** The links in `order` are live and every key of the dictionary names
      one of them. */
  predicate Agrees<K, V>(c: Cache<K, V>, order: seq<nat>)
    requires WellFormed(c)
  {
    (forall i :: 0 <= i < |order| ==> order[i] < |c.next| && Live(c, order[i]))
    && (forall k :: k in c.dict ==> c.dict[k] in order && c.key[c.dict[k]] == Some(k))
  }

  /** The entries in recency order, least recent first. */
  function Items<K, V>(c: Cache<K, V>, order: seq<nat>): (items: seq<(K, V)>)
    requires WellFormed(c) && Agrees(c, order)
    ensures |items| == |order|
  {
    seq(|order|, i requires 0 <= i < |order| => (c.key[order[i]].value, c.result[order[i]].value))
  }

  /** `_get_value_map`: each key with the result stored in its link. */
  function ValueMap<K, V>(c: Cache<K, V>): (m: map<K, Option<V>>)
    requires WellFormed(c)
    ensures m.Keys == c.dict.Keys
  {
    map k | k in c.dict :: c.result[c.dict[k]]
  }

  /** `last = root[PREV]; last[NEXT] = root[PREV] = link`, then
      `link[PREV] = last; link[NEXT] = root`. */
  function SpliceLast<K, V>(c: Cache<K, V>, x: nat): (d: Cache<K, V>)
    requires WellFormed(c) && x < |c.next|
    ensures WellFormed(d)
  {
    var last := c.prev[c.root];
    c.(prev := c.prev[c.root := x][x := last], next := c.next[last := x][x := c.root])
  }

  /** `link_prev[NEXT] = link_next; link_next[PREV] = link_prev`. */
  function Unlink<K, V>(c: Cache<K, V>, x: nat): (d: Cache<K, V>)
    requires WellFormed(c) && x < |c.next|
    ensures WellFormed(d)
  {
    var lp, ln := c.prev[x], c.next[x];
    c.(next := c.next[lp := ln], prev := c.prev[ln := lp])
  }

  /** `__setitem__`. Below `max_size` a new link is spliced in before the
      root. Otherwise the old root takes the new entry, the least recent link
      is emptied and becomes the root, and its key leaves the dictionary;
      when that key is missing the `del` raises KeyError after the links
      have changed. `reroot` says whether the new root is remembered: the
      source never writes it back (see `SetItemAsWritten`). */
  function SetItemWith<K, V>(c: Cache<K, V>, k: K, v: V, reroot: bool): (r: Outcome<Cache<K, V>, ()>)
    requires WellFormed(c)
    ensures WellFormed(r.state)
    ensures r.state.maxSize == c.maxSize && r.state.hits == c.hits
    ensures r.state.misses == c.misses && r.state.softMisses == c.softMisses
    ensures r.out.Ok? ==> k in r.state.dict
    ensures |c.dict| < c.maxSize ==>
      r.out.Ok? && r.state.dict == c.dict[k := |c.next|] && |r.state.next| == |c.next| + 1
      && r.state.key[|c.next|] == Some(k) && r.state.result[|c.next|] == Some(v) && r.state.root == c.root
    ensures |c.dict| >= c.maxSize ==>
      |r.state.next| == |c.next| && r.state.root == (if reroot then c.next[c.root] else c.root)
      && r.state.key[c.root] == (if c.next[c.root] == c.root then None else Some(k))
    ensures |c.dict| >= c.maxSize ==>
      var oldkey := c.key[c.root := Some(k)][c.next[c.root]];
      (r.out.Err? <==> oldkey.None? || oldkey.value !in c.dict)
      && (r.out.Err? ==> r.out == Err(KeyError) && r.state.dict == c.dict)
      && (r.out.Ok? ==> r.state.dict == (c.dict - {oldkey.value})[k := c.root])
  {
    if |c.dict| < c.maxSize then
      var n, last := |c.next|, c.prev[c.root];
      Outcome(c.(prev := (c.prev + [last])[c.root := n], next := (c.next + [c.root])[last := n],
                 key := c.key + [Some(k)], result := c.result + [Some(v)], dict := c.dict[k := n]), Ok(()))
    else
      var oldroot := c.root;
      var key1 := c.key[oldroot := Some(k)];
      var nr := c.next[oldroot];
      var oldkey := key1[nr];
      var d := c.(key := key1[nr := None], result := c.result[oldroot := Some(v)][nr := None],
                  root := if reroot then nr else oldroot);
      if oldkey.None? || oldkey.value !in c.dict then Outcome(d, Err(KeyError))
      else Outcome(d.(dict := (c.dict - {oldkey.value})[k := oldroot]), Ok(()))
  }

  /** `__setitem__` with the new root remembered. */
  function SetItem<K, V>(c: Cache<K, V>, k: K, v: V): (r: Outcome<Cache<K, V>, ()>)
    requires WellFormed(c)
    ensures WellFormed(r.state)
    ensures r.out.Ok? ==> k in r.state.dict
    ensures |c.dict| < c.maxSize ==> r.out.Ok? && r.state.dict == c.dict[k := |c.next|] && r.state.result[|c.next|] == Some(v)
    ensures |c.dict| >= c.maxSize ==> |r.state.next| == |c.next| && r.state.root == c.next[c.root] && r.state.key[c.root] == (if c.next[c.root] == c.root then None else Some(k))
  {
    SetItemWith(c, k, v, true)
  }

  /** `__setitem__` as the source has it: `self.root` keeps the old root. */
  function SetItemAsWritten<K, V>(c: Cache<K, V>, k: K, v: V): (r: Outcome<Cache<K, V>, ()>)
    requires WellFormed(c)
    ensures WellFormed(r.state)
    ensures r.out.Ok? ==> k in r.state.dict
    ensures |c.dict| < c.maxSize ==> r.out.Ok? && r.state.dict == c.dict[k := |c.next|] && r.state.result[|c.next|] == Some(v)
    ensures |c.dict| >= c.maxSize ==> |r.state.next| == |c.next| && r.state.root == c.root && r.state.key[c.root] == (if c.next[c.root] == c.root then None else Some(k))
  {
    SetItemWith(c, k, v, false)
  }

  /** `__getitem__`: a miss counts and raises KeyError; a hit moves the link
      to the most recent end, counts and returns the stored result. */
  function GetItem<K, V>(c: Cache<K, V>, k: K): (r: Outcome<Cache<K, V>, Option<V>>)
    requires WellFormed(c)
    ensures WellFormed(r.state)
    ensures r.out.Ok? <==> k in c.dict
    ensures r.out.Err? ==> r.out.error == KeyError && r.state == c.(misses := c.misses + 1)
    ensures r.out.Ok? ==> r.out.value == c.result[c.dict[k]] && r.state.dict == c.dict && r.state.key == c.key
    ensures r.out.Ok? ==> r.state.result == c.result && r.state.hits == c.hits + 1 && r.state.misses == c.misses
  {
    if k !in c.dict then Outcome(c.(misses := c.misses + 1), Err(KeyError))
    else
      var x := c.dict[k];
      var d := SpliceLast(Unlink(c, x), x);
      Outcome(d.(hits := c.hits + 1), Ok(c.result[x]))
  }

  /** `get(key, default)`: `self[key]`, and on KeyError one more soft miss
      and the default. */
  function Get<K, V>(c: Cache<K, V>, k: K, default: Option<V>): (r: Outcome<Cache<K, V>, Option<V>>)
    requires WellFormed(c)
    ensures WellFormed(r.state) && r.out.Ok?
    ensures k in c.dict ==> r.out == Ok(c.result[c.dict[k]]) && r.state.softMisses == c.softMisses
    ensures k !in c.dict ==> r.out == Ok(default) && r.state.softMisses == c.softMisses + 1 && r.state.misses == c.misses + 1
  {
    var g := GetItem(c, k);
    if g.out.Err? then Outcome(g.state.(softMisses := g.state.softMisses + 1), Ok(default))
    else g
  }

  /** The inherited `dict.__delitem__`: the key leaves the dictionary but its
      link stays in the ring. */
  function DelItem<K, V>(c: Cache<K, V>, k: K): (r: Outcome<Cache<K, V>, ()>)
    requires WellFormed(c)
    ensures WellFormed(r.state)
    ensures r.out.Ok? <==> k in c.dict
    ensures r.out.Err? ==> r.out.error == KeyError
    ensures r.state == c.(dict := c.dict - {k})
  {
    if k !in c.dict then Outcome(c, Err(KeyError)) else Outcome(c.(dict := c.dict - {k}), Ok(()))
  }

  // =====================================================================
  // setting a fresh key

  lemma LinkedGrow(prev: seq<nat>, next: seq<nat>, root: nat, order: seq<nat>, a: nat, b: nat)
    requires Linked(prev, next, root, order)
    ensures Linked(prev + [a], next + [b], root, order)
  {
  }

  /** The arena with one more link, holding `k` and `v`, whose own fields
      point at the current last link and the root. */
  function Grow<K, V>(c: Cache<K, V>, k: K, v: V): (g: Cache<K, V>)
    requires WellFormed(c)
    ensures WellFormed(g) && |g.next| == |c.next| + 1
  {
    c.(prev := c.prev + [c.prev[c.root]], next := c.next + [c.root],
       key := c.key + [Some(k)], result := c.result + [Some(v)])
  }

  lemma SetItemBelowIs<K, V>(c: Cache<K, V>, k: K, v: V)
    requires WellFormed(c) && |c.dict| < c.maxSize
    ensures SetItem(c, k, v) == Outcome(SpliceLast(Grow(c, k, v), |c.next|).(dict := c.dict[k := |c.next|]), Ok(()))
  {
    var n, last := |c.next|, c.prev[c.root];
    var p := (c.prev + [last])[c.root := n];
    var q := (c.next + [c.root])[last := n];
    assert p[n := last] == p;
    assert q[n := c.root] == q;
  }

  /** Adding link `n` with a fresh key at the end of the order keeps the
      dictionary and the ring in agreement. */
  lemma AddedAgrees<K, V>(c: Cache<K, V>, order: seq<nat>, d: Cache<K, V>, k: K, v: V)
    requires WellFormed(c) && Agrees(c, order) && k !in c.dict
    requires WellFormed(d) && |d.next| == |c.next| + 1
    requires d.key == c.key + [Some(k)] && d.result == c.result + [Some(v)]
    requires d.dict == c.dict[k := |c.next|]
    ensures Agrees(d, order + [|c.next|])
    ensures Items(d, order + [|c.next|]) == Items(c, order) + [(k, v)]
  {
    var n := |c.next|;
    var o := order + [n];
    forall i | 0 <= i < |o|
      ensures o[i] < |d.next| && Live(d, o[i])
    {
      if i < |order| {
        assert o[i] == order[i] && Live(c, order[i]);
      }
    }
    forall j | j in d.dict
      ensures d.dict[j] in o && d.key[d.dict[j]] == Some(j)
    {
      if j != k {
        assert c.dict[j] in order;
      }
    }
    assert Agrees(d, o);
    assert Items(d, o) == Items(c, order) + [(k, v)];
  }

  /** Below `max_size`, a fresh key gets a new link at the most recent end:
      the entries gain `(k, v)` at the end and nothing else changes. */
  lemma SetFreshBelow<K, V>(c: Cache<K, V>, order: seq<nat>, k: K, v: V)
    requires Valid(c, order) && k !in c.dict && |c.dict| < c.maxSize
    ensures SetItem(c, k, v).out == Ok(())
    ensures Valid(SetItem(c, k, v).state, order + [|c.next|])
    ensures Items(SetItem(c, k, v).state, order + [|c.next|]) == Items(c, order) + [(k, v)]
    ensures |SetItem(c, k, v).state.dict| == |c.dict| + 1
  {
    var n := |c.next|;
    var g := Grow(c, k, v);
    LinkedGrow(c.prev, c.next, c.root, order, c.prev[c.root], c.root);
    SpliceAppends(g.prev, g.next, c.root, order, n);
    SetItemBelowIs(c, k, v);
    AddedAgrees(c, order, SetItem(c, k, v).state, k, v);
  }

  /** Re-using the old root for a fresh key and dropping the least recent
      link's key keeps the dictionary and the ring in agreement. */
  lemma ReusedAgrees<K, V>(c: Cache<K, V>, order: seq<nat>, d: Cache<K, V>, k: K, v: V)
    requires WellFormed(c) && Members(|c.next|, c.root, order) && Agrees(c, order)
    requires order != [] && k !in c.dict
    requires WellFormed(d) && |d.next| == |c.next|
    requires d.key == c.key[c.root := Some(k)][order[0] := None]
    requires d.result == c.result[c.root := Some(v)][order[0] := None]
    requires d.dict == (c.dict - {c.key[order[0]].value})[k := c.root]
    ensures Agrees(d, order[1..] + [c.root])
    ensures Items(d, order[1..] + [c.root]) == Items(c, order)[1..] + [(k, v)]
  {
    ReusedLive(c, order, d, k, v);
    ReusedKeys(c, order, d, k);
    var o := order[1..] + [c.root];
    assert Agrees(d, o);
    ReusedItems(c, order, d, k, v);
  }

  lemma ReusedItems<K, V>(c: Cache<K, V>, order: seq<nat>, d: Cache<K, V>, k: K, v: V)
    requires WellFormed(c) && Members(|c.next|, c.root, order) && Agrees(c, order)
    requires order != [] && WellFormed(d) && |d.next| == |c.next|
    requires d.key == c.key[c.root := Some(k)][order[0] := None]
    requires d.result == c.result[c.root := Some(v)][order[0] := None]
    requires Agrees(d, order[1..] + [c.root])
    ensures Items(d, order[1..] + [c.root]) == Items(c, order)[1..] + [(k, v)]
  {
    var o := order[1..] + [c.root];
    var n := |o| - 1;
    forall i | 0 <= i < n
      ensures d.key[o[i]] == c.key[order[i + 1]] && d.result[o[i]] == c.result[order[i + 1]]
    {
      var y := order[i + 1];
      assert o[i] == y && y != order[0] && y != c.root;
    }
    assert o[n] == c.root && c.root != order[0];
    ShiftedItems(c, order, d, o, k, v);
  }

  /** Items of `o` in `d` are the items of `order` in `c` shifted by one, with
      `(k, v)` last, when the links agree pointwise. */
  lemma ShiftedItems<K, V>(c: Cache<K, V>, order: seq<nat>, d: Cache<K, V>, o: seq<nat>, k: K, v: V)
    requires WellFormed(c) && Agrees(c, order) && WellFormed(d) && Agrees(d, o)
    requires order != [] && |o| == |order|
    requires forall i :: 0 <= i < |o| - 1 ==>
      d.key[o[i]] == c.key[order[i + 1]] && d.result[o[i]] == c.result[order[i + 1]]
    requires d.key[o[|o| - 1]] == Some(k) && d.result[o[|o| - 1]] == Some(v)
    ensures Items(d, o) == Items(c, order)[1..] + [(k, v)]
  {
    var a, b := Items(d, o), Items(c, order)[1..] + [(k, v)];
    forall i | 0 <= i < |o|
      ensures a[i] == b[i]
    {
      if i < |o| - 1 {
        assert b[i] == Items(c, order)[i + 1];
      }
    }
  }

  lemma ReusedLive<K, V>(c: Cache<K, V>, order: seq<nat>, d: Cache<K, V>, k: K, v: V)
    requires WellFormed(c) && Members(|c.next|, c.root, order) && Agrees(c, order)
    requires order != [] && k !in c.dict
    requires WellFormed(d) && |d.next| == |c.next|
    requires d.key == c.key[c.root := Some(k)][order[0] := None]
    requires d.result == c.result[c.root := Some(v)][order[0] := None]
    requires d.dict == (c.dict - {c.key[order[0]].value})[k := c.root]
    ensures forall i :: 0 <= i < |order| ==> (order[1..] + [c.root])[i] < |d.next| && Live(d, (order[1..] + [c.root])[i])
  {
    var o := order[1..] + [c.root];
    assert Live(c, order[0]);
    var k0 := c.key[order[0]].value;
    forall i | 0 <= i < |o|
      ensures o[i] < |d.next| && Live(d, o[i])
    {
      if i < |o| - 1 {
        var y := order[i + 1];
        assert o[i] == y && Live(c, y) && y != order[0] && y != c.root;
        assert c.key[y].value != k0;
        assert d.key[y] == c.key[y] && d.result[y] == c.result[y];
      }
    }
  }

  lemma ReusedKeys<K, V>(c: Cache<K, V>, order: seq<nat>, d: Cache<K, V>, k: K)
    requires WellFormed(c) && Members(|c.next|, c.root, order) && Agrees(c, order)
    requires order != [] && k !in c.dict
    requires WellFormed(d) && |d.next| == |c.next|
    requires d.key == c.key[c.root := Some(k)][order[0] := None]
    requires d.dict == (c.dict - {c.key[order[0]].value})[k := c.root]
    ensures forall j :: j in d.dict ==> d.dict[j] in order[1..] + [c.root] && d.key[d.dict[j]] == Some(j)
  {
    var o := order[1..] + [c.root];
    forall j | j in d.dict
      ensures d.dict[j] in o && d.key[d.dict[j]] == Some(j)
    {
      if j != k {
        var y := c.dict[j];
        assert y in order && c.key[y] == Some(j);
        var m :| 0 <= m < |order| && order[m] == y;
        assert m != 0;
        assert o[m - 1] == y;
      }
    }
  }

  lemma SetItemFullIs<K, V>(c: Cache<K, V>, k: K, v: V, k0: K)
    requires WellFormed(c) && |c.dict| >= c.maxSize
    requires c.next[c.root] != c.root && c.key[c.next[c.root]] == Some(k0) && k0 in c.dict
    ensures SetItem(c, k, v) ==
      Outcome(c.(key := c.key[c.root := Some(k)][c.next[c.root] := None],
                 result := c.result[c.root := Some(v)][c.next[c.root] := None],
                 root := c.next[c.root], dict := (c.dict - {k0})[k := c.root]), Ok(()))
  {
  }

  /** At `max_size`, a fresh key takes over the old root, the least recent
      link becomes the root and its key is dropped: the entries lose their
      first element and gain `(k, v)` at the end, and the length stays. */
  lemma SetFreshFull<K, V>(c: Cache<K, V>, order: seq<nat>, k: K, v: V)
    requires Valid(c, order) && k !in c.dict && |c.dict| >= c.maxSize && c.maxSize > 0
    ensures SetItem(c, k, v).out == Ok(())
    ensures Valid(SetItem(c, k, v).state, order[1..] + [c.root])
    ensures Items(SetItem(c, k, v).state, order[1..] + [c.root]) == Items(c, order)[1..] + [(k, v)]
    ensures |SetItem(c, k, v).state.dict| == |c.dict|
  {
    assert order != [];
    var nr := order[0];
    assert c.next[c.root] == nr && nr != c.root;
    assert Live(c, nr);
    var k0 := c.key[nr].value;
    SetItemFullIs(c, k, v, k0);
    var d := SetItem(c, k, v).state;
    var o := order[1..] + [c.root];
    RotateRoot(c.prev, c.next, c.root, order);
    assert Linked(d.prev, d.next, d.root, o);
    ReusedAgrees(c, order, d, k, v);
    SwapKeySize(c.dict, k0, k, c.root);
    assert |d.dict| == |o|;
  }

  lemma SwapKeySize<K, T>(m: map<K, T>, gone: K, added: K, x: T)
    requires gone in m && added !in m
    ensures |(m - {gone})[added := x]| == |m|
  {
  }

  // =====================================================================
  // reading a key

  /** The position of `x` in `s`. */
  function IndexOf(s: seq<nat>, x: nat): (i: nat)
    requires x in s
    ensures i < |s| && s[i] == x
  {
    if s[0] == x then 0 else 1 + IndexOf(s[1..], x)
  }

  /** `s` with its `i`-th element taken out and put at the end. */
  function MoveToEnd<T>(s: seq<T>, i: nat): (r: seq<T>)
    requires i < |s|
    ensures |r| == |s| && r[|s| - 1] == s[i]
    ensures forall j :: 0 <= j < |s| - 1 ==> r[j] == if j < i then s[j] else s[j + 1]
  {
    RemoveAt(s, i) + [s[i]]
  }

  lemma MoveToEndMembers(s: seq<nat>, i: nat)
    requires i < |s|
    ensures forall y :: y in MoveToEnd(s, i) <==> y in s
  {
    var r := MoveToEnd(s, i);
    forall y | y in s
      ensures y in r
    {
      var m :| 0 <= m < |s| && s[m] == y;
      if m < i {
        assert r[m] == y;
      } else if m > i {
        assert r[m - 1] == y;
      }
    }
  }

  /** Moving a link within the order keeps the dictionary and the ring in
      agreement. */
  lemma MovedAgrees<K, V>(c: Cache<K, V>, order: seq<nat>, d: Cache<K, V>, i: nat)
    requires WellFormed(c) && Agrees(c, order) && i < |order|
    requires WellFormed(d) && |d.next| == |c.next| && d.key == c.key && d.result == c.result && d.dict == c.dict
    ensures Agrees(d, MoveToEnd(order, i))
  {
    var o := MoveToEnd(order, i);
    MoveToEndMembers(order, i);
    forall j | 0 <= j < |o|
      ensures o[j] < |d.next| && Live(d, o[j])
    {
      var y := if j < |o| - 1 && j < i then order[j] else if j < |o| - 1 then order[j + 1] else order[i];
      assert o[j] == y && Live(c, y);
    }
  }

  /** ... and moves its entry the same way. */
  lemma MovedItems<K, V>(c: Cache<K, V>, order: seq<nat>, d: Cache<K, V>, i: nat)
    requires WellFormed(c) && Agrees(c, order) && i < |order|
    requires WellFormed(d) && Agrees(d, MoveToEnd(order, i)) && d.key == c.key && d.result == c.result
    ensures Items(d, MoveToEnd(order, i)) == MoveToEnd(Items(c, order), i)
  {
    var o, items := MoveToEnd(order, i), Items(c, order);
    var a, b := Items(d, o), MoveToEnd(items, i);
    forall j | 0 <= j < |o|
      ensures a[j] == b[j]
    {
      var m := if j == |o| - 1 then i else if j < i then j else j + 1;
      assert o[j] == order[m] && b[j] == items[m];
    }
  }

  lemma GetItemHitIs<K, V>(c: Cache<K, V>, k: K)
    requires WellFormed(c) && k in c.dict
    ensures GetItem(c, k) == Outcome(SpliceLast(Unlink(c, c.dict[k]), c.dict[k]).(hits := c.hits + 1), Ok(c.result[c.dict[k]]))
  {
  }

  /** Unlinking a link and splicing it back in before the root moves it to
      the end of the order. */
  lemma RelinkMoves<K, V>(c: Cache<K, V>, order: seq<nat>, i: nat)
    requires WellFormed(c) && Linked(c.prev, c.next, c.root, order) && i < |order|
    ensures Linked(SpliceLast(Unlink(c, order[i]), order[i]).prev, SpliceLast(Unlink(c, order[i]), order[i]).next,
                   c.root, MoveToEnd(order, i))
  {
    var x := order[i];
    var u := Unlink(c, x);
    UnlinkRemoves(c.prev, c.next, c.root, order, i);
    assert u.prev == c.prev[c.next[x] := c.prev[x]] && u.next == c.next[c.prev[x] := c.next[x]];
    var rest := RemoveAt(order, i);
    RemovedAbsent(|c.next|, c.root, order, i);
    SpliceAppends(u.prev, u.next, c.root, rest, x);
    var d := SpliceLast(u, x);
    assert d.prev == u.prev[c.root := x][x := u.prev[c.root]];
    assert d.next == u.next[u.prev[c.root] := x][x := c.root];
    assert MoveToEnd(order, i) == rest + [x];
  }

  /** A link taken out of the order no longer occurs in it. */
  lemma RemovedAbsent(size: nat, root: nat, order: seq<nat>, i: nat)
    requires Members(size, root, order) && i < |order|
    ensures order[i] !in RemoveAt(order, i)
  {
    var rest := RemoveAt(order, i);
    forall j | 0 <= j < |rest|
      ensures rest[j] != order[i]
    {
    }
  }

  /** A hit returns the stored value, moves the entry to the most recent
      end keeping the others in order, and adds one to `hit_count`. */
  lemma GetHit<K, V>(c: Cache<K, V>, order: seq<nat>, k: K)
    requires Valid(c, order) && k in c.dict
    ensures GetItem(c, k).out == Ok(Some(Items(c, order)[IndexOf(order, c.dict[k])].1))
    ensures Items(c, order)[IndexOf(order, c.dict[k])].0 == k
    ensures Valid(GetItem(c, k).state, MoveToEnd(order, IndexOf(order, c.dict[k])))
    ensures Items(GetItem(c, k).state, MoveToEnd(order, IndexOf(order, c.dict[k])))
         == MoveToEnd(Items(c, order), IndexOf(order, c.dict[k]))
    ensures GetItem(c, k).state.hits == c.hits + 1 && GetItem(c, k).state.misses == c.misses
  {
    var x := c.dict[k];
    var i := IndexOf(order, x);
    assert Live(c, x);
    GetItemHitIs(c, k);
    var d := GetItem(c, k).state;
    RelinkMoves(c, order, i);
    MovedAgrees(c, order, d, i);
    MovedItems(c, order, d, i);
  }

  /** A miss raises KeyError and adds one to `miss_count`; the entries and
      their order stay as they were. */
  lemma GetMiss<K, V>(c: Cache<K, V>, order: seq<nat>, k: K)
    requires Valid(c, order) && k !in c.dict
    ensures GetItem(c, k).out == Err(KeyError)
    ensures Valid(GetItem(c, k).state, order) && Items(GetItem(c, k).state, order) == Items(c, order)
    ensures GetItem(c, k).state.misses == c.misses + 1 && GetItem(c, k).state.hits == c.hits
  {
    var d := GetItem(c, k).state;
    assert d.key == c.key && d.result == c.result;
  }

  /** `get` returns the stored value on a hit; on a miss it returns the
      default and counts both a miss and a soft miss. */
  lemma GetDefault<K, V>(c: Cache<K, V>, k: K, default: Option<V>)
    requires WellFormed(c)
    ensures k in c.dict ==> Get(c, k, default).out == Ok(c.result[c.dict[k]])
    ensures k !in c.dict ==> Get(c, k, default).out == Ok(default)
    ensures k !in c.dict ==> Get(c, k, default).state.softMisses == c.softMisses + 1
    ensures k !in c.dict ==> Get(c, k, default).state.misses == c.misses + 1
    ensures k in c.dict ==> Get(c, k, default).state.softMisses == c.softMisses
  {
  }

  /** `__eq__`: the same object, or equal lengths and equal value maps. */
  function Eq<K, V(==)>(a: Cache<K, V>, b: Cache<K, V>): (r: bool)
    requires WellFormed(a) && WellFormed(b)
    ensures r <==> ValueMap(a) == ValueMap(b)
  {
    |b.dict| == |a.dict| && ValueMap(b) == ValueMap(a)
  }

  /** Equality ignores `max_size`, the counters and the recency order: a
      read leaves a cache equal to what it was. */
  lemma EqIgnoresRecency<K, V>(c: Cache<K, V>, k: K, maxSize: int)
    requires WellFormed(c)
    ensures Eq(c, GetItem(c, k).state) && Eq(c, Get(c, k, None).state)
    ensures Eq(c, c.(maxSize := maxSize, hits := 0, misses := 0, softMisses := 0))
  {
    var d := GetItem(c, k).state;
    assert d.dict == c.dict && d.result == c.result;
    assert ValueMap(d) == ValueMap(c);
  }

  /** Below `max_size`, setting any key, fresh or not, maps it to the new
      value in the value map. */
  lemma SetBelowValueMap<K, V>(c: Cache<K, V>, k: K, v: V)
    requires WellFormed(c) && |c.dict| < c.maxSize
    ensures SetItem(c, k, v).out == Ok(())
    ensures ValueMap(SetItem(c, k, v).state) == ValueMap(c)[k := Some(v)]
  {
    SetItemBelowIs(c, k, v);
    var d := SetItem(c, k, v).state;
    var n := |c.next|;
    assert d.result == c.result + [Some(v)] && d.dict == c.dict[k := n];
    forall j | j in d.dict
      ensures ValueMap(d)[j] == ValueMap(c)[k := Some(v)][j]
    {
      if j != k {
        assert d.result[c.dict[j]] == c.result[c.dict[j]];
      }
    }
  }

  /** Setting a key adds no key other than it. */
  lemma SetItemKeys<K, V>(c: Cache<K, V>, k: K, v: V)
    requires WellFormed(c)
    ensures SetItem(c, k, v).state.dict.Keys <= c.dict.Keys + {k}
  {
  }

  /** The inherited `del`: the key leaves the value map, or KeyError. */
  lemma DelItemValueMap<K, V>(c: Cache<K, V>, k: K)
    requires WellFormed(c)
    ensures DelItem(c, k).out.Ok? <==> k in c.dict
    ensures ValueMap(DelItem(c, k).state) == ValueMap(c) - {k}
  {
  }

  // =====================================================================
  // update

  /** The argument `E` of `update`: the cache itself, a mapping given as its
      entries in iteration order, or an iterable of pairs. */
  datatype Source<K, V> = SelfSource | Mapping(entries: seq<(K, V)>) | Pairs(entries: seq<(K, V)>)

  /** `for k in E.keys(): self[k] = E[k]`, stopping at the first error. */
  function SetAll<K, V>(c: Cache<K, V>, entries: seq<(K, V)>): (r: Outcome<Cache<K, V>, ()>)
    requires WellFormed(c)
    ensures WellFormed(r.state) && r.state.maxSize == c.maxSize
    decreases |entries|
  {
    if entries == [] then Outcome(c, Ok(()))
    else
      var s := SetItem(c, entries[0].0, entries[0].1);
      if s.out.Err? then s else SetAll(s.state, entries[1..])
  }

  /** The pairs branch: the first time a key that is already present comes
      up, it is deleted with the inherited `del` before being set. */
  function SetPairs<K, V>(c: Cache<K, V>, pairs: seq<(K, V)>, seen: set<K>): (r: Outcome<Cache<K, V>, ()>)
    requires WellFormed(c)
    ensures WellFormed(r.state)
    decreases |pairs|
  {
    if pairs == [] then Outcome(c, Ok(()))
    else
      var k := pairs[0].0;
      var first := k !in seen && k in c.dict;
      var c1 := if first then c.(dict := c.dict - {k}) else c;
      var s := SetItem(c1, k, pairs[0].1);
      if s.out.Err? then s else SetPairs(s.state, pairs[1..], if first then seen + {k} else seen)
  }

  /** `update(E)`: nothing when `E` is the cache itself. */
  function Update<K, V>(c: Cache<K, V>, src: Source<K, V>): (r: Outcome<Cache<K, V>, ()>)
    requires WellFormed(c)
    ensures WellFormed(r.state)
    ensures src.SelfSource? ==> r == Outcome(c, Ok(()))
  {
    match src
    case SelfSource => Outcome(c, Ok(()))
    case Mapping(entries) => SetAll(c, entries)
    case Pairs(entries) => SetPairs(c, entries, {})
  }

  /** The last `m` elements of `s` (all of them when there are fewer). */
  function Window<T>(s: seq<T>, m: nat): (w: seq<T>)
    ensures |w| == if |s| <= m then |s| else m
    ensures forall j :: 0 <= j < |w| ==> w[j] == s[|s| - |w| + j]
  {
    if |s| <= m then s else s[|s| - m..]
  }

  lemma WindowAppend<T>(s: seq<T>, t: seq<T>, m: nat)
    ensures Window(Window(s, m) + t, m) == Window(s + t, m)
  {
    if |s| > m {
      var w := s[|s| - m..];
      assert s + t == s[..|s| - m] + (w + t);
      assert (s + t)[|s + t| - m..] == (w + t)[|w + t| - m..];
    }
  }

  /** Keys that are pairwise distinct and absent from the cache. */
  predicate FreshKeys<K, V>(c: Cache<K, V>, entries: seq<(K, V)>) {
    (forall i :: 0 <= i < |entries| ==> entries[i].0 !in c.dict)
    && (forall i, j :: 0 <= i < j < |entries| ==> entries[i].0 != entries[j].0)
  }

  lemma WindowStep<T>(s: seq<T>, x: T, m: nat)
    requires |s| <= m
    ensures |s| < m ==> Window(s + [x], m) == s + [x]
    ensures |s| == m > 0 ==> Window(s + [x], m) == s[1..] + [x]
  {
  }

  /** One fresh key: the entries become the last `max_size` of the old
      entries followed by the new one. */
  lemma SetFreshWindow<K, V>(c: Cache<K, V>, order: seq<nat>, k: K, v: V) returns (o: seq<nat>)
    requires Valid(c, order) && k !in c.dict && c.maxSize > 0
    ensures SetItem(c, k, v).out == Ok(())
    ensures Valid(SetItem(c, k, v).state, o)
    ensures Items(SetItem(c, k, v).state, o) == Window(Items(c, order) + [(k, v)], c.maxSize as nat)
  {
    var items := Items(c, order);
    WindowStep(items, (k, v), c.maxSize as nat);
    if |c.dict| < c.maxSize {
      SetFreshBelow(c, order, k, v);
      o := order + [|c.next|];
    } else {
      SetFreshFull(c, order, k, v);
      o := order[1..] + [c.root];
    }
  }

  lemma FreshAfterSet<K, V>(c: Cache<K, V>, entries: seq<(K, V)>)
    requires WellFormed(c) && FreshKeys(c, entries) && entries != []
    ensures FreshKeys(SetItem(c, entries[0].0, entries[0].1).state, entries[1..])
  {
    SetItemKeys(c, entries[0].0, entries[0].1);
    var rest := entries[1..];
    forall i | 0 <= i < |rest|
      ensures rest[i].0 !in SetItem(c, entries[0].0, entries[0].1).state.dict
    {
      assert rest[i] == entries[i + 1];
    }
  }

  lemma WindowThenRest<T>(s: seq<T>, entries: seq<T>, m: nat)
    requires entries != []
    ensures Window(Window(s + [entries[0]], m) + entries[1..], m) == Window(s + entries, m)
  {
    WindowAppend(s + [entries[0]], entries[1..], m);
    assert s + [entries[0]] + entries[1..] == s + entries;
  }

  /** `update` with a mapping of fresh keys leaves the last `max_size`
      entries of the old entries followed by the new ones, in that order. */
  lemma {:induction false} SetAllFresh<K, V>(c: Cache<K, V>, order: seq<nat>, entries: seq<(K, V)>)
    returns (o: seq<nat>)
    requires Valid(c, order) && c.maxSize > 0 && FreshKeys(c, entries)
    ensures SetAll(c, entries).out == Ok(())
    ensures Valid(SetAll(c, entries).state, o)
    ensures Items(SetAll(c, entries).state, o) == Window(Items(c, order) + entries, c.maxSize as nat)
    decreases |entries|
  {
    if entries == [] {
      o := order;
      assert Items(c, order) + entries == Items(c, order);
    } else {
      var o1 := SetFreshWindow(c, order, entries[0].0, entries[0].1);
      var c1 := SetItem(c, entries[0].0, entries[0].1).state;
      FreshAfterSet(c, entries);
      assert SetAll(c, entries) == SetAll(c1, entries[1..]);
      o := SetAllFresh(c1, o1, entries[1..]);
      WindowThenRest(Items(c, order), entries, c.maxSize as nat);
    }
  }

  /** With fresh keys the pairs branch deletes nothing and is the same as
      the mapping branch. */
  lemma {:induction false} SetPairsFresh<K, V>(c: Cache<K, V>, pairs: seq<(K, V)>, seen: set<K>)
    requires WellFormed(c) && FreshKeys(c, pairs)
    ensures SetPairs(c, pairs, seen) == SetAll(c, pairs)
    decreases |pairs|
  {
    if pairs != [] {
      var (k, v) := pairs[0];
      var s := SetItem(c, k, v);
      if s.out.Ok? {
        SetItemKeys(c, k, v);
        var rest := pairs[1..];
        assert FreshKeys(s.state, rest) by {
          forall i | 0 <= i < |rest|
            ensures rest[i].0 !in s.state.dict
          {
            assert rest[i] == pairs[i + 1];
          }
        }
        SetPairsFresh(s.state, rest, seen);
      }
    }
  }

  // =====================================================================
  // what the entries say about the dictionary

  /** Under the invariant every key of the dictionary is listed in the
      entries, at the position of its link in the order ... */
  lemma KeyInItems<K, V>(c: Cache<K, V>, order: seq<nat>, k: K)
    requires Valid(c, order) && k in c.dict
    ensures c.dict[k] in order && Items(c, order)[IndexOf(order, c.dict[k])].0 == k
  {
  }

  /** ... and every entry is a key of the dictionary with its stored value. */
  lemma ItemsInValueMap<K, V>(c: Cache<K, V>, order: seq<nat>)
    requires Valid(c, order)
    ensures forall i :: 0 <= i < |order| ==>
      Items(c, order)[i].0 in c.dict && ValueMap(c)[Items(c, order)[i].0] == Some(Items(c, order)[i].1)
  {
    forall i | 0 <= i < |order|
      ensures Items(c, order)[i].0 in c.dict && ValueMap(c)[Items(c, order)[i].0] == Some(Items(c, order)[i].1)
    {
      assert Live(c, order[i]);
    }
  }

  // =====================================================================
  // BasicCache

  /** A snapshot of a `BasicCache`: its dictionary, the deque of keys in
      insertion order and `size`. */
  datatype Lri<K(==), V> = Lri(dict: map<K, V>, queue: seq<K>, size: int)

  /** The most keys a `BasicCache` of this `size` keeps. */
  function Capacity(size: int): nat {
    if size < 0 then 0 else size
  }

  /** `__missing__`: call `on_miss`, store and enqueue the key, and drop the
      oldest key once the deque is longer than `size`. An exception from
      `on_miss` leaves everything as it was. */
  function Missing<K, V>(c: Lri<K, V>, onMiss: K -> Result<V>, key: K): (r: Outcome<Lri<K, V>, V>)
    ensures r.state.size == c.size
    ensures onMiss(key).Err? ==> r == Outcome(c, Err(onMiss(key).error))
    ensures r.out.Ok? ==> onMiss(key).Ok? && r.out.value == onMiss(key).value
    ensures onMiss(key).Ok? && |c.queue| < c.size ==> r == Outcome(Lri(c.dict[key := onMiss(key).value], c.queue + [key], c.size), Ok(onMiss(key).value))
  {
    match onMiss(key)
    case Err(e) => Outcome(c, Err(e))
    case Ok(ret) =>
      var d, q := c.dict[key := ret], c.queue + [key];
      if |q| > c.size then
        var gone := q[0];
        if gone in d then Outcome(Lri(d - {gone}, q[1..], c.size), Ok(ret))
        else Outcome(Lri(d, q[1..], c.size), Err(KeyError))
      else Outcome(Lri(d, q, c.size), Ok(ret))
  }

  /** `cache[key]`: the stored value, or `__missing__`. */
  function Lookup<K, V>(c: Lri<K, V>, onMiss: K -> Result<V>, key: K): (r: Outcome<Lri<K, V>, V>)
    ensures r.state.size == c.size
    ensures key in c.dict ==> r == Outcome(c, Ok(c.dict[key]))
    ensures key !in c.dict ==> (r.out.Ok? ==> onMiss(key).Ok? && r.out.value == onMiss(key).value) && (onMiss(key).Err? ==> r.state == c)
  {
    if key in c.dict then Outcome(c, Ok(c.dict[key])) else Missing(c, onMiss, key)
  }

  /** The deque holds each key of the dictionary once, and no more than
      `size` of them. */
  predicate LriValid<K, V>(c: Lri<K, V>) {
    (forall i, j :: 0 <= i < j < |c.queue| ==> c.queue[i] != c.queue[j])
    && (forall k :: k in c.dict ==> k in c.queue)
    && (forall i :: 0 <= i < |c.queue| ==> c.queue[i] in c.dict)
    && |c.queue| == |c.dict| && |c.queue| <= Capacity(c.size)
  }

  lemma EmptyLriValid<K, V>(size: int)
    ensures LriValid<K, V>(Lri(map[], [], size))
  {
  }

  /** A lookup of a present key reads the dictionary: `on_miss` plays no
      part and neither the dictionary nor the deque changes. */
  lemma HitIgnoresOnMiss<K, V>(c: Lri<K, V>, f: K -> Result<V>, g: K -> Result<V>, key: K)
    requires key in c.dict
    ensures Lookup(c, f, key) == Lookup(c, g, key)
    ensures Lookup(c, f, key).state == c && Lookup(c, f, key).out == Ok(c.dict[key])
  {
  }

  /** When `on_miss` raises, nothing is stored or queued. */
  lemma MissFailureStoresNothing<K, V>(c: Lri<K, V>, onMiss: K -> Result<V>, key: K)
    requires key !in c.dict && onMiss(key).Err?
    ensures Lookup(c, onMiss, key) == Outcome(c, Err(onMiss(key).error))
  {
  }

  /** A miss returns and stores what `on_miss` gave, enqueues the key and
      keeps the last `size` keys of the deque: the key dropped is the
      earliest inserted one, however often it was read since. */
  lemma MissStores<K, V>(c: Lri<K, V>, onMiss: K -> Result<V>, key: K)
    requires LriValid(c) && key !in c.dict && onMiss(key).Ok?
    ensures Lookup(c, onMiss, key).out == onMiss(key)
    ensures LriValid(Lookup(c, onMiss, key).state)
    ensures Lookup(c, onMiss, key).state.queue == Window(c.queue + [key], Capacity(c.size))
    ensures key in Lookup(c, onMiss, key).state.dict ==> Lookup(c, onMiss, key).state.dict[key] == onMiss(key).value
    ensures forall k :: k in Lookup(c, onMiss, key).state.dict && k != key ==>
      k in c.dict && Lookup(c, onMiss, key).state.dict[k] == c.dict[k]
  {
    MissQueue(c, onMiss, key);
    MissDict(c, onMiss, key);
  }

  /** The deque and the invariant after a miss ... */
  lemma MissQueue<K, V>(c: Lri<K, V>, onMiss: K -> Result<V>, key: K)
    requires LriValid(c) && key !in c.dict && onMiss(key).Ok?
    ensures LriValid(Lookup(c, onMiss, key).state)
    ensures Lookup(c, onMiss, key).state.queue == Window(c.queue + [key], Capacity(c.size))
  {
    var v := onMiss(key).value;
    var q := c.queue + [key];
    var d := c.dict[key := v];
    EnqueueValid(c, key, v);
    MissIs(c, onMiss, key);
    var st := Lookup(c, onMiss, key).state;
    if |q| > c.size {
      EvictValid(Lri(d, q, c.size));
      assert |q| - Capacity(c.size) == 1;
      assert st.queue == q[1..] == Window(q, Capacity(c.size));
    } else {
      assert st.queue == q == Window(q, Capacity(c.size));
    }
  }

  /** ... and the dictionary: the new value, and the others unchanged. */
  lemma MissDict<K, V>(c: Lri<K, V>, onMiss: K -> Result<V>, key: K)
    requires LriValid(c) && key !in c.dict && onMiss(key).Ok?
    ensures Lookup(c, onMiss, key).out == onMiss(key)
    ensures key in Lookup(c, onMiss, key).state.dict ==> Lookup(c, onMiss, key).state.dict[key] == onMiss(key).value
    ensures forall k :: k in Lookup(c, onMiss, key).state.dict && k != key ==>
      k in c.dict && Lookup(c, onMiss, key).state.dict[k] == c.dict[k]
  {
    MissIs(c, onMiss, key);
  }

  /** The state a successful miss of an absent key leaves behind. */
  lemma MissIs<K, V>(c: Lri<K, V>, onMiss: K -> Result<V>, key: K)
    requires LriValid(c) && key !in c.dict && onMiss(key).Ok?
    ensures var q, d := c.queue + [key], c.dict[key := onMiss(key).value];
      Lookup(c, onMiss, key)
      == Outcome(if |q| > c.size then Lri(d - {q[0]}, q[1..], c.size) else Lri(d, q, c.size), Ok(onMiss(key).value))
  {
    var q, d := c.queue + [key], c.dict[key := onMiss(key).value];
    if c.queue != [] {
      assert q[0] == c.queue[0] && c.queue[0] in c.dict;
    }
    assert q[0] in d;
  }

  /** Storing and enqueueing an absent key keeps the deque and the
      dictionary in step, one longer than before. */
  lemma EnqueueValid<K, V>(c: Lri<K, V>, key: K, v: V)
    requires LriValid(c) && key !in c.dict
    ensures var e := Lri(c.dict[key := v], c.queue + [key], c.size);
      (forall i, j :: 0 <= i < j < |e.queue| ==> e.queue[i] != e.queue[j])
      && (forall k :: k in e.dict ==> k in e.queue)
      && (forall i :: 0 <= i < |e.queue| ==> e.queue[i] in e.dict)
      && |e.queue| == |e.dict| && |e.queue| <= Capacity(c.size) + 1
  {
    var q := c.queue + [key];
    assert forall i :: 0 <= i < |c.queue| ==> q[i] == c.queue[i];
  }

  /** Dropping the oldest key of a deque one over capacity restores the
      invariant. */
  lemma EvictValid<K, V>(e: Lri<K, V>)
    requires (forall i, j :: 0 <= i < j < |e.queue| ==> e.queue[i] != e.queue[j])
    requires (forall k :: k in e.dict ==> k in e.queue)
    requires (forall i :: 0 <= i < |e.queue| ==> e.queue[i] in e.dict)
    requires |e.queue| == |e.dict| && |e.queue| == Capacity(e.size) + 1
    ensures LriValid(Lri(e.dict - {e.queue[0]}, e.queue[1..], e.size))
  {
    TailCovers(e.dict, e.queue);
    TailIn(e.dict, e.queue);
    assert e.queue[0] in e.dict;
  }

  /** Every key left after dropping the oldest is still queued ... */
  lemma TailCovers<K, V>(d: map<K, V>, q: seq<K>)
    requires q != [] && forall k :: k in d ==> k in q
    ensures forall k :: k in d - {q[0]} ==> k in q[1..]
  {
    forall k | k in d - {q[0]}
      ensures k in q[1..]
    {
      var m :| 0 <= m < |q| && q[m] == k;
      assert m != 0 && q[1..][m - 1] == k;
    }
  }

  /** ... and every key still queued is left, once each. */
  lemma TailIn<K, V>(d: map<K, V>, q: seq<K>)
    requires q != [] && (forall i, j :: 0 <= i < j < |q| ==> q[i] != q[j])
    requires forall i :: 0 <= i < |q| ==> q[i] in d
    ensures forall i :: 0 <= i < |q[1..]| ==> q[1..][i] in d - {q[0]}
    ensures forall i, j :: 0 <= i < j < |q[1..]| ==> q[1..][i] != q[1..][j]
  {
    forall i | 0 <= i < |q[1..]|
      ensures q[1..][i] in d - {q[0]}
    {
      assert q[1..][i] == q[i + 1] && q[i + 1] != q[0];
    }
    forall i, j | 0 <= i < j < |q[1..]|
      ensures q[1..][i] != q[1..][j]
    {
      assert q[1..][i] == q[i + 1] && q[1..][j] == q[j + 1];
    }
  }

  /** `[cache[k] for k in keys]`, stopping at the first exception. */
  function LookupAll<K, V>(c: Lri<K, V>, onMiss: K -> Result<V>, keys: seq<K>): (r: Outcome<Lri<K, V>, seq<V>>)
    ensures r.state.size == c.size
    ensures r.out.Ok? ==> |r.out.value| == |keys|
    decreases |keys|
  {
    if keys == [] then Outcome(c, Ok([]))
    else
      var first := Lookup(c, onMiss, keys[0]);
      if first.out.Err? then Outcome(first.state, Err(first.out.error))
      else
        var rest := LookupAll(first.state, onMiss, keys[1..]);
        if rest.out.Err? then rest else Outcome(rest.state, Ok([first.out.value] + rest.out.value))
  }

  /** Looking up distinct absent keys, each filled by `on_miss`, keeps the
      last `size` of the queued keys, and each lookup returns what
      `on_miss` gave for it. */
  lemma {:induction false} FillKeepsLast<K, V>(c: Lri<K, V>, onMiss: K -> Result<V>, keys: seq<K>)
    requires LriValid(c)
    requires forall i :: 0 <= i < |keys| ==> keys[i] !in c.dict && onMiss(keys[i]).Ok?
    requires forall i, j :: 0 <= i < j < |keys| ==> keys[i] != keys[j]
    ensures LookupAll(c, onMiss, keys).out.Ok?
    ensures forall i :: 0 <= i < |keys| ==> LookupAll(c, onMiss, keys).out.value[i] == onMiss(keys[i]).value
    ensures LriValid(LookupAll(c, onMiss, keys).state)
    ensures LookupAll(c, onMiss, keys).state.queue == Window(c.queue + keys, Capacity(c.size))
    decreases |keys|
  {
    if keys == [] {
      assert c.queue + keys == c.queue;
    } else {
      var first := Lookup(c, onMiss, keys[0]);
      MissStores(c, onMiss, keys[0]);
      var rest := keys[1..];
      RestFresh(c, first.state, keys);
      FillKeepsLast(first.state, onMiss, rest);
      var tail := LookupAll(first.state, onMiss, rest);
      assert LookupAll(c, onMiss, keys) == Outcome(tail.state, Ok([first.out.value] + tail.out.value));
      ValuesShift(onMiss, keys, first.out.value, tail.out.value);
      WindowThenRest(c.queue, keys, Capacity(c.size));
    }
  }

  /** The value of the first key followed by the values of the rest are the
      values of all the keys. */
  lemma ValuesShift<K, V>(f: K -> Result<V>, keys: seq<K>, x: V, t: seq<V>)
    requires keys != [] && f(keys[0]).Ok? && x == f(keys[0]).value && |t| == |keys| - 1
    requires forall j :: 0 <= j < |keys[1..]| ==> f(keys[1..][j]).Ok? && t[j] == f(keys[1..][j]).value
    ensures forall i :: 0 <= i < |keys| ==> f(keys[i]).Ok? && ([x] + t)[i] == f(keys[i]).value
  {
    forall i | 0 < i < |keys|
      ensures f(keys[i]).Ok? && ([x] + t)[i] == f(keys[i]).value
    {
      assert keys[1..][i - 1] == keys[i];
    }
  }

  /** The keys after the first are still absent once the first is stored. */
  lemma RestFresh<K, V>(c: Lri<K, V>, d: Lri<K, V>, keys: seq<K>)
    requires keys != [] && forall i :: 0 <= i < |keys| ==> keys[i] !in c.dict
    requires forall i, j :: 0 <= i < j < |keys| ==> keys[i] != keys[j]
    requires forall k :: k in d.dict && k != keys[0] ==> k in c.dict
    ensures forall i :: 0 <= i < |keys[1..]| ==> keys[1..][i] !in d.dict
  {
    forall i | 0 <= i < |keys[1..]|
      ensures keys[1..][i] !in d.dict
    {
      assert keys[1..][i] == keys[i + 1] && keys[i + 1] != keys[0];
    }
  }

  /** Fifty-two distinct keys into `BasicCache(10, on_miss)` leave ten. */
  lemma FiftyTwoIntoTen<K, V>(onMiss: K -> Result<V>, keys: seq<K>)
    requires |keys| == 52 && forall i :: 0 <= i < |keys| ==> onMiss(keys[i]).Ok?
    requires forall i, j :: 0 <= i < j < |keys| ==> keys[i] != keys[j]
    ensures LookupAll(Lri(map[], [], 10), onMiss, keys).out.Ok?
    ensures |LookupAll(Lri(map[], [], 10), onMiss, keys).state.dict| == 10
  {
    FillKeepsLast(Lri(map[], [], 10), onMiss, keys);
  }

  // =====================================================================
  // examples and the paths without the strong invariant

  /** `LRU(max_size=3)` given four distinct keys keeps the last three. */
  lemma FourKeysIntoThree<K, V>(c: Cache<K, V>, entries: seq<(K, V)>)
    requires Valid(c, []) && c.maxSize == 3 && |entries| == 4 && FreshKeys(c, entries)
    ensures SetAll(c, entries).out == Ok(())
    ensures |SetAll(c, entries).state.dict| == 3 && entries[0].0 !in SetAll(c, entries).state.dict
    ensures forall i :: 1 <= i < 4 ==>
      (entries[i].0 in SetAll(c, entries).state.dict
       && ValueMap(SetAll(c, entries).state)[entries[i].0] == Some(entries[i].1))
  {
    var o := SetAllFresh(c, [], entries);
    var r := SetAll(c, entries);
    assert Items(c, []) + entries == entries;
    LastThree(r.state, o, entries);
  }

  lemma LastThree<K, V>(d: Cache<K, V>, o: seq<nat>, entries: seq<(K, V)>)
    requires Valid(d, o) && |entries| == 4 && Items(d, o) == Window(entries, 3)
    requires forall i, j :: 0 <= i < j < |entries| ==> entries[i].0 != entries[j].0
    ensures |d.dict| == 3 && entries[0].0 !in d.dict
    ensures forall i :: 1 <= i < 4 ==> entries[i].0 in d.dict && ValueMap(d)[entries[i].0] == Some(entries[i].1)
  {
    var items := Items(d, o);
    assert items == entries[1..];
    ItemsInValueMap(d, o);
    if entries[0].0 in d.dict {
      KeyInItems(d, o, entries[0].0);
      assert false;
    }
    forall i | 1 <= i < 4
      ensures entries[i].0 in d.dict && ValueMap(d)[entries[i].0] == Some(entries[i].1)
    {
      assert items[i - 1] == entries[i];
    }
  }

  /** As written, `self.root` keeps pointing at the link that now holds the
      new entry, so the second eviction in `LRU(max_size=1)` reads the key of
      the emptied link, `None`, and the `del` raises KeyError. With the root
      remembered all three sets succeed. */
  lemma SecondEvictionFailsAsWritten<K, V>(c: Cache<K, V>, a: (K, V), b: (K, V), x: (K, V))
    requires Valid(c, []) && c.maxSize == 1 && FreshKeys(c, [a, b, x])
    ensures var c1 := SetItemAsWritten(c, a.0, a.1).state;
            var c2 := SetItemAsWritten(c1, b.0, b.1);
            c2.out == Ok(()) && SetItemAsWritten(c2.state, x.0, x.1).out == Err(KeyError)
    ensures SetAll(c, [a, b, x]).out == Ok(())
  {
    var n := |c.next|;
    SetFreshBelow(c, [], a.0, a.1);
    var c1 := SetItemAsWritten(c, a.0, a.1).state;
    assert c1 == SetItem(c, a.0, a.1).state;
    assert c1.next[c1.root] == n && c1.key[n] == Some(a.0) && n != c1.root by {
      assert Live(c1, ([] + [n])[0]);
    }
    assert c1.dict == c.dict[a.0 := n] && b.0 !in c.dict && b.0 != a.0 by {
      assert [a, b, x][1].0 != [a, b, x][0].0 && [a, b, x][1].0 !in c.dict;
    }
    FullSetKeepsRoot(c1, b.0, b.1);
    var c2 := SetItemAsWritten(c1, b.0, b.1).state;
    EmptiedNextFails(c2, x.0, x.1);
    var o := SetAllFresh(c, [], [a, b, x]);
  }

  /** At capacity, the source's `__setitem__` of a fresh key whose evicted
      link holds a live key succeeds but leaves the root and the ring alone,
      with the evicted link emptied. */
  lemma FullSetKeepsRoot<K, V>(c: Cache<K, V>, k: K, v: V)
    requires WellFormed(c) && |c.dict| >= c.maxSize && c.next[c.root] != c.root
    requires c.key[c.next[c.root]].Some? && c.key[c.next[c.root]].value in c.dict && k !in c.dict
    ensures var d := SetItemAsWritten(c, k, v);
      d.out == Ok(()) && d.state.root == c.root && d.state.next == c.next
      && d.state.key[c.next[c.root]] == None && |d.state.dict| == |c.dict|
  {
  }

  /** At capacity, the source's `__setitem__` whose evicted link is empty
      raises KeyError. */
  lemma EmptiedNextFails<K, V>(c: Cache<K, V>, k: K, v: V)
    requires WellFormed(c) && |c.dict| >= c.maxSize && c.next[c.root] != c.root && c.key[c.next[c.root]] == None
    ensures SetItemAsWritten(c, k, v).out == Err(KeyError)
  {
  }

  /** Setting a key that is already present below `max_size` leaves its old
      link in the ring: the ring then has one link more than the dictionary
      has keys, and the old link still carries the key. */
  lemma RepeatedKeyLeavesStaleLink<K, V>(c: Cache<K, V>, order: seq<nat>, k: K, v: V)
    requires Valid(c, order) && k in c.dict && |c.dict| < c.maxSize
    ensures var d := SetItem(c, k, v).state;
      Linked(d.prev, d.next, d.root, order + [|c.next|]) && |d.dict| == |order|
      && c.dict[k] in order && d.key[c.dict[k]] == Some(k) && d.dict[k] != c.dict[k]
  {
    var n := |c.next|;
    var g := Grow(c, k, v);
    LinkedGrow(c.prev, c.next, c.root, order, c.prev[c.root], c.root);
    assert n !in order;
    SpliceAppends(g.prev, g.next, c.root, order, n);
    SetItemBelowIs(c, k, v);
  }

  /** The inherited `del` leaves the ring as it was: afterwards the ring
      has one link more than the dictionary has keys. */
  lemma DelLeavesStaleLink<K, V>(c: Cache<K, V>, order: seq<nat>, k: K)
    requires Valid(c, order) && k in c.dict
    ensures var d := DelItem(c, k).state;
      Linked(d.prev, d.next, d.root, order) && |d.dict| + 1 == |order| && c.dict[k] in order
  {
  }
}

/** The cache objects of boltons/cacheutils.py, whose methods update their
    fields in place; each method is proved against the function of the same
    name in `CacheUtils`. */
module CacheObjects {
  import opened Wrappers
  import opened CacheUtils

  /** An `LRU`: the link arena, the root, the dictionary, `max_size` and
      the counters are its fields. */
  class LRU<K(==), V(==)> {
    var prev: seq<nat>
    var next: seq<nat>
    var key: seq<Option<K>>
    var result: seq<Option<V>>
    var root: nat
    var dict: map<K, nat>
    var maxSize: int
    var hits: nat
    var misses: nat
    var softMisses: nat

    function Snapshot(): Cache<K, V>
      reads this
    {
      Cache(prev, next, key, result, root, dict, maxSize, hits, misses, softMisses)
    }

    /** `LRU(max_size)`: a root linked to itself and zero counters. */
    constructor (maxSize: int)
      ensures Snapshot() == Empty(maxSize) && Valid(Snapshot(), [])
    {
      prev, next, key, result := [0], [0], [None], [None];
      root, dict := 0, map[];
      this.maxSize := maxSize;
      hits, misses, softMisses := 0, 0, 0;
    }

    /** `self[k] = v` */
    method SetItem(k: K, v: V) returns (r: Result<()>)
      requires WellFormed(Snapshot())
      modifies this
      ensures Outcome(Snapshot(), r) == CacheUtils.SetItem(old(Snapshot()), k, v)
    {
      var p, q, ks, rs, rt, d := prev, next, key, result, root, dict;
      if |d| < maxSize {
        // link = [last, root, key, value]; last[NEXT] = root[PREV] = link
        var n, last := |q|, p[rt];
        p, q, ks, rs := p + [last], q + [rt], ks + [Some(k)], rs + [Some(v)];
        q := q[last := n];
        p := p[rt := n];
        d := d[k := n];
        r := Ok(());
      } else {
        // the old root takes the entry, the least recent link becomes the root
        var oldroot := rt;
        ks, rs := ks[oldroot := Some(k)], rs[oldroot := Some(v)];
        rt := q[oldroot];
        var oldkey := ks[rt];
        ks, rs := ks[rt := None], rs[rt := None];
        if oldkey.None? || oldkey.value !in d {
          r := Err(KeyError);
        } else {
          d := (d - {oldkey.value})[k := oldroot];
          r := Ok(());
        }
      }
      prev, next, key, result, root, dict := p, q, ks, rs, rt, d;
    }

    /** `self[k]`: on a hit the link moves to the most recent end. */
    method GetItem(k: K) returns (r: Result<Option<V>>)
      requires WellFormed(Snapshot())
      modifies this
      ensures Outcome(Snapshot(), r) == CacheUtils.GetItem(old(Snapshot()), k)
    {
      if k !in dict {
        misses := misses + 1;
        return Err(KeyError);
      }
      var link := dict[k];
      var linkPrev, linkNext, res := prev[link], next[link], result[link];
      var p, q := prev, next;
      q := q[linkPrev := linkNext];
      p := p[linkNext := linkPrev];
      var last := p[root];
      q := q[last := link];
      p := p[root := link];
      p := p[link := last];
      q := q[link := root];
      prev, next, hits := p, q, hits + 1;
      return Ok(res);
    }

    /** `get(k, default)` */
    method Get(k: K, default: Option<V>) returns (r: Option<V>)
      requires WellFormed(Snapshot())
      modifies this
      ensures Outcome(Snapshot(), Ok(r)) == CacheUtils.Get(old(Snapshot()), k, default)
    {
      var g := GetItem(k);
      if g.Err? {
        softMisses := softMisses + 1;
        return default;
      }
      return g.value;
    }

    /** The inherited `del self[k]`: the dictionary entry goes, the link
        stays in the ring. */
    method DelItem(k: K) returns (r: Result<()>)
      requires WellFormed(Snapshot())
      modifies this
      ensures Outcome(Snapshot(), r) == CacheUtils.DelItem(old(Snapshot()), k)
    {
      if k !in dict {
        return Err(KeyError);
      }
      dict := dict - {k};
      return Ok(());
    }

    /** `update(E)` */
    method Update(src: Source<K, V>) returns (r: Result<()>)
      requires WellFormed(Snapshot())
      modifies this
      ensures Outcome(Snapshot(), r) == CacheUtils.Update(old(Snapshot()), src)
      ensures src.SelfSource? ==> Snapshot() == old(Snapshot())
    {
      match src {
        case SelfSource =>
          return Ok(());
        case Mapping(entries) =>
          r := SetEach(entries);
        case Pairs(pairs) =>
          r := SetPairsLoop(pairs);
      }
    }

    /** `for k in E.keys(): self[k] = E[k]` */
    method SetEach(entries: seq<(K, V)>) returns (r: Result<()>)
      requires WellFormed(Snapshot())
      modifies this
      ensures Outcome(Snapshot(), r) == CacheUtils.SetAll(old(Snapshot()), entries)
    {
      ghost var c0 := Snapshot();
      var i := 0;
      while i < |entries|
        invariant 0 <= i <= |entries| && WellFormed(Snapshot())
        invariant CacheUtils.SetAll(c0, entries) == CacheUtils.SetAll(Snapshot(), entries[i..])
      {
        var e := SetItem(entries[i].0, entries[i].1);
        if e.Err? {
          return e;
        }
        assert entries[i..][1..] == entries[i + 1..];
        i := i + 1;
      }
      return Ok(());
    }

    /** The pairs branch of `update`. */
    method SetPairsLoop(pairs: seq<(K, V)>) returns (r: Result<()>)
      requires WellFormed(Snapshot())
      modifies this
      ensures Outcome(Snapshot(), r) == SetPairs(old(Snapshot()), pairs, {})
    {
      ghost var c0 := Snapshot();
      var seen: set<K> := {};
      var i := 0;
      while i < |pairs|
        invariant 0 <= i <= |pairs| && WellFormed(Snapshot())
        invariant SetPairs(c0, pairs, {}) == SetPairs(Snapshot(), pairs[i..], seen)
      {
        var (k, v) := pairs[i];
        if k !in seen && k in dict {
          dict := dict - {k};
          seen := seen + {k};
        }
        var e := SetItem(k, v);
        if e.Err? {
          return e;
        }
        assert pairs[i..][1..] == pairs[i + 1..];
        i := i + 1;
      }
      return Ok(());
    }

    /** `__eq__` */
    function Equals(other: LRU<K, V>): (r: bool)
      requires WellFormed(Snapshot()) && WellFormed(other.Snapshot())
      reads this, other
      ensures r <==> ValueMap(Snapshot()) == ValueMap(other.Snapshot())
    {
      other == this || Eq(Snapshot(), other.Snapshot())
    }
  }

  /** A `BasicCache`: a dictionary with the deque of its keys in insertion
      order, `size` and `on_miss`. */
  class BasicCache<K(==), V> {
    var dict: map<K, V>
    var queue: seq<K>
    var size: int
    const onMiss: K -> Result<V>

    function State(): Lri<K, V>
      reads this
    {
      Lri(dict, queue, size)
    }

    constructor (size: int, onMiss: K -> Result<V>)
      ensures State() == Lri(map[], [], size) && this.onMiss == onMiss
    {
      dict, queue := map[], [];
      this.size := size;
      this.onMiss := onMiss;
    }

    /** `cache[key]` */
    method Lookup(key: K) returns (r: Result<V>)
      modifies this
      ensures Outcome(State(), r) == CacheUtils.Lookup(old(State()), onMiss, key)
    {
      if key in dict {
        return Ok(dict[key]);
      }
      r := Missing(key);
    }

    /** `__missing__` */
    method Missing(key: K) returns (r: Result<V>)
      modifies this
      ensures Outcome(State(), r) == CacheUtils.Missing(old(State()), onMiss, key)
    {
      var got := onMiss(key);
      if got.Err? {
        return got;
      }
      var ret := got.value;
      dict := dict[key := ret];
      queue := queue + [key];
      if |queue| > size {
        var gone := queue[0];
        queue := queue[1..];
        if gone !in dict {
          return Err(KeyError);
        }
        dict := dict - {gone};
      }
      return Ok(ret);
    }
  }
}
