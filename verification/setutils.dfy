/** boltons/setutils.py: `IndexedSet`, an insertion-ordered set kept as a
    dictionary from item to slot (`item_index_map`), a list of slots in
    which removed items are overwritten by a sentinel (`item_list`) and the
    ascending list of those dead slots (`dead_indices`). The functions here
    are the specification the class in `SetObjects` is proved against. */
module SetUtils {
  import opened Wrappers
  import PyList

  /** A slot of `item_list`: an item, or the `_MISSING` sentinel. */
  datatype Slot<T> = Missing | Item(value: T)

  /** The three attributes of an `IndexedSet`. */
  datatype ISet<T(==)> = ISet(index: map<T, nat>, items: seq<Slot<T>>, dead: seq<nat>)

  function Empty<T(==)>(): ISet<T> {
    ISet(map[], [], [])
  }

  // =====================================================================
  // The abstract view

  /** The items of the live slots in slot order: what iteration yields. */
  function Live<T>(items: seq<Slot<T>>): (r: seq<T>)
    ensures |r| <= |items|
  {
    if items == [] then []
    else
      var rest := Live(items[..|items| - 1]);
      match items[|items| - 1]
      case Missing => rest
      case Item(v) => rest + [v]
  }

  /** `list(s)` */
  function Elements<T(==)>(s: ISet<T>): seq<T> {
    Live(s.items)
  }

  predicate Distinct<T(==)>(xs: seq<T>) {
    forall i, j :: 0 <= i < j < |xs| ==> xs[i] != xs[j]
  }

  // =====================================================================
  // The representation invariant

  /** `dead_indices` is strictly ascending. */
  predicate DeadSorted(dead: seq<nat>) {
    forall i, j :: 0 <= i < j < |dead| ==> dead[i] < dead[j]
  }

  /** Every dead index names a sentinel slot ... */
  predicate DeadSlots<T>(items: seq<Slot<T>>, dead: seq<nat>) {
    forall i :: 0 <= i < |dead| ==> dead[i] < |items| && items[dead[i]].Missing?
  }

  /** ... and every sentinel slot is listed as dead. */
  predicate MissingDead<T>(items: seq<Slot<T>>, dead: seq<nat>) {
    forall p :: 0 <= p < |items| && items[p].Missing? ==> p in dead
  }

  /** The dictionary sends every member to the slot that holds it ... */
  predicate IndexLive<T(==)>(index: map<T, nat>, items: seq<Slot<T>>) {
    forall k :: k in index ==> index[k] < |items| && items[index[k]] == Item(k)
  }

  /** ... and every live slot is the one the dictionary names. */
  predicate LiveIndexed<T(==)>(index: map<T, nat>, items: seq<Slot<T>>) {
    forall p :: 0 <= p < |items| && items[p].Item? ==>
      items[p].value in index && index[items[p].value] == p
  }

  predicate Valid<T(==)>(s: ISet<T>) {
    DeadSorted(s.dead) && DeadSlots(s.items, s.dead) && MissingDead(s.items, s.dead)
    && IndexLive(s.index, s.items) && LiveIndexed(s.index, s.items)
  }

  /** Valid, and the last slot (if any) is live: what the trailing trim of
      `_cull` is there to restore, and what `pop()` relies on. */
  predicate Tidy<T(==)>(s: ISet<T>) {
    Valid(s) && (s.items == [] || s.items[|s.items| - 1].Item?)
  }

  lemma EmptyTidy<T>()
    ensures Tidy(Empty<T>()) && Elements(Empty<T>()) == []
  {
  }

  // =====================================================================
  // Facts about Live

  lemma {:induction false} LiveAppend<T>(a: seq<Slot<T>>, b: seq<Slot<T>>)
    ensures Live(a + b) == Live(a) + Live(b)
    decreases |b|
  {
    if b == [] {
      assert a + b == a;
    } else {
      var b' := b[..|b| - 1];
      assert (a + b)[..|a + b| - 1] == a + b';
      LiveAppend(a, b');
    }
  }

  lemma LiveOne<T>(x: Slot<T>)
    ensures Live([x]) == if x.Item? then [x.value] else []
  {
    assert [x][..0] == [];
  }

  /** Splitting the slots at `p`: the live items before, the item at `p`
      (if live) and the live items after. */
  lemma LiveSplit<T>(items: seq<Slot<T>>, p: nat)
    requires p < |items|
    ensures Live(items) == Live(items[..p]) + Live([items[p]]) + Live(items[p + 1..])
  {
    var a, x, b := items[..p], items[p], items[p + 1..];
    SliceAround(items, p);
    LiveAppend(a + [x], b);
    LiveAppend(a, [x]);
  }

  /** A sequence is what lies before position `p`, the element at `p` and
      what lies after it. */
  lemma SliceAround<X>(s: seq<X>, p: nat)
    requires p < |s|
    ensures s == s[..p] + [s[p]] + s[p + 1..]
  {
  }

  /** Overwriting position `p` leaves the slices on either side alone. */
  lemma UpdateAround<X>(s: seq<X>, p: nat, v: X)
    requires p < |s|
    ensures s[p := v][..p] == s[..p] && s[p := v][p + 1..] == s[p + 1..] && s[p := v][p] == v
  {
  }

  lemma {:induction false} LiveMem<T>(items: seq<Slot<T>>, x: T)
    ensures x in Live(items) <==> exists p :: 0 <= p < |items| && items[p] == Item(x)
    decreases |items|
  {
    if items != [] {
      var n := |items| - 1;
      LiveMem(items[..n], x);
      if x in Live(items) && x !in Live(items[..n]) {
        assert items[n] == Item(x);
      }
      if p :| 0 <= p < |items| && items[p] == Item(x) {
        if p < n {
          assert items[..n][p] == Item(x);
        }
      }
    }
  }

  /** With no item in two live slots, iteration yields no item twice. */
  lemma {:induction false} LiveDistinct<T>(items: seq<Slot<T>>)
    requires forall p, q :: 0 <= p < q < |items| && items[p].Item? && items[q].Item? ==>
      items[p].value != items[q].value
    ensures Distinct(Live(items))
    decreases |items|
  {
    if items != [] {
      var n := |items| - 1;
      LiveDistinct(items[..n]);
      if items[n].Item? {
        LiveMem(items[..n], items[n].value);
      }
    }
  }

  /** Slots that are all sentinels contribute nothing. */
  lemma {:induction false} LiveNone<T>(items: seq<Slot<T>>)
    requires forall p :: 0 <= p < |items| ==> items[p].Missing?
    ensures Live(items) == []
    decreases |items|
  {
    if items != [] {
      LiveNone(items[..|items| - 1]);
    }
  }

  /** With dead indices sorted and exactly the sentinel slots, the first `r`
      slots hold `r - k` live items when `dead[..k]` are the dead indices
      below `r`. */
  lemma {:induction false} DeadPrefix<T>(items: seq<Slot<T>>, dead: seq<nat>, r: nat, k: nat)
    requires DeadSorted(dead) && DeadSlots(items, dead) && MissingDead(items, dead)
    requires r <= |items| && k <= |dead|
    requires forall j :: 0 <= j < k ==> dead[j] < r
    requires k < |dead| ==> dead[k] >= r
    ensures |Live(items[..r])| == r - k
    decreases r
  {
    if r > 0 {
      var q := r - 1;
      assert items[..r][..q] == items[..q];
      if items[q].Missing? {
        var m :| 0 <= m < |dead| && dead[m] == q;
        assert m < k;
        assert dead[k - 1] == q;
        DeadPrefix(items, dead, q, k - 1);
      } else {
        forall j | 0 <= j < k
          ensures dead[j] < q
        {
          assert dead[j] != q;
        }
        DeadPrefix(items, dead, q, k);
      }
    }
  }

  // =====================================================================
  // Consequences of the invariant

  /** Iteration yields each member once, and exactly the members. */
  lemma ValidElements<T>(s: ISet<T>)
    requires Valid(s)
    ensures Distinct(Elements(s))
    ensures forall x :: x in Elements(s) <==> x in s.index
    ensures forall i :: 0 <= i < |Elements(s)| ==> Elements(s)[i] in s.index
  {
    LiveDistinct(s.items);
    forall x
      ensures x in Elements(s) <==> x in s.index
    {
      LiveMem(s.items, x);
    }
    forall i | 0 <= i < |Elements(s)|
      ensures Elements(s)[i] in s.index
    {
      LiveMem(s.items, Elements(s)[i]);
    }
  }

  lemma {:induction false} DistinctCard<T>(xs: seq<T>)
    requires Distinct(xs)
    ensures |set x | x in xs| == |xs|
    decreases |xs|
  {
    if xs != [] {
      var n := |xs| - 1;
      DistinctCard(xs[..n]);
      assert (set x | x in xs) == (set x | x in xs[..n]) + {xs[n]};
      assert xs[n] !in (set x | x in xs[..n]);
    }
  }

  /** `len(s)` counts the dictionary; it is the number of items iteration
      yields, and the slot list is that long plus one slot per dead index. */
  lemma ValidLength<T>(s: ISet<T>)
    requires Valid(s)
    ensures |s.index| == |Elements(s)|
    ensures |s.items| == |Elements(s)| + |s.dead|
  {
    ValidElements(s);
    DistinctCard(Elements(s));
    var keys := set x | x in Elements(s);
    forall y | y in keys
      ensures y in s.index.Keys
    {
      LiveMem(s.items, y);
    }
    forall y | y in s.index.Keys
      ensures y in keys
    {
      LiveMem(s.items, y);
    }
    assert s.index.Keys == keys;
    DeadPrefix(s.items, s.dead, |s.items|, |s.dead|);
    assert s.items[..|s.items|] == s.items;
  }

  // =====================================================================
  // add, update and construction

  /** `add(x)`: an unseen item goes into a new slot at the end of the
      list, recorded in the dictionary under the list's old length. */
  function Add<T(==)>(s: ISet<T>, x: T): ISet<T> {
    if x in s.index then s
    else ISet(s.index[x := |s.items|], s.items + [Item(x)], s.dead)
  }

  /** `add` appends an unseen item to the iteration order and leaves a
      member where it is. */
  lemma AddKeeps<T>(s: ISet<T>, x: T)
    requires Valid(s)
    ensures Valid(Add(s, x))
    ensures Tidy(s) ==> Tidy(Add(s, x))
    ensures Elements(Add(s, x)) == if x in s.index then Elements(s) else Elements(s) + [x]
    ensures |Add(s, x).index| == if x in s.index then |s.index| else |s.index| + 1
  {
    if x !in s.index {
      var r := Add(s, x);
      assert r.items[..|s.items|] == s.items;
      assert forall p :: 0 <= p < |s.items| ==> r.items[p] == s.items[p];
    }
  }

  /** `update(xs)`: `add` each item in turn. */
  function AddAll<T(==)>(s: ISet<T>, xs: seq<T>): ISet<T>
    decreases |xs|
  {
    if xs == [] then s else Add(AddAll(s, xs[..|xs| - 1]), xs[|xs| - 1])
  }

  /** `IndexedSet(xs)` */
  function FromSeq<T(==)>(xs: seq<T>): ISet<T> {
    AddAll(Empty(), xs)
  }

  /** The items of `xs` without repeats, each where it first occurs: an
      independent statement of what insertion order means. */
  function Dedup<T(==)>(xs: seq<T>): (r: seq<T>)
    ensures Distinct(r)
    ensures forall x :: x in r ==> x in xs
    ensures forall i :: 0 <= i < |xs| ==> xs[i] in r
    decreases |xs|
  {
    if xs == [] then []
    else
      var d := Dedup(xs[..|xs| - 1]);
      var x := xs[|xs| - 1];
      if x in d then d else d + [x]
  }

  lemma AppendSnoc<T>(a: seq<T>, b: seq<T>, j: nat)
    requires 0 < j <= |b|
    ensures a + b[..j] == (a + b[..j - 1]) + [b[j - 1]]
  {
  }

  lemma DedupSnoc<T>(a: seq<T>, x: T)
    ensures Dedup(a + [x]) == if x in Dedup(a) then Dedup(a) else Dedup(a) + [x]
  {
    assert (a + [x])[..|a + [x]| - 1] == a;
  }

  lemma {:induction false} DedupDistinct<T>(xs: seq<T>)
    requires Distinct(xs)
    ensures Dedup(xs) == xs
    decreases |xs|
  {
    if xs != [] {
      var n := |xs| - 1;
      DedupDistinct(xs[..n]);
      assert xs[..n] + [xs[n]] == xs;
      DedupSnoc(xs[..n], xs[n]);
    }
  }

  /** Deduplicating after a repeat-free prefix keeps that prefix. */
  lemma {:induction false} DedupKeepsPrefix<T>(a: seq<T>, b: seq<T>)
    requires Distinct(a)
    ensures |a| <= |Dedup(a + b)| && Dedup(a + b)[..|a|] == a
    decreases |b|
  {
    if b == [] {
      assert a + b == a;
      DedupDistinct(a);
    } else {
      var n := |b| - 1;
      assert a + b == (a + b[..n]) + [b[n]];
      DedupKeepsPrefix(a, b[..n]);
      DedupSnoc(a + b[..n], b[n]);
    }
  }

  lemma AddStep<T>(t: ISet<T>, x: T)
    requires Tidy(t)
    ensures Tidy(Add(t, x))
    ensures Elements(Add(t, x)) == if x in Elements(t) then Elements(t) else Elements(t) + [x]
  {
    AddKeeps(t, x);
    ValidElements(t);
  }

  /** `update` appends, in first-occurrence order, the items not yet
      members. */
  lemma {:induction false} AddAllKeeps<T>(s: ISet<T>, xs: seq<T>)
    requires Tidy(s)
    ensures Tidy(AddAll(s, xs))
    ensures Elements(AddAll(s, xs)) == Dedup(Elements(s) + xs)
    decreases |xs|
  {
    if xs == [] {
      ValidElements(s);
      assert Elements(s) + xs == Elements(s);
      DedupDistinct(Elements(s));
    } else {
      var n := |xs| - 1;
      AddAllKeeps(s, xs[..n]);
      var t := AddAll(s, xs[..n]);
      assert AddAll(s, xs) == Add(t, xs[n]);
      AddStep(t, xs[n]);
      AppendSnoc(Elements(s), xs, |xs|);
      assert xs[..|xs|] == xs;
      DedupSnoc(Elements(s) + xs[..n], xs[n]);
    }
  }

  /** `IndexedSet(xs)` iterates the items of `xs` in first-occurrence
      order, each once. */
  lemma FromSeqElements<T>(xs: seq<T>)
    ensures Tidy(FromSeq(xs)) && Elements(FromSeq(xs)) == Dedup(xs)
  {
    AddAllKeeps(Empty(), xs);
    assert [] + xs == xs;
  }

  lemma {:induction false} DedupRepeatedPrefix<T>(p: seq<T>, q: seq<T>, j: nat)
    requires Distinct(q) && |p| <= j <= |q| && q[..|p|] == p
    ensures Dedup(p + q[..j]) == q[..j]
    decreases j
  {
    if j == |p| {
      DedupRepeatedBase(p, q);
    } else {
      var a := p + q[..j - 1];
      DedupRepeatedPrefix(p, q, j - 1);
      DedupRepeatedStep(p, q, j, a);
    }
  }

  lemma DedupRepeatedBase<T>(p: seq<T>, q: seq<T>)
    requires Distinct(q) && |p| <= |q| && q[..|p|] == p
    ensures Dedup(p + q[..|p|]) == q[..|p|]
  {
    DistinctPrefix(q, |p|);
    DedupSelf(p, p, |p|);
    assert p[..|p|] == p;
  }

  lemma DedupRepeatedStep<T>(p: seq<T>, q: seq<T>, j: nat, a: seq<T>)
    requires Distinct(q) && 0 < j <= |q| && a == p + q[..j - 1] && Dedup(a) == q[..j - 1]
    ensures Dedup(p + q[..j]) == q[..j]
  {
    DedupFreshStep(a, q, j);
    AppendSnoc(p, q, j);
  }

  lemma DistinctPrefix<T>(q: seq<T>, j: nat)
    requires Distinct(q) && j <= |q|
    ensures Distinct(q[..j])
  {
  }

  /** One more item of a repeat-free `q` extends its deduplicated prefix. */
  lemma DedupFreshStep<T>(a: seq<T>, q: seq<T>, j: nat)
    requires Distinct(q) && 0 < j <= |q| && Dedup(a) == q[..j - 1]
    ensures Dedup(a + [q[j - 1]]) == q[..j]
  {
    DedupSnoc(a, q[j - 1]);
    assert q[j - 1] !in q[..j - 1];
    assert q[..j - 1] + [q[j - 1]] == q[..j];
  }

  /** Appending items that already occur changes nothing. */
  lemma {:induction false} DedupSelf<T>(a: seq<T>, b: seq<T>, j: nat)
    requires Distinct(a) && j <= |b| && forall i :: 0 <= i < |b| ==> b[i] in a
    ensures Dedup(a + b[..j]) == a
    decreases j
  {
    if j == 0 {
      assert a + b[..j] == a;
      DedupDistinct(a);
    } else {
      DedupSelf(a, b, j - 1);
      AppendSnoc(a, b, j);
      DedupSnoc(a + b[..j - 1], b[j - 1]);
    }
  }

  /** `IndexedSet(range(4) + range(8))` iterates 0..7: a repeat of a prefix
      adds nothing. */
  lemma RepeatedPrefixIterates<T>(p: seq<T>, q: seq<T>)
    requires Distinct(q) && |p| <= |q| && q[..|p|] == p
    ensures Elements(FromSeq(p + q)) == q
  {
    FromSeqElements(p + q);
    DedupRepeatedPrefix(p, q, |q|);
    assert q[..|q|] == q;
  }

  // =====================================================================
  // remove, _cull and _compact

  /** `bisect.insort(a, x)`: `x` goes after every element not greater than it. */
  function Insort(a: seq<nat>, x: nat): (r: seq<nat>)
    ensures |r| == |a| + 1
    ensures forall y :: y in r <==> y in a || y == x
    decreases |a|
  {
    if a == [] then [x]
    else if x < a[0] then [x] + a
    else [a[0]] + Insort(a[1..], x)
  }

  /** Inserting a new index into a strictly ascending list keeps it so. */
  lemma {:induction false} InsortSorted(a: seq<nat>, x: nat)
    requires DeadSorted(a) && x !in a
    ensures DeadSorted(Insort(a, x))
    decreases |a|
  {
    if a != [] && x >= a[0] {
      assert DeadSorted(a[1..]);
      InsortSorted(a[1..], x);
      var r := Insort(a[1..], x);
      forall i | 0 <= i < |r|
        ensures a[0] < r[i]
      {
        assert r[i] in r;
      }
    }
  }

  /** The items other than `x`. */
  function Other<T(==)>(x: T): T -> bool {
    y => y != x
  }

  /** What `remove(x)` does before culling: `x` leaves the dictionary, its
      dead index is inserted into `dead_indices` and its slot becomes the
      sentinel. */
  function Unlist<T(==)>(s: ISet<T>, x: T): ISet<T>
    requires x in s.index && s.index[x] < |s.items|
  {
    var p := s.index[x];
    ISet(s.index - {x}, s.items[p := Missing], Insort(s.dead, p))
  }

  lemma FilterOut<T>(a: seq<T>, x: T, b: seq<T>)
    requires Distinct(a + [x] + b)
    ensures PyList.Filter(a + [x] + b, Other(x)) == a + b
  {
    var e := a + [x] + b;
    forall i | 0 <= i < |a|
      ensures Other(x)(a[i])
    {
      assert e[i] == a[i] && e[|a|] == x;
    }
    forall i | 0 <= i < |b|
      ensures Other(x)(b[i])
    {
      assert e[|a| + 1 + i] == b[i] && e[|a|] == x;
    }
    PyList.FilterConcat(a + [x], b, Other(x));
    PyList.FilterConcat(a, [x], Other(x));
    PyList.FilterKeepsAll(a, Other(x));
    PyList.FilterKeepsAll(b, Other(x));
    assert PyList.Filter([x], Other(x)) == [] by {
      assert [x][1..] == [];
    }
  }

  /** Unlisting keeps the invariant ... */
  lemma UnlistValid<T>(s: ISet<T>, x: T)
    requires Valid(s) && x in s.index
    ensures Valid(Unlist(s, x))
  {
    var p := s.index[x];
    var r := Unlist(s, x);
    assert p !in s.dead by {
      if i :| 0 <= i < |s.dead| && s.dead[i] == p {
        assert s.items[p].Missing?;
      }
    }
    InsortSorted(s.dead, p);
    UnlistSlots(s.items, s.dead, p);
    UnlistIndex(s.index, s.items, x);
  }

  lemma UnlistSlots<T>(items: seq<Slot<T>>, dead: seq<nat>, p: nat)
    requires DeadSlots(items, dead) && MissingDead(items, dead) && p < |items|
    ensures DeadSlots(items[p := Missing], Insort(dead, p))
    ensures MissingDead(items[p := Missing], Insort(dead, p))
  {
    var d := Insort(dead, p);
    forall i | 0 <= i < |d|
      ensures d[i] < |items| && items[p := Missing][d[i]].Missing?
    {
      assert d[i] in d;
      if d[i] != p {
        var j :| 0 <= j < |dead| && dead[j] == d[i];
      }
    }
  }

  lemma UnlistIndex<T>(index: map<T, nat>, items: seq<Slot<T>>, x: T)
    requires IndexLive(index, items) && LiveIndexed(index, items) && x in index
    ensures IndexLive(index - {x}, items[index[x] := Missing])
    ensures LiveIndexed(index - {x}, items[index[x] := Missing])
  {
  }

  /** ... and takes `x` out of the iteration order, leaving the other
      items in order. */
  lemma UnlistKeeps<T>(s: ISet<T>, x: T)
    requires Valid(s) && x in s.index
    ensures Valid(Unlist(s, x))
    ensures Elements(Unlist(s, x)) == PyList.Filter(Elements(s), Other(x))
  {
    UnlistValid(s, x);
    ValidElements(s);
    UnlistLive(s.items, s.index[x], x);
  }

  lemma UnlistLive<T>(items: seq<Slot<T>>, p: nat, x: T)
    requires p < |items| && items[p] == Item(x) && Distinct(Live(items))
    ensures Live(items[p := Missing]) == PyList.Filter(Live(items), Other(x))
  {
    var r := items[p := Missing];
    LiveSplit(items, p);
    LiveSplit(r, p);
    UpdateAround(items, p, Missing);
    LiveOne(items[p]);
    LiveOne(r[p]);
    DropMiddle(Live(items), Live(r), Live(items[..p]), x, Live(items[p + 1..]));
  }

  /** Filtering `x` out of a list without repeats in which it occurs once,
      between `a` and `b`, leaves `a` followed by `b`. */
  lemma DropMiddle<T>(l: seq<T>, l': seq<T>, a: seq<T>, x: T, b: seq<T>)
    requires l == a + [x] + b && l' == a + [] + b && Distinct(l)
    ensures l' == PyList.Filter(l, Other(x))
  {
    assert a + [] + b == a + b;
    FilterOut(a, x, b);
  }

  /** `del xs[-n:]` for `n >= 1`. */
  function Chop<X>(xs: seq<X>, n: nat): seq<X> {
    xs[..if n <= |xs| then |xs| - n else 0]
  }

  /** How many of the last dead indices are consecutive, having counted
      `n` of them so far: the trailing-trim loop of `_cull` as intended. */
  function TrailRun(dead: seq<nat>, n: nat): (r: nat)
    requires 1 <= n <= |dead|
    ensures n <= r <= |dead|
    decreases |dead| - n
  {
    if n < |dead| && dead[|dead| - n - 1] + 1 == dead[|dead| - n] then TrailRun(dead, n + 1) else n
  }

  /** The run found ends the slot list and cannot be extended. */
  lemma {:induction false} TrailRunEnds(dead: seq<nat>, n: nat, len: int)
    requires 1 <= n <= |dead|
    requires forall i :: |dead| - n <= i < |dead| ==> dead[i] == len - |dead| + i
    ensures forall i :: |dead| - TrailRun(dead, n) <= i < |dead| ==> dead[i] == len - |dead| + i
    ensures TrailRun(dead, n) < |dead| ==> dead[|dead| - TrailRun(dead, n) - 1] != len - TrailRun(dead, n) - 1
    decreases |dead| - n
  {
    if n < |dead| && dead[|dead| - n - 1] + 1 == dead[|dead| - n] {
      TrailRunEnds(dead, n + 1, len);
    }
  }

  /** `_compact` as intended: the live items moved down over the dead slots
      in order, each re-indexed under its new slot. */
  function Compact<T(==)>(s: ISet<T>): ISet<T> {
    if s.dead == [] then s
    else
      var xs := Live(s.items);
      ISet(Positions(xs), Wrap(xs), [])
  }

  function Wrap<T>(xs: seq<T>): (r: seq<Slot<T>>)
    ensures |r| == |xs| && forall i :: 0 <= i < |xs| ==> r[i] == Item(xs[i])
  {
    seq(|xs|, i requires 0 <= i < |xs| => Item(xs[i]))
  }

  /** The position of the first `x` in `xs`. */
  function IndexOf<T(==)>(xs: seq<T>, x: T): (r: nat)
    requires x in xs
    ensures r < |xs| && xs[r] == x
    ensures forall i :: 0 <= i < r ==> xs[i] != x
  {
    if xs[0] == x then 0 else 1 + IndexOf(xs[1..], x)
  }

  /** Each item of `xs` under its position. */
  function Positions<T(==)>(xs: seq<T>): map<T, nat> {
    map x | x in xs :: IndexOf(xs, x)
  }

  lemma {:induction false} LiveWrap<T>(xs: seq<T>)
    ensures Live(Wrap(xs)) == xs
    decreases |xs|
  {
    if xs != [] {
      var n := |xs| - 1;
      assert Wrap(xs)[..n] == Wrap(xs[..n]);
      LiveWrap(xs[..n]);
      assert xs[..n] + [xs[n]] == xs;
    }
  }

  /** Slots holding a repeat-free sequence, each indexed under its
      position, satisfy the invariant with no dead slot. */
  lemma PackedTidy<T>(xs: seq<T>)
    requires Distinct(xs)
    ensures Tidy(ISet(Positions(xs), Wrap(xs), []))
  {
    var r := ISet(Positions(xs), Wrap(xs), []);
    forall p | 0 <= p < |r.items| && r.items[p].Item?
      ensures r.items[p].value in r.index && r.index[r.items[p].value] == p
    {
      assert r.items[p].value == xs[p];
      assert xs[IndexOf(xs, xs[p])] == xs[p];
    }
  }

  /** Compaction keeps the members and their order and leaves no dead slot. */
  lemma CompactKeeps<T>(s: ISet<T>)
    requires Valid(s)
    ensures Tidy(Compact(s))
    ensures Elements(Compact(s)) == Elements(s)
    ensures Compact(s).index.Keys == s.index.Keys
  {
    if s.dead != [] {
      var xs := Live(s.items);
      ValidElements(s);
      PackedTidy(xs);
      LiveWrap(xs);
      var m := Positions(xs);
      assert Compact(s).index == m;
      forall y | y in m.Keys
        ensures y in s.index.Keys
      {
        assert y in xs;
      }
      forall y | y in s.index.Keys
        ensures y in m.Keys
      {
        assert y in xs;
      }
    }
  }

  /** Trimming the trailing run of dead slots keeps the members and their
      order and leaves a live last slot. */
  lemma TrimKeeps<T>(s: ISet<T>)
    requires Valid(s) && s.dead != [] && s.dead[|s.dead| - 1] == |s.items| - 1
    ensures var n := TrailRun(s.dead, 1);
      var r := ISet(s.index, Chop(s.items, n), Chop(s.dead, n));
      Tidy(r) && Elements(r) == Elements(s)
  {
    TrailRunEnds(s.dead, 1, |s.items|);
    TrimAt(s, TrailRun(s.dead, 1));
  }

  lemma TrimAt<T>(s: ISet<T>, n: nat)
    requires Valid(s) && 1 <= n <= |s.dead|
    requires forall i :: |s.dead| - n <= i < |s.dead| ==> s.dead[i] == |s.items| - |s.dead| + i
    requires n < |s.dead| ==> s.dead[|s.dead| - n - 1] != |s.items| - n - 1
    ensures var r := ISet(s.index, Chop(s.items, n), Chop(s.dead, n));
      Tidy(r) && Elements(r) == Elements(s)
  {
    ValidLength(s);
    var r := ISet(s.index, Chop(s.items, n), Chop(s.dead, n));
    assert r == ISet(s.index, s.items[..|s.items| - n], s.dead[..|s.dead| - n]);
    TrimLive(s.items, s.dead, n);
    TrimValid(s, n);
  }

  lemma TrailingMissing<T>(items: seq<Slot<T>>, dead: seq<nat>, n: nat, p: nat)
    requires DeadSlots(items, dead) && n <= |dead|
    requires forall i :: |dead| - n <= i < |dead| ==> dead[i] == |items| - |dead| + i
    requires |items| - n <= p < |items|
    ensures items[p].Missing?
  {
    assert dead[|dead| - (|items| - p)] == p;
  }

  /** The run of trailing dead slots holds no item. */
  lemma TrimLive<T>(items: seq<Slot<T>>, dead: seq<nat>, n: nat)
    requires DeadSlots(items, dead) && n <= |dead| && n <= |items|
    requires forall i :: |dead| - n <= i < |dead| ==> dead[i] == |items| - |dead| + i
    ensures Live(items[..|items| - n]) == Live(items)
  {
    var len := |items|;
    forall p | len - n <= p < len
      ensures items[p].Missing?
    {
      TrailingMissing(items, dead, n, p);
    }
    LiveNone(items[len - n..]);
    LiveAppend(items[..len - n], items[len - n..]);
    assert items[..len - n] + items[len - n..] == items;
  }

  lemma TrimValid<T>(s: ISet<T>, n: nat)
    requires Valid(s) && 1 <= n <= |s.dead| && n <= |s.items|
    requires forall i :: |s.dead| - n <= i < |s.dead| ==> s.dead[i] == |s.items| - |s.dead| + i
    requires n < |s.dead| ==> s.dead[|s.dead| - n - 1] != |s.items| - n - 1
    ensures Tidy(ISet(s.index, s.items[..|s.items| - n], s.dead[..|s.dead| - n]))
  {
    var index, items, dead := s.index, s.items, s.dead;
    var len := |items|;
    var m := |dead|;
    forall i | 0 <= i < m - n
      ensures dead[i] < len - n
    {
      assert dead[i] < dead[m - n];
    }
    forall k | k in index
      ensures index[k] < len - n
    {
      if index[k] >= len - n {
        TrailingMissing(items, dead, n, index[k]);
        assert false;
      }
    }
    if len - n > 0 && items[len - n - 1].Missing? {
      assert false;
    }
  }

  /** `_cull`, with the trailing trim written as intended. */
  function Cull<T(==)>(s: ISet<T>): ISet<T> {
    if s.dead == [] then s
    else if s.index == map[] then ISet(s.index, [], [])
    else if |s.dead| > 8 && |s.dead| > |s.items| / 2 then Compact(s)
    else if s.dead[|s.dead| - 1] == |s.items| - 1 then
      var n := TrailRun(s.dead, 1);
      ISet(s.index, Chop(s.items, n), Chop(s.dead, n))
    else s
  }

  /** Culling keeps the members and their order, and leaves the last slot
      live. */
  lemma CullKeeps<T>(s: ISet<T>)
    requires Valid(s)
    ensures Tidy(Cull(s))
    ensures Elements(Cull(s)) == Elements(s)
    ensures Cull(s).index.Keys == s.index.Keys
  {
    if s.dead == [] {
    } else if s.index == map[] {
      ValidLength(s);
      assert |Elements(s)| == 0;
      assert Elements(Cull(s)) == [];
    } else if |s.dead| > 8 && |s.dead| > |s.items| / 2 {
      CompactKeeps(s);
    } else if s.dead[|s.dead| - 1] == |s.items| - 1 {
      TrimKeeps(s);
    } else {
      LastSlotLive(s);
    }
  }

  /** When the highest dead index is not the last slot, the last slot is
      live. */
  lemma LastSlotLive<T>(s: ISet<T>)
    requires Valid(s) && s.dead != [] && s.dead[|s.dead| - 1] != |s.items| - 1
    ensures s.items != [] && s.items[|s.items| - 1].Item?
  {
    var top := s.dead[|s.dead| - 1];
    assert top < |s.items|;
    var last := |s.items| - 1;
    assert forall q :: 0 <= q < |s.dead| ==> s.dead[q] < last by {
      forall q | 0 <= q < |s.dead|
        ensures s.dead[q] < last
      {
        assert s.dead[q] <= top;
      }
    }
    assert last !in s.dead;
  }

  /** `remove(x)`: KeyError for a non-member, otherwise unlist and cull. */
  function Remove<T(==)>(s: ISet<T>, x: T): Outcome<ISet<T>, ()>
    requires Valid(s)
  {
    if x !in s.index then Outcome(s, Err(KeyError))
    else Outcome(Cull(Unlist(s, x)), Ok(()))
  }

  /** `remove` takes a member out of the iteration order, keeps the others
      in order and shrinks `len` by one; removing the last member empties
      both lists. A non-member raises KeyError and changes nothing. */
  lemma RemoveSpec<T>(s: ISet<T>, x: T)
    requires Valid(s)
    ensures x !in s.index ==> Remove(s, x) == Outcome(s, Err(KeyError))
    ensures x in s.index ==>
      Remove(s, x).out.Ok? && Tidy(Remove(s, x).state)
      && Elements(Remove(s, x).state) == PyList.Filter(Elements(s), Other(x))
      && |Remove(s, x).state.index| == |s.index| - 1
      && x !in Remove(s, x).state.index
    ensures x in s.index && |s.index| == 1 ==> Remove(s, x).state.items == [] && Remove(s, x).state.dead == []
  {
    if x in s.index {
      UnlistKeeps(s, x);
      CullKeeps(Unlist(s, x));
      var u := Unlist(s, x);
      assert |u.index| == |s.index| - 1;
      assert Remove(s, x).state.index.Keys == u.index.Keys;
    }
  }

  /** `discard(x)`: `remove`, with KeyError swallowed. */
  function Discard<T(==)>(s: ISet<T>, x: T): ISet<T>
    requires Valid(s)
  {
    var o := Remove(s, x);
    if o.out == Err(KeyError) then s else o.state
  }

  /** `discard` takes `x` out of the iteration order if it is there and
      otherwise changes nothing. */
  lemma DiscardSpec<T>(s: ISet<T>, x: T)
    requires Tidy(s)
    ensures Tidy(Discard(s, x))
    ensures Elements(Discard(s, x)) == PyList.Filter(Elements(s), Other(x))
  {
    RemoveSpec(s, x);
    if x !in s.index {
      ValidElements(s);
      forall i | 0 <= i < |Elements(s)|
        ensures Other(x)(Elements(s)[i])
      {
        assert Elements(s)[i] in Elements(s);
      }
      PyList.FilterKeepsAll(Elements(s), Other(x));
    }
  }

  // =====================================================================
  // _cull, _compact and remove as written

  /** The set's three fields as the code as written may leave them: unlike
      the intended operations, `pop` as written can put a negative index
      into `dead_indices`. */
  datatype RawSet<T(==)> = RawSet(index: map<T, nat>, items: seq<Slot<T>>, dead: seq<int>)

  function Raw<T(==)>(s: ISet<T>): RawSet<T> {
    RawSet(s.index, s.items, s.dead)
  }

  /** The trailing-trim loop of `_cull` as written, having counted `n`
      dead slots: it continues while `ded[-n] == ded[-(n + 1)] - 1`, a
      comparison that reads the ascending list backwards, and
      `ded[-(n + 1)]` raises IndexError once `n` is the list's length. */
  function TrimCountAsWritten(dead: seq<int>, n: nat): Result<nat>
    requires 1 <= n <= |dead|
    decreases |dead| - n
  {
    if n + 1 > |dead| then Err(IndexError)
    else if dead[|dead| - n] + 1 == dead[|dead| - n - 1] then TrimCountAsWritten(dead, n + 1)
    else Ok(n)
  }

  /** The copying loop of `_compact` as written. `skip` and `ded_index`
      start at 1 and always step together, so both are `k`: slot `i` takes
      the slot `i + k` once `k` has stepped past the dead indices met so
      far, and `ded[k]` raises IndexError once `k` runs off the list. Both
      slot positions are Python list indices, counted from the end when
      negative, which a negative `ded[0]` makes them. Returns the slot list
      as it stands when the loop ends or raises. */
  function ShiftAsWritten<T>(items: seq<Slot<T>>, dead: seq<int>, i: int, k: nat, end: int): Outcome<seq<Slot<T>>, ()>
    requires 1 <= k
    decreases end - i, |dead| - k
  {
    if i >= end then Outcome(items, Ok(()))
    else if k >= |dead| then Outcome(items, Err(IndexError))
    else if i + k == dead[k] then ShiftAsWritten(items, dead, i, k + 1, end)
    else match PyGet(items, i + k)
      case Err(e) => Outcome(items, Err(e))
      case Ok(v) =>
        if !(-|items| <= i < |items|) then Outcome(items, Err(IndexError))
        else ShiftAsWritten(items[if i < 0 then i + |items| else i := v], dead, i + 1, k, end)
  }

  /** `_compact` as written: the copying loop over
      `range(ded[0], len(items) - len(ded))`, then the last `len(ded)`
      slots deleted and `dead_indices` emptied. The dictionary is left as
      it was. */
  function CompactAsWritten<T(==)>(s: RawSet<T>): Outcome<RawSet<T>, ()> {
    if s.dead == [] then Outcome(s, Ok(()))
    else
      var o := ShiftAsWritten(s.items, s.dead, s.dead[0], 1, |s.items| - |s.dead|);
      if o.out.Err? then Outcome(RawSet(s.index, o.state, s.dead), o.out)
      else Outcome(RawSet(s.index, Chop(o.state, |s.dead|), []), Ok(()))
  }

  /** `_cull` as written. */
  function CullAsWritten<T(==)>(s: RawSet<T>): Outcome<RawSet<T>, ()> {
    if s.dead == [] then Outcome(s, Ok(()))
    else if s.index == map[] then Outcome(RawSet(s.index, [], []), Ok(()))
    else if |s.dead| > 8 && |s.dead| > |s.items| / 2 then CompactAsWritten(s)
    else if s.dead[|s.dead| - 1] == |s.items| - 1 then
      match TrimCountAsWritten(s.dead, 1)
      case Err(e) => Outcome(s, Err(e))
      case Ok(n) => Outcome(RawSet(s.index, Chop(s.items, n), Chop(s.dead, n)), Ok(()))
    else Outcome(s, Ok(()))
  }

  /** `remove(x)` as written: the same unlisting, then `_cull` as written. */
  function RemoveAsWritten<T(==)>(s: ISet<T>, x: T): Outcome<RawSet<T>, ()>
    requires Valid(s)
  {
    if x !in s.index then Outcome(Raw(s), Err(KeyError))
    else CullAsWritten(Raw(Unlist(s, x)))
  }

  /** On a strictly ascending list the backwards comparison never holds, so
      the trim either raises IndexError (one dead slot) or removes exactly
      one slot, however long the trailing run of dead slots is. */
  lemma CullTrimAsWritten<T>(s: ISet<T>)
    requires Valid(s) && s.dead != [] && s.index != map[]
    requires !(|s.dead| > 8 && |s.dead| > |s.items| / 2)
    requires s.dead[|s.dead| - 1] + 1 == |s.items|
    ensures |s.dead| == 1 ==> CullAsWritten(Raw(s)) == Outcome(Raw(s), Err(IndexError))
    ensures |s.dead| > 1 ==>
      CullAsWritten(Raw(s)) == Outcome(Raw(ISet(s.index, Chop(s.items, 1), Chop(s.dead, 1))), Ok(()))
  {
    if |s.dead| > 1 {
      assert s.dead[|s.dead| - 2] < s.dead[|s.dead| - 1];
    }
  }

  /** Removing the newest of two or more members of a set with no dead
      slots raises IndexError from `_cull`, leaving the slot dead; the
      intended `remove` succeeds. */
  lemma RemoveNewestFailsAsWritten<T>(s: ISet<T>, x: T, y: T)
    requires Valid(s) && s.dead == [] && x in s.index && s.index[x] + 1 == |s.items|
    requires y in s.index && y != x
    ensures RemoveAsWritten(s, x) == Outcome(Raw(Unlist(s, x)), Err(IndexError))
    ensures Remove(s, x).out == Ok(())
  {
    var u := Unlist(s, x);
    assert u.dead == [s.index[x]];
    assert y in u.index;
    CullTrimAsWritten(u);
  }

  /** Strictly ascending indices are at least as far apart as their
      positions. */
  lemma {:induction false} DeadGap(dead: seq<nat>, a: nat, b: nat)
    requires DeadSorted(dead) && a <= b < |dead|
    ensures dead[a] + (b - a) <= dead[b]
    decreases b - a
  {
    if a < b {
      DeadGap(dead, a + 1, b);
    }
  }

  /** While the last slot is live the copying loop never finishes: each
      step keeps `ded[k] >= i + k`, so `i` stays below the loop's end as
      long as `k` has dead indices left, and `k` runs off the list first. */
  lemma {:induction false} ShiftFails<T>(items: seq<Slot<T>>, dead: seq<nat>, i: nat, k: nat, end: int)
    requires DeadSorted(dead) && 1 <= k <= |dead|
    requires end + |dead| == |items| && dead[|dead| - 1] + 2 <= |items|
    requires i < end
    requires k < |dead| ==> i + k <= dead[k]
    ensures ShiftAsWritten(items, dead, i, k, end).out == Err(IndexError)
    decreases end - i, |dead| - k
  {
    if k < |dead| {
      if i + k == dead[k] {
        if k + 1 < |dead| {
          assert dead[k] < dead[k + 1];
        }
        ShiftFails(items, dead, i, k + 1, end);
      } else if i + k < |items| {
        DeadGap(dead, k, |dead| - 1);
        ShiftFails(items[i := items[i + k]], dead, i + 1, k, end);
      }
    }
  }

  /** `_compact` raises IndexError whenever a live slot follows the last
      dead one, leaving the dictionary and the dead list as they were. */
  lemma CompactFailsAsWritten<T>(s: ISet<T>)
    requires Valid(s) && s.dead != [] && s.items != [] && s.items[|s.items| - 1].Item?
    ensures CompactAsWritten(Raw(s)).out == Err(IndexError)
    ensures CompactAsWritten(Raw(s)).state.index == s.index && CompactAsWritten(Raw(s)).state.dead == s.dead
  {
    var d := |s.dead|;
    assert s.dead[d - 1] < |s.items| && s.items[s.dead[d - 1]].Missing?;
    DeadGap(s.dead, 0, d - 1);
    if 1 < d {
      assert s.dead[0] < s.dead[1];
    }
    ShiftFails(s.items, s.dead, s.dead[0], 1, |s.items| - d);
  }

  /** When `_compact` does finish it leaves the dictionary unchanged, so
      it names slots that have moved or no longer exist: here `a` moves
      from slot 1 to slot 0 and the dictionary still says 1. */
  lemma CompactStaleAsWritten<T>(a: T)
    ensures Valid(ISet(map[a := 1], [Missing, Item(a), Missing], [0, 2]))
    ensures CompactAsWritten(RawSet(map[a := 1], [Missing, Item(a), Missing], [0, 2]))
      == Outcome(RawSet(map[a := 1], [Item(a)], []), Ok(()))
    ensures !Valid(ISet(map[a := 1], [Item(a)], []))
  {
    var items: seq<Slot<T>> := [Missing, Item(a), Missing];
    var dead: seq<nat> := [0, 2];
    var moved := items[0 := items[1]];
    assert moved == [Item(a), Item(a), Missing];
    assert ShiftAsWritten(moved, dead, 1, 1, 1) == Outcome(moved, Ok(()));
    assert ShiftAsWritten(items, dead, 0, 1, 1) == Outcome(moved, Ok(()));
    assert Chop(moved, 2) == [Item(a)];
  }

  // =====================================================================
  // __getitem__ and pop

  /** `xs[i]` with Python's negative indexing. */
  function PyGet<X>(xs: seq<X>, i: int): (r: Result<X>)
    ensures r.Ok? <==> -|xs| <= i < |xs|
    ensures 0 <= i < |xs| ==> r == Ok(xs[i])
  {
    if 0 <= i < |xs| then Ok(xs[i])
    else if -|xs| <= i < 0 then Ok(xs[|xs| + i])
    else Err(IndexError)
  }

  /** `bisect.bisect_left(a, x)` on an ascending list: the number of
      elements below `x`. */
  function BisectLeft(a: seq<nat>, x: int): (r: nat)
    ensures r <= |a|
    ensures forall j :: 0 <= j < r ==> a[j] < x
    ensures r < |a| ==> a[r] >= x
  {
    if a == [] || a[0] >= x then 0 else 1 + BisectLeft(a[1..], x)
  }

  /** `s[index]` as written: the real slot is taken as the logical index
      plus the number of dead indices below the logical index, and
      whatever that slot holds is returned, the sentinel included. */
  function GetItemAsWritten<T(==)>(s: ISet<T>, index: int): Result<Slot<T>> {
    var i := if index < 0 then index + |s.index| else index;
    PyGet(s.items, i + BisectLeft(s.dead, i))
  }

  /** The number of dead slots before the slot of the `i`-th member,
      having passed `k` of them: each dead index not beyond `i + k` pushes
      the target one slot further. */
  function ScanDead(dead: seq<nat>, i: nat, k: nat): (r: nat)
    requires k <= |dead|
    ensures k <= r <= |dead|
    decreases |dead| - k
  {
    if k < |dead| && dead[k] <= i + k then ScanDead(dead, i, k + 1) else k
  }

  lemma {:induction false} ScanDeadEnds(dead: seq<nat>, i: nat, k: nat)
    requires k <= |dead|
    requires forall j :: 0 <= j < k ==> dead[j] <= i + j
    ensures forall j :: 0 <= j < ScanDead(dead, i, k) ==> dead[j] <= i + j
    ensures ScanDead(dead, i, k) < |dead| ==> dead[ScanDead(dead, i, k)] > i + ScanDead(dead, i, k)
    decreases |dead| - k
  {
    if k < |dead| && dead[k] <= i + k {
      ScanDeadEnds(dead, i, k + 1);
    }
  }

  /** Slot `i + ScanDead(dead, i, 0)` holds the `i`-th member. */
  lemma SlotFound<T>(s: ISet<T>, i: nat)
    requires Valid(s) && i < |Elements(s)|
    ensures i + ScanDead(s.dead, i, 0) < |s.items|
    ensures s.items[i + ScanDead(s.dead, i, 0)] == Item(Elements(s)[i])
  {
    ValidLength(s);
    var k := ScanDead(s.dead, i, 0);
    ScanDeadEnds(s.dead, i, 0);
    if k < |s.dead| {
      assert s.dead[k] < |s.items|;
    }
    SlotAt(s.items, s.dead, i, k);
  }

  /** With `k` dead indices at or below `i + k` and the next one above it,
      slot `i + k` is live and holds the `i`-th live item. */
  lemma SlotAt<T>(items: seq<Slot<T>>, dead: seq<nat>, i: nat, k: nat)
    requires DeadSorted(dead) && DeadSlots(items, dead) && MissingDead(items, dead)
    requires k <= |dead| && i + k < |items|
    requires forall j :: 0 <= j < k ==> dead[j] <= i + j
    requires k < |dead| ==> dead[k] > i + k
    ensures i < |Live(items)| && items[i + k] == Item(Live(items)[i])
  {
    LiveBefore(items, dead, i, k);
    SlotSplit(items, i + k, i);
  }

  /** ... since `i` live slots come before it and it is not dead. */
  lemma LiveBefore<T>(items: seq<Slot<T>>, dead: seq<nat>, i: nat, k: nat)
    requires DeadSorted(dead) && DeadSlots(items, dead) && MissingDead(items, dead)
    requires k <= |dead| && i + k < |items|
    requires forall j :: 0 <= j < k ==> dead[j] <= i + j
    requires k < |dead| ==> dead[k] > i + k
    ensures |Live(items[..i + k])| == i && items[i + k].Item?
  {
    var r := i + k;
    forall j | 0 <= j < k
      ensures dead[j] < r
    {
    }
    DeadPrefix(items, dead, r, k);
    forall j | 0 <= j < |dead|
      ensures dead[j] != r
    {
      if j > k {
        assert dead[k] < dead[j];
      }
    }
  }

  lemma SlotSplit<T>(items: seq<Slot<T>>, p: nat, n: nat)
    requires p < |items| && |Live(items[..p])| == n && items[p].Item?
    ensures n < |Live(items)| && items[p] == Item(Live(items)[n])
  {
    assert items[..p + 1] == items[..p] + [items[p]];
    LiveAppend(items[..p], [items[p]]);
    LiveOne(items[p]);
    assert items == items[..p + 1] + items[p + 1..];
    LiveAppend(items[..p + 1], items[p + 1..]);
  }

  /** The item in slot `i + ScanDead(dead, i, 0)`: the `i`-th member in
      iteration order. */
  function Nth<T(==)>(s: ISet<T>, i: nat): (x: T)
    requires Valid(s) && i < |s.index|
    ensures |s.index| == |Elements(s)|
    ensures x == Elements(s)[i] && x in s.index
  {
    ValidLength(s);
    SlotFound(s, i);
    var p := i + ScanDead(s.dead, i, 0);
    assert s.items[p].Item?;
    s.items[p].value
  }

  /** `s[index]` as intended: the `index`-th member in iteration order,
      counting from the end for a negative index. */
  function GetItem<T(==)>(s: ISet<T>, index: int): (r: Result<T>)
    requires Valid(s)
    ensures var n := |Elements(s)|;
      var i := if index < 0 then index + n else index;
      r == if 0 <= i < n then Ok(Elements(s)[i]) else Err(IndexError)
  {
    ValidLength(s);
    var n := |s.index|;
    var i := if index < 0 then index + n else index;
    if 0 <= i < n then Ok(Nth(s, i)) else Err(IndexError)
  }

  /** `s[index]` in range reads the slot `ScanDead` locates. */
  lemma GetItemSlot<T>(s: ISet<T>, index: int, i: nat)
    requires Valid(s) && i == (if index < 0 then index + |s.index| else index) && i < |s.index|
    ensures i + ScanDead(s.dead, i, 0) < |s.items| && s.items[i + ScanDead(s.dead, i, 0)].Item?
    ensures GetItem(s, index) == Ok(s.items[i + ScanDead(s.dead, i, 0)].value)
  {
    ValidLength(s);
    SlotFound(s, i);
  }

  /** ... and out of range raises IndexError. */
  lemma GetItemOutside<T>(s: ISet<T>, index: int)
    requires Valid(s)
    requires var i := if index < 0 then index + |s.index| else index; !(0 <= i < |s.index|)
    ensures GetItem(s, index) == Err(IndexError)
  {
    ValidLength(s);
  }

  /** Once the first slot is dead, `s[0]` as written hands back the
      sentinel; the intended `s[0]` is the first remaining member. */
  lemma GetItemSentinelAsWritten<T>(s: ISet<T>)
    requires Valid(s) && s.dead != [] && s.dead[0] == 0
    ensures GetItemAsWritten(s, 0) == Ok(Missing)
    ensures Elements(s) != [] ==> GetItem(s, 0) == Ok(Elements(s)[0])
  {
    assert s.dead[0] < |s.items| && s.items[0].Missing?;
  }

  /** `item_list.pop()` followed by `del item_index_map[ret]`. */
  function TakeLast<T(==)>(s: ISet<T>): Outcome<ISet<T>, T> {
    if s.items == [] then Outcome(s, Err(IndexError))
    else
      var rest := s.items[..|s.items| - 1];
      match s.items[|s.items| - 1]
      case Missing => Outcome(ISet(s.index, rest, s.dead), Err(KeyError))
      case Item(x) =>
        if x !in s.index then Outcome(ISet(s.index, rest, s.dead), Err(KeyError))
        else Outcome(ISet(s.index - {x}, rest, s.dead), Ok(x))
  }

  /** Taking the last slot of a tidy set keeps the invariant and removes
      the last member. */
  lemma TakeLastKeeps<T>(s: ISet<T>)
    requires Tidy(s) && s.items != []
    ensures TakeLast(s).out == Ok(Elements(s)[|Elements(s)| - 1])
    ensures Valid(TakeLast(s).state)
    ensures Elements(TakeLast(s).state) == Elements(s)[..|Elements(s)| - 1]
  {
    var n := |s.items| - 1;
    var x := s.items[n].value;
    assert Elements(s) == Live(s.items[..n]) + [x];
    var t := ISet(s.index - {x}, s.items[..n], s.dead);
    forall i | 0 <= i < |s.dead|
      ensures s.dead[i] < n
    {
      assert s.items[s.dead[i]].Missing?;
    }
    forall k | k in t.index
      ensures t.index[k] < n
    {
      assert s.items[s.index[k]] == Item(k);
    }
  }

  /** `pop(index)` as intended. `None`, `-1` and `len(s)` take the last
      slot; any other index is adjusted as `s[index]` is, rejected with
      IndexError when out of range, and otherwise names the member
      `s[index]` returns, which is unlisted as `remove` does. The set is
      then culled and the member returned. */
  function Pop<T(==)>(s: ISet<T>, index: Option<int>): Outcome<ISet<T>, T>
    requires Valid(s)
  {
    if index.None? || index == Some(-1) || index == Some(|s.index|) then PopLastSlot(s)
    else PopIndex(s, index.value)
  }

  /** The path of `pop()` that takes the last slot and then culls. */
  function PopLastSlot<T(==)>(s: ISet<T>): Outcome<ISet<T>, T> {
    var t := TakeLast(s);
    if t.out.Err? then t else Outcome(Cull(t.state), t.out)
  }

  /** The path of `pop(index)` for any other index: adjusted as `s[index]`
      is, and rejected with IndexError when out of range. */
  function PopIndex<T(==)>(s: ISet<T>, index: int): Outcome<ISet<T>, T>
    requires Valid(s)
  {
    PopAdjusted(s, if index < 0 then index + |s.index| else index)
  }

  /** ... once adjusted: position `i` of the iteration order. */
  function PopAdjusted<T(==)>(s: ISet<T>, i: int): Outcome<ISet<T>, T>
    requires Valid(s)
  {
    if !(0 <= i < |s.index|) then Outcome(s, Err(IndexError))
    else TakeNth(s, i)
  }

  /** The path of `pop(index)` that takes the member at position `i`: it
      leaves the dictionary, its slot becomes dead, and the set is culled. */
  function TakeNth<T(==)>(s: ISet<T>, i: nat): Outcome<ISet<T>, T>
    requires Valid(s) && i < |s.index|
  {
    var x := Nth(s, i);
    Outcome(Cull(Unlist(s, x)), Ok(x))
  }

  /** The branch of `pop` that takes the last slot. */
  lemma PopLastIs<T>(s: ISet<T>, index: Option<int>)
    requires Valid(s) && (index.None? || index == Some(-1) || index == Some(|s.index|))
    ensures var t := TakeLast(s); Pop(s, index) == if t.out.Err? then t else Outcome(Cull(t.state), t.out)
  {
  }

  /** The branch of `pop(index)` that takes the member at position `i`, the
      index counted from the end when negative. */
  lemma PopNthIs<T>(s: ISet<T>, index: Option<int>, i: nat)
    requires Valid(s) && !(index.None? || index == Some(-1) || index == Some(|s.index|))
    requires i == (if index.value < 0 then index.value + |s.index| else index.value) && i < |s.index|
    ensures Pop(s, index) == TakeNth(s, i)
  {
    PopIndexIs(s, index.value, i);
  }

  lemma PopIndexIs<T>(s: ISet<T>, index: int, i: nat)
    requires Valid(s) && i == (if index < 0 then index + |s.index| else index) && i < |s.index|
    ensures PopIndex(s, index) == TakeNth(s, i)
  {
  }

  /** ... and an index outside the set raises IndexError. */
  lemma PopOutsideIs<T>(s: ISet<T>, index: Option<int>, i: int)
    requires Valid(s) && !(index.None? || index == Some(-1) || index == Some(|s.index|))
    requires i == (if index.value < 0 then index.value + |s.index| else index.value) && !(0 <= i < |s.index|)
    ensures Pop(s, index) == Outcome(s, Err(IndexError))
  {
  }

  /** `pop()` returns the last member and drops it from the iteration
      order; IndexError on an empty set. */
  lemma PopLastSpec<T>(s: ISet<T>, index: Option<int>)
    requires Tidy(s)
    requires index.None? || index == Some(-1) || index == Some(|s.index|)
    ensures Elements(s) == [] ==> Pop(s, index) == Outcome(s, Err(IndexError))
    ensures Elements(s) != [] ==>
      Pop(s, index).out == Ok(Elements(s)[|Elements(s)| - 1])
      && Tidy(Pop(s, index).state)
      && Elements(Pop(s, index).state) == Elements(s)[..|Elements(s)| - 1]
  {
    if s.items != [] {
      TakeLastKeeps(s);
      CullKeeps(TakeLast(s).state);
    } else {
      assert Elements(s) == [];
    }
  }

  /** `pop(i)` for another index returns `s[i]` and removes it as
      `remove` does; an index out of range raises IndexError and changes
      nothing. */
  lemma PopIndexSpec<T>(s: ISet<T>, index: int)
    requires Valid(s) && index != -1 && index != |s.index|
    ensures var n := |Elements(s)|;
      var i := if index < 0 then index + n else index;
      var o := Pop(s, Some(index));
      (!(0 <= i < n) ==> o == Outcome(s, Err(IndexError)))
      && (0 <= i < n ==>
        o.out == Ok(Elements(s)[i])
        && o.state == Remove(s, Elements(s)[i]).state
        && Tidy(o.state)
        && Elements(o.state) == PyList.Filter(Elements(s), Other(Elements(s)[i])))
  {
    ValidLength(s);
    var n := |s.index|;
    var i := if index < 0 then index + n else index;
    if 0 <= i < n {
      var x := Elements(s)[i];
      PopAt(s, index, i);
      RemoveSpec(s, x);
    } else {
      PopOutsideIs(s, Some(index), i);
    }
  }

  lemma PopAt<T>(s: ISet<T>, index: int, i: nat)
    requires Valid(s) && index != -1 && index != |s.index| && |s.index| == |Elements(s)|
    requires i == (if index < 0 then index + |s.index| else index) && i < |Elements(s)|
    ensures Elements(s)[i] in s.index
    ensures Pop(s, Some(index)) == Outcome(Remove(s, Elements(s)[i]).state, Ok(Elements(s)[i]))
  {
    var x := Nth(s, i);
    PopNthIs(s, Some(index), i);
    assert Remove(s, x).state == Cull(Unlist(s, x));
  }

  /** `pop(index)` as written. The last-slot path culls as `_cull` does.
      On the other path the real slot is computed as `__getitem__` does
      and inserted into `dead_indices` before the slot is read, as a Python
      list index: an index still negative after adjusting counts from the
      end of the slot list, and goes to the front of the dead list, all of
      whose entries are non-negative. The slot's item leaves the dictionary
      and the slot becomes the sentinel, but `ret` is never bound there, so
      after culling the call raises UnboundLocalError. */
  function PopAsWritten<T(==)>(s: ISet<T>, index: Option<int>): Outcome<RawSet<T>, T>
    requires Valid(s)
  {
    var n := |s.index|;
    if index.None? || index == Some(-1) || index == Some(n) then PopLastAsWritten(s)
    else
      var i := if index.value < 0 then index.value + n else index.value;
      PopSlotAsWritten(s, i + BisectLeft(s.dead, i))
  }

  /** The last-slot path of `pop` as written. */
  function PopLastAsWritten<T(==)>(s: ISet<T>): Outcome<RawSet<T>, T> {
    var t := TakeLast(s);
    if t.out.Err? then Outcome(Raw(t.state), t.out)
    else
      var c := CullAsWritten(Raw(t.state));
      Outcome(c.state, if c.out.Err? then Err(c.out.error) else t.out)
  }

  /** The indexed path of `pop` as written, from the real slot on. */
  function PopSlotAsWritten<T(==)>(s: ISet<T>, slot: int): Outcome<RawSet<T>, T>
    requires Valid(s)
  {
    var dead: seq<int> := if slot < 0 then [slot] + s.dead else Insort(s.dead, slot);
    match PyGet(s.items, slot)
    case Err(e) => Outcome(RawSet(s.index, s.items, dead), Err(e))
    case Ok(v) =>
      // `del item_index_map[...]` of the sentinel, or of an unlisted item
      if v.Missing? || v.value !in s.index then Outcome(RawSet(s.index, s.items, dead), Err(KeyError))
      else
        var p := if slot < 0 then slot + |s.items| else slot;
        var c := CullAsWritten(RawSet(s.index - {v.value}, s.items[p := Missing], dead));
        Outcome(c.state, Err(if c.out.Err? then c.out.error else UnboundLocalError))
  }

  /** `pop(0)` on a set of two or more members with no dead slots unlists
      the first member and then raises UnboundLocalError; the intended
      `pop(0)` returns that member. */
  lemma PopFirstFailsAsWritten<T>(s: ISet<T>, x: T, y: T)
    requires Valid(s) && s.dead == [] && s.items != [] && s.items[0] == Item(x)
    requires y in s.index && y != x
    ensures PopAsWritten(s, Some(0)) == Outcome(Raw(Unlist(s, x)), Err(UnboundLocalError))
    ensures Pop(s, Some(0)) == Outcome(Cull(Unlist(s, x)), Ok(x))
  {
    assert s.index[x] == 0;
    assert x in s.index && s.index != map[x := 0];
    assert s.items[s.index[y]] == Item(y);
    var u := Unlist(s, x);
    assert u.dead == [0];
    assert y in u.index;
  }

  /** `pop(-(len(s) + 1))` on a set with no dead slots: as written the index
      stays negative after adjusting, so the last slot is read and its
      member `y` removed, `-1` is put into `dead_indices`, and the call
      raises UnboundLocalError; the intended `pop` rejects the index with
      IndexError and changes nothing. */
  lemma PopBeforeStartAsWritten<T>(s: ISet<T>, y: T)
    requires Valid(s) && s.dead == [] && s.items != [] && s.items[|s.items| - 1] == Item(y)
    ensures var n := |s.items|;
      PopAsWritten(s, Some(-(|s.index| + 1)))
      == Outcome(if n == 1 then RawSet(map[], [], []) else RawSet(s.index - {y}, s.items[n - 1 := Missing], [-1]),
                 Err(UnboundLocalError))
    ensures Pop(s, Some(-(|s.index| + 1))) == Outcome(s, Err(IndexError))
  {
    ValidLength(s);
    var n := |s.items|;
    assert |s.index| == n && s.index[y] == n - 1;
    assert 0 !in s.dead;
    var z := s.items[0].value;
    assert s.index[z] == 0;
    LastBeforeStart(s, y, z);
    assert BisectLeft(s.dead, -1) == 0;
    PopOutsideIs(s, Some(-(|s.index| + 1)), -1);
  }

  lemma LastBeforeStart<T>(s: ISet<T>, y: T, z: T)
    requires Valid(s) && s.dead == [] && s.items != [] && s.items[|s.items| - 1] == Item(y)
    requires y in s.index && (|s.items| > 1 ==> z in s.index && z != y)
    ensures var n := |s.items|;
      PopSlotAsWritten(s, -1)
      == Outcome(if n == 1 then RawSet(map[], [], []) else RawSet(s.index - {y}, s.items[n - 1 := Missing], [-1]),
                 Err(UnboundLocalError))
  {
    var n := |s.items|;
    assert PyGet(s.items, -1) == Ok(Item(y));
    var u := RawSet(s.index - {y}, s.items[n - 1 := Missing], [-1]);
    assert [-1 as int] + s.dead == [-1];
    if n > 1 {
      assert z in u.index;
      assert CullAsWritten(u) == Outcome(u, Ok(()));
    }
  }

  /** An index below `-2 * len(s)` on a set with no dead slots: as written
      the adjusted index is put into `dead_indices` and only then found out
      of range, so IndexError leaves that index behind. */
  lemma PopFarBeforeStartAsWritten<T>(s: ISet<T>, k: nat)
    requires Valid(s) && s.dead == [] && k > |s.items| && k >= 2
    ensures PopAsWritten(s, Some(-(|s.index| + k))) == Outcome(RawSet(s.index, s.items, [-(k as int)]), Err(IndexError))
    ensures Pop(s, Some(-(|s.index| + k))) == Outcome(s, Err(IndexError))
  {
    ValidLength(s);
    FarBeforeStart(s, k);
    PopOutsideIs(s, Some(-(|s.index| + k)), -(k as int));
  }

  lemma FarBeforeStart<T>(s: ISet<T>, k: nat)
    requires Valid(s) && s.dead == [] && k > |s.items| && k >= 2 && |s.index| == |s.items|
    ensures PopAsWritten(s, Some(-(|s.index| + k))) == Outcome(RawSet(s.index, s.items, [-(k as int)]), Err(IndexError))
  {
    var index := -(|s.index| + k);
    assert index != -1 && index != |s.index| && index + |s.index| == -(k as int);
    assert BisectLeft(s.dead, -(k as int)) == 0;
    assert PyGet(s.items, -(k as int)) == Err(IndexError);
    assert [-(k as int)] + s.dead == [-(k as int)];
  }

  // =====================================================================
  // len, in, count and ==

  /** `len(s)` */
  function Len<T(==)>(s: ISet<T>): nat {
    |s.index|
  }

  /** `x in s` */
  predicate Contains<T(==)>(s: ISet<T>, x: T) {
    x in s.index
  }

  /** `s.count(x)` */
  function CountOf<T(==)>(s: ISet<T>, x: T): nat {
    if x in s.index then 1 else 0
  }

  /** `s == t` for two indexed sets: same length and same iteration. */
  predicate Equals<T(==)>(s: ISet<T>, t: ISet<T>) {
    |s.index| == |t.index| && Elements(s) == Elements(t)
  }

  lemma {:induction false} DistinctCount<T>(xs: seq<T>, x: T)
    requires Distinct(xs)
    ensures PyList.Count(xs, x) == if x in xs then 1 else 0
    decreases |xs|
  {
    if xs != [] {
      DistinctCount(xs[1..], x);
      if xs[0] == x {
        assert x !in xs[1..];
      } else {
        assert x in xs <==> x in xs[1..];
      }
    }
  }

  /** `len`, `in` and `count` read the dictionary, and agree with the
      iteration order: its length, its membership and its count; `==`
      compares iteration alone. */
  lemma QueriesAgree<T>(s: ISet<T>, t: ISet<T>, x: T)
    requires Valid(s) && Valid(t)
    ensures Len(s) == |Elements(s)|
    ensures Contains(s, x) <==> x in Elements(s)
    ensures CountOf(s, x) == PyList.Count(Elements(s), x)
    ensures Equals(s, t) <==> Elements(s) == Elements(t)
  {
    ValidLength(s);
    ValidLength(t);
    ValidElements(s);
    DistinctCount(Elements(s), x);
  }

  // =====================================================================
  // Set algebra

  /** `k in other` for every `other` in `others`. */
  predicate InAll<T(==)>(k: T, others: seq<seq<T>>) {
    forall j :: 0 <= j < |others| ==> k in others[j]
  }

  /** `k in other` for some `other` in `others`. */
  predicate InAny<T(==)>(k: T, others: seq<seq<T>>) {
    exists j :: 0 <= j < |others| && k in others[j]
  }

  /** `s.union(*others)`: a new set over `chain(s, *others)`. */
  function Union<T(==)>(s: ISet<T>, others: seq<seq<T>>): ISet<T> {
    FromSeq(Elements(s) + PyList.Flatten(others))
  }

  /** `s.intersection(*others)`: the members of `s`, in order, that every
      other holds. The one-other comprehension and the general loop with
      its `for ... else` both build this set. */
  function Intersection<T(==)>(s: ISet<T>, others: seq<seq<T>>): ISet<T> {
    FromSeq(PyList.Filter(Elements(s), k => InAll(k, others)))
  }

  /** `s.difference(*others)`: the members of `s`, in order, that no other
      holds; both code paths build this set. */
  function Difference<T(==)>(s: ISet<T>, others: seq<seq<T>>): ISet<T> {
    FromSeq(PyList.Filter(Elements(s), k => !InAny(k, others)))
  }

  /** `s.symmetric_difference(*others)`: the union less the intersection. */
  function SymmetricDifference<T(==)>(s: ISet<T>, others: seq<seq<T>>): ISet<T> {
    Difference(Union(s, others), [Elements(Intersection(s, others))])
  }

  lemma {:induction false} FilterDistinct<T>(xs: seq<T>, keep: T -> bool)
    requires Distinct(xs)
    ensures Distinct(PyList.Filter(xs, keep))
    decreases |xs|
  {
    if xs != [] {
      FilterDistinct(xs[1..], keep);
      PyList.FilterMem(xs[1..], keep, xs[0]);
      assert xs[0] !in xs[1..];
    }
  }

  /** A filtered copy of a set's iteration builds a set that iterates
      exactly that copy. */
  lemma FromFiltered<T>(s: ISet<T>, keep: T -> bool)
    requires Valid(s)
    ensures Tidy(FromSeq(PyList.Filter(Elements(s), keep)))
    ensures Elements(FromSeq(PyList.Filter(Elements(s), keep))) == PyList.Filter(Elements(s), keep)
    ensures forall x :: x in FromSeq(PyList.Filter(Elements(s), keep)).index <==> x in s.index && keep(x)
  {
    var f := PyList.Filter(Elements(s), keep);
    ValidElements(s);
    FilterDistinct(Elements(s), keep);
    FromSeqElements(f);
    DedupDistinct(f);
    ValidElements(FromSeq(f));
    forall x
      ensures x in FromSeq(f).index <==> x in s.index && keep(x)
    {
      PyList.FilterMem(Elements(s), keep, x);
    }
  }

  /** The union iterates `s` first and then each new item of the others
      where it first occurs; its members are those of `s` and of any
      other. */
  lemma UnionSpec<T>(s: ISet<T>, others: seq<seq<T>>)
    requires Valid(s)
    ensures Tidy(Union(s, others))
    ensures Elements(Union(s, others)) == Dedup(Elements(s) + PyList.Flatten(others))
    ensures |Elements(s)| <= |Elements(Union(s, others))|
    ensures Elements(Union(s, others))[..|Elements(s)|] == Elements(s)
    ensures forall x :: x in Union(s, others).index <==> x in s.index || InAny(x, others)
  {
    FromSeqElements(Elements(s) + PyList.Flatten(others));
    ValidElements(s);
    DedupKeepsPrefix(Elements(s), PyList.Flatten(others));
    forall x
      ensures x in Union(s, others).index <==> x in s.index || InAny(x, others)
    {
      UnionMem(s, others, x);
    }
  }

  lemma UnionMem<T>(s: ISet<T>, others: seq<seq<T>>, x: T)
    requires Valid(s)
    ensures x in Union(s, others).index <==> x in s.index || InAny(x, others)
  {
    var e := Elements(s) + PyList.Flatten(others);
    FromSeqElements(e);
    ValidElements(s);
    ValidElements(Union(s, others));
    PyList.FlattenMem(others, x);
    if x in e {
      var i :| 0 <= i < |e| && e[i] == x;
    }
  }

  lemma IntersectionMem<T>(s: ISet<T>, others: seq<seq<T>>, x: T)
    requires Valid(s)
    ensures x in Intersection(s, others).index <==> x in s.index && InAll(x, others)
  {
    FromFiltered(s, k => InAll(k, others));
  }

  lemma DifferenceMem<T>(s: ISet<T>, others: seq<seq<T>>, x: T)
    requires Valid(s)
    ensures x in Difference(s, others).index <==> x in s.index && !InAny(x, others)
  {
    FromFiltered(s, k => !InAny(k, others));
  }

  /** The intersection keeps the order of `s`; its members are the members
      of `s` that every other holds. */
  lemma IntersectionSpec<T>(s: ISet<T>, others: seq<seq<T>>)
    requires Valid(s)
    ensures Tidy(Intersection(s, others))
    ensures Elements(Intersection(s, others)) == PyList.Filter(Elements(s), k => InAll(k, others))
    ensures forall x :: x in Intersection(s, others).index <==> x in s.index && InAll(x, others)
  {
    FromFiltered(s, k => InAll(k, others));
  }

  /** The difference keeps the order of `s`; its members are the members
      of `s` that no other holds. */
  lemma DifferenceSpec<T>(s: ISet<T>, others: seq<seq<T>>)
    requires Valid(s)
    ensures Tidy(Difference(s, others))
    ensures Elements(Difference(s, others)) == PyList.Filter(Elements(s), k => !InAny(k, others))
    ensures forall x :: x in Difference(s, others).index <==> x in s.index && !InAny(x, others)
  {
    FromFiltered(s, k => !InAny(k, others));
  }

  /** With one other, the symmetric difference holds what exactly one of
      the two holds. */
  lemma SymmetricDifferenceSpec<T>(s: ISet<T>, other: seq<T>)
    requires Valid(s)
    ensures Tidy(SymmetricDifference(s, [other]))
    ensures forall x :: x in SymmetricDifference(s, [other]).index <==> (x in s.index <==> x !in other)
  {
    var u := Union(s, [other]);
    var i := Intersection(s, [other]);
    FromSeqElements(Elements(s) + PyList.Flatten([other]));
    FromFiltered(u, k => !InAny(k, [Elements(i)]));
    forall x
      ensures x in SymmetricDifference(s, [other]).index <==> (x in s.index <==> x !in other)
    {
      SymmetricDifferenceMem(s, other, x);
    }
  }

  lemma SymmetricDifferenceMem<T>(s: ISet<T>, other: seq<T>, x: T)
    requires Valid(s)
    ensures x in SymmetricDifference(s, [other]).index <==> (x in s.index <==> x !in other)
  {
    var u := Union(s, [other]);
    var i := Intersection(s, [other]);
    FromSeqElements(Elements(s) + PyList.Flatten([other]));
    UnionMem(s, [other], x);
    IntersectionMem(s, [other], x);
    DifferenceMem(u, [Elements(i)], x);
    FromFiltered(s, k => InAll(k, [other]));
    ValidElements(i);
    assert InAny(x, [other]) <==> x in other by {
      assert [other][0] == other;
    }
    assert InAll(x, [other]) <==> x in other by {
      assert [other][0] == other;
    }
    assert InAny(x, [Elements(i)]) <==> x in Elements(i) by {
      assert [Elements(i)][0] == Elements(i);
    }
  }

  lemma DistinctApart<T>(p: seq<T>, q: seq<T>, i: nat)
    requires Distinct(p + q) && i < |q|
    ensures q[i] !in p
  {
    assert (p + q)[|p| + i] == q[i];
    forall j | 0 <= j < |p|
      ensures p[j] != q[i]
    {
      assert (p + q)[j] == p[j];
    }
  }

  /** `IndexedSet(range(8)) - set(range(2))` iterates 2..7: taking away a
      prefix leaves the rest in order. */
  lemma DifferenceDropsPrefix<T>(s: ISet<T>, p: seq<T>, q: seq<T>)
    requires Valid(s) && Elements(s) == p + q
    ensures Elements(Difference(s, [p])) == q
  {
    var keep := k => !InAny(k, [p]);
    DifferenceSpec(s, [p]);
    ValidElements(s);
    forall i | 0 <= i < |p|
      ensures !keep(p[i])
    {
      assert p[i] in [p][0];
    }
    forall i | 0 <= i < |q|
      ensures keep(q[i])
    {
      assert (p + q)[|p| + i] == q[i];
      assert InAny(q[i], [p]) <==> q[i] in p by {
        assert [p][0] == p;
      }
      DistinctApart(p, q, i);
    }
    PyList.FilterConcat(p, q, keep);
    PyList.FilterDropsAll(p, keep);
    PyList.FilterKeepsAll(q, keep);
  }
}
