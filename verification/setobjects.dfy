/** boltons/setutils.py: the `IndexedSet` class, its three attributes kept
    as fields that the methods update in place. Each method is proved to
    leave the fields (and return) what the corresponding function of
    `SetUtils` says; the properties of those functions are proved there. */
module SetObjects {
  import opened Wrappers
  import PyList
  import opened SetUtils

  class IndexedSet<T(==)> {
    var index: map<T, nat>
    var items: seq<Slot<T>>
    var dead: seq<nat>

    function State(): ISet<T>
      reads this
    {
      ISet(index, items, dead)
    }

    /** `IndexedSet(other)` */
    constructor(other: seq<T>)
      ensures State() == FromSeq(other)
      ensures Tidy(State()) && Elements(State()) == Dedup(other)
    {
      index, items, dead := map[], [], [];
      new;
      Update(other);
      FromSeqElements(other);
    }

    /** `add(item)` */
    method Add(x: T)
      modifies this
      ensures State() == SetUtils.Add(old(State()), x)
    {
      if x !in index {
        index := index[x := |items|];
        items := items + [Item(x)];
      }
    }

    /** `update(other)` */
    method Update(xs: seq<T>)
      modifies this
      ensures State() == AddAll(old(State()), xs)
    {
      for i := 0 to |xs|
        invariant State() == AddAll(old(State()), xs[..i])
      {
        assert xs[..i + 1][..i] == xs[..i];
        Add(xs[i]);
      }
      assert xs[..|xs|] == xs;
    }

    /** `_compact`, with the copying loop's inner `while` stopped at the
        end of `dead_indices` and the moved items re-indexed afterwards. */
    method Compact()
      requires Valid(State())
      modifies this
      ensures State() == SetUtils.Compact(old(State()))
    {
      if dead == [] {
        return;
      }
      ghost var s := State();
      var a := ShiftDown(s, items, dead);
      var m := Reindex(s, index, a);
      index, items, dead := m, a, [];
    }

    /** `_cull`; its trailing-trim loop counts the whole run of dead slots
        that ends the list. */
    method Cull()
      requires Valid(State())
      modifies this
      ensures State() == SetUtils.Cull(old(State()))
    {
      if dead == [] {
        return;
      }
      if index == map[] {
        dead := [];
        items := [];
        return;
      }
      if |dead| > 8 && |dead| > |items| / 2 {
        Compact();
        return;
      }
      if dead[|dead| - 1] == |items| - 1 {
        var n := 1;
        while n < |dead| && dead[|dead| - n - 1] + 1 == dead[|dead| - n]
          invariant 1 <= n <= |dead|
          invariant TrailRun(dead, n) == TrailRun(dead, 1)
          decreases |dead| - n
        {
          n := n + 1;
        }
        dead := Chop(dead, n);
        items := Chop(items, n);
      }
    }

    /** `remove(item)` */
    method Remove(x: T) returns (r: Result<()>)
      requires Valid(State())
      modifies this
      ensures Outcome(State(), r) == SetUtils.Remove(old(State()), x)
    {
      if x !in index {
        return Err(KeyError);
      }
      UnlistValid(State(), x);
      var p := index[x];
      index := index - {x};
      dead := Insort(dead, p);
      items := items[p := Missing];
      Cull();
      return Ok(());
    }

    /** `discard(item)` */
    method Discard(x: T)
      requires Valid(State())
      modifies this
      ensures State() == SetUtils.Discard(old(State()), x)
    {
      var r := Remove(x);
    }

    /** `isdisjoint(other)`: false as soon as an item of `other` is a
        member. */
    method IsDisjoint(other: seq<T>) returns (r: bool)
      ensures r <==> forall i :: 0 <= i < |other| ==> other[i] !in index
    {
      for i := 0 to |other|
        invariant forall j :: 0 <= j < i ==> other[j] !in index
      {
        if other[i] in index {
          return false;
        }
      }
      return true;
    }

    /** `issubset(other)`: false when `other` is shorter, otherwise whether
        every member is in `other`. The length test never changes the
        answer. */
    method IsSubset(other: seq<T>) returns (r: bool)
      ensures r <==> forall k :: k in index ==> k in other
    {
      if |other| < |index| {
        SubsetLength(index, other);
        return false;
      }
      var keys := index.Keys;
      while keys != {}
        invariant keys <= index.Keys
        invariant forall k :: k in index && k !in keys ==> k in other
        decreases keys
      {
        var k :| k in keys;
        if k !in other {
          return false;
        }
        keys := keys - {k};
      }
      return true;
    }

    /** `issuperset(other)`: false when `other` is longer, otherwise whether
        every item of `other` is a member. */
    method IsSuperset(other: seq<T>) returns (r: bool)
      ensures r <==> |other| <= |index| && forall i :: 0 <= i < |other| ==> other[i] in index
    {
      if |other| > |index| {
        return false;
      }
      for i := 0 to |other|
        invariant forall j :: 0 <= j < i ==> other[j] in index
      {
        if other[i] !in index {
          return false;
        }
      }
      return true;
    }

    /** `union(*others)` */
    method Union(others: seq<seq<T>>) returns (r: IndexedSet<T>)
      ensures fresh(r) && r.State() == SetUtils.Union(State(), others)
    {
      r := new IndexedSet(Elements(State()) + PyList.Flatten(others));
    }

    /** `intersection(*others)`: the general loop, whose `for ... else`
        adds `k` when no other lacks it. */
    method Intersection(others: seq<seq<T>>) returns (r: IndexedSet<T>)
      ensures fresh(r) && r.State() == SetUtils.Intersection(State(), others)
    {
      var e := Elements(State());
      r := new IndexedSet([]);
      for j := 0 to |e|
        invariant fresh(r)
        invariant r.State() == FromSeq(PyList.Filter(e[..j], k => InAll(k, others)))
      {
        var k := e[j];
        var all := true;
        for m := 0 to |others|
          invariant all <==> forall m' :: 0 <= m' < m ==> k in others[m']
        {
          if k !in others[m] {
            all := false;
            break;
          }
        }
        FilterStep(e, j, k => InAll(k, others));
        if all {
          r.Add(k);
        }
      }
      assert e[..|e|] == e;
    }

    /** `difference(*others)`: the general loop, whose `for ... else` adds
        `k` when no other holds it. */
    method Difference(others: seq<seq<T>>) returns (r: IndexedSet<T>)
      ensures fresh(r) && r.State() == SetUtils.Difference(State(), others)
    {
      var e := Elements(State());
      r := new IndexedSet([]);
      for j := 0 to |e|
        invariant fresh(r)
        invariant r.State() == FromSeq(PyList.Filter(e[..j], k => !InAny(k, others)))
      {
        var k := e[j];
        var any := false;
        for m := 0 to |others|
          invariant any <==> exists m' :: 0 <= m' < m && k in others[m']
        {
          if k in others[m] {
            any := true;
            break;
          }
        }
        FilterStep(e, j, k => !InAny(k, others));
        if !any {
          r.Add(k);
        }
      }
      assert e[..|e|] == e;
    }

    /** `symmetric_difference(*others)` */
    method SymmetricDifference(others: seq<seq<T>>) returns (r: IndexedSet<T>)
      ensures fresh(r) && r.State() == SetUtils.SymmetricDifference(State(), others)
    {
      var u := Union(others);
      var i := Intersection(others);
      r := u.Difference([Elements(i.State())]);
    }

    /** The slot of the `i`-th member: `i` plus the dead slots passed on the
        way to it. */
    method SlotOf(i: nat) returns (p: nat)
      ensures p == i + ScanDead(dead, i, 0)
    {
      var k := 0;
      while k < |dead| && dead[k] <= i + k
        invariant k <= |dead| && ScanDead(dead, i, k) == ScanDead(dead, i, 0)
        decreases |dead| - k
      {
        k := k + 1;
      }
      return i + k;
    }

    /** `self[index]`, with the slot found by `SlotOf`. */
    method GetItem(idx: int) returns (r: Result<T>)
      requires Valid(State())
      ensures r == SetUtils.GetItem(State(), idx)
    {
      var n := |index|;
      var i := if idx < 0 then idx + n else idx;
      if 0 <= i < n {
        var p := SlotOf(i);
        GetItemSlot(State(), idx, i);
        return Ok(items[p].value);
      }
      GetItemOutside(State(), idx);
      return Err(IndexError);
    }

    /** `pop(index)`, with `ret` bound on both paths and the slot found by
        `SlotOf`. */
    method Pop(idx: Option<int>) returns (r: Result<T>)
      requires Valid(State())
      modifies this
      ensures Outcome(State(), r) == SetUtils.Pop(old(State()), idx)
    {
      ghost var s := State();
      var n := |index|;
      if idx.None? || idx == Some(-1) || idx == Some(n) {
        PopLastIs(s, idx);
        r := PopLast();
        return;
      }
      var i := if idx.value < 0 then idx.value + n else idx.value;
      if !(0 <= i < n) {
        PopOutsideIs(s, idx, i);
        return Err(IndexError);
      }
      PopNthIs(s, idx, i);
      r := PopNth(i);
    }

    /** The path of `pop()` that takes the last slot. */
    method PopLast() returns (r: Result<T>)
      requires Valid(State())
      modifies this
      ensures var t := TakeLast(old(State()));
        Outcome(State(), r) == if t.out.Err? then t else Outcome(SetUtils.Cull(t.state), t.out)
    {
      ghost var s := State();
      if items == [] {
        return Err(IndexError);
      }
      var last := items[|items| - 1];
      items := items[..|items| - 1];
      if last.Missing? || last.value !in index {
        return Err(KeyError);
      }
      index := index - {last.value};
      TakeLastValid(s);
      assert State() == TakeLast(s).state;
      Cull();
      return Ok(last.value);
    }

    /** The path of `pop(index)` that takes the member at position `i`. */
    method PopNth(i: nat) returns (r: Result<T>)
      requires Valid(State()) && i < |index|
      modifies this
      ensures Outcome(State(), r) == TakeNth(old(State()), i)
    {
      ghost var s := State();
      var p := SlotOf(i);
      ValidLength(s);
      SlotFound(s, i);
      var x := items[p].value;
      assert x == Nth(s, i);
      UnlistValid(s, x);
      index := index - {x};
      dead := Insort(dead, p);
      items := items[p := Missing];
      assert State() == Unlist(s, x);
      Cull();
      return Ok(x);
    }
  }

  /** The copying loop of `_compact`, its inner `while` stopped at the end
      of the dead list, followed by `del items[-len(ded):]`: the live items
      packed into a list of their own. */
  method ShiftDown<T(==)>(ghost s: ISet<T>, items: seq<Slot<T>>, ded: seq<nat>) returns (a: seq<Slot<T>>)
    requires Valid(s) && s.dead != [] && items == s.items && ded == s.dead
    ensures a == Wrap(Live(s.items))
  {
    ValidLength(s);
    a := items;
    var k := 1;
    var i := ded[0];
    var end := |a| - |ded|;
    ShiftStart(s);
    while i < end
      invariant Shifting(s, a, i, k)
      decreases end - i
    {
      while k < |ded| && i + k == ded[k]
        invariant Shifting(s, a, i, k)
        decreases |ded| - k
      {
        SkipDead(s, a, i, k);
        k := k + 1;
      }
      ShiftStep(s, a, i, k);
      a := a[i := a[i + k]];
      i := i + 1;
    }
    ShiftDone(s, a, i, k);
    a := Chop(a, |ded|);
  }

  /** Each packed item is recorded under its new slot. */
  method Reindex<T(==)>(ghost s: ISet<T>, index: map<T, nat>, a: seq<Slot<T>>) returns (m: map<T, nat>)
    requires Valid(s) && s.dead != [] && index == s.index && a == Wrap(Live(s.items))
    ensures m == SetUtils.Compact(s).index
  {
    ghost var xs := Live(s.items);
    ValidElements(s);
    m := index;
    for j := 0 to |a|
      invariant Reindexed(s.index, m, xs, j)
    {
      ReindexStep(s.index, m, xs, j);
      m := m[a[j].value := j];
    }
    ReindexDone(s, m, xs);
  }

  /** The copying loop of `_compact` has written the first `i` live items
      into slots `0..i`, left the slots from `i` on as they were, and its
      `k` has passed exactly the dead indices below the read position
      `i + k`. */
  ghost predicate Shifting<T>(s: ISet<T>, items: seq<Slot<T>>, i: nat, k: nat) {
    Valid(s) && s.dead != [] && |items| == |s.items|
    && 1 <= k <= |s.dead| && i + |s.dead| <= |s.items|
    && (forall j :: 0 <= j < k ==> s.dead[j] <= i + j)
    && (k < |s.dead| ==> s.dead[k] >= i + k)
    && |Live(s.items)| + |s.dead| == |s.items|
    && (forall j :: 0 <= j < i ==> items[j] == Item(Live(s.items)[j]))
    && (forall j :: i <= j < |items| ==> items[j] == s.items[j])
  }

  /** Once the inner loop has stopped, the read position holds the `i`-th
      live item, and copying it down keeps the loop's invariant. */
  lemma ShiftStep<T>(s: ISet<T>, items: seq<Slot<T>>, i: nat, k: nat)
    requires Shifting(s, items, i, k) && i + |s.dead| < |s.items|
    requires !(k < |s.dead| && i + k == s.dead[k])
    ensures i + k < |items| && Shifting(s, items[i := items[i + k]], i + 1, k)
  {
    SlotAt(s.items, s.dead, i, k);
  }

  lemma ShiftStart<T>(s: ISet<T>)
    requires Valid(s) && s.dead != [] && |Live(s.items)| + |s.dead| == |s.items|
    ensures Shifting(s, s.items, s.dead[0], 1)
  {
    DeadGap(s.dead, 0, |s.dead| - 1);
    if 1 < |s.dead| {
      assert s.dead[0] < s.dead[1];
    }
    forall j | 0 <= j < s.dead[0]
      ensures s.items[j] == Item(Live(s.items)[j])
    {
      SlotAt(s.items, s.dead, j, 0);
    }
  }

  /** The inner loop steps past a dead index equal to the read position. */
  lemma SkipDead<T>(s: ISet<T>, items: seq<Slot<T>>, i: nat, k: nat)
    requires Shifting(s, items, i, k) && k < |s.dead| && i + k == s.dead[k]
    ensures Shifting(s, items, i, k + 1)
  {
    if k + 1 < |s.dead| {
      assert s.dead[k] < s.dead[k + 1];
    }
  }

  lemma ShiftDone<T>(s: ISet<T>, items: seq<Slot<T>>, i: nat, k: nat)
    requires Shifting(s, items, i, k) && i + |s.dead| == |s.items|
    ensures Chop(items, |s.dead|) == Wrap(Live(s.items))
    ensures forall j :: 0 <= j < i ==> Chop(items, |s.dead|)[j] == Item(Live(s.items)[j])
  {
  }

  /** The re-indexing loop has given the first `j` items their new slots;
      every other member keeps its old entry. */
  ghost predicate Reindexed<T>(old_index: map<T, nat>, index: map<T, nat>, xs: seq<T>, j: nat) {
    Distinct(xs) && j <= |xs|
    && (forall x :: x in old_index ==> x in xs)
    && (forall i :: 0 <= i < |xs| ==> xs[i] in old_index)
    && index.Keys == old_index.Keys
    && (forall m :: 0 <= m < j ==> index[xs[m]] == m)
  }

  lemma ReindexStep<T>(old_index: map<T, nat>, index: map<T, nat>, xs: seq<T>, j: nat)
    requires Reindexed(old_index, index, xs, j) && j < |xs|
    ensures Reindexed(old_index, index[xs[j] := j], xs, j + 1)
  {
    assert xs[j] in old_index;
  }

  lemma ReindexDone<T>(s: ISet<T>, index: map<T, nat>, xs: seq<T>)
    requires xs == Live(s.items) && s.dead != []
    requires Reindexed(s.index, index, xs, |xs|)
    ensures index == SetUtils.Compact(s).index
  {
    var m := Positions(xs);
    assert SetUtils.Compact(s).index == m;
    forall x | x in index
      ensures x in m && index[x] == m[x]
    {
      var r := IndexOf(xs, x);
      assert index[xs[r]] == r;
    }
    forall x | x in m
      ensures x in index
    {
    }
  }

  /** A subset of `other` can never be larger than `other`. */
  lemma SubsetLength<T>(index: map<T, nat>, other: seq<T>)
    ensures (forall k :: k in index ==> k in other) ==> |index| <= |other|
  {
    if forall k :: k in index ==> k in other {
      var seen := set x | x in other;
      SeqSetSize(other);
      assert seen == index.Keys + (seen - index.Keys);
      assert index.Keys * (seen - index.Keys) == {};
    }
  }

  lemma {:induction false} SeqSetSize<T>(xs: seq<T>)
    ensures |set x | x in xs| <= |xs|
    decreases |xs|
  {
    if xs != [] {
      var n := |xs| - 1;
      SeqSetSize(xs[..n]);
      assert (set x | x in xs) == (set x | x in xs[..n]) + {xs[n]};
    }
  }

  /** One more item examined by a filtering loop. */
  lemma FilterStep<T>(e: seq<T>, j: nat, keep: T -> bool)
    requires j < |e|
    ensures FromSeq(PyList.Filter(e[..j + 1], keep))
      == if keep(e[j]) then SetUtils.Add(FromSeq(PyList.Filter(e[..j], keep)), e[j])
         else FromSeq(PyList.Filter(e[..j], keep))
  {
    assert e[..j + 1] == e[..j] + [e[j]];
    PyList.FilterAppend(e[..j], e[j], keep);
    var f := PyList.Filter(e[..j], keep);
    if keep(e[j]) {
      assert (f + [e[j]])[..|f|] == f;
    } else {
      assert f + [] == f;
    }
  }

  /** Taking the last slot of a valid set whose last slot is live keeps the
      invariant. */
  lemma TakeLastValid<T>(s: ISet<T>)
    requires Valid(s) && s.items != [] && s.items[|s.items| - 1].Item?
    ensures Valid(ISet(s.index - {s.items[|s.items| - 1].value}, s.items[..|s.items| - 1], s.dead))
  {
    var n := |s.items| - 1;
    forall i | 0 <= i < |s.dead|
      ensures s.dead[i] < n
    {
      assert s.items[s.dead[i]].Missing?;
    }
    forall k | k in s.index && k != s.items[n].value
      ensures s.index[k] < n
    {
      assert s.items[s.index[k]] == Item(k);
    }
  }
}
