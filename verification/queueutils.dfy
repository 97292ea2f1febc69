/** `HeapPriorityQueue` from boltons/queueutils.py: a binary min-heap of
    `[-priority, count, task]` entries together with a map from each queued
    task to its entry. Removal is lazy: the shared entry's task slot is
    overwritten with the `_REMOVED` sentinel and the entry is thrown away
    when it reaches the top of the heap. */
module QueueUtils {
  import opened Wrappers

  /** The two fields of an entry that the heap compares: the negated
      priority and the insertion counter. Counters are unique, so Python's
      list comparison never reaches the third field (`task`). */
  datatype Key = Key(priority: int, count: nat)

  /** List comparison of entries: priority first, then the counter. */
  predicate Le(a: Key, b: Key) {
    a.priority < b.priority || (a.priority == b.priority && a.count <= b.count)
  }

  predicate Lt(a: Key, b: Key) {
    a.priority < b.priority || (a.priority == b.priority && a.count < b.count)
  }

  lemma LeTotal(a: Key, b: Key)
    ensures Le(a, b) || Lt(b, a)
    ensures Lt(a, b) ==> Le(a, b)
  {
  }

  function Parent(i: nat): nat
    requires 0 < i
  {
    (i - 1) / 2
  }

  /** The heap property of Python's `heapq`: no entry is smaller than its parent. */
  ghost predicate IsHeap(h: seq<Key>) {
    forall j :: 0 < j < |h| ==> Le(h[Parent(j)], h[j])
  }

  /** The top of a heap is its smallest entry. */
  lemma {:induction false} HeapTop(h: seq<Key>, i: nat)
    requires IsHeap(h) && i < |h|
    ensures Le(h[0], h[i])
    decreases i
  {
    if i > 0 {
      HeapTop(h, Parent(i));
    }
  }

  lemma HeapMin(h: seq<Key>)
    requires IsHeap(h) && h != []
    ensures forall i :: 0 <= i < |h| ==> Le(h[0], h[i])
  {
    forall i | 0 <= i < |h|
      ensures Le(h[0], h[i])
    {
      HeapTop(h, i);
    }
  }

  function Swap(h: seq<Key>, i: nat, j: nat): (r: seq<Key>)
    requires i < |h| && j < |h|
    ensures |r| == |h| && r[i] == h[j] && r[j] == h[i]
    ensures forall k :: 0 <= k < |h| && k != i && k != j ==> r[k] == h[k]
    ensures multiset(r) == multiset(h)
  {
    h[i := h[j]][j := h[i]]
  }

  /** A heap whose only possible fault is entry `i` being smaller than its
      parent; `i`'s children are still no smaller than `i`'s parent. */
  ghost predicate HeapAbove(h: seq<Key>, i: nat) {
    && i < |h|
    && (forall j :: 0 < j < |h| && j != i ==> Le(h[Parent(j)], h[j]))
    && (0 < i ==> forall j :: 0 < j < |h| && Parent(j) == i ==> Le(h[Parent(i)], h[j]))
  }

  /** A heap whose only possible fault is entry `i` being larger than its
      children; `i`'s children are still no smaller than `i`'s parent. */
  ghost predicate HeapBelow(h: seq<Key>, i: nat) {
    && i < |h|
    && (forall j :: 0 < j < |h| && Parent(j) != i ==> Le(h[Parent(j)], h[j]))
    && (0 < i ==> forall j :: 0 < j < |h| && Parent(j) == i ==> Le(h[Parent(i)], h[j]))
  }

  lemma UpStep(h: seq<Key>, i: nat)
    requires HeapAbove(h, i) && 0 < i && Lt(h[i], h[Parent(i)])
    ensures HeapAbove(Swap(h, i, Parent(i)), Parent(i))
  {
    var p := Parent(i);
    var r := Swap(h, i, p);
    forall j | 0 < j < |r| && j != p
      ensures Le(r[Parent(j)], r[j])
    {
      if j == i {
      } else if Parent(j) == i {
        assert r[j] == h[j];
      } else if Parent(j) == p {
        assert r[j] == h[j];
      } else {
        assert r[j] == h[j] && r[Parent(j)] == h[Parent(j)];
      }
    }
    if 0 < p {
      forall j | 0 < j < |r| && Parent(j) == p
        ensures Le(r[Parent(p)], r[j])
      {
        assert r[Parent(p)] == h[Parent(p)];
        if j != i {
          assert r[j] == h[j];
        }
      }
    }
  }

  lemma UpDone(h: seq<Key>, i: nat)
    requires HeapAbove(h, i) && (i == 0 || !Lt(h[i], h[Parent(i)]))
    ensures IsHeap(h)
  {
    if 0 < i {
      LeTotal(h[Parent(i)], h[i]);
    }
  }

  lemma DownStep(h: seq<Key>, i: nat, c: nat)
    requires HeapBelow(h, i) && c < |h| && (c == 2 * i + 1 || c == 2 * i + 2)
    requires forall j :: 0 < j < |h| && Parent(j) == i ==> Le(h[c], h[j])
    requires Lt(h[c], h[i])
    ensures HeapBelow(Swap(h, i, c), c)
  {
    var r := Swap(h, i, c);
    assert Parent(c) == i;
    forall j | 0 < j < |r| && Parent(j) != c
      ensures Le(r[Parent(j)], r[j])
    {
      if j == c {
      } else if Parent(j) == i {
        assert r[j] == h[j];
      } else if j == i {
        assert r[Parent(j)] == h[Parent(j)];
      } else {
        assert r[j] == h[j] && r[Parent(j)] == h[Parent(j)];
      }
    }
    forall j | 0 < j < |r| && Parent(j) == c
      ensures Le(r[Parent(c)], r[j])
    {
      assert r[j] == h[j];
    }
  }

  lemma DownDone(h: seq<Key>, i: nat)
    requires HeapBelow(h, i)
    requires forall j :: 0 < j < |h| && Parent(j) == i ==> Le(h[i], h[j])
    ensures IsHeap(h)
  {
  }

  /** `heappush`: the entry joins the heap, which stays a heap. */
  method HeapPush(h0: seq<Key>, k: Key) returns (h: seq<Key>)
    requires IsHeap(h0)
    ensures IsHeap(h)
    ensures multiset(h) == multiset(h0) + multiset{k}
  {
    h := h0 + [k];
    var i: nat := |h0|;
    assert multiset(h) == multiset(h0) + multiset{k};
    while 0 < i && Lt(h[i], h[Parent(i)])
      invariant HeapAbove(h, i)
      invariant multiset(h) == multiset(h0) + multiset{k}
      decreases i
    {
      UpStep(h, i);
      h := Swap(h, i, Parent(i));
      i := Parent(i);
    }
    UpDone(h, i);
  }

  /** The heap after its top is replaced by its last entry: only the new
      top may be out of place. */
  lemma PopStart(h0: seq<Key>)
    requires IsHeap(h0) && |h0| > 1
    ensures HeapBelow([h0[|h0| - 1]] + h0[1..|h0| - 1], 0)
    ensures multiset([h0[|h0| - 1]] + h0[1..|h0| - 1]) == multiset(h0) - multiset{h0[0]}
  {
    var n := |h0| - 1;
    var h := [h0[n]] + h0[1..n];
    assert h0 == [h0[0]] + h0[1..n] + [h0[n]];
    forall j | 0 < j < |h| && Parent(j) != 0
      ensures Le(h[Parent(j)], h[j])
    {
      assert h[j] == h0[j] && h[Parent(j)] == h0[Parent(j)];
    }
  }

  /** Picks the smaller child of `i`, as `_siftup` does. */
  function SmallerChild(h: seq<Key>, i: nat): (c: nat)
    requires 2 * i + 1 < |h|
    ensures c < |h| && (c == 2 * i + 1 || c == 2 * i + 2)
    ensures forall j :: 0 < j < |h| && Parent(j) == i ==> Le(h[c], h[j])
  {
    var l := 2 * i + 1;
    if l + 1 < |h| && Lt(h[l + 1], h[l]) then l + 1
    else if l + 1 < |h| then
      LeTotal(h[l], h[l + 1]);
      l
    else l
  }

  lemma StopDown(h: seq<Key>, i: nat, c: nat)
    requires HeapBelow(h, i) && c < |h| && !Lt(h[c], h[i])
    requires forall j :: 0 < j < |h| && Parent(j) == i ==> Le(h[c], h[j])
    ensures IsHeap(h)
  {
    forall j | 0 < j < |h| && Parent(j) == i
      ensures Le(h[i], h[j])
    {
      LeTotal(h[c], h[i]);
    }
    DownDone(h, i);
  }

  /** Moves entry `i` down until no child is smaller. */
  method SiftDown(h0: seq<Key>, i0: nat) returns (h: seq<Key>)
    requires HeapBelow(h0, i0)
    ensures IsHeap(h) && |h| == |h0| && multiset(h) == multiset(h0)
  {
    h := h0;
    var i: nat := i0;
    while 2 * i + 1 < |h|
      invariant HeapBelow(h, i)
      invariant |h| == |h0| && multiset(h) == multiset(h0)
      decreases |h| - i
    {
      var c := SmallerChild(h, i);
      if !Lt(h[c], h[i]) {
        StopDown(h, i, c);
        return;
      }
      DownStep(h, i, c);
      h := Swap(h, i, c);
      i := c;
    }
    DownDone(h, i);
  }

  /** `heappop`: the smallest entry leaves the heap, which stays a heap. */
  method HeapPop(h0: seq<Key>) returns (top: Key, h: seq<Key>)
    requires IsHeap(h0) && h0 != []
    ensures top == h0[0] && forall j :: 0 <= j < |h0| ==> Le(top, h0[j])
    ensures IsHeap(h) && |h| == |h0| - 1
    ensures multiset(h) == multiset(h0) - multiset{top}
  {
    HeapMin(h0);
    top := h0[0];
    var n := |h0| - 1;
    if n == 0 {
      assert h0 == [top];
      return top, [];
    }
    PopStart(h0);
    h := SiftDown([h0[n]] + h0[1..n], 0);
  }

  /** `int(r)` on a number: truncation toward zero. */
  function Trunc(r: real): (n: int)
  {
    if r >= 0.0 then r.Floor else -((-r).Floor)
  }

  lemma TruncSpec(r: real)
    ensures r >= 0.0 ==> 0 <= Trunc(r) && Trunc(r) as real <= r < Trunc(r) as real + 1.0
    ensures r < 0.0 ==> Trunc(r) <= 0 && Trunc(r) as real - 1.0 < r <= Trunc(r) as real
    ensures r == r.Floor as real ==> Trunc(r) == r.Floor
  {
  }

  /** `-int(priority or 0)`: the value stored in the first slot of an entry.
      A missing priority and a zero priority are both stored as 0. */
  function Stored(priority: Option<real>): int {
    match priority
    case None => 0
    case Some(r) => -Trunc(r)
  }

  /** Larger numbers mean higher priority: a larger priority is stored as a
      number no larger, so it comes out of the min-heap no later. */
  lemma StoredOrder(a: real, b: real)
    requires a <= b
    ensures Stored(Some(b)) <= Stored(Some(a))
    ensures Stored(None) == Stored(Some(0.0)) == 0
  {
    TruncSpec(a);
    TruncSpec(b);
  }

  /** The third slot of an entry: a task, or the `_REMOVED` sentinel. */
  datatype TaskSlot<T> = Removed | Task(value: T)

  /** An entry list `[priority, count, task]` as created by `add`; its
      counter is its position in the list of all entries made so far. Only
      the `task` slot is ever changed. */
  datatype Entry<T> = Entry(priority: int, task: TaskSlot<T>)

  /** The heap and the map agree: every queued task's entry is in the heap
      under its own counter, every heap entry that still holds a task is
      that task's current entry, and no entry occurs twice. */
  ghost predicate Consistent<T>(pq: seq<Key>, entries: seq<Entry<T>>, m: map<T, nat>) {
    && IsHeap(pq)
    && (forall i :: 0 <= i < |pq| ==> pq[i].count < |entries| && entries[pq[i].count].priority == pq[i].priority)
    && (forall k :: multiset(pq)[k] <= 1)
    && (forall t :: t in m ==> m[t] < |entries| && entries[m[t]].task == Task(t) && Key(entries[m[t]].priority, m[t]) in pq)
    && (forall i :: 0 <= i < |pq| && entries[pq[i].count].task.Task? ==>
          entries[pq[i].count].task.value in m && m[entries[pq[i].count].task.value] == pq[i].count)
  }

  /** The queued tasks with the key each one is ordered by. */
  ghost function PendingOf<T>(entries: seq<Entry<T>>, m: map<T, nat>): map<T, Key>
    requires forall t :: t in m ==> m[t] < |entries|
  {
    map t | t in m :: Key(entries[m[t]].priority, m[t])
  }

  /** `t` is what the queue hands out next: the one with the highest
      priority, and among equal priorities the one added first. */
  ghost predicate IsNext<T>(p: map<T, Key>, t: T) {
    t in p && forall u :: u in p ==> Le(p[t], p[u])
  }

  /** Different queued tasks were added at different times. */
  ghost predicate DistinctCounts<T>(p: map<T, Key>) {
    forall t, u :: t in p && u in p && p[t].count == p[u].count ==> t == u
  }

  /** At most one task is next. */
  lemma NextUnique<T>(p: map<T, Key>, t: T, u: T)
    requires DistinctCounts(p) && IsNext(p, t) && IsNext(p, u)
    ensures t == u
  {
  }

  /** First in, first out among equal priorities. */
  lemma NextFifo<T>(p: map<T, Key>, t: T, u: T)
    requires DistinctCounts(p) && IsNext(p, t) && u in p && u != t
    ensures p[t].priority <= p[u].priority
    ensures p[t].priority == p[u].priority ==> p[t].count < p[u].count
  {
  }

  lemma ConsistentPending<T>(pq: seq<Key>, entries: seq<Entry<T>>, m: map<T, nat>)
    requires Consistent(pq, entries, m)
    ensures PendingOf(entries, m).Keys == m.Keys
    ensures |PendingOf(entries, m)| == |m|
    ensures DistinctCounts(PendingOf(entries, m))
  {
    var p := PendingOf(entries, m);
    assert p.Keys == m.Keys;
    forall t, u | t in p && u in p && p[t].count == p[u].count
      ensures t == u
    {
      assert entries[m[t]].task == Task(t) && entries[m[u]].task == Task(u);
    }
  }

  /** After `_cull`: the heap is empty exactly when no task is queued, and
      otherwise its top holds the next task. */
  lemma CulledTop<T>(pq: seq<Key>, entries: seq<Entry<T>>, m: map<T, nat>)
    requires Consistent(pq, entries, m)
    requires pq != [] ==> entries[pq[0].count].task.Task?
    ensures pq == [] <==> m == map[]
    ensures pq != [] ==> IsNext(PendingOf(entries, m), entries[pq[0].count].task.value)
  {
    if pq != [] {
      var t := entries[pq[0].count].task.value;
      assert t in m;
      HeapMin(pq);
      var p := PendingOf(entries, m);
      forall u | u in p
        ensures Le(p[t], p[u])
      {
        var k := Key(entries[m[u]].priority, m[u]);
        var j :| 0 <= j < |pq| && pq[j] == k;
        assert p[t] == pq[0];
      }
    }
  }

  /** Popping a removed entry off the top keeps the heap and map in
      agreement and leaves the queued tasks alone. */
  lemma PopRemoved<T>(pq: seq<Key>, entries: seq<Entry<T>>, m: map<T, nat>, rest: seq<Key>)
    requires Consistent(pq, entries, m) && pq != [] && entries[pq[0].count].task.Removed?
    requires IsHeap(rest) && multiset(rest) == multiset(pq) - multiset{pq[0]}
    ensures Consistent(rest, entries, m)
  {
    forall k
      ensures multiset(rest)[k] <= 1
    {
      assert multiset(pq)[k] <= 1;
    }
    forall i | 0 <= i < |rest|
      ensures rest[i].count < |entries| && entries[rest[i].count].priority == rest[i].priority
    {
      assert rest[i] in multiset(rest);
      assert rest[i] in multiset(pq);
    }
    forall t | t in m
      ensures Key(entries[m[t]].priority, m[t]) in rest
    {
      var k := Key(entries[m[t]].priority, m[t]);
      assert k in multiset(pq);
      assert k != pq[0];
      assert k in multiset(rest);
    }
    forall i | 0 <= i < |rest| && entries[rest[i].count].task.Task?
      ensures entries[rest[i].count].task.value in m && m[entries[rest[i].count].task.value] == rest[i].count
    {
      assert rest[i] in multiset(rest);
      assert rest[i] in multiset(pq);
    }
  }

  /** `heappop` of a live top: the task it holds is next, and the rest of
      the heap is consistent with that task's entry gone from the map. */
  method TakeNext<T>(pq: seq<Key>, entries: seq<Entry<T>>, m: map<T, nat>) returns (task: T, rest: seq<Key>, m1: map<T, nat>)
    requires Consistent(pq, entries, m) && pq != [] && entries[pq[0].count].task.Task?
    ensures IsNext(PendingOf(entries, m), task) && m1 == m - {task} && Consistent(rest, entries, m1)
    ensures PendingOf(entries, m1) == PendingOf(entries, m) - {task}
  {
    var top;
    top, rest := HeapPop(pq);
    task := entries[top.count].task.value;
    CulledTop(pq, entries, m);
    PopLive(pq, entries, m, rest);
    m1 := m - {task};
  }

  /** Popping the live top takes its task off the map: the rest stay queued. */
  lemma PopLive<T>(pq: seq<Key>, entries: seq<Entry<T>>, m: map<T, nat>, rest: seq<Key>)
    requires Consistent(pq, entries, m) && pq != [] && entries[pq[0].count].task.Task?
    requires IsHeap(rest) && multiset(rest) == multiset(pq) - multiset{pq[0]}
    ensures var t := entries[pq[0].count].task.value;
      && t in m
      && Consistent(rest, entries, m - {t})
      && PendingOf(entries, m - {t}) == PendingOf(entries, m) - {t}
  {
    var top := pq[0];
    var t := entries[top.count].task.value;
    var m' := m - {t};
    assert multiset(pq)[top] <= 1;
    assert top !in multiset(rest);
    forall k
      ensures multiset(rest)[k] <= 1
    {
      assert multiset(pq)[k] <= 1;
    }
    forall i | 0 <= i < |rest|
      ensures rest[i].count < |entries| && entries[rest[i].count].priority == rest[i].priority
    {
      assert rest[i] in multiset(rest);
      assert rest[i] in multiset(pq);
    }
    forall u | u in m'
      ensures Key(entries[m'[u]].priority, m'[u]) in rest
    {
      var k := Key(entries[m[u]].priority, m[u]);
      assert k in multiset(pq);
      assert k != top;
      assert k in multiset(rest);
    }
    forall i | 0 <= i < |rest| && entries[rest[i].count].task.Task?
      ensures entries[rest[i].count].task.value in m' && m'[entries[rest[i].count].task.value] == rest[i].count
    {
      assert rest[i] in multiset(rest);
      assert rest[i] in multiset(pq);
      assert rest[i].count != top.count;
    }
  }

  /** `add` of a new task: a fresh entry under the next counter value. */
  lemma PushFresh<T>(pq: seq<Key>, entries: seq<Entry<T>>, m: map<T, nat>, t: T, p: int, pq': seq<Key>)
    requires Consistent(pq, entries, m) && t !in m
    requires IsHeap(pq') && multiset(pq') == multiset(pq) + multiset{Key(p, |entries|)}
    ensures Consistent(pq', entries + [Entry(p, Task(t))], m[t := |entries|])
    ensures PendingOf(entries + [Entry(p, Task(t))], m[t := |entries|]) == PendingOf(entries, m)[t := Key(p, |entries|)]
  {
    var k := Key(p, |entries|);
    var e := entries + [Entry(p, Task(t))];
    var m' := m[t := |entries|];
    assert k !in multiset(pq) by {
      assert forall i :: 0 <= i < |pq| ==> pq[i] != k;
    }
    forall x
      ensures multiset(pq')[x] <= 1
    {
      assert multiset(pq)[x] <= 1;
    }
    forall i | 0 <= i < |pq'|
      ensures pq'[i].count < |e| && e[pq'[i].count].priority == pq'[i].priority
    {
      assert pq'[i] in multiset(pq) + multiset{k};
    }
    forall u | u in m'
      ensures m'[u] < |e| && e[m'[u]].task == Task(u) && Key(e[m'[u]].priority, m'[u]) in pq'
    {
      if u != t {
        assert m'[u] == m[u] < |entries|;
        assert e[m[u]] == entries[m[u]];
        assert Key(entries[m[u]].priority, m[u]) in multiset(pq);
        assert Key(entries[m[u]].priority, m[u]) in multiset(pq');
      } else {
        assert k in multiset(pq');
      }
    }
    forall i | 0 <= i < |pq'| && e[pq'[i].count].task.Task?
      ensures e[pq'[i].count].task.value in m' && m'[e[pq'[i].count].task.value] == pq'[i].count
    {
      assert pq'[i] in multiset(pq) + multiset{k};
      if pq'[i] != k {
        assert pq'[i] in multiset(pq);
        var j :| 0 <= j < |pq| && pq[j] == pq'[i];
      }
    }
  }

  /** `remove`: the entry's task slot becomes `_REMOVED` and `task` leaves the map. */
  lemma Unqueue<T>(pq: seq<Key>, entries: seq<Entry<T>>, m: map<T, nat>, t: T)
    requires Consistent(pq, entries, m) && t in m
    ensures Consistent(pq, entries[m[t] := Entry(entries[m[t]].priority, Removed)], m - {t})
    ensures PendingOf(entries[m[t] := Entry(entries[m[t]].priority, Removed)], m - {t}) == PendingOf(entries, m) - {t}
  {
    var c := m[t];
    var e := entries[c := Entry(entries[c].priority, Removed)];
    var m' := m - {t};
    forall u | u in m'
      ensures m'[u] < |e| && e[m'[u]].task == Task(u) && Key(e[m'[u]].priority, m'[u]) in pq
    {
      assert m[u] != c;
    }
    forall i | 0 <= i < |pq| && e[pq[i].count].task.Task?
      ensures e[pq[i].count].task.value in m' && m'[e[pq[i].count].task.value] == pq[i].count
    {
      assert pq[i].count != c;
    }
  }

  /** `HeapPriorityQueue`: `pq` is the heap `_pq`, `entryMap` maps each
      task to the counter of its entry, and `entries` holds every entry list
      created so far, so that the heap and the map share them as the
      Python lists are shared. */
  class HeapPriorityQueue<T(==)> {
    var pq: seq<Key>
    var entries: seq<Entry<T>>
    var entryMap: map<T, nat>
    var counter: nat

    ghost predicate Valid()
      reads this
    {
      counter == |entries| && Consistent(pq, entries, entryMap)
    }

    /** The queued tasks with their keys. */
    ghost function Pending(): (p: map<T, Key>)
      reads this
      requires Valid()
      ensures forall t :: t in p ==> p[t].count < counter
    {
      PendingOf(entries, entryMap)
    }

    constructor()
      ensures Valid() && Pending() == map[] && counter == 0
    {
      pq, entries, entryMap, counter := [], [], map[], 0;
    }

    /** `add(task, priority)`. Re-adding a queued task reaches the
        undefined `remove_task` and raises before anything changes. */
    method Add(task: T, priority: Option<real>) returns (r: Result<()>)
      requires Valid()
      modifies this
      ensures Valid()
      ensures task in old(Pending()) ==> r == Err(AttributeError) && Pending() == old(Pending()) && counter == old(counter)
      ensures task !in old(Pending()) ==>
        && r == Ok(())
        && Pending() == old(Pending())[task := Key(Stored(priority), old(counter))]
        && counter == old(counter) + 1
    {
      var p := Stored(priority);
      ConsistentPending(pq, entries, entryMap);
      if task in entryMap {
        return Err(AttributeError);
      }
      var count := counter;
      counter := counter + 1;
      var h := HeapPush(pq, Key(p, count));
      PushFresh(pq, entries, entryMap, task, p, h);
      entries := entries + [Entry(p, Task(task))];
      entryMap := entryMap[task := count];
      pq := h;
      return Ok(());
    }

    /** `add` as evidently intended: a queued task is first removed, so
        it is queued again under its new priority, behind every task already
        waiting at that priority. */
    method AddReplacing(task: T, priority: Option<real>)
      requires Valid()
      modifies this
      ensures Valid() && counter == old(counter) + 1
      ensures Pending() == old(Pending())[task := Key(Stored(priority), old(counter))]
    {
      var _ := Remove(task);
      var r := Add(task, priority);
    }

    /** `remove(task)`: KeyError for a task that is not queued. */
    method Remove(task: T) returns (r: Result<()>)
      requires Valid()
      modifies this
      ensures Valid() && counter == old(counter)
      ensures task !in old(Pending()) ==> r == Err(KeyError) && Pending() == old(Pending())
      ensures task in old(Pending()) ==> r == Ok(()) && Pending() == old(Pending()) - {task}
    {
      ConsistentPending(pq, entries, entryMap);
      if task !in entryMap {
        return Err(KeyError);
      }
      var c := entryMap[task];
      Unqueue(pq, entries, entryMap, task);
      entries := entries[c := Entry(entries[c].priority, Removed)];
      entryMap := entryMap - {task};
      return Ok(());
    }

    /** `_cull`: drops removed entries from the top of the heap. */
    method Cull()
      requires Valid()
      modifies this
      ensures Valid() && Pending() == old(Pending()) && counter == old(counter)
      ensures entries == old(entries) && entryMap == old(entryMap)
      ensures pq != [] ==> entries[pq[0].count].task.Task?
    {
      var h := pq;
      while h != [] && entries[h[0].count].task.Removed?
        invariant Consistent(h, entries, entryMap)
        invariant unchanged(this)
        decreases |h|
      {
        var top, rest := HeapPop(h);
        PopRemoved(h, entries, entryMap, rest);
        h := rest;
      }
      pq := h;
    }

    /** `peek(default)`: the next task, left queued; on an empty queue the
        default when one is given, IndexError otherwise. */
    method Peek(default: Option<T>) returns (r: Result<T>)
      requires Valid()
      modifies this
      ensures Valid() && Pending() == old(Pending()) && counter == old(counter)
      ensures old(Pending()) == map[] ==> r == (if default.Some? then Ok(default.value) else Err(IndexError))
      ensures old(Pending()) != map[] ==> r.Ok? && IsNext(old(Pending()), r.value)
    {
      Cull();
      CulledTop(pq, entries, entryMap);
      ConsistentPending(pq, entries, entryMap);
      if pq == [] {
        return if default.Some? then Ok(default.value) else Err(IndexError);
      }
      return Ok(entries[pq[0].count].task.value);
    }

    /** `pop(default)`: removes and returns the next task; on an empty
        queue the default when one is given, IndexError otherwise. */
    method Pop(default: Option<T>) returns (r: Result<T>)
      requires Valid()
      modifies this
      ensures Valid() && counter == old(counter)
      ensures old(Pending()) == map[] ==>
        r == (if default.Some? then Ok(default.value) else Err(IndexError)) && Pending() == old(Pending())
      ensures old(Pending()) != map[] ==>
        r.Ok? && IsNext(old(Pending()), r.value) && Pending() == old(Pending()) - {r.value}
    {
      Cull();
      CulledTop(pq, entries, entryMap);
      if pq == [] {
        return if default.Some? then Ok(default.value) else Err(IndexError);
      }
      var task, rest, m1 := TakeNext(pq, entries, entryMap);
      pq, entryMap := rest, m1;
      return Ok(task);
    }

    /** `len(queue)`: the number of queued tasks. */
    method Len() returns (n: nat)
      requires Valid()
      ensures n == |Pending()|
    {
      ConsistentPending(pq, entries, entryMap);
      return |entryMap|;
    }
  }
}
