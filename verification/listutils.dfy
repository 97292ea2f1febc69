/** The BarrelList of boltons/listutils.py: one sequence of integers kept
    as a list of sublists (the "barrels"). What a BarrelList holds is the
    concatenation of its sublists; `_balance_list` splits a sublist that
    outgrows the current size limit into pieces of half that limit. The
    size limit (`_cur_size_limit`, computed with a floating-point
    logarithm) is an opaque integer of at least 512 passed in by the
    caller. The file is Python 2: `/` on integers is floor division. */
module ListUtils {
  import opened Wrappers
  import PyList

  /** Where sublist `j` starts in the concatenation. */
  function Offset(lists: seq<seq<int>>, j: nat): nat
    requires j <= |lists|
  {
    |PyList.Flatten(lists[..j])|
  }

  lemma ThreeWay<T>(s: seq<T>, j: nat)
    requires j < |s|
    ensures s == s[..j] + ([s[j]] + s[j + 1..])
  {
  }

  lemma Assoc<T>(a: seq<T>, b: seq<T>, c: seq<T>)
    ensures a + (b + c) == a + b + c
  {
  }

  /** The concatenation around sublist `j`. */
  lemma FlattenAround(lists: seq<seq<int>>, j: nat)
    requires j < |lists|
    ensures PyList.Flatten(lists) == PyList.Flatten(lists[..j]) + lists[j] + PyList.Flatten(lists[j + 1..])
  {
    var pre, post := lists[..j], lists[j + 1..];
    ThreeWay(lists, j);
    PyList.FlattenAppend(pre, [lists[j]] + post);
    PyList.FlattenAppend([lists[j]], post);
    PyList.FlattenOne(lists[j]);
    Assoc(PyList.Flatten(pre), lists[j], PyList.Flatten(post));
  }

  lemma OffsetStep(lists: seq<seq<int>>, j: nat)
    requires j < |lists|
    ensures Offset(lists, j + 1) == Offset(lists, j) + |lists[j]|
  {
    assert lists[..j + 1] == lists[..j] + [lists[j]];
    PyList.FlattenAppend(lists[..j], [lists[j]]);
    PyList.FlattenOne(lists[j]);
  }

  lemma OffsetEnd(lists: seq<seq<int>>)
    ensures Offset(lists, |lists|) == |PyList.Flatten(lists)|
  {
    assert lists[..|lists|] == lists;
  }

  /** Replacing sublist `j` replaces its stretch of the concatenation. */
  lemma FlattenUpdate(lists: seq<seq<int>>, j: nat, t: seq<int>)
    requires j < |lists|
    ensures PyList.Flatten(lists[j := t]) == PyList.Flatten(lists[..j]) + t + PyList.Flatten(lists[j + 1..])
  {
    var u := lists[j := t];
    FlattenAround(u, j);
    assert u[..j] == lists[..j] && u[j + 1..] == lists[j + 1..];
  }

  /** An element of sublist `j` as an element of the concatenation. */
  lemma FlattenAt(lists: seq<seq<int>>, j: nat, r: nat)
    requires j < |lists| && r < |lists[j]|
    ensures Offset(lists, j) + r < |PyList.Flatten(lists)|
    ensures PyList.Flatten(lists)[Offset(lists, j) + r] == lists[j][r]
  {
    FlattenAround(lists, j);
  }

  // ---------------------------------------------------------------------
  // `_translate_index`

  /** The loop of `_translate_index` from sublist `j` with `rel` positions
      still to skip: stop at the first sublist longer than `rel`; past the
      last sublist, `rel` has had every length taken off. */
  function TranslateFrom(lists: seq<seq<int>>, j: nat, rel: int): (r: (nat, int))
    requires j < |lists|
    ensures j <= r.0 < |lists|
    decreases |lists| - j
  {
    if rel < |lists[j]| then (j, rel)
    else if j == |lists| - 1 then (j, rel - |lists[j]|)
    else TranslateFrom(lists, j + 1, rel - |lists[j]|)
  }

  /** `_translate_index(index)`: a negative index first gets the length
      added; a position still negative gives `(None, None)`. */
  function Translate(lists: seq<seq<int>>, index: int): (r: Option<(nat, int)>)
    requires |lists| >= 1
    ensures r.Some? ==> r.value.0 < |lists| && r.value.1 >= 0
  {
    var idx := if index < 0 then index + |PyList.Flatten(lists)| else index;
    var t := TranslateFrom(lists, 0, idx);
    if t.1 < 0 then None else Some(t)
  }

  lemma {:induction false} TranslateFromSpec(lists: seq<seq<int>>, j: nat, rel: int)
    requires j < |lists|
    ensures var t := TranslateFrom(lists, j, rel);
      var pos := Offset(lists, j) + rel;
      && (rel < 0 ==> t == (j, rel))
      && (rel >= 0 ==> t.1 >= 0)
      && (pos < |PyList.Flatten(lists)| ==> Offset(lists, t.0) + t.1 == pos && t.1 < |lists[t.0]|)
      && (pos >= |PyList.Flatten(lists)| ==> t == (|lists| - 1, pos - |PyList.Flatten(lists)|))
    decreases |lists| - j
  {
    OffsetStep(lists, j);
    OffsetEnd(lists);
    if rel >= |lists[j]| && j < |lists| - 1 {
      TranslateFromSpec(lists, j + 1, rel - |lists[j]|);
    } else if rel < |lists[j]| {
      OffsetMono(lists, j + 1);
    }
  }

  lemma {:induction false} OffsetMono(lists: seq<seq<int>>, j: nat)
    requires j <= |lists|
    ensures Offset(lists, j) <= |PyList.Flatten(lists)|
    decreases |lists| - j
  {
    if j == |lists| {
      OffsetEnd(lists);
    } else {
      OffsetStep(lists, j);
      OffsetMono(lists, j + 1);
    }
  }

  /** What `_translate_index` promises and where it breaks it: a position
      inside the list is located in its sublist; a position before the
      start gives None; but a position at or past the end is not
      rejected: it comes back as a position in the last sublist. */
  lemma TranslateSpec(lists: seq<seq<int>>, index: int)
    requires |lists| >= 1
    ensures var n := |PyList.Flatten(lists)|;
      var idx := if index < 0 then index + n else index;
      var r := Translate(lists, index);
      && (r.None? <==> idx < 0)
      && (0 <= idx < n ==>
            && r.Some? && r.value.1 < |lists[r.value.0]|
            && Offset(lists, r.value.0) + r.value.1 == idx
            && lists[r.value.0][r.value.1] == PyList.Flatten(lists)[idx])
      && (idx >= n ==> r == Some((|lists| - 1, idx - n)))
  {
    var n := |PyList.Flatten(lists)|;
    var idx := if index < 0 then index + n else index;
    TranslateFromSpec(lists, 0, idx);
    assert Offset(lists, 0) == 0 by {
      assert lists[..0] == [];
    }
    var r := Translate(lists, index);
    if 0 <= idx < n {
      FlattenAt(lists, r.value.0, r.value.1);
    }
  }

  /** The evidently intended translation: a position at or past the end is
      rejected like one before the start. */
  function TranslateChecked(lists: seq<seq<int>>, index: int): (r: Option<(nat, int)>)
    requires |lists| >= 1
  {
    var idx := if index < 0 then index + |PyList.Flatten(lists)| else index;
    if idx >= |PyList.Flatten(lists)| then None else Translate(lists, index)
  }

  lemma TranslateCheckedSpec(lists: seq<seq<int>>, index: int)
    requires |lists| >= 1
    ensures var n := |PyList.Flatten(lists)|;
      var idx := if index < 0 then index + n else index;
      var r := TranslateChecked(lists, index);
      && (r.Some? <==> 0 <= idx < n)
      && (r.Some? ==>
            && r.value.0 < |lists| && r.value.1 < |lists[r.value.0]|
            && lists[r.value.0][r.value.1] == PyList.Flatten(lists)[idx])
  {
    TranslateSpec(lists, index);
  }

  /** With the whole list in one sublist `[1, 2]`, index 2 is translated
      to the first element instead of being rejected. */
  lemma TranslatePastEnd()
    ensures Translate([[1, 2]], 2) == Some((0, 0))
    ensures TranslateChecked([[1, 2]], 2) == None
  {
    assert PyList.Flatten([[1, 2]]) == [1, 2] by {
      PyList.FlattenOne([1, 2]);
    }
  }

  // ---------------------------------------------------------------------
  // `_balance_list`

  /** The pieces `_balance_list` leaves of a sublist: chunks of `h` are
      cut off the end until at most `h` remain; each chunk goes right after
      the sublist, so the pieces keep their order. */
  function Split(s: seq<int>, h: nat): seq<seq<int>>
    requires h > 0
    decreases |s|
  {
    if |s| <= h then [s] else Split(s[..|s| - h], h) + [s[|s| - h..]]
  }

  lemma {:induction false} SplitSpec(s: seq<int>, h: nat)
    requires h > 0
    ensures PyList.Flatten(Split(s, h)) == s
    ensures |Split(s, h)| >= 1 && |Split(s, h)[0]| <= h
    ensures forall p :: 0 < p < |Split(s, h)| ==> |Split(s, h)[p]| == h
    decreases |s|
  {
    if |s| <= h {
      PyList.FlattenOne(s);
    } else {
      var a, b := s[..|s| - h], s[|s| - h..];
      SplitSpec(a, h);
      PyList.FlattenAppend(Split(a, h), [b]);
      PyList.FlattenOne(b);
      assert a + b == s;
    }
  }

  /** `_balance_list(i)` on sublist `i` (already made non-negative). */
  function Balance(lists: seq<seq<int>>, i: nat, limit: int): (r: seq<seq<int>>)
    requires i < |lists| && limit >= 512
    ensures |r| >= |lists|
  {
    if |lists[i]| > limit then lists[..i] + Split(lists[i], limit / 2) + lists[i + 1..]
    else lists
  }

  /** Balancing never changes the concatenation, leaves the other
      sublists alone, and leaves at most half the limit in sublist `i`
      when it was over the limit. */
  lemma BalanceSpec(lists: seq<seq<int>>, i: nat, limit: int)
    requires i < |lists| && limit >= 512
    ensures var r := Balance(lists, i, limit);
      && PyList.Flatten(r) == PyList.Flatten(lists)
      && r[..i] == lists[..i]
      && (|lists[i]| > limit ==> |r[i]| <= limit / 2)
      && (|lists[i]| <= limit ==> r == lists)
  {
    if |lists[i]| > limit {
      var pieces := Split(lists[i], limit / 2);
      SplitSpec(lists[i], limit / 2);
      var r := lists[..i] + pieces + lists[i + 1..];
      assert r[i] == pieces[0];
      assert r[..i] == lists[..i];
      PyList.FlattenAppend(lists[..i] + pieces, lists[i + 1..]);
      PyList.FlattenAppend(lists[..i], pieces);
      FlattenAround(lists, i);
    }
  }

  // ---------------------------------------------------------------------
  // Python list primitives on one sublist

  /** `lst.insert(i, x)`: a negative index counts from the end; the index
      is then clamped to the list. */
  function InsertPos(n: nat, i: int): (p: nat)
    ensures p <= n
  {
    if i < 0 then (if i + n < 0 then 0 else i + n) else if i > n then n else i
  }

  function PyInsert(s: seq<int>, i: int, x: int): seq<int> {
    var p := InsertPos(|s|, i);
    s[..p] + [x] + s[p..]
  }

  /** `lst.pop(i)`: the element and the rest; IndexError when the index,
      after a negative one gets the length added, is out of range. */
  function PyPop(s: seq<int>, i: int): Result<(int, seq<int>)> {
    var p := if i < 0 then i + |s| else i;
    if 0 <= p < |s| then Ok((s[p], s[..p] + s[p + 1..])) else Err(IndexError)
  }

  lemma InsertMiddle(b: seq<int>, s: seq<int>, a: seq<int>, r: nat, x: int)
    requires r <= |s|
    ensures var c := b + s + a; var o := |b| + r;
      o <= |c| && c[..o] + [x] + c[o..] == b + (s[..r] + [x] + s[r..]) + a
  {
    var c := b + s + a;
    var o := |b| + r;
    assert c[..o] == b + s[..r];
    assert c[o..] == s[r..] + a;
  }

  lemma PopMiddle(b: seq<int>, s: seq<int>, a: seq<int>, r: nat)
    requires r < |s|
    ensures var c := b + s + a; var o := |b| + r;
      o < |c| && c[o] == s[r] && c[..o] + c[o + 1..] == b + (s[..r] + s[r + 1..]) + a
  {
    var c := b + s + a;
    var o := |b| + r;
    assert c[..o] == b + s[..r];
    assert c[o + 1..] == s[r + 1..] + a;
  }

  /** Inserting into sublist `j` at `r` inserts into the concatenation at
      the sublist's offset plus `r`. */
  lemma InsertLocated(lists: seq<seq<int>>, j: nat, r: nat, x: int)
    requires j < |lists| && r <= |lists[j]|
    ensures var c := PyList.Flatten(lists);
      var o := Offset(lists, j) + r;
      o <= |c| && PyList.Flatten(lists[j := PyInsert(lists[j], r, x)]) == c[..o] + [x] + c[o..]
  {
    FlattenAround(lists, j);
    FlattenUpdate(lists, j, PyInsert(lists[j], r, x));
    InsertMiddle(PyList.Flatten(lists[..j]), lists[j], PyList.Flatten(lists[j + 1..]), r, x);
  }

  /** Popping from sublist `j` at `r` removes that element of the
      concatenation. */
  lemma PopLocated(lists: seq<seq<int>>, j: nat, r: nat)
    requires j < |lists| && r < |lists[j]|
    ensures var c := PyList.Flatten(lists);
      var o := Offset(lists, j) + r;
      && o < |c| && PyPop(lists[j], r) == Ok((c[o], lists[j][..r] + lists[j][r + 1..]))
      && PyList.Flatten(lists[j := lists[j][..r] + lists[j][r + 1..]]) == c[..o] + c[o + 1..]
  {
    FlattenAround(lists, j);
    FlattenUpdate(lists, j, lists[j][..r] + lists[j][r + 1..]);
    PopMiddle(PyList.Flatten(lists[..j]), lists[j], PyList.Flatten(lists[j + 1..]), r);
  }

  // ---------------------------------------------------------------------
  // `sorted`

  ghost predicate IntSorted(s: seq<int>) {
    forall i, j :: 0 <= i < j < |s| ==> s[i] <= s[j]
  }

  function InsertSorted(s: seq<int>, x: int): seq<int> {
    if s == [] then [x]
    else if x <= s[0] then [x] + s
    else [s[0]] + InsertSorted(s[1..], x)
  }

  /** Python's `sorted` on integers. */
  function SortSeq(s: seq<int>): seq<int> {
    if s == [] then [] else InsertSorted(SortSeq(s[1..]), s[0])
  }

  lemma ConsSorted(h: int, t: seq<int>)
    requires IntSorted(t) && (t != [] ==> h <= t[0])
    ensures IntSorted([h] + t)
  {
    forall i, j | 0 <= i < j < |[h] + t|
      ensures ([h] + t)[i] <= ([h] + t)[j]
    {
      if i == 0 && j > 1 {
        assert t[0] <= t[j - 1];
      }
    }
  }

  lemma {:induction false} InsertSortedOrder(s: seq<int>, x: int)
    requires IntSorted(s)
    ensures IntSorted(InsertSorted(s, x))
    ensures InsertSorted(s, x)[0] == if s != [] && s[0] < x then s[0] else x
    decreases |s|
  {
    if s == [] {
    } else if x <= s[0] {
      ConsSorted(x, s);
    } else {
      InsertSortedOrder(s[1..], x);
      assert s[1..] != [] ==> s[0] <= s[1];
      ConsSorted(s[0], InsertSorted(s[1..], x));
    }
  }

  lemma {:induction false} InsertSortedCount(s: seq<int>, x: int)
    ensures multiset(InsertSorted(s, x)) == multiset(s) + multiset{x}
    decreases |s|
  {
    if s != [] && x > s[0] {
      InsertSortedCount(s[1..], x);
      assert s == [s[0]] + s[1..];
    }
  }

  lemma {:induction false} SortSeqSorted(s: seq<int>)
    ensures IntSorted(SortSeq(s))
    decreases |s|
  {
    if s != [] {
      SortSeqSorted(s[1..]);
      InsertSortedOrder(SortSeq(s[1..]), s[0]);
    }
  }

  lemma {:induction false} SortSeqCount(s: seq<int>)
    ensures multiset(SortSeq(s)) == multiset(s)
    decreases |s|
  {
    if s != [] {
      SortSeqCount(s[1..]);
      InsertSortedCount(SortSeq(s[1..]), s[0]);
      assert s == [s[0]] + s[1..];
    }
  }

  /** `sorted(s)` is sorted and holds the same elements. */
  lemma SortSeqSpec(s: seq<int>)
    ensures IntSorted(SortSeq(s)) && multiset(SortSeq(s)) == multiset(s)
  {
    SortSeqSorted(s);
    SortSeqCount(s);
  }

  /** `[sorted(l) for l in lists]` */
  function SortEach(lists: seq<seq<int>>): (r: seq<seq<int>>)
    ensures |r| == |lists|
  {
    if lists == [] then [] else [SortSeq(lists[0])] + SortEach(lists[1..])
  }

  lemma {:induction false} SortEachCount(lists: seq<seq<int>>)
    ensures multiset(PyList.Flatten(SortEach(lists))) == multiset(PyList.Flatten(lists))
    decreases |lists|
  {
    if lists != [] {
      SortEachCount(lists[1..]);
      SortSeqCount(lists[0]);
      assert ([SortSeq(lists[0])] + SortEach(lists[1..]))[1..] == SortEach(lists[1..]);
    }
  }

  // ---------------------------------------------------------------------
  // Sums over the sublists

  /** `sum([len(l) for l in lists])` */
  function TotalLength(lists: seq<seq<int>>): (n: nat)
    ensures n == |PyList.Flatten(lists)|
  {
    if lists == [] then 0 else |lists[0]| + TotalLength(lists[1..])
  }

  /** `sum([cur.count(item) for cur in lists])` */
  function CountAll(lists: seq<seq<int>>, item: int): (n: nat)
    ensures n == PyList.Count(PyList.Flatten(lists), item)
  {
    if lists == [] then 0
    else
      PyList.CountAppend(lists[0], PyList.Flatten(lists[1..]), item);
      PyList.Count(lists[0], item) + CountAll(lists[1..], item)
  }

  /** `chain.from_iterable(reversed(l) for l in reversed(lists))` */
  function ReversedChain(lists: seq<seq<int>>): (r: seq<int>)
    ensures r == PyList.Reversed(PyList.Flatten(lists))
    decreases |lists|
  {
    if lists == [] then []
    else
      var last, init := lists[|lists| - 1], lists[..|lists| - 1];
      assert lists == init + [last];
      PyList.FlattenAppend(init, [last]);
      PyList.FlattenOne(last);
      ReversedAppend(PyList.Flatten(init), last);
      PyList.Reversed(last) + ReversedChain(init)
  }

  lemma ReversedAppend(a: seq<int>, b: seq<int>)
    ensures PyList.Reversed(a + b) == PyList.Reversed(b) + PyList.Reversed(a)
  {
    var l, r := PyList.Reversed(a + b), PyList.Reversed(b) + PyList.Reversed(a);
    assert |l| == |r|;
    forall k | 0 <= k < |l|
      ensures l[k] == r[k]
    {
      if k < |b| {
        assert r[k] == PyList.Reversed(b)[k];
      } else {
        assert r[k] == PyList.Reversed(a)[k - |b|];
      }
    }
  }

  /** Appending to the last sublist appends to the concatenation. */
  lemma AppendLast(lists: seq<seq<int>>, t: seq<int>)
    requires |lists| >= 1
    ensures var last := |lists| - 1;
      PyList.Flatten(lists[last := lists[last] + t]) == PyList.Flatten(lists) + t
  {
    var last := |lists| - 1;
    FlattenAround(lists, last);
    FlattenUpdate(lists, last, lists[last] + t);
    assert lists[last + 1..] == [];
    Assoc(PyList.Flatten(lists[..last]), lists[last], t);
  }

  // ---------------------------------------------------------------------
  // The operations that change the sublists, as functions of the old ones

  /** `insert(index, item)` as written: with a single sublist the item is
      inserted there by `list.insert`, and then -- there is no `return` --
      once more through `_translate_index`. */
  function InsertSpec(lists: seq<seq<int>>, index: int, x: int, limit: int): Outcome<seq<seq<int>>, ()>
    requires |lists| >= 1 && limit >= 512
  {
    var l1 := if |lists| == 1 then Balance([PyInsert(lists[0], index, x)], 0, limit) else lists;
    match Translate(l1, index)
    case None => Outcome(l1, Err(IndexError))
    case Some(t) => Outcome(Balance(l1[t.0 := PyInsert(l1[t.0], t.1, x)], t.0, limit), Ok(()))
  }

  /** Inserting at a translated location and rebalancing. */
  lemma InsertTranslated(lists: seq<seq<int>>, index: int, x: int, limit: int)
    requires |lists| >= 1 && limit >= 512
    ensures var c := PyList.Flatten(lists);
      var idx := if index < 0 then index + |c| else index;
      var r := Translate(lists, index);
      && (0 <= idx < |c| ==>
            && r.Some?
            && PyList.Flatten(Balance(lists[r.value.0 := PyInsert(lists[r.value.0], r.value.1, x)], r.value.0, limit))
               == c[..idx] + [x] + c[idx..])
  {
    var c := PyList.Flatten(lists);
    var idx := if index < 0 then index + |c| else index;
    TranslateSpec(lists, index);
    if 0 <= idx < |c| {
      var t := Translate(lists, index).value;
      InsertBalanced(lists, t.0, t.1, x, limit);
    }
  }

  /** Inserting into sublist `j` at `r` and rebalancing it inserts at the
      matching position of the concatenation. */
  lemma InsertBalanced(lists: seq<seq<int>>, j: nat, r: nat, x: int, limit: int)
    requires j < |lists| && r <= |lists[j]| && limit >= 512
    ensures var c := PyList.Flatten(lists);
      var o := Offset(lists, j) + r;
      o <= |c| && PyList.Flatten(Balance(lists[j := PyInsert(lists[j], r, x)], j, limit)) == c[..o] + [x] + c[o..]
  {
    var l := lists[j := PyInsert(lists[j], r, x)];
    InsertLocated(lists, j, r, x);
    BalanceSpec(l, j, limit);
  }

  /** With several sublists, an index inside the list inserts there and an
      index before the start raises IndexError, changing nothing. */
  lemma InsertSeveral(lists: seq<seq<int>>, index: int, x: int, limit: int)
    requires |lists| > 1 && limit >= 512
    ensures var c := PyList.Flatten(lists);
      var idx := if index < 0 then index + |c| else index;
      var o := InsertSpec(lists, index, x, limit);
      && (idx < 0 ==> o == Outcome(lists, Err(IndexError)))
      && (0 <= idx < |c| ==> o.out == Ok(()) && PyList.Flatten(o.state) == c[..idx] + [x] + c[idx..])
  {
    TranslateSpec(lists, index);
    InsertTranslated(lists, index, x, limit);
  }

  lemma InsertAgain(c: seq<int>, p: nat, q: nat, x: int)
    requires p <= |c| && (q == p || q == p + 1)
    ensures var c1 := c[..p] + [x] + c[p..];
      q <= |c1| && c1[..q] + [x] + c1[q..] == c[..p] + [x, x] + c[p..]
  {
    var c1 := c[..p] + [x] + c[p..];
    if q == p {
      assert c1[..q] == c[..p];
      assert c1[q..] == [x] + c[p..];
    } else {
      assert c1[..q] == c[..p] + [x];
      assert c1[q..] == c[p..];
    }
  }

  /** With a single sublist, `insert` puts the item in twice, next to each
      other: `BarrelList([])` after `insert(0, 5)` holds `[5, 5]`. */
  lemma InsertTwice(lists: seq<seq<int>>, index: int, x: int, limit: int)
    requires |lists| == 1 && limit >= 512
    requires -|lists[0]| <= index <= |lists[0]|
    ensures var c := lists[0];
      var p := if index < 0 then index + |c| else index;
      var o := InsertSpec(lists, index, x, limit);
      o.out == Ok(()) && PyList.Flatten(o.state) == c[..p] + [x, x] + c[p..]
  {
    var c := lists[0];
    var p := if index < 0 then index + |c| else index;
    var c1 := PyInsert(c, index, x);
    assert c1 == c[..p] + [x] + c[p..];
    var l1 := Balance([c1], 0, limit);
    BalanceSpec([c1], 0, limit);
    PyList.FlattenOne(c1);
    var q := if index < 0 then index + |c1| else index;
    InsertTranslated(l1, index, x, limit);
    InsertAgain(c, p, q, x);
  }

  /** The evidently intended `insert`: return after the single-sublist
      case. */
  function InsertFixed(lists: seq<seq<int>>, index: int, x: int, limit: int): Outcome<seq<seq<int>>, ()>
    requires |lists| >= 1 && limit >= 512
  {
    if |lists| == 1 then Outcome(Balance([PyInsert(lists[0], index, x)], 0, limit), Ok(()))
    else InsertSpec(lists, index, x, limit)
  }

  lemma InsertFixedOnce(lists: seq<seq<int>>, index: int, x: int, limit: int)
    requires |lists| >= 1 && limit >= 512
    ensures var c := PyList.Flatten(lists);
      var idx := if index < 0 then index + |c| else index;
      var o := InsertFixed(lists, index, x, limit);
      0 <= idx < |c| ==> o.out == Ok(()) && PyList.Flatten(o.state) == c[..idx] + [x] + c[idx..]
    ensures |lists| == 1 ==>
      var o := InsertFixed(lists, index, x, limit);
      o.out == Ok(()) && PyList.Flatten(o.state) == PyInsert(lists[0], index, x)
  {
    if |lists| == 1 {
      assert lists == [lists[0]];
      PyList.FlattenOne(lists[0]);
      InsertFixedSingle(lists[0], index, x, limit);
    } else {
      InsertSeveral(lists, index, x, limit);
    }
  }

  /** The single-sublist case of the intended `insert`. */
  lemma InsertFixedSingle(c: seq<int>, index: int, x: int, limit: int)
    requires limit >= 512
    ensures var o := InsertFixed([c], index, x, limit);
      o.out == Ok(()) && PyList.Flatten(o.state) == PyInsert(c, index, x)
  {
    var c1 := PyInsert(c, index, x);
    BalanceSpec([c1], 0, limit);
    PyList.FlattenOne(c1);
  }

  /** `pop(*a)` as written; `index` is None when no index (or None) is
      given. */
  function PopSpec(lists: seq<seq<int>>, index: Option<int>, limit: int): Outcome<seq<seq<int>>, int>
    requires |lists| >= 1 && limit >= 512
  {
    if |lists| == 1 && index.None? then
      match PyPop(lists[0], -1)
      case Err(e) => Outcome(lists, Err(e))
      case Ok(p) => Outcome([p.1], Ok(p.0))
    else if index.None? || index.value == -1 then
      var last := |lists| - 1;
      match PyPop(lists[last], -1)
      case Err(e) => Outcome(lists, Err(e))
      case Ok(p) =>
        var l := lists[last := p.1];
        Outcome(if |l| > 1 && p.1 == [] then l[..last] else l, Ok(p.0))
    else
      match Translate(lists, index.value)
      case None => Outcome(lists, Err(IndexError))
      case Some(t) =>
        match PyPop(lists[t.0], t.1)
        case Err(e) => Outcome(lists, Err(e))
        case Ok(p) => Outcome(Balance(lists[t.0 := p.1], t.0, limit), Ok(p.0))
  }

  /** `pop()` and `pop(-1)` take the last element of the last sublist and
      drop that sublist when it becomes empty (unless it is the only one).
      When the last sublist is already empty they raise IndexError, even
      if other sublists still hold items. */
  lemma PopEnd(lists: seq<seq<int>>, index: Option<int>, limit: int)
    requires |lists| >= 1 && limit >= 512
    requires index.None? || index.value == -1
    ensures var c := PyList.Flatten(lists);
      var last := lists[|lists| - 1];
      var o := PopSpec(lists, index, limit);
      && (last == [] ==> o == Outcome(lists, Err(IndexError)))
      && (last != [] ==>
            && |c| > 0 && o.out == Ok(c[|c| - 1]) && |o.state| >= 1
            && PyList.Flatten(o.state) == c[..|c| - 1]
            && (|lists| > 1 && |last| == 1 ==> |o.state| == |lists| - 1))
  {
    var c := PyList.Flatten(lists);
    var j := |lists| - 1;
    var last := lists[j];
    if last != [] {
      var rest := last[..|last| - 1];
      PopLastOf(lists);
      var l := lists[j := rest];
      if |lists| == 1 {
        assert l == [rest];
      }
      if |l| > 1 && rest == [] {
        DropEmptyLast(l);
      }
    }
  }

  /** Popping the last element of a non-empty last sublist. */
  lemma PopLastOf(lists: seq<seq<int>>)
    requires |lists| >= 1 && lists[|lists| - 1] != []
    ensures var c := PyList.Flatten(lists);
      var j := |lists| - 1;
      var rest := lists[j][..|lists[j]| - 1];
      && |c| > 0 && PyPop(lists[j], -1) == Ok((c[|c| - 1], rest))
      && PyList.Flatten(lists[j := rest]) == c[..|c| - 1]
  {
    var j := |lists| - 1;
    var last := lists[j];
    var r := |last| - 1;
    PopLocated(lists, j, r);
    assert last[..r] + last[r + 1..] == last[..r];
    OffsetStep(lists, j);
    OffsetEnd(lists);
  }

  lemma DropEmptyLast(l: seq<seq<int>>)
    requires |l| >= 1 && l[|l| - 1] == []
    ensures PyList.Flatten(l[..|l| - 1]) == PyList.Flatten(l)
  {
    var init := l[..|l| - 1];
    assert l == init + [[]];
    PyList.FlattenAppend(init, [[]]);
    PyList.FlattenOne<int>([]);
    assert PyList.Flatten(init) + [] == PyList.Flatten(init);
  }

  /** `pop(i)` for any other index: the element at that position is
      removed; an index before the start raises IndexError and changes
      nothing. An index at or past the end is not rejected: it pops
      from the last sublist at the overshoot, when there is one. */
  lemma PopAt(lists: seq<seq<int>>, i: int, limit: int)
    requires |lists| >= 1 && limit >= 512 && i != -1
    ensures var c := PyList.Flatten(lists);
      var idx := if i < 0 then i + |c| else i;
      var last := lists[|lists| - 1];
      var o := PopSpec(lists, Some(i), limit);
      && (idx < 0 ==> o == Outcome(lists, Err(IndexError)))
      && (0 <= idx < |c| ==> o.out == Ok(c[idx]) && PyList.Flatten(o.state) == c[..idx] + c[idx + 1..])
      && (|c| <= idx < |c| + |last| ==> o.out == Ok(last[idx - |c|]))
      && (idx >= |c| + |last| ==> o == Outcome(lists, Err(IndexError)))
  {
    var c := PyList.Flatten(lists);
    var idx := if i < 0 then i + |c| else i;
    if 0 <= idx < |c| {
      PopAtInside(lists, i, limit);
    } else {
      TranslateSpec(lists, i);
    }
  }

  lemma PopAtInside(lists: seq<seq<int>>, i: int, limit: int)
    requires |lists| >= 1 && limit >= 512 && i != -1
    requires var n := |PyList.Flatten(lists)|; 0 <= (if i < 0 then i + n else i) < n
    ensures var c := PyList.Flatten(lists);
      var idx := if i < 0 then i + |c| else i;
      var o := PopSpec(lists, Some(i), limit);
      o.out == Ok(c[idx]) && PyList.Flatten(o.state) == c[..idx] + c[idx + 1..]
  {
    TranslateSpec(lists, i);
    var t := Translate(lists, i).value;
    PopLocated(lists, t.0, t.1);
    BalanceSpec(lists[t.0 := lists[t.0][..t.1] + lists[t.0][t.1 + 1..]], t.0, limit);
  }

  /** `sort()` as written: a single sublist is sorted; with several, the
      merged result replaces only the first sublist. */
  function SortSpec(lists: seq<seq<int>>, limit: int): seq<seq<int>>
    requires |lists| >= 1 && limit >= 512
  {
    if |lists| == 1 then [SortSeq(lists[0])]
    else Balance(lists[0 := SortSeq(PyList.Flatten(SortEach(lists)))], 0, limit)
  }

  /** Sorting a single sublist leaves it sorted with the same elements. */
  lemma SortSingle(lists: seq<seq<int>>, limit: int)
    requires |lists| == 1 && limit >= 512
    ensures var r := PyList.Flatten(SortSpec(lists, limit));
      IntSorted(r) && multiset(r) == multiset(PyList.Flatten(lists))
  {
    SortSeqSpec(lists[0]);
    PyList.FlattenOne(SortSeq(lists[0]));
    PyList.FlattenOne(lists[0]);
  }

  /** With several sublists the items of every sublist but the first end
      up in the list twice: `[[2], [1]]` sorts to `[[1, 2], [1]]`. */
  lemma SortDuplicates(lists: seq<seq<int>>, limit: int)
    requires |lists| > 1 && limit >= 512
    ensures var c := PyList.Flatten(lists);
      var r := PyList.Flatten(SortSpec(lists, limit));
      && r == SortSeq(PyList.Flatten(SortEach(lists))) + PyList.Flatten(lists[1..])
      && multiset(r) == multiset(c) + multiset(PyList.Flatten(lists[1..]))
  {
    var m := SortSeq(PyList.Flatten(SortEach(lists)));
    var l := lists[0 := m];
    BalanceSpec(l, 0, limit);
    FlattenUpdate(lists, 0, m);
    assert lists[..0] == [];
    SortSeqCount(PyList.Flatten(SortEach(lists)));
    SortEachCount(lists);
  }

  lemma SortDuplicatesExample()
    ensures SortSpec([[2], [1]], 512) == [[1, 2], [1]]
  {
    assert SortEach([[2], [1]]) == [[2], [1]] by {
      assert [[2], [1]][1..] == [[1]];
      assert [[1]][1..] == [];
      assert SortSeq([2]) == [2] by {
        assert [2][1..] == [];
      }
      assert SortSeq([1]) == [1] by {
        assert [1][1..] == [];
      }
    }
    assert PyList.Flatten([[2], [1]]) == [2, 1] by {
      assert [[2], [1]][1..] == [[1]];
      PyList.FlattenOne([1]);
    }
    assert SortSeq([2, 1]) == [1, 2] by {
      assert [2, 1][1..] == [1];
      assert SortSeq([1]) == [1] by {
        assert [1][1..] == [];
      }
      assert InsertSorted([1], 2) == [1, 2] by {
        assert [1][1..] == [];
      }
    }
  }

  /** The evidently intended `sort`: the merged result replaces all the
      sublists. */
  function SortFixed(lists: seq<seq<int>>, limit: int): seq<seq<int>>
    requires limit >= 512
  {
    Balance([SortSeq(PyList.Flatten(lists))], 0, limit)
  }

  lemma SortFixedSpec(lists: seq<seq<int>>, limit: int)
    requires limit >= 512
    ensures var r := PyList.Flatten(SortFixed(lists, limit));
      IntSorted(r) && multiset(r) == multiset(PyList.Flatten(lists))
  {
    var m := SortSeq(PyList.Flatten(lists));
    BalanceSpec([m], 0, limit);
    PyList.FlattenOne(m);
    SortSeqSpec(PyList.Flatten(lists));
  }

  // ---------------------------------------------------------------------
  // The object

  /** The loop of `_balance_list` once the sublist is over the limit: cut
      `half` items off its end at a time and insert them as a new sublist
      right after it. */
  method SplitLoop(lists0: seq<seq<int>>, i: nat, half: nat) returns (ls: seq<seq<int>>)
    requires i < |lists0| && half > 0
    ensures ls == lists0[..i] + Split(lists0[i], half) + lists0[i + 1..]
  {
    var pre, post := lists0[..i], lists0[i + 1..];
    var cur := lists0[i];
    ls := lists0;
    ghost var moved: seq<seq<int>> := [];
    assert ls == pre + [cur] + moved + post;
    while |cur| > half
      invariant ls == pre + [cur] + moved + post
      invariant Split(lists0[i], half) == Split(cur, half) + moved
      decreases |cur|
    {
      var piece := cur[|cur| - half..];
      ls := ls[..i + 1] + [piece] + ls[i + 1..];
      assert cur == cur[..|cur| - half] + piece;
      cur := cur[..|cur| - half];
      ls := ls[i := cur];
      SplitStep(pre, lists0[i], cur, piece, moved, post, half);
      ShapeStep(pre, cur + piece, cur, piece, moved, post);
      moved := [piece] + moved;
    }
    assert Split(cur, half) == [cur];
    Assoc4(pre, [cur], moved, post);
  }

  /** Cutting the last `h` items off a sublist longer than `h` peels the
      last piece of its split. */
  lemma SplitPeel(cur: seq<int>, piece: seq<int>, h: nat)
    requires h > 0 && |piece| == h && |cur| > 0
    ensures Split(cur + piece, h) == Split(cur, h) + [piece]
  {
    var whole := cur + piece;
    assert whole[..|whole| - h] == cur && whole[|whole| - h..] == piece;
  }

  lemma SplitStep(pre: seq<seq<int>>, orig: seq<int>, cur: seq<int>, piece: seq<int>,
                  moved: seq<seq<int>>, post: seq<seq<int>>, half: nat)
    requires half > 0 && |piece| == half && |cur| > 0
    requires Split(orig, half) == Split(cur + piece, half) + moved
    ensures Split(orig, half) == Split(cur, half) + ([piece] + moved)
  {
    SplitPeel(cur, piece, half);
  }

  lemma ShapeStep<T>(pre: seq<T>, old_: T, cur: T, piece: T, moved: seq<T>, post: seq<T>)
    ensures var ls := pre + [old_] + moved + post;
      (ls[..|pre| + 1] + [piece] + ls[|pre| + 1..])[|pre| := cur] == pre + [cur] + ([piece] + moved) + post
  {
    var ls := pre + [old_] + moved + post;
    assert ls[..|pre| + 1] == pre + [old_];
    assert ls[|pre| + 1..] == moved + post;
  }

  lemma Assoc4(a: seq<seq<int>>, b: seq<seq<int>>, c: seq<seq<int>>, d: seq<seq<int>>)
    ensures a + b + c + d == a + (b + c) + d
  {
  }

  class BarrelList {
    var lists: seq<seq<int>>

    ghost predicate Valid()
      reads this
    {
      |lists| >= 1
    }

    /** What the BarrelList holds: `chain(*self.lists)`, which is also
        what `__iter__` yields. */
    function Contents(): seq<int>
      reads this
    {
      PyList.Flatten(lists)
    }

    /** `BarrelList(iterable)`: one empty sublist, extended by the items. */
    constructor(items: seq<int>)
      ensures Valid() && lists == [items] && Contents() == items
    {
      lists := [[]];
      new;
      if items != [] {
        Extend(items);
        assert [] + items == items;
      }
      PyList.FlattenOne(items);
    }

    /** `__len__` */
    function Len(): (n: nat)
      reads this
      ensures n == |Contents()|
    {
      TotalLength(lists)
    }

    /** `count(item)` */
    function Count(item: int): (n: nat)
      reads this
      ensures n == PyList.Count(Contents(), item)
    {
      CountAll(lists, item)
    }

    /** `__reversed__` */
    function ReversedItems(): (r: seq<int>)
      reads this
      ensures r == PyList.Reversed(Contents())
    {
      ReversedChain(lists)
    }

    /** `__contains__`: look through the sublists in turn. */
    method Contains(item: int) returns (b: bool)
      ensures b <==> item in Contents()
    {
      for k := 0 to |lists|
        invariant item !in PyList.Flatten(lists[..k])
      {
        if item in lists[k] {
          FlattenAround(lists, k);
          return true;
        }
        assert lists[..k + 1] == lists[..k] + [lists[k]];
        PyList.FlattenAppend(lists[..k], [lists[k]]);
        PyList.FlattenOne(lists[k]);
      }
      assert lists[..|lists|] == lists;
      return false;
    }

    /** `_translate_index(index)` */
    method TranslateIndex(index: int) returns (r: Option<(nat, int)>)
      requires Valid()
      ensures r == Translate(lists, index)
    {
      var idx := if index < 0 then index + Len() else index;
      var rel := idx;
      var listIdx: nat := 0;
      for k := 0 to |lists|
        invariant k < |lists| ==> TranslateFrom(lists, k, rel) == TranslateFrom(lists, 0, idx)
        invariant k == |lists| ==> (listIdx, rel) == TranslateFrom(lists, 0, idx)
      {
        listIdx := k;
        if rel < |lists[k]| {
          break;
        }
        rel := rel - |lists[k]|;
      }
      if rel < 0 {
        return None;
      }
      return Some((listIdx, rel));
    }

    /** `_balance_list(list_idx)` with the current size limit `limit`. */
    method BalanceList(listIdx: int, limit: int) returns (b: bool)
      requires Valid() && limit >= 512 && -|lists| <= listIdx < |lists|
      modifies this
      ensures Valid()
      ensures var i := if listIdx < 0 then listIdx + |old(lists)| else listIdx;
        lists == Balance(old(lists), i, limit) && (b <==> |old(lists)[i]| > limit)
    {
      var i: nat := if listIdx < 0 then listIdx + |lists| else listIdx;
      if |lists[i]| > limit {
        lists := SplitLoop(lists, i, limit / 2);
        return true;
      }
      return false;
    }

    /** `insert(index, item)`, as written. */
    method Insert(index: int, item: int, limit: int) returns (r: Result<()>)
      requires Valid() && limit >= 512
      modifies this
      ensures Valid() && Outcome(lists, r) == InsertSpec(old(lists), index, item, limit)
    {
      if |lists| == 1 {
        lists := [PyInsert(lists[0], index, item)];
        var _ := BalanceList(0, limit);
      }
      var loc := TranslateIndex(index);
      if loc.None? {
        return Err(IndexError);
      }
      var j := loc.value.0;
      lists := lists[j := PyInsert(lists[j], loc.value.1, item)];
      var _ := BalanceList(j, limit);
      return Ok(());
    }

    /** `append(item)`: onto the last sublist, without rebalancing. */
    method Append(item: int)
      requires Valid()
      modifies this
      ensures Valid() && lists == old(lists)[|old(lists)| - 1 := old(lists)[|old(lists)| - 1] + [item]]
      ensures Contents() == old(Contents()) + [item]
    {
      AppendLast(lists, [item]);
      lists := lists[|lists| - 1 := lists[|lists| - 1] + [item]];
    }

    /** `extend(items)`: onto the last sublist, without rebalancing. */
    method Extend(items: seq<int>)
      requires Valid()
      modifies this
      ensures Valid() && lists == old(lists)[|old(lists)| - 1 := old(lists)[|old(lists)| - 1] + items]
      ensures Contents() == old(Contents()) + items
    {
      AppendLast(lists, items);
      lists := lists[|lists| - 1 := lists[|lists| - 1] + items];
    }

    /** `pop(*a)`, as written; `index` is None for `pop()`. */
    method Pop(index: Option<int>, limit: int) returns (r: Result<int>)
      requires Valid() && limit >= 512
      modifies this
      ensures Valid() && Outcome(lists, r) == PopSpec(old(lists), index, limit)
    {
      if |lists| == 1 && index.None? {
        var p := PyPop(lists[0], -1);
        if p.Err? {
          return Err(p.error);
        }
        lists := [p.value.1];
        return Ok(p.value.0);
      }
      if index.None? || index.value == -1 {
        var last := |lists| - 1;
        var p := PyPop(lists[last], -1);
        if p.Err? {
          return Err(p.error);
        }
        lists := lists[last := p.value.1];
        if |lists| > 1 && lists[last] == [] {
          lists := lists[..last];
        }
        return Ok(p.value.0);
      }
      var loc := TranslateIndex(index.value);
      if loc.None? {
        return Err(IndexError);
      }
      var j := loc.value.0;
      var p := PyPop(lists[j], loc.value.1);
      if p.Err? {
        return Err(p.error);
      }
      lists := lists[j := p.value.1];
      var _ := BalanceList(j, limit);
      return Ok(p.value.0);
    }

    /** `__getitem__` with an integer index (slices are not modelled).
        Inside the list it returns the item there; before the start it
        raises IndexError; at or past the end it reads the last sublist
        at the overshoot, raising IndexError only past that. */
    method GetItem(index: int) returns (r: Result<int>)
      requires Valid()
      ensures var n := |Contents()|;
        var idx := if index < 0 then index + n else index;
        var last := lists[|lists| - 1];
        && (idx < 0 ==> r == Err(IndexError))
        && (0 <= idx < n ==> r == Ok(Contents()[idx]))
        && (idx >= n ==> r == if idx - n < |last| then Ok(last[idx - n]) else Err(IndexError))
    {
      var loc := TranslateIndex(index);
      TranslateSpec(lists, index);
      if loc.None? {
        return Err(IndexError);
      }
      if loc.value.1 >= |lists[loc.value.0]| {
        return Err(IndexError);
      }
      return Ok(lists[loc.value.0][loc.value.1]);
    }

    /** `sort()`, as written. */
    method Sort(limit: int)
      requires Valid() && limit >= 512
      modifies this
      ensures Valid() && lists == SortSpec(old(lists), limit)
    {
      if |lists| == 1 {
        lists := [SortSeq(lists[0])];
      } else {
        lists := lists[0 := SortSeq(PyList.Flatten(SortEach(lists)))];
        var _ := BalanceList(0, limit);
      }
    }
  }
}
