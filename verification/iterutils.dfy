/** `split_iter`/`split` and `chunked_iter`/`chunked` of boltons/iterutils.py:
    `str.split`-like splitting of a sequence on separator elements, and
    cutting a sequence into fixed-size chunks. Python values are modelled
    as `Option<T>`, with `None` standing for Python's `None`. */
module IterUtils {
  import opened Wrappers
  import opened PyList

  /** The `sep` argument: a single value compared with `==` (the default
      is `None`), a collection of values (membership), or a predicate. */
  datatype Sep<!T(==)> = Value(v: Option<T>) | Values(vs: set<Option<T>>) | Pred(f: Option<T> -> bool)

  /** `sep_func(x)` */
  predicate IsSep<T(==)>(sep: Sep<T>, x: Option<T>) {
    match sep
    case Value(v) => x == v
    case Values(vs) => x in vs
    case Pred(f) => f(x)
  }

  /** `sep is None`: runs of separators count as one and no empty group
      is produced, as in `str.split()` without an argument. */
  predicate Grouping<T>(sep: Sep<T>) {
    sep.Value? && sep.v.None?
  }

  /** Whether the `split_count`-th split may still happen under `maxsplit`. */
  predicate Honours(maxsplit: Option<int>, count: nat) {
    maxsplit.None? || count < maxsplit.value
  }

  /** The groups still to come when the scan is about to read `rest` with
      the open group `cur` after `count` splits. */
  function SplitFrom<T(==)>(rest: seq<Option<T>>, sep: Sep<T>, maxsplit: Option<int>,
                            cur: seq<Option<T>>, count: nat): (r: seq<seq<Option<T>>>)
    ensures !Grouping(sep) ==> r != []
    ensures Grouping(sep) ==> forall i :: 0 <= i < |r| ==> r[i] != []
    decreases |rest|
  {
    if rest == [] then
      if cur != [] || !Grouping(sep) then [cur] else []
    else if Honours(maxsplit, count) && IsSep(sep, rest[0]) then
      if Grouping(sep) && cur == [] then SplitFrom(rest[1..], sep, maxsplit, cur, count)
      else [cur] + SplitFrom(rest[1..], sep, maxsplit, [], count + 1)
    else
      SplitFrom(rest[1..], sep, maxsplit, cur + [rest[0]], count)
  }

  /** The result of `split(src, sep, maxsplit)`, with `maxsplit=0` giving
      the source itself as the one group. */
  function Split<T(==)>(src: seq<Option<T>>, sep: Sep<T>, maxsplit: Option<int>): (r: seq<seq<Option<T>>>)
    ensures !Grouping(sep) || maxsplit == Some(0) ==> r != []
    ensures Grouping(sep) && maxsplit != Some(0) ==> forall i :: 0 <= i < |r| ==> r[i] != []
  {
    if maxsplit == Some(0) then [src] else SplitFrom(src, sep, maxsplit, [], 0)
  }

  /** The loop of `split_iter` after the `maxsplit == 0` case: elements are
      added to the current group until a separator closes it; once
      `maxsplit` splits have happened the separator test is replaced by
      one that is always false. */
  method SplitGroups<T(==)>(src: seq<Option<T>>, sep: Sep<T>, maxsplit: Option<int>)
    returns (groups: seq<seq<Option<T>>>)
    ensures groups == SplitFrom(src, sep, maxsplit, [], 0)
  {
    groups := [];
    var cur: seq<Option<T>> := [];
    var splitCount: nat := 0;
    var sepOn := true;
    for i := 0 to |src|
      invariant !sepOn ==> !Honours(maxsplit, splitCount)
      invariant groups + SplitFrom(src[i..], sep, maxsplit, cur, splitCount) == SplitFrom(src, sep, maxsplit, [], 0)
    {
      assert src[i..][0] == src[i] && src[i..][1..] == src[i + 1..];
      var s := src[i];
      if maxsplit.Some? && splitCount >= maxsplit.value {
        sepOn := false;
      }
      if sepOn && IsSep(sep, s) {
        if !(Grouping(sep) && cur == []) {
          SplitCloses(groups, src[i..], sep, maxsplit, cur, splitCount);
          splitCount := splitCount + 1;
          groups := groups + [cur];
          cur := [];
        }
      } else {
        SplitKeeps(src[i..], sep, maxsplit, cur, splitCount);
        cur := cur + [s];
      }
    }
    if cur != [] || !Grouping(sep) {
      groups := groups + [cur];
    } else {
      assert groups + [] == groups;
    }
  }

  /** A separator that may still split closes the open group. */
  lemma SplitCloses<T>(groups: seq<seq<Option<T>>>, rest: seq<Option<T>>, sep: Sep<T>, maxsplit: Option<int>,
                           cur: seq<Option<T>>, count: nat)
    requires rest != [] && Honours(maxsplit, count) && IsSep(sep, rest[0]) && !(Grouping(sep) && cur == [])
    ensures groups + SplitFrom(rest, sep, maxsplit, cur, count)
         == (groups + [cur]) + SplitFrom(rest[1..], sep, maxsplit, [], count + 1)
  {
    var tail := SplitFrom(rest[1..], sep, maxsplit, [], count + 1);
    assert groups + ([cur] + tail) == (groups + [cur]) + tail;
  }

  /** Any other element joins the open group. */
  lemma SplitKeeps<T>(rest: seq<Option<T>>, sep: Sep<T>, maxsplit: Option<int>, cur: seq<Option<T>>, count: nat)
    requires rest != [] && !(Honours(maxsplit, count) && IsSep(sep, rest[0]))
    ensures SplitFrom(rest, sep, maxsplit, cur, count) == SplitFrom(rest[1..], sep, maxsplit, cur + [rest[0]], count)
  {
  }

  /** `list(split_iter(src, sep, maxsplit))`, with the `maxsplit=0` case
      yielding the source itself as the one group. */
  method SplitIter<T(==)>(src: seq<Option<T>>, sep: Sep<T>, maxsplit: Option<int>)
    returns (groups: seq<seq<Option<T>>>)
    ensures groups == Split(src, sep, maxsplit)
  {
    if maxsplit == Some(0) {
      return [src];
    }
    groups := SplitGroups(src, sep, maxsplit);
  }

  /** What `split_iter` as written produces: either groups, or, for
      `maxsplit=0`, the single group `[src]` whose only element is the
      source list itself. */
  datatype SplitOutput<T> = Groups(groups: seq<seq<Option<T>>>) | SourceInOneGroup(src: seq<Option<T>>)

  method SplitIterAsWritten<T(==)>(src: seq<Option<T>>, sep: Sep<T>, maxsplit: Option<int>)
    returns (r: SplitOutput<T>)
    ensures maxsplit == Some(0) ==> r == SourceInOneGroup(src)
    ensures maxsplit != Some(0) ==> r == Groups(Split(src, sep, maxsplit))
  {
    if maxsplit == Some(0) {
      return SourceInOneGroup(src);
    }
    var groups := SplitGroups(src, sep, maxsplit);
    r := Groups(groups);
  }

  /** For `maxsplit=0` the yielded group is not the source's elements but
      a list holding the source as one element; the loop itself, given
      `maxsplit=0`, returns the source's elements as the one group. */
  lemma MaxsplitZeroNests<T>(src: seq<Option<T>>, sep: Sep<T>)
    requires !Grouping(sep) || src != []
    ensures SplitFrom(src, sep, Some(0), [], 0) == [src]
    ensures Split(src, sep, Some(0)) == [src]
  {
    Unhonoured(src, sep, Some(0), [], 0);
    assert [] + src == src;
  }

  // ---------------------------------------------------------------------
  // properties of the splitting

  /** The separators of `s`, in order. */
  function Seps<T(==)>(s: seq<Option<T>>, sep: Sep<T>): seq<Option<T>> {
    if s == [] then []
    else (if IsSep(sep, s[0]) then [s[0]] else []) + Seps(s[1..], sep)
  }

  /** The elements of `s` that are not separators, in order. */
  function NonSeps<T(==)>(s: seq<Option<T>>, sep: Sep<T>): seq<Option<T>> {
    if s == [] then []
    else (if IsSep(sep, s[0]) then [] else [s[0]]) + NonSeps(s[1..], sep)
  }

  predicate NoSep<T(==)>(g: seq<Option<T>>, sep: Sep<T>) {
    forall k :: 0 <= k < |g| ==> !IsSep(sep, g[k])
  }

  /** The groups put back together with the separators between them. */
  function Interleave<T>(gs: seq<seq<T>>, ss: seq<T>): seq<T>
    requires |gs| == |ss| + 1
  {
    if ss == [] then gs[0] else gs[0] + [ss[0]] + Interleave(gs[1..], ss[1..])
  }

  /** Once no further split is allowed, the rest of the input, separators
      included, joins the open group, which is the last one. */
  lemma {:induction false} Unhonoured<T>(rest: seq<Option<T>>, sep: Sep<T>, maxsplit: Option<int>,
                                             cur: seq<Option<T>>, count: nat)
    requires !Honours(maxsplit, count)
    ensures SplitFrom(rest, sep, maxsplit, cur, count)
      == if cur + rest == [] && Grouping(sep) then [] else [cur + rest]
    decreases |rest|
  {
    if rest == [] {
      assert cur + rest == cur;
    } else {
      Unhonoured(rest[1..], sep, maxsplit, cur + [rest[0]], count);
      assert cur + [rest[0]] + rest[1..] == cur + rest;
    }
  }

  /** Every group but the last is free of separators, whatever `maxsplit`. */
  lemma {:induction false} GroupsBeforeLastHaveNoSep<T>(rest: seq<Option<T>>, sep: Sep<T>, maxsplit: Option<int>,
                                                            cur: seq<Option<T>>, count: nat)
    requires NoSep(cur, sep)
    ensures forall j :: 0 <= j < |SplitFrom(rest, sep, maxsplit, cur, count)| - 1 ==>
      NoSep(SplitFrom(rest, sep, maxsplit, cur, count)[j], sep)
    decreases |rest|
  {
    if rest != [] {
      if Honours(maxsplit, count) && IsSep(sep, rest[0]) {
        if Grouping(sep) && cur == [] {
          GroupsBeforeLastHaveNoSep(rest[1..], sep, maxsplit, cur, count);
          assert SplitFrom(rest, sep, maxsplit, cur, count) == SplitFrom(rest[1..], sep, maxsplit, cur, count);
        } else {
          GroupsBeforeLastHaveNoSep(rest[1..], sep, maxsplit, [], count + 1);
          ClosedGroupFirst(rest, sep, maxsplit, cur, count);
        }
      } else if Honours(maxsplit, count) {
        NoSepAppend(cur, rest[0], sep);
        GroupsBeforeLastHaveNoSep(rest[1..], sep, maxsplit, cur + [rest[0]], count);
        assert SplitFrom(rest, sep, maxsplit, cur, count) == SplitFrom(rest[1..], sep, maxsplit, cur + [rest[0]], count);
      } else {
        Unhonoured(rest, sep, maxsplit, cur, count);
      }
    }
  }

  lemma NoSepAppend<T>(g: seq<Option<T>>, x: Option<T>, sep: Sep<T>)
    requires NoSep(g, sep) && !IsSep(sep, x)
    ensures NoSep(g + [x], sep)
  {
    assert forall k :: 0 <= k < |g| ==> (g + [x])[k] == g[k];
  }

  /** A separator that closes the open group puts it first. */
  lemma ClosedGroupFirst<T>(rest: seq<Option<T>>, sep: Sep<T>, maxsplit: Option<int>,
                            cur: seq<Option<T>>, count: nat)
    requires rest != [] && Honours(maxsplit, count) && IsSep(sep, rest[0]) && !(Grouping(sep) && cur == [])
    ensures var r := SplitFrom(rest, sep, maxsplit, cur, count);
      var after := SplitFrom(rest[1..], sep, maxsplit, [], count + 1);
      |r| == |after| + 1 && r[0] == cur && forall j :: 1 <= j < |r| ==> r[j] == after[j - 1]
  {
  }

  /** Without `maxsplit`, no group holds a separator. */
  lemma {:induction false} NoGroupHasSep<T>(rest: seq<Option<T>>, sep: Sep<T>,
                                               cur: seq<Option<T>>, count: nat)
    requires NoSep(cur, sep)
    ensures forall j :: 0 <= j < |SplitFrom(rest, sep, None, cur, count)| ==>
      NoSep(SplitFrom(rest, sep, None, cur, count)[j], sep)
    decreases |rest|
  {
    if rest != [] {
      if IsSep(sep, rest[0]) {
        if Grouping(sep) && cur == [] {
          NoGroupHasSep(rest[1..], sep, cur, count);
          assert SplitFrom(rest, sep, None, cur, count) == SplitFrom(rest[1..], sep, None, cur, count);
        } else {
          NoGroupHasSep(rest[1..], sep, [], count + 1);
          ClosedGroupFirst(rest, sep, None, cur, count);
        }
      } else {
        NoSepAppend(cur, rest[0], sep);
        NoGroupHasSep(rest[1..], sep, cur + [rest[0]], count);
        assert SplitFrom(rest, sep, None, cur, count) == SplitFrom(rest[1..], sep, None, cur + [rest[0]], count);
      }
    }
  }

  /** With an explicit separator and no `maxsplit`, there is one group more
      than there are separators, empty groups included, and putting the
      separators back between the groups gives the input back. */
  lemma {:induction false} SplitRoundTrip<T>(rest: seq<Option<T>>, sep: Sep<T>,
                                                cur: seq<Option<T>>, count: nat)
    requires !Grouping(sep)
    ensures var r := SplitFrom(rest, sep, None, cur, count);
      |r| == |Seps(rest, sep)| + 1 && Interleave(r, Seps(rest, sep)) == cur + rest
    decreases |rest|
  {
    if rest == [] {
      assert cur + rest == cur;
    } else {
      var tail := rest[1..];
      if IsSep(sep, rest[0]) {
        SplitRoundTrip(tail, sep, [], count + 1);
        assert [] + tail == tail;
        assert Seps(rest, sep) == [rest[0]] + Seps(tail, sep);
        assert cur + [rest[0]] + tail == cur + rest;
      } else {
        SplitRoundTrip(tail, sep, cur + [rest[0]], count);
        assert Seps(rest, sep) == Seps(tail, sep);
        InterleaveHead(SplitFrom(tail, sep, None, cur + [rest[0]], count), Seps(tail, sep));
        assert cur + [rest[0]] + tail == cur + rest;
      }
    }
  }

  lemma InterleaveHead<T>(gs: seq<seq<T>>, ss: seq<T>)
    requires |gs| == |ss| + 1
    ensures StartsWithGroup(Interleave(gs, ss), gs[0])
  {
  }

  ghost predicate StartsWithGroup<T>(s: seq<T>, g: seq<T>) {
    |g| <= |s| && s[..|g|] == g
  }

  /** With `sep=None` and no `maxsplit`, no group is empty and the groups
      hold exactly the non-separator elements, in order. */
  lemma {:induction false} GroupingKeepsNonSeps<T>(rest: seq<Option<T>>, sep: Sep<T>,
                                                      cur: seq<Option<T>>, count: nat)
    requires Grouping(sep)
    ensures forall j :: 0 <= j < |SplitFrom(rest, sep, None, cur, count)| ==> SplitFrom(rest, sep, None, cur, count)[j] != []
    ensures Flatten(SplitFrom(rest, sep, None, cur, count)) == cur + NonSeps(rest, sep)
    decreases |rest|
  {
    var r := SplitFrom(rest, sep, None, cur, count);
    if rest == [] {
      if cur != [] {
        FlattenOne(cur);
      }
      assert cur + [] == cur;
    } else {
      var tail := rest[1..];
      if IsSep(sep, rest[0]) {
        assert NonSeps(rest, sep) == NonSeps(tail, sep);
        if cur == [] {
          GroupingKeepsNonSeps(tail, sep, cur, count);
        } else {
          GroupingKeepsNonSeps(tail, sep, [], count + 1);
          assert r == [cur] + SplitFrom(tail, sep, None, [], count + 1);
          assert r[1..] == SplitFrom(tail, sep, None, [], count + 1);
          assert [] + NonSeps(tail, sep) == NonSeps(tail, sep);
        }
      } else {
        GroupingKeepsNonSeps(tail, sep, cur + [rest[0]], count);
        assert NonSeps(rest, sep) == [rest[0]] + NonSeps(tail, sep);
        assert cur + [rest[0]] + NonSeps(tail, sep) == cur + NonSeps(rest, sep);
      }
    }
  }

  /** After `count` splits, at most `maxsplit - count` more happen, so a
      non-negative `maxsplit` allows at most `maxsplit + 1` groups. */
  lemma {:induction false} MaxsplitBound<T>(rest: seq<Option<T>>, sep: Sep<T>, k: nat,
                                               cur: seq<Option<T>>, count: nat)
    requires count <= k
    ensures |SplitFrom(rest, sep, Some(k), cur, count)| <= k - count + 1
    decreases |rest|
  {
    if rest != [] {
      var tail := rest[1..];
      if count < k && IsSep(sep, rest[0]) {
        if Grouping(sep) && cur == [] {
          MaxsplitBound(tail, sep, k, cur, count);
        } else {
          MaxsplitBound(tail, sep, k, [], count + 1);
        }
      } else if count < k {
        MaxsplitBound(tail, sep, k, cur + [rest[0]], count);
      } else {
        Unhonoured(rest, sep, Some(k), cur, count);
      }
    }
  }

  /** The splits of `split` stated on its whole input. */
  lemma SplitProperties<T>(src: seq<Option<T>>, sep: Sep<T>, maxsplit: Option<int>)
    ensures var r := Split(src, sep, maxsplit);
      (maxsplit.None? ==> forall j :: 0 <= j < |r| ==> NoSep(r[j], sep))
      && (maxsplit.Some? && maxsplit.value >= 0 ==> |r| <= maxsplit.value + 1)
      && (maxsplit.Some? && maxsplit.value < 0 ==> r == if src == [] && Grouping(sep) then [] else [src])
      && (maxsplit.None? && !Grouping(sep) ==> |r| == |Seps(src, sep)| + 1 && Interleave(r, Seps(src, sep)) == src)
      && (maxsplit.None? && Grouping(sep) ==> (forall j :: 0 <= j < |r| ==> r[j] != []) && Flatten(r) == NonSeps(src, sep))
  {
    assert [] + src == src;
    if maxsplit.None? {
      NoGroupHasSep(src, sep, [], 0);
      if Grouping(sep) {
        GroupingKeepsNonSeps(src, sep, [], 0);
      } else {
        SplitRoundTrip(src, sep, [], 0);
      }
    } else if maxsplit.value > 0 {
      MaxsplitBound(src, sep, maxsplit.value, [], 0);
    } else if maxsplit.value < 0 {
      Unhonoured(src, sep, maxsplit, [], 0);
    }
  }

  // ---------------------------------------------------------------------
  // the docstring examples

  /** The values of the examples: strings and booleans. */
  datatype Atom = Str(s: string) | Bool(b: bool)

  /** `lambda x: not x` */
  predicate Falsy(x: Option<Atom>) {
    x.None? || x == Some(Str("")) || x == Some(Bool(false))
  }

  lemma SplitExampleNone()
    ensures Split([Some(Str("hi")), Some(Str("hello")), None, None, Some(Str("sup")), None, Some(Str("soap")), None],
                  Value(None), None)
      == [[Some(Str("hi")), Some(Str("hello"))], [Some(Str("sup"))], [Some(Str("soap"))]]
  {
    var hi, hello, sup, soap := Some(Str("hi")), Some(Str("hello")), Some(Str("sup")), Some(Str("soap"));
    var sep: Sep<Atom> := Value(None);
    SplitExampleNoneTail();
    assert SplitFrom([None, None, sup, None, soap, None], sep, None, [hi, hello], 0) == [[hi, hello], [sup], [soap]];
    assert [hello, None, None, sup, None, soap, None][1..] == [None, None, sup, None, soap, None] && [hi] + [hello] == [hi, hello];
    assert SplitFrom([hello, None, None, sup, None, soap, None], sep, None, [hi], 0) == [[hi, hello], [sup], [soap]];
    assert [] + [hi] == [hi];
  }

  /** The groups after the first separator of the example above. */
  lemma SplitExampleNoneTail()
    ensures SplitFrom([None, Some(Str("sup")), None, Some(Str("soap")), None], Value(None), None, [], 1) == [[Some(Str("sup"))], [Some(Str("soap"))]]
  {
    var sup, soap := Some(Str("sup")), Some(Str("soap"));
    var sep: Sep<Atom> := Value(None);
    assert SplitFrom([None], sep, None, [soap], 2) == [[soap]];
    assert [soap, None][1..] == [None] && [] + [soap] == [soap];
    assert SplitFrom([soap, None], sep, None, [], 2) == [[soap]];
    assert SplitFrom([None, soap, None], sep, None, [sup], 1) == [[sup], [soap]];
    assert [sup, None, soap, None][1..] == [None, soap, None] && [] + [sup] == [sup];
    assert SplitFrom([sup, None, soap, None], sep, None, [], 1) == [[sup], [soap]];
    assert [None, sup, None, soap, None][1..] == [sup, None, soap, None];
  }

  lemma SplitExampleFalsy()
    ensures Split([Some(Str("hi")), Some(Str("hello")), None, Some(Str("")), Some(Str("sup")), Some(Bool(false))],
                  Pred(Falsy), None)
      == [[Some(Str("hi")), Some(Str("hello"))], [], [Some(Str("sup"))], []]
  {
    var hi, hello, empty, sup, no := Some(Str("hi")), Some(Str("hello")), Some(Str("")), Some(Str("sup")), Some(Bool(false));
    var sep: Sep<Atom> := Pred(Falsy);
    assert SplitFrom([no], sep, None, [sup], 2) == [[sup], []];
    assert [sup, no][1..] == [no] && [] + [sup] == [sup];
    assert SplitFrom([sup, no], sep, None, [], 2) == [[sup], []];
    assert SplitFrom([empty, sup, no], sep, None, [], 1) == [[], [sup], []];
    assert SplitFrom([None, empty, sup, no], sep, None, [hi, hello], 0) == [[hi, hello], [], [sup], []];
    assert [hello, None, empty, sup, no][1..] == [None, empty, sup, no] && [hi] + [hello] == [hi, hello];
    assert SplitFrom([hello, None, empty, sup, no], sep, None, [hi], 0) == [[hi, hello], [], [sup], []];
    assert [] + [hi] == [hi];
  }

  // ---------------------------------------------------------------------
  // chunked_iter and chunked

  /** What the fill value adds to the last chunk: nothing without `fill`
      or when the source divides evenly, else enough to make it full. */
  function Padding<T>(n: nat, size: nat, fill: Option<T>): seq<T>
    requires size > 0
  {
    if fill.None? || n % size == 0 then [] else Repeat(fill.value, size - n % size)
  }

  /** `chunks` cut `src` into chunks of `size`: there are none for an
      empty source; every chunk but the last is full, the last holds one to
      `size` elements (exactly `size` with a fill value), and together they
      are the source followed by the padding. */
  ghost predicate IsChunking<T>(chunks: seq<seq<T>>, src: seq<T>, size: nat, fill: Option<T>)
    requires size > 0
  {
    && (chunks == [] <==> src == [])
    && (forall j :: 0 <= j < |chunks| - 1 ==> |chunks[j]| == size)
    && (chunks != [] ==> 0 < |chunks[|chunks| - 1]| <= size)
    && (chunks != [] && fill.Some? ==> |chunks[|chunks| - 1]| == size)
    && Flatten(chunks) == src + Padding(|src|, size, fill)
  }

  lemma {:induction false} MulAtLeast(d: nat, size: int)
    requires size > 0 && d >= 1
    ensures d * size >= size
    decreases d
  {
    if d > 1 {
      MulAtLeast(d - 1, size);
      assert d * size == (d - 1) * size + size;
    }
  }

  /** Euclidean division is unique: `x == q * size + r` with `0 <= r < size`
      fixes the quotient and the remainder. */
  lemma DivModUnique(x: int, size: int, q: int, r: int)
    requires size > 0 && 0 <= r < size && x == q * size + r
    ensures x % size == r && x / size == q
  {
    var q', r' := x / size, x % size;
    assert x == q' * size + r';
    assert (q - q') * size == r' - r;
    if q - q' >= 1 {
      MulAtLeast(q - q', size);
    } else if q' - q >= 1 {
      MulAtLeast(q' - q, size);
    }
  }

  /** `list(chunked_iter(src, size, fill=...))`: ValueError for a size
      below one; otherwise items are collected until their running count
      is a multiple of `size`, and a last partial chunk is padded when a
      fill value is given. */
  method ChunkedIter<T>(src: seq<T>, size: int, fill: Option<T>) returns (r: Result<seq<seq<T>>>)
    ensures r.Err? <==> size <= 0
    ensures r.Err? ==> r.error == ValueError
    ensures r.Ok? ==> IsChunking(r.value, src, size, fill)
  {
    if size <= 0 {
      return Err(ValueError);
    }
    var chunks: seq<seq<T>> := [];
    if src == [] {
      return Ok(chunks);
    }
    var cur;
    chunks, cur := CollectChunks(src, size);
    if cur != [] {
      var last := cur;
      if fill.Some? {
        last := cur + Repeat(fill.value, size - |cur|);
      }
      PaddingAfter(|src|, size, |cur|, fill);
      assert src[..|src| - |cur|] + src[|src| - |cur|..|src|] == src;
      ChunkFinishOpen(src, size, fill, chunks, cur, last);
      chunks := chunks + [last];
    } else {
      ChunkFinishEven(src, size, fill, chunks);
    }
    r := Ok(chunks);
  }

  /** The loop of `chunked_iter`: each item joins the open chunk, which is
      closed when the running count of items is a multiple of `size`. */
  method CollectChunks<T>(src: seq<T>, size: int) returns (chunks: seq<seq<T>>, cur: seq<T>)
    requires size > 0
    ensures ChunkInvariant(src, size, chunks, cur, |src|)
  {
    chunks, cur := [], [];
    var i := 0;
    while i < |src|
      invariant ChunkInvariant(src, size, chunks, cur, i)
    {
      ChunkAdvance(src, size, chunks, cur, i);
      cur := cur + [src[i]];
      i := i + 1;
      if i % size == 0 {
        chunks := chunks + [cur];
        cur := [];
      }
    }
  }

  /** The state of the chunking loop after `i` items: full chunks so far,
      then the open chunk, which holds fewer than `size` items. */
  ghost predicate ChunkInvariant<T>(src: seq<T>, size: int, chunks: seq<seq<T>>, cur: seq<T>, i: int)
  {
    && 0 <= i <= |src| && 0 <= |cur| < size && (i - |cur|) % size == 0
    && cur == src[i - |cur|..i]
    && (forall j :: 0 <= j < |chunks| ==> |chunks[j]| == size)
    && Flatten(chunks) == src[..i - |cur|]
  }

  /** One item joins the open chunk; the running count is a multiple of
      `size` exactly when that fills it. */
  lemma ChunkAdvance<T>(src: seq<T>, size: int, chunks: seq<seq<T>>, cur: seq<T>, i: int)
    requires ChunkInvariant(src, size, chunks, cur, i) && i < |src|
    ensures var c := cur + [src[i]];
      && ((i + 1) % size == 0 <==> |c| == size)
      && (|c| == size ==> ChunkInvariant(src, size, chunks + [c], [], i + 1))
      && (|c| < size ==> ChunkInvariant(src, size, chunks, c, i + 1))
  {
    var c := cur + [src[i]];
    var base := i - |cur|;
    ModStep(base, size, |cur|);
    assert c == src[base..i + 1];
    assert src[..base] + src[base..i + 1] == src[..i + 1];
    if |c| == size {
      ChunkClose(src, size, chunks, c, i + 1);
    }
  }

  /** A full chunk that ends at a multiple of `size` is closed. */
  lemma ChunkClose<T>(src: seq<T>, size: int, chunks: seq<seq<T>>, c: seq<T>, n: int)
    requires 0 < size == |c| && 0 <= n <= |src| && n % size == 0
    requires forall j :: 0 <= j < |chunks| ==> |chunks[j]| == size
    requires Flatten(chunks) + c == src[..n]
    ensures ChunkInvariant(src, size, chunks + [c], [], n)
  {
    FlattenAppend(chunks, [c]);
    FlattenOne(c);
    var all := chunks + [c];
    assert forall j :: 0 <= j < |chunks| ==> all[j] == chunks[j];
    assert all[|chunks|] == c;
  }

  /** From a multiple `x` of `size`, the count `x + c + 1` is the next
      multiple exactly when `c + 1 == size`. */
  lemma ModStep(x: int, size: int, c: int)
    requires size > 0 && x % size == 0 && 0 <= c < size
    ensures (x + c + 1) % size == 0 <==> c + 1 == size
    ensures (x + c) % size == c
  {
    var q := x / size;
    assert x == q * size;
    DivModUnique(x + c, size, q, c);
    if c + 1 < size {
      DivModUnique(x + c + 1, size, q, c + 1);
    } else {
      assert x + c + 1 == (q + 1) * size + 0;
      DivModUnique(x + c + 1, size, q + 1, 0);
    }
  }

  /** After the loop the open chunk, padded when a fill value is given, is
      the last chunk when it is not empty. */
  lemma ChunkFinishOpen<T>(src: seq<T>, size: int, fill: Option<T>, chunks: seq<seq<T>>, cur: seq<T>, last: seq<T>)
    requires 0 < |cur| < size && |cur| <= |src|
    requires (forall j :: 0 <= j < |chunks| ==> |chunks[j]| == size)
    requires Flatten(chunks) + cur == src
    requires Padding(|src|, size, fill) == if fill.Some? then Repeat(fill.value, size - |cur|) else []
    requires last == if fill.Some? then cur + Repeat(fill.value, size - |cur|) else cur
    ensures IsChunking(chunks + [last], src, size, fill)
  {
    FlattenAppend(chunks, [last]);
    FlattenOne(last);
    var all := chunks + [last];
    assert forall j :: 0 <= j < |chunks| ==> all[j] == chunks[j];
    assert all[|all| - 1] == last;
  }

  /** The padding of a source that ends `c` items after a multiple of `size`. */
  lemma PaddingAfter<T>(n: nat, size: int, c: nat, fill: Option<T>)
    requires 0 < c < size && c <= n && (n - c) % size == 0
    ensures Padding(n, size, fill) == if fill.Some? then Repeat(fill.value, size - c) else []
  {
    ModStep(n - c, size, c);
  }

  /** A loop that ends with the open chunk empty has cut the source into
      full chunks only. */
  lemma ChunkFinishEven<T>(src: seq<T>, size: int, fill: Option<T>, chunks: seq<seq<T>>)
    requires ChunkInvariant(src, size, chunks, [], |src|) && src != []
    ensures IsChunking(chunks, src, size, fill)
  {
    assert Padding(|src|, size, fill) == [];
    assert src[..|src|] == src;
    assert src + [] == src;
  }

  /** `chunked(src, size, count, fill=...)`: the first `count` chunks, all
      of them without `count`; a size below one raises ValueError even
      when `count` leaves nothing to take. */
  method Chunked<T>(src: seq<T>, size: int, count: Option<int>, fill: Option<T>) returns (r: Result<seq<seq<T>>>)
    ensures r.Err? <==> size <= 0
    ensures r.Err? ==> r.error == ValueError
    ensures r.Ok? ==> exists all :: (IsChunking(all, src, size, fill)
      && r.value == if count.None? || count.value >= |all| then all else if count.value <= 0 then [] else all[..count.value])
  {
    var chunkIter := ChunkedIter(src, size, fill);
    if chunkIter.Err? {
      return Err(chunkIter.error);
    }
    var all := chunkIter.value;
    if count.None? {
      return Ok(all);
    }
    var ret: seq<seq<T>> := [];
    var j := 0;
    while j < |all|
      invariant 0 <= j <= |all| && ret == all[..j] && j <= (if count.value <= 0 then 0 else count.value)
    {
      if |ret| >= count.value {
        return Ok(ret);
      }
      ret := ret + [all[j]];
      j := j + 1;
    }
    assert all[..j] == all;
    r := Ok(ret);
  }
}
