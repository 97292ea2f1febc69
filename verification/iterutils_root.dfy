/** `split` of the top-level iterutils.py, the list-building predecessor of
    boltons' `split_iter`: the same separator forms, but `maxsplit` is
    checked after a group is closed and `key=None` drops the empty groups
    at the end instead of skipping separators on the way. */
module RootIterUtils {
  import opened Wrappers
  import opened PyList
  import opened IterUtils

  /** Whether the separator test is still the caller's after `count`
      groups have been closed: it is replaced once `len(ret) >= maxsplit`. */
  predicate KeyActive(maxsplit: Option<int>, count: nat) {
    count == 0 || maxsplit.None? || count < maxsplit.value
  }

  /** The list `ret` still to be built when the loop is about to read
      `rest` with the open group `cur` after `count` closed groups. */
  function RawFrom<T(==)>(rest: seq<Option<T>>, key: Sep<T>, maxsplit: Option<int>,
                          cur: seq<Option<T>>, count: nat): seq<seq<Option<T>>>
    decreases |rest|
  {
    if rest == [] then [cur]
    else if KeyActive(maxsplit, count) && IsSep(key, rest[0]) then
      [cur] + RawFrom(rest[1..], key, maxsplit, [], count + 1)
    else
      RawFrom(rest[1..], key, maxsplit, cur + [rest[0]], count)
  }

  /** `[x for x in ret if x]` */
  function NonEmptyGroups<T>(gs: seq<seq<T>>): (r: seq<seq<T>>)
    ensures forall j :: 0 <= j < |r| ==> r[j] != []
  {
    if gs == [] then []
    else (if gs[0] != [] then [gs[0]] else []) + NonEmptyGroups(gs[1..])
  }

  /** The result of `split(src, key, maxsplit)`. */
  function RootSplit<T(==)>(src: seq<Option<T>>, key: Sep<T>, maxsplit: Option<int>): seq<seq<Option<T>>> {
    if maxsplit == Some(0) then [src]
    else
      var raw := RawFrom(src, key, maxsplit, [], 0);
      if Grouping(key) then NonEmptyGroups(raw) else raw
  }

  /** `split(src, key, maxsplit)`: a closed group is appended to `ret`, and
      once `ret` holds `maxsplit` groups the separator test is replaced by
      one that is always false; with `key=None` the empty groups are
      dropped at the end. */
  method Split<T(==)>(src: seq<Option<T>>, key: Sep<T>, maxsplit: Option<int>)
    returns (ret: seq<seq<Option<T>>>)
    ensures ret == RootSplit(src, key, maxsplit)
  {
    if maxsplit == Some(0) {
      return [src];
    }
    ret := [];
    var curList: seq<Option<T>> := [];
    var keyOn := true;
    for i := 0 to |src|
      invariant keyOn == KeyActive(maxsplit, |ret|)
      invariant ret + RawFrom(src[i..], key, maxsplit, curList, |ret|) == RawFrom(src, key, maxsplit, [], 0)
    {
      var s := src[i];
      RawStep(src, i, key, maxsplit, ret, curList);
      if keyOn && IsSep(key, s) {
        ret := ret + [curList];
        curList := [];
        if maxsplit.Some? && |ret| >= maxsplit.value {
          keyOn := false;
        }
      } else {
        curList := curList + [s];
      }
    }
    ret := ret + [curList];
    if Grouping(key) {
      ret := NonEmptyGroups(ret);
    }
  }

  /** One item read by the loop of `split`: a live separator closes the
      open group, anything else joins it. */
  lemma RawStep<T>(src: seq<Option<T>>, i: nat, key: Sep<T>, maxsplit: Option<int>,
                   ret: seq<seq<Option<T>>>, cur: seq<Option<T>>)
    requires i < |src|
    ensures KeyActive(maxsplit, |ret|) && IsSep(key, src[i]) ==>
      ret + RawFrom(src[i..], key, maxsplit, cur, |ret|)
        == (ret + [cur]) + RawFrom(src[i + 1..], key, maxsplit, [], |ret + [cur]|)
    ensures !(KeyActive(maxsplit, |ret|) && IsSep(key, src[i])) ==>
      RawFrom(src[i..], key, maxsplit, cur, |ret|) == RawFrom(src[i + 1..], key, maxsplit, cur + [src[i]], |ret|)
  {
    assert src[i..][0] == src[i] && src[i..][1..] == src[i + 1..];
  }

  // ---------------------------------------------------------------------
  // properties

  /** Every group of `ret` but the last is free of separators. */
  lemma {:induction false} RawGroupsBeforeLastHaveNoSep<T>(rest: seq<Option<T>>, key: Sep<T>, maxsplit: Option<int>,
                                                          cur: seq<Option<T>>, count: nat)
    requires NoSep(cur, key)
    ensures forall j :: 0 <= j < |RawFrom(rest, key, maxsplit, cur, count)| - 1 ==>
      NoSep(RawFrom(rest, key, maxsplit, cur, count)[j], key)
    decreases |rest|
  {
    if rest != [] {
      var r := RawFrom(rest, key, maxsplit, cur, count);
      if KeyActive(maxsplit, count) && IsSep(key, rest[0]) {
        var empty: seq<Option<T>> := [];
        var after := RawFrom(rest[1..], key, maxsplit, empty, count + 1);
        RawGroupsBeforeLastHaveNoSep(rest[1..], key, maxsplit, empty, count + 1);
        assert r == [cur] + after;
        forall j | 0 <= j < |r| - 1
          ensures NoSep(r[j], key)
        {
          if j > 0 {
            assert r[j] == after[j - 1];
            assert NoSep(after[j - 1], key);
          } else {
            assert r[0] == cur;
          }
        }
      } else if KeyActive(maxsplit, count) {
        NoSepAppend(cur, rest[0], key);
        RawGroupsBeforeLastHaveNoSep(rest[1..], key, maxsplit, cur + [rest[0]], count);
        assert r == RawFrom(rest[1..], key, maxsplit, cur + [rest[0]], count);
      } else {
        RawUnkeyed(rest, key, maxsplit, cur, count);
      }
    }
  }

  /** Once the test is replaced, the rest of the input, separators
      included, joins the last group. */
  lemma {:induction false} RawUnkeyed<T>(rest: seq<Option<T>>, key: Sep<T>, maxsplit: Option<int>,
                                        cur: seq<Option<T>>, count: nat)
    requires !KeyActive(maxsplit, count)
    ensures RawFrom(rest, key, maxsplit, cur, count) == [cur + rest]
    decreases |rest|
  {
    if rest == [] {
      assert cur + rest == cur;
    } else {
      RawUnkeyed(rest[1..], key, maxsplit, cur + [rest[0]], count);
      assert cur + [rest[0]] + rest[1..] == cur + rest;
    }
  }

  /** With `maxsplit` given, `ret` closes at most `max(maxsplit, 1)`
      groups: a negative `maxsplit` still lets the first separator split. */
  lemma {:induction false} RawMaxsplitBound<T>(rest: seq<Option<T>>, key: Sep<T>, k: int,
                                              cur: seq<Option<T>>, count: nat)
    requires count <= (if k < 1 then 1 else k)
    ensures |RawFrom(rest, key, Some(k), cur, count)| <= (if k < 1 then 1 else k) - count + 1
    decreases |rest|
  {
    if rest != [] {
      if KeyActive(Some(k), count) && IsSep(key, rest[0]) {
        RawMaxsplitBound(rest[1..], key, k, [], count + 1);
      } else if KeyActive(Some(k), count) {
        RawMaxsplitBound(rest[1..], key, k, cur + [rest[0]], count);
      } else {
        RawUnkeyed(rest, key, Some(k), cur, count);
      }
    }
  }

  /** Without `maxsplit`, putting the separators back between the groups of
      `ret` gives the input back. */
  lemma {:induction false} RawRoundTrip<T>(rest: seq<Option<T>>, key: Sep<T>, cur: seq<Option<T>>, count: nat)
    ensures var r := RawFrom(rest, key, None, cur, count);
      |r| == |Seps(rest, key)| + 1 && Interleave(r, Seps(rest, key)) == cur + rest
    decreases |rest|
  {
    if rest == [] {
      assert cur + rest == cur;
    } else {
      var tail := rest[1..];
      if IsSep(key, rest[0]) {
        RawRoundTrip(tail, key, [], count + 1);
        assert [] + tail == tail;
        assert Seps(rest, key) == [rest[0]] + Seps(tail, key);
        assert cur + [rest[0]] + tail == cur + rest;
      } else {
        RawRoundTrip(tail, key, cur + [rest[0]], count);
        assert Seps(rest, key) == Seps(tail, key);
        InterleaveHead(RawFrom(tail, key, None, cur + [rest[0]], count), Seps(tail, key));
        assert cur + [rest[0]] + tail == cur + rest;
      }
    }
  }

  /** Without `maxsplit`, the top-level `split` and boltons' `split_iter`
      agree for every separator: dropping the empty groups at the end has
      the effect of skipping separators that would close an empty group. */
  lemma {:induction false} AgreesWithSplitIter<T>(rest: seq<Option<T>>, key: Sep<T>,
                                                 cur: seq<Option<T>>, count: nat, n: nat)
    ensures Grouping(key) ==> NonEmptyGroups(RawFrom(rest, key, None, cur, count)) == SplitFrom(rest, key, None, cur, n)
    ensures !Grouping(key) ==> RawFrom(rest, key, None, cur, count) == SplitFrom(rest, key, None, cur, n)
    decreases |rest|
  {
    if rest == [] {
      assert NonEmptyGroups([cur]) == if cur != [] then [cur] else [];
    } else {
      var tail := rest[1..];
      if IsSep(key, rest[0]) {
        AgreesWithSplitIter(tail, key, [], count + 1, n + 1);
        if Grouping(key) {
          var raw := RawFrom(tail, key, None, [], count + 1);
          NonEmptyAppend([cur], raw);
          if cur == [] {
            AgreesWithSplitIter(tail, key, [], count + 1, n);
            assert NonEmptyGroups([cur]) == [];
            assert [] + NonEmptyGroups(raw) == NonEmptyGroups(raw);
          } else {
            assert NonEmptyGroups([cur]) == [cur];
          }
        }
      } else {
        AgreesWithSplitIter(tail, key, cur + [rest[0]], count, n);
      }
    }
  }

  lemma {:induction false} NonEmptyAppend<T>(a: seq<seq<T>>, b: seq<seq<T>>)
    ensures NonEmptyGroups(a + b) == NonEmptyGroups(a) + NonEmptyGroups(b)
    decreases |a|
  {
    if a == [] {
      assert a + b == b;
    } else {
      assert (a + b)[1..] == a[1..] + b;
      NonEmptyAppend(a[1..], b);
    }
  }

  /** The splits of `split` stated on its whole input. */
  lemma RootSplitProperties<T>(src: seq<Option<T>>, key: Sep<T>, maxsplit: Option<int>)
    ensures var r := RootSplit(src, key, maxsplit);
      (maxsplit == Some(0) ==> r == [src])
      && (maxsplit.None? ==> r == IterUtils.Split(src, key, None))
      && (maxsplit.None? ==> forall j :: 0 <= j < |r| ==> NoSep(r[j], key))
      && (maxsplit.None? && !Grouping(key) ==> |r| == |Seps(src, key)| + 1 && Interleave(r, Seps(src, key)) == src)
      && (Grouping(key) && maxsplit != Some(0) ==> forall j :: 0 <= j < |r| ==> r[j] != [])
      && (maxsplit.Some? && maxsplit.value != 0 ==> |RawFrom(src, key, maxsplit, [], 0)| <= (if maxsplit.value < 1 then 2 else maxsplit.value + 1))
  {
    if maxsplit.None? {
      AgreesWithSplitIter(src, key, [], 0, 0);
      SplitProperties(src, key, None);
      if !Grouping(key) {
        RawRoundTrip(src, key, [], 0);
        assert [] + src == src;
      }
    } else if maxsplit.value != 0 {
      RawMaxsplitBound(src, key, maxsplit.value, [], 0);
    }
  }

  /** Where the two versions part: with `key=None` and `maxsplit=1`, a
      leading separator closes an empty group that counts against
      `maxsplit` here, while `split_iter` skips it. */
  lemma MaxsplitCountsSkippedSeparator()
    ensures RootSplit([None, Some(1), None, Some(2)], Value(None), Some(1)) == [[Some(1), None, Some(2)]]
    ensures IterUtils.Split([None, Some(1), None, Some(2)], Value(None), Some(1)) == [[Some(1)], [Some(2)]]
  {
    var one, two := Some(1), Some(2);
    var key: Sep<int> := Value(None);
    RawUnkeyed([one, None, two], key, Some(1), [], 1);
    assert [] + [one, None, two] == [one, None, two];
    assert [None, one, None, two][1..] == [one, None, two];
    var g: seq<Option<int>> := [one, None, two];
    var none: seq<Option<int>> := [];
    var gs: seq<seq<Option<int>>> := [g];
    assert [none, g][1..] == gs && gs[1..] == [];
    assert NonEmptyGroups([g]) == [g];
    assert NonEmptyGroups([none, g]) == [g];
    Unhonoured([two], key, Some(1), [], 1);
    assert [] + [two] == [two];
    assert [one, None, two][1..] == [None, two] && [] + [one] == [one];
    assert SplitFrom([None, two], key, Some(1), [one], 0) == [[one], [two]];
  }
}
