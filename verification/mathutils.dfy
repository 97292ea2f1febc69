/** `ceil_from_list` and `floor_from_list`: the nearest element of a list of
    numbers at or above (respectively at or below) a given number. Python's
    mixed ints and floats are modelled as reals. */
module MathUtils {
  import opened Wrappers

  /** The filter of `ceil_from_list`: `y >= x`, or `y > x` without `allow_equal`. */
  predicate Above(y: real, x: real, allowEqual: bool) {
    if allowEqual then y >= x else y > x
  }

  /** The filter of `floor_from_list`: `y <= x`, or `y < x` without `allow_equal`. */
  predicate Below(y: real, x: real, allowEqual: bool) {
    if allowEqual then y <= x else y < x
  }

  /** `min(filter(...))`: the smallest element of `lst` above `x`; `min` of an
      empty sequence raises ValueError. */
  function CeilFromList(lst: seq<real>, x: real, allowEqual: bool): (r: Result<real>)
    ensures r.Ok? <==> exists i :: 0 <= i < |lst| && Above(lst[i], x, allowEqual)
    ensures r.Err? ==> r.error == ValueError
    ensures r.Ok? ==> r.value in lst && Above(r.value, x, allowEqual)
    ensures r.Ok? ==> forall i :: 0 <= i < |lst| && Above(lst[i], x, allowEqual) ==> r.value <= lst[i]
  {
    if lst == [] then Err(ValueError)
    else
      var rest := CeilFromList(lst[1..], x, allowEqual);
      assert forall i :: 1 <= i < |lst| ==> lst[i] == lst[1..][i - 1];
      if !Above(lst[0], x, allowEqual) then rest
      else if rest.Ok? && rest.value < lst[0] then rest
      else Ok(lst[0])
  }

  /** `max(filter(...))`: the largest element of `lst` below `x`, ValueError
      when there is none. */
  function FloorFromList(lst: seq<real>, x: real, allowEqual: bool): (r: Result<real>)
    ensures r.Ok? <==> exists i :: 0 <= i < |lst| && Below(lst[i], x, allowEqual)
    ensures r.Err? ==> r.error == ValueError
    ensures r.Ok? ==> r.value in lst && Below(r.value, x, allowEqual)
    ensures r.Ok? ==> forall i :: 0 <= i < |lst| && Below(lst[i], x, allowEqual) ==> lst[i] <= r.value
  {
    if lst == [] then Err(ValueError)
    else
      var rest := FloorFromList(lst[1..], x, allowEqual);
      assert forall i :: 1 <= i < |lst| ==> lst[i] == lst[1..][i - 1];
      if !Below(lst[0], x, allowEqual) then rest
      else if rest.Ok? && rest.value > lst[0] then rest
      else Ok(lst[0])
  }

  /** An element of the list is its own ceiling and floor when equality is allowed. */
  lemma MemberIsOwnCeilAndFloor(lst: seq<real>, x: real)
    requires x in lst
    ensures CeilFromList(lst, x, true) == Ok(x)
    ensures FloorFromList(lst, x, true) == Ok(x)
  {
    CeilReached(lst, x, true, x);
    FloorReached(lst, x, true, x);
  }

  /** Ceiling and floor depend only on which numbers the list holds, not on
      their order or repetition. */
  lemma SameElementsSameCeil(a: seq<real>, b: seq<real>, x: real, allowEqual: bool)
    requires forall y :: y in a <==> y in b
    ensures CeilFromList(a, x, allowEqual) == CeilFromList(b, x, allowEqual)
  {
    var ca, cb := CeilFromList(a, x, allowEqual), CeilFromList(b, x, allowEqual);
    if ca.Ok? {
      CeilReached(b, x, allowEqual, ca.value);
    }
    if cb.Ok? {
      CeilReached(a, x, allowEqual, cb.value);
    }
  }

  /** A qualifying member bounds the ceiling from above. */
  lemma CeilReached(lst: seq<real>, x: real, allowEqual: bool, v: real)
    requires v in lst && Above(v, x, allowEqual)
    ensures CeilFromList(lst, x, allowEqual).Ok?
    ensures CeilFromList(lst, x, allowEqual).value <= v
  {
    var j :| 0 <= j < |lst| && lst[j] == v;
  }

  lemma SameElementsSameFloor(a: seq<real>, b: seq<real>, x: real, allowEqual: bool)
    requires forall y :: y in a <==> y in b
    ensures FloorFromList(a, x, allowEqual) == FloorFromList(b, x, allowEqual)
  {
    var fa, fb := FloorFromList(a, x, allowEqual), FloorFromList(b, x, allowEqual);
    if fa.Ok? {
      FloorReached(b, x, allowEqual, fa.value);
    }
    if fb.Ok? {
      FloorReached(a, x, allowEqual, fb.value);
    }
  }

  /** A qualifying member bounds the floor from below. */
  lemma FloorReached(lst: seq<real>, x: real, allowEqual: bool, v: real)
    requires v in lst && Below(v, x, allowEqual)
    ensures FloorFromList(lst, x, allowEqual).Ok?
    ensures v <= FloorFromList(lst, x, allowEqual).value
  {
    var j :| 0 <= j < |lst| && lst[j] == v;
  }

  /** For `x` at or below every element the ceiling is the smallest element. */
  lemma CeilBelowAllIsMinimum(lst: seq<real>, x: real)
    requires lst != []
    requires forall i :: 0 <= i < |lst| ==> x <= lst[i]
    ensures CeilFromList(lst, x, true).Ok?
    ensures forall i :: 0 <= i < |lst| ==> CeilFromList(lst, x, true).value <= lst[i]
  {
    assert Above(lst[0], x, true);
  }

  /** For `x` at or above every element the floor is the largest element. */
  lemma FloorAboveAllIsMaximum(lst: seq<real>, x: real)
    requires lst != []
    requires forall i :: 0 <= i < |lst| ==> lst[i] <= x
    ensures FloorFromList(lst, x, true).Ok?
    ensures forall i :: 0 <= i < |lst| ==> lst[i] <= FloorFromList(lst, x, true).value
  {
    assert Below(lst[0], x, true);
  }

  const CableCsa: seq<real> := [1.5, 2.5, 4.0, 6.0, 10.0, 25.0, 35.0, 50.0]

  lemma InCableCsa(v: real)
    requires v in CableCsa
    ensures v == 1.5 || v == 2.5 || v == 4.0 || v == 6.0 || v == 10.0 || v == 25.0 || v == 35.0 || v == 50.0
  {
  }

  /** The examples of the docstrings, on the list of valid cable cross-sections. */
  lemma CeilExamples()
    ensures CeilFromList(CableCsa, 3.5, true) == Ok(4.0)
    ensures CeilFromList(CableCsa, 4.0, true) == Ok(4.0)
    ensures CeilFromList(CableCsa, 4.0, false) == Ok(6.0)
  {
    assert CableCsa[2] == 4.0 && CableCsa[3] == 6.0;
    InCableCsa(CeilFromList(CableCsa, 3.5, true).value);
    InCableCsa(CeilFromList(CableCsa, 4.0, true).value);
    InCableCsa(CeilFromList(CableCsa, 4.0, false).value);
  }

  lemma CeilAboveAll()
    ensures CeilFromList(CableCsa, 51.0, true) == Err(ValueError)
  {
    forall i | 0 <= i < |CableCsa| ensures !Above(CableCsa[i], 51.0, true) {
      InCableCsa(CableCsa[i]);
    }
  }

  lemma FloorExamples()
    ensures FloorFromList(CableCsa, 3.5, true) == Ok(2.5)
    ensures FloorFromList(CableCsa, 2.5, true) == Ok(2.5)
    ensures FloorFromList(CableCsa, 2.5, false) == Ok(1.5)
  {
    assert CableCsa[0] == 1.5 && CableCsa[1] == 2.5;
    InCableCsa(FloorFromList(CableCsa, 3.5, true).value);
    InCableCsa(FloorFromList(CableCsa, 2.5, true).value);
    InCableCsa(FloorFromList(CableCsa, 2.5, false).value);
  }

  lemma FloorBelowAll()
    ensures FloorFromList(CableCsa, 1.0, true) == Err(ValueError)
  {
    forall i | 0 <= i < |CableCsa| ensures !Below(CableCsa[i], 1.0, true) {
      InCableCsa(CableCsa[i]);
    }
  }
}
