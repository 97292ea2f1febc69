/** Python 2 byte-string behaviour used by several modules: ASCII character
    classes, case mapping, stripping, splitting, joining and decimal
    formatting of integers. */
module PyStr {

  predicate IsDigit(c: char) { '0' <= c <= '9' }
  predicate IsLower(c: char) { 'a' <= c <= 'z' }
  predicate IsUpper(c: char) { 'A' <= c <= 'Z' }
  predicate IsAlpha(c: char) { IsLower(c) || IsUpper(c) }
  predicate IsAlnum(c: char) { IsAlpha(c) || IsDigit(c) }

  /** Membership in `string.whitespace`: space, tab, LF, CR, VT, FF. */
  predicate IsSpace(c: char) {
    c == ' ' || c == '\t' || c == '\n' || c == '\r' || c == '\U{B}' || c == '\U{C}'
  }

  function LowerChar(c: char): (d: char)
    ensures !IsUpper(d)
  {
    if IsUpper(c) then (c as int + 32) as char else c
  }

  function UpperChar(c: char): (d: char)
    ensures !IsLower(d)
  {
    if IsLower(c) then (c as int - 32) as char else c
  }

  /** `str.lower()` */
  function Lower(s: string): (r: string)
    ensures |r| == |s|
    ensures forall i :: 0 <= i < |s| ==> r[i] == LowerChar(s[i])
  {
    seq(|s|, i requires 0 <= i < |s| => LowerChar(s[i]))
  }

  /** `str.upper()` */
  function Upper(s: string): (r: string)
    ensures |r| == |s|
    ensures forall i :: 0 <= i < |s| ==> r[i] == UpperChar(s[i])
  {
    seq(|s|, i requires 0 <= i < |s| => UpperChar(s[i]))
  }

  /** `str.capitalize()`: first character upper-cased, the rest lower-cased. */
  function Capitalize(s: string): (r: string)
    ensures |r| == |s|
  {
    if s == [] then [] else [UpperChar(s[0])] + Lower(s[1..])
  }

  lemma LowerConcat(a: string, b: string)
    ensures Lower(a + b) == Lower(a) + Lower(b)
  {
    assert forall i :: 0 <= i < |a + b| ==> Lower(a + b)[i] == (Lower(a) + Lower(b))[i];
  }

  /** Re-casing only changes case: the case mappings absorb one another. */
  lemma CaseLaws(s: string)
    ensures Lower(Lower(s)) == Lower(s) && Lower(Upper(s)) == Lower(s)
    ensures Upper(Upper(s)) == Upper(s)
    ensures Lower(Capitalize(s)) == Lower(s) && Capitalize(Capitalize(s)) == Capitalize(s)
  {
    if s != [] {
      assert Capitalize(s)[1..] == Lower(s[1..]);
      assert Lower(Capitalize(s)) == [LowerChar(UpperChar(s[0]))] + Lower(Lower(s[1..]));
      assert Lower(s) == [LowerChar(s[0])] + Lower(s[1..]);
    }
  }

  function StripLeft(s: string): (r: string)
    ensures |r| <= |s| && r == s[|s| - |r|..]
    ensures r == [] || !IsSpace(r[0])
  {
    if s != [] && IsSpace(s[0]) then StripLeft(s[1..]) else s
  }

  function StripRight(s: string): (r: string)
    ensures |r| <= |s| && r == s[..|r|]
    ensures r == [] || !IsSpace(r[|r| - 1])
  {
    if s != [] && IsSpace(s[|s| - 1]) then StripRight(s[..|s| - 1]) else s
  }

  /** `str.strip()` with no argument. */
  function Strip(s: string): string {
    StripRight(StripLeft(s))
  }

  predicate StartsWith(s: string, p: string) { |p| <= |s| && s[..|p|] == p }
  predicate EndsWith(s: string, p: string) { |p| <= |s| && s[|s| - |p|..] == p }

  /** `sep.join(parts)` */
  function Join(sep: string, parts: seq<string>): string {
    if parts == [] then ""
    else if |parts| == 1 then parts[0]
    else parts[0] + sep + Join(sep, parts[1..])
  }

  /** Pieces of `s` between single separator characters (like `str.split(c)`
      or `re.split` with a one-character class): one more piece than separators. */
  function SplitOn(s: string, isSep: char -> bool): (r: seq<string>)
    ensures |r| >= 1
  {
    if s == [] then [[]]
    else
      var rest := SplitOn(s[1..], isSep);
      if isSep(s[0]) then [[]] + rest else [[s[0]] + rest[0]] + rest[1..]
  }

  /** A piece without separators merges with the first piece of what follows. */
  lemma {:induction false} SplitOnNoSeparator(a: string, s: string, isSep: char -> bool)
    requires forall i :: 0 <= i < |a| ==> !isSep(a[i])
    ensures SplitOn(a + s, isSep) == [a + SplitOn(s, isSep)[0]] + SplitOn(s, isSep)[1..]
    decreases |a|
  {
    if a == [] {
      var x := SplitOn(s, isSep);
      assert a + s == s && a + x[0] == x[0];
      assert x == [x[0]] + x[1..];
    } else {
      assert (a + s)[1..] == a[1..] + s;
      SplitOnNoSeparator(a[1..], s, isSep);
      var rest, x := SplitOn(a[1..] + s, isSep), SplitOn(s, isSep);
      assert !isSep((a + s)[0]);
      assert SplitOn(a + s, isSep) == [[a[0]] + rest[0]] + rest[1..];
      assert rest[0] == a[1..] + x[0] && rest[1..] == x[1..];
      assert [a[0]] + (a[1..] + x[0]) == a + x[0];
    }
  }

  /** A separator ends one list of pieces and starts the next. */
  lemma {:induction false} SplitOnAtSeparator(a: string, c: char, b: string, isSep: char -> bool)
    requires isSep(c)
    ensures SplitOn(a + [c] + b, isSep) == SplitOn(a, isSep) + SplitOn(b, isSep)
    decreases |a|
  {
    if a == [] {
      assert a + [c] + b == [c] + b;
      assert ([c] + b)[1..] == b;
    } else {
      assert (a + [c] + b)[1..] == a[1..] + [c] + b;
      SplitOnAtSeparator(a[1..], c, b, isSep);
    }
  }

  /** Splitting a separator-joined list of separator-free pieces gives the pieces back. */
  lemma {:induction false} SplitOnJoin(c: char, parts: seq<string>, isSep: char -> bool)
    requires isSep(c) && parts != []
    requires forall k, i :: 0 <= k < |parts| && 0 <= i < |parts[k]| ==> !isSep(parts[k][i])
    ensures SplitOn(Join([c], parts), isSep) == parts
    decreases |parts|
  {
    if |parts| == 1 {
      SplitOnNoSeparator(parts[0], [], isSep);
      assert parts[0] + [] == parts[0];
    } else {
      SplitOnJoin(c, parts[1..], isSep);
      assert Join([c], parts) == parts[0] + [c] + Join([c], parts[1..]);
      SplitOnAtSeparator(parts[0], c, Join([c], parts[1..]), isSep);
      SplitOnNoSeparator(parts[0], [], isSep);
      assert parts[0] + [] == parts[0];
      assert parts == [parts[0]] + parts[1..];
    }
  }

  /** The first piece is the longest separator-free prefix. */
  lemma {:induction false} FirstPiece(s: string, isSep: char -> bool)
    ensures |SplitOn(s, isSep)[0]| <= |s| && SplitOn(s, isSep)[0] == s[..|SplitOn(s, isSep)[0]|]
    ensures forall i :: 0 <= i < |SplitOn(s, isSep)[0]| ==> !isSep(SplitOn(s, isSep)[0][i])
    ensures |SplitOn(s, isSep)[0]| < |s| ==> isSep(s[|SplitOn(s, isSep)[0]|])
    decreases |s|
  {
    if s != [] && !isSep(s[0]) {
      FirstPiece(s[1..], isSep);
      var p := SplitOn(s[1..], isSep)[0];
      assert SplitOn(s, isSep)[0] == [s[0]] + p;
      assert forall i :: 1 <= i <= |p| ==> ([s[0]] + p)[i] == p[i - 1];
    }
  }

  /** After the first piece and its separator, the remaining pieces are the
      pieces of the remaining text. */
  lemma SplitOnRest(s: string, isSep: char -> bool)
    requires |SplitOn(s, isSep)[0]| < |s|
    ensures SplitOn(s, isSep)[1..] == SplitOn(s[|SplitOn(s, isSep)[0]| + 1..], isSep)
  {
    FirstPiece(s, isSep);
    var p := SplitOn(s, isSep)[0];
    var rest := s[|p| + 1..];
    assert s == p + [s[|p|]] + rest;
    SplitOnAtSeparator(p, s[|p|], rest, isSep);
    SplitOnNoSeparator(p, [], isSep);
    assert p + [] == p;
  }

  /** The non-empty elements of `parts`, in order. */
  function NonEmpty(parts: seq<string>): (r: seq<string>)
    ensures forall i :: 0 <= i < |r| ==> r[i] != []
  {
    if parts == [] then []
    else if parts[0] == [] then NonEmpty(parts[1..])
    else [parts[0]] + NonEmpty(parts[1..])
  }

  lemma {:induction false} NonEmptyConcat(a: seq<string>, b: seq<string>)
    ensures NonEmpty(a + b) == NonEmpty(a) + NonEmpty(b)
    decreases |a|
  {
    if a == [] {
      assert a + b == b;
    } else {
      assert (a + b)[1..] == a[1..] + b;
      NonEmptyConcat(a[1..], b);
    }
  }

  /** Maximal non-empty runs of characters that are not separators. */
  function Runs(s: string, isSep: char -> bool): seq<string> {
    NonEmpty(SplitOn(s, isSep))
  }

  /** `str.split()` with no argument: runs of non-whitespace. */
  function SplitWhitespace(s: string): seq<string> {
    Runs(s, IsSpace)
  }

  function DigitChar(d: nat): char
    requires d < 10
  {
    ('0' as int + d) as char
  }

  /** Decimal text of a natural number, as `'%d' % n` and `'{0}'.format(n)` produce. */
  function NatToString(n: nat): (r: string)
    ensures |r| >= 1
    ensures forall i :: 0 <= i < |r| ==> IsDigit(r[i])
    decreases n
  {
    if n < 10 then [DigitChar(n)] else NatToString(n / 10) + [DigitChar(n % 10)]
  }

  function IntToString(i: int): string {
    if i < 0 then "-" + NatToString(-i) else NatToString(i)
  }

  /** The value of a string of decimal digits. */
  function DigitsValue(s: string): nat
    requires forall i :: 0 <= i < |s| ==> IsDigit(s[i])
  {
    if s == [] then 0
    else
      assert IsDigit(s[|s| - 1]);
      DigitsValue(s[..|s| - 1]) * 10 + (s[|s| - 1] as int - '0' as int)
  }

  /** Reading the decimal text back gives the number: formatting loses nothing. */
  lemma {:induction false} DigitsValueOfNatToString(n: nat)
    ensures DigitsValue(NatToString(n)) == n
    decreases n
  {
    if n >= 10 {
      var s := NatToString(n);
      assert s[..|s| - 1] == NatToString(n / 10);
      DigitsValueOfNatToString(n / 10);
    }
  }

  /** A decimal text followed by a non-digit can be split in one way only. */
  lemma NatToStringPrefixUnique(a: nat, b: nat, x: string, y: string)
    requires x != [] && !IsDigit(x[0])
    requires y != [] && !IsDigit(y[0])
    requires NatToString(a) + x == NatToString(b) + y
    ensures a == b && x == y
  {
    var sa, sb := NatToString(a), NatToString(b);
    assert (sa + x)[|sa|] == x[0];
    assert (sb + y)[|sb|] == y[0];
    assert sa == (sa + x)[..|sa|] == (sb + y)[..|sb|] == sb;
    DigitsValueOfNatToString(a);
    DigitsValueOfNatToString(b);
    assert x == (sa + x)[|sa|..] == (sb + y)[|sb|..] == y;
  }

  /** `str.center(width)` of CPython 2: when the margin and the width are both odd,
      the extra space goes to the left. */
  function Center(s: string, width: int): (r: string)
    ensures |r| == if width > |s| then width else |s|
  {
    if width <= |s| then s
    else
      var marg := width - |s|;
      var left := marg / 2 + (if marg % 2 == 1 && width % 2 == 1 then 1 else 0);
      Spaces(left) + s + Spaces(marg - left)
  }

  function Spaces(n: nat): (r: string)
    ensures |r| == n
  {
    seq(n, _ => ' ')
  }
}
