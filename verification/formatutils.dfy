/** Format-string helpers: building a replacement-field string, numbering
    anonymous positional fields, the type a presentation character stands
    for, and a field whose name is split into a base name and a path. */
module FormatUtils {
  import opened Wrappers
  import opened PyStr

  /** Python truthiness of a string that may be None. */
  predicate Truthy(s: Option<string>) {
    s.Some? && s.value != []
  }

  // ---------------------------------------------------------------------
  // construct_format_field_str

  /** `construct_format_field_str(fname, fspec, conv)`: '' for a missing
      name, otherwise '{' name ['!' conv] [':' spec] '}', each optional part
      present when it is non-empty. */
  function ConstructFormatFieldStr(fname: Option<string>, fspec: Option<string>, conv: Option<string>): (r: string)
    ensures fname.None? ==> r == []
    ensures fname.Some? ==> |r| >= |fname.value| + 2 && r[0] == '{' && r[|r| - 1] == '}'
    ensures fname.Some? ==> r[1..|fname.value| + 1] == fname.value
  {
    if fname.None? then ""
    else
      "{" + fname.value + ConvPart(conv) + SpecPart(fspec) + "}"
  }

  function ConvPart(conv: Option<string>): string {
    if Truthy(conv) then "!" + conv.value else ""
  }

  function SpecPart(fspec: Option<string>): string {
    if Truthy(fspec) then ":" + fspec.value else ""
  }

  lemma ConstructShape(fname: string, fspec: Option<string>, conv: Option<string>)
    ensures ConstructFormatFieldStr(Some(fname), fspec, conv) == "{" + (fname + (ConvPart(conv) + SpecPart(fspec))) + "}"
  {
    var c, f := ConvPart(conv), SpecPart(fspec);
    assert "{" + fname + c + f + "}" == "{" + (fname + (c + f)) + "}";
  }

  lemma Unbrace(body: string)
    ensures var r := "{" + body + "}"; r[1..|r| - 1] == body
  {
    var r := "{" + body + "}";
    assert forall k :: 0 <= k < |body| ==> r[1..|r| - 1][k] == body[k];
  }

  /** Index of the first character of `s` satisfying `stop`, or `|s|`. */
  function FirstIndex(s: string, stop: char -> bool): (i: nat)
    ensures i <= |s|
    ensures forall k :: 0 <= k < i ==> !stop(s[k])
    ensures i < |s| ==> stop(s[i])
  {
    if s == [] || stop(s[0]) then 0 else 1 + FirstIndex(s[1..], stop)
  }

  lemma FirstIndexAfter(a: string, b: string, stop: char -> bool)
    requires forall k :: 0 <= k < |a| ==> !stop(a[k])
    requires b != [] && stop(b[0])
    ensures FirstIndex(a + b, stop) == |a|
  {
    assert (a + b)[|a|] == b[0];
    assert forall k :: 0 <= k < |a| ==> (a + b)[k] == a[k];
  }

  lemma FirstIndexNone(a: string, stop: char -> bool)
    requires forall k :: 0 <= k < |a| ==> !stop(a[k])
    ensures FirstIndex(a, stop) == |a|
  {
  }

  predicate IsNameEnd(c: char) { c == '!' || c == ':' }
  predicate IsColon(c: char) { c == ':' }

  /** A reading of a field string: the name runs up to the first '!' or
      ':', a conversion follows a '!' up to the next ':', and the spec is
      everything after that ':'. Missing parts are empty. */
  function FieldParts(r: string): (string, string, string)
    requires |r| >= 2
  {
    BodyParts(r[1..|r| - 1])
  }

  /** The parts of the text between the braces. */
  function BodyParts(body: string): (string, string, string) {
    var i := FirstIndex(body, IsNameEnd);
    var rest := body[i..];
    if rest != [] && rest[0] == '!' then
      var after := rest[1..];
      var j := FirstIndex(after, IsColon);
      (body[..i], after[..j], if j < |after| then after[j + 1..] else "")
    else
      (body[..i], "", if rest != [] then rest[1..] else "")
  }

  predicate NoNameEnd(s: string) { forall k :: 0 <= k < |s| ==> !IsNameEnd(s[k]) }
  predicate NoColon(s: string) { forall k :: 0 <= k < |s| ==> !IsColon(s[k]) }

  lemma BodyPartsNameOnly(name: string)
    requires NoNameEnd(name)
    ensures BodyParts(name) == (name, "", "")
  {
    FirstIndexNone(name, IsNameEnd);
    assert FirstIndex(name, IsNameEnd) == |name|;
    assert name[|name|..] == [];
    assert name[..|name|] == name;
  }

  lemma BodyPartsWithSpec(name: string, spec: string)
    requires NoNameEnd(name)
    ensures BodyParts(name + (":" + spec)) == (name, "", spec)
  {
    var body := name + (":" + spec);
    FirstIndexAfter(name, ":" + spec, IsNameEnd);
    assert body[..|name|] == name && body[|name|..] == ":" + spec;
  }

  lemma BodyPartsWithConv(name: string, conv: string)
    requires NoNameEnd(name) && NoColon(conv)
    ensures BodyParts(name + ("!" + conv)) == (name, conv, "")
  {
    var body := name + ("!" + conv);
    FirstIndexAfter(name, "!" + conv, IsNameEnd);
    assert body[..|name|] == name && body[|name|..] == "!" + conv;
    assert ("!" + conv)[1..] == conv;
    FirstIndexNone(conv, IsColon);
    assert FirstIndex(conv, IsColon) == |conv|;
    assert conv[..|conv|] == conv;
  }

  lemma BodyPartsWithBoth(name: string, conv: string, spec: string)
    requires NoNameEnd(name) && NoColon(conv)
    ensures BodyParts(name + ("!" + conv + (":" + spec))) == (name, conv, spec)
  {
    var tail := "!" + conv + (":" + spec);
    var body := name + tail;
    FirstIndexAfter(name, tail, IsNameEnd);
    assert body[..|name|] == name && body[|name|..] == tail;
    var after := tail[1..];
    assert after == conv + (":" + spec);
    FirstIndexAfter(conv, ":" + spec, IsColon);
    assert after[..|conv|] == conv && after[|conv| + 1..] == spec;
  }

  /** The parts of a field string built from a name without '!' or ':' and
      a conversion without ':' are read back: the name, the conversion when
      it was given, and the spec when it was given. */
  lemma FieldPartsOfConstruct(fname: string, fspec: Option<string>, conv: Option<string>)
    requires NoNameEnd(fname)
    requires conv.Some? ==> NoColon(conv.value)
    ensures FieldParts(ConstructFormatFieldStr(Some(fname), fspec, conv))
      == (fname, if Truthy(conv) then conv.value else "", if Truthy(fspec) then fspec.value else "")
  {
    var c, f := ConvPart(conv), SpecPart(fspec);
    ConstructShape(fname, fspec, conv);
    Unbrace(fname + (c + f));
    if Truthy(conv) && Truthy(fspec) {
      BodyPartsWithBoth(fname, conv.value, fspec.value);
    } else if Truthy(conv) {
      assert c + f == "!" + conv.value;
      BodyPartsWithConv(fname, conv.value);
    } else if Truthy(fspec) {
      assert c + f == ":" + fspec.value;
      BodyPartsWithSpec(fname, fspec.value);
    } else {
      assert fname + (c + f) == fname;
      BodyPartsNameOnly(fname);
    }
  }

  // ---------------------------------------------------------------------
  // infer_positional_format_args

  /** The characters that may follow '{' in an anonymous positional field:
      the pattern `{[:!.\[}]`. */
  predicate IsAnonFieldChar(c: char) {
    c == ':' || c == '!' || c == '.' || c == '[' || c == '}'
  }

  /** The pattern's first two alternatives match at the start of `s`: an
      escaped '{{' or '}}'. */
  predicate IsEscapeAt(s: string) {
    |s| >= 2 && ((s[0] == '{' && s[1] == '{') || (s[0] == '}' && s[1] == '}'))
  }

  /** The third alternative matches at the start of `s`: an anonymous field. */
  predicate IsAnonAt(s: string) {
    |s| >= 2 && s[0] == '{' && IsAnonFieldChar(s[1])
  }

  /** The text `s` with its anonymous fields numbered from `n` on, scanning
      left to right for non-overlapping matches of the pattern. */
  function Numbered(s: string, n: nat): (r: string)
    ensures |r| >= |s|
    decreases |s|
  {
    if s == [] then []
    else if IsEscapeAt(s) then s[..2] + Numbered(s[2..], n)
    else if IsAnonAt(s) then "{" + NatToString(n) + [s[1]] + Numbered(s[2..], n + 1)
    else [s[0]] + Numbered(s[1..], n)
  }

  /** One step of the scan at position `i`: an escape is copied ... */
  lemma EscapeStep(s: string, i: nat, n: nat)
    requires i < |s| && IsEscapeAt(s[i..])
    ensures Numbered(s[i..], n) == s[i..i + 2] + Numbered(s[i + 2..], n)
  {
    assert s[i..][..2] == s[i..i + 2] && s[i..][2..] == s[i + 2..];
  }

  /** ... an anonymous field gets the next number ... */
  lemma AnonStep(s: string, i: nat, n: nat)
    requires i < |s| && IsAnonAt(s[i..])
    ensures Numbered(s[i..], n) == ("{" + NatToString(n) + [s[i + 1]]) + Numbered(s[i + 2..], n + 1)
  {
    assert s[i..][1] == s[i + 1] && s[i..][2..] == s[i + 2..];
  }

  /** ... and any other character is copied by itself. */
  lemma PlainStep(s: string, i: nat, n: nat)
    requires i < |s| && !IsEscapeAt(s[i..]) && !IsAnonAt(s[i..])
    ensures Numbered(s[i..], n) == [s[i]] + Numbered(s[i + 1..], n)
  {
    assert s[i..][0] == s[i] && s[i..][1..] == s[i + 1..];
  }

  /** `infer_positional_format_args`: the matches of the pattern are found in
      turn; the text between them is copied, escapes are copied, and each
      anonymous field gets the next number. */
  method InferPositionalFormatArgs(fstr: string) returns (ret: string)
    ensures ret == Numbered(fstr, 0)
  {
    ret := "";
    var maxAnon: nat := 0;
    var prevEnd, i := 0, 0;
    while i < |fstr|
      invariant 0 <= prevEnd <= i <= |fstr|
      invariant ScanInvariant(fstr, ret, prevEnd, i, maxAnon)
      decreases |fstr| - i
    {
      if IsEscapeAt(fstr[i..]) || IsAnonAt(fstr[i..]) {
        ret, maxAnon := ReplaceMatch(fstr, i, maxAnon, ret, prevEnd);
        prevEnd, i := i + 2, i + 2;
      } else {
        PlainKeeps(fstr, i, maxAnon, ret, prevEnd);
        i := i + 1;
      }
    }
    assert fstr[i..] == [];
    ret := ret + fstr[prevEnd..];
  }

  /** The body of the scan for a match at `i`: the pending text since the
      last match is copied, then the escape itself or the numbered field. */
  method ReplaceMatch(fstr: string, i: nat, maxAnon: nat, ret0: string, prevEnd: nat) returns (ret: string, next: nat)
    requires prevEnd <= i < |fstr| && (IsEscapeAt(fstr[i..]) || IsAnonAt(fstr[i..]))
    requires ScanInvariant(fstr, ret0, prevEnd, i, maxAnon)
    ensures i + 2 <= |fstr| && ScanInvariant(fstr, ret, i + 2, i + 2, next)
  {
    var seg: string;
    if IsEscapeAt(fstr[i..]) {
      seg, next := fstr[i..i + 2], maxAnon;
    } else {
      seg, next := "{" + NatToString(maxAnon) + [fstr[i + 1]], maxAnon + 1;
    }
    MatchKeeps(fstr, i, maxAnon, ret0, prevEnd, seg, next);
    ret := ret0;
    if prevEnd < i {
      ret := ret + fstr[prevEnd..i];
    } else {
      assert ret == ret0 + fstr[prevEnd..i];
    }
    ret := ret + seg;
  }

  /** The scan's invariant: the result so far, the text after the last
      match that is not yet copied, and the numbering of the rest from the
      next number make up the numbering of the whole template. */
  predicate ScanInvariant(fstr: string, ret: string, prevEnd: nat, i: nat, n: nat) {
    prevEnd <= i <= |fstr| && ret + fstr[prevEnd..i] + Numbered(fstr[i..], n) == Numbered(fstr, 0)
  }

  /** The loop invariant survives a match: the pending text and the
      match's replacement are appended to the result. */
  lemma MatchKeeps(fstr: string, i: nat, n: nat, ret: string, prevEnd: nat, seg: string, next: nat)
    requires prevEnd <= i < |fstr| && (IsEscapeAt(fstr[i..]) || IsAnonAt(fstr[i..]))
    requires ScanInvariant(fstr, ret, prevEnd, i, n)
    requires IsEscapeAt(fstr[i..]) ==> seg == fstr[i..i + 2] && next == n
    requires !IsEscapeAt(fstr[i..]) ==> seg == "{" + NatToString(n) + [fstr[i + 1]] && next == n + 1
    ensures i + 2 <= |fstr|
    ensures ScanInvariant(fstr, ret + fstr[prevEnd..i] + seg, i + 2, i + 2, next)
  {
    if IsEscapeAt(fstr[i..]) {
      EscapeStep(fstr, i, n);
    } else {
      AnonStep(fstr, i, n);
    }
    var pending, after := fstr[prevEnd..i], Numbered(fstr[i + 2..], next);
    assert fstr[i + 2..i + 2] == [];
    assert ret + pending + (seg + after) == (ret + pending + seg) + [] + after;
  }

  /** The loop invariant survives a character that starts no match: it
      joins the pending text. */
  lemma PlainKeeps(fstr: string, i: nat, n: nat, ret: string, prevEnd: nat)
    requires prevEnd <= i < |fstr| && !IsEscapeAt(fstr[i..]) && !IsAnonAt(fstr[i..])
    requires ScanInvariant(fstr, ret, prevEnd, i, n)
    ensures ScanInvariant(fstr, ret, prevEnd, i + 1, n)
  {
    PlainStep(fstr, i, n);
    var pending, after := fstr[prevEnd..i], Numbered(fstr[i + 1..], n);
    assert fstr[prevEnd..i + 1] == pending + [fstr[i]];
    assert ret + pending + ([fstr[i]] + after) == ret + (pending + [fstr[i]]) + after;
  }

  /** The result of `infer_positional_format_args`. */
  function InferPositional(fstr: string): (r: string)
    ensures |r| >= |fstr|
  {
    Numbered(fstr, 0)
  }

  /** A '}' is always copied by itself, whether it pairs with the next one
      into an escape or not. */
  lemma {:induction false} NumberedAfterCloseBrace(s: string, n: nat)
    ensures Numbered("}" + s, n) == "}" + Numbered(s, n)
    decreases |s|
  {
    var t := "}" + s;
    if s != [] && s[0] == '}' {
      assert IsEscapeAt(t) && t[..2] == "}}" && t[2..] == s[1..];
      NumberedAfterCloseBrace(s[1..], n);
      assert s == "}" + s[1..];
    } else {
      assert !IsEscapeAt(t) && !IsAnonAt(t) && t[1..] == s;
    }
  }

  /** Numbering keeps the first character. */
  lemma NumberedFirst(s: string, n: nat)
    requires s != []
    ensures Numbered(s, n) != [] && Numbered(s, n)[0] == s[0]
  {
  }

  /** A character that cannot start a match is copied by itself. */
  lemma NumberedAfterPlain(c: char, s: string, n: nat)
    requires c != '{' && c != '}'
    ensures Numbered([c] + s, n) == [c] + Numbered(s, n)
  {
    assert ([c] + s)[1..] == s;
  }

  lemma {:induction false} NumberedAfterDigits(d: string, s: string, n: nat)
    requires forall k :: 0 <= k < |d| ==> IsDigit(d[k])
    ensures Numbered(d + s, n) == d + Numbered(s, n)
    decreases |d|
  {
    if d != [] {
      var c, e := d[0], d[1..];
      assert IsDigit(c) && d == [c] + e;
      assert d + s == [c] + (e + s);
      NumberedAfterPlain(c, e + s, n);
      NumberedAfterDigits(e, s, n);
      assert Numbered(d + s, n) == [c] + (e + Numbered(s, n));
    } else {
      assert d + s == s;
    }
  }

  /** The text of a numbered field is copied as it is: '{' followed by a
      digit does not match, and the closing character is copied by itself. */
  lemma NumberedField(k: nat, c: char, s: string, n: nat)
    requires IsAnonFieldChar(c)
    ensures Numbered("{" + NatToString(k) + [c] + s, n) == "{" + NatToString(k) + [c] + Numbered(s, n)
  {
    NumberedDigitsField(NatToString(k), c, s, n);
  }

  lemma NumberedDigitsField(d: string, c: char, s: string, n: nat)
    requires d != [] && forall k :: 0 <= k < |d| ==> IsDigit(d[k])
    requires IsAnonFieldChar(c)
    ensures Numbered("{" + d + [c] + s, n) == "{" + d + [c] + Numbered(s, n)
  {
    var t := "{" + d + [c] + s;
    assert t[1] == d[0] && IsDigit(d[0]);
    assert !IsEscapeAt(t) && !IsAnonAt(t);
    assert t[1..] == d + ([c] + s);
    assert Numbered(t, n) == "{" + Numbered(t[1..], n);
    NumberedAfterDigits(d, [c] + s, n);
    var rest := Numbered(s, n);
    if c == '}' {
      NumberedAfterCloseBrace(s, n);
    } else {
      NumberedAfterPlain(c, s, n);
    }
    assert Numbered([c] + s, n) == [c] + rest;
    assert "{" + (d + ([c] + rest)) == "{" + d + [c] + rest;
  }

  /** Numbering is idempotent: the numbered text has no anonymous field left,
      and numbering it again, from any number, changes nothing. */
  lemma {:induction false} NumberedIdempotent(s: string, n: nat, m: nat)
    ensures Numbered(Numbered(s, n), m) == Numbered(s, n)
    decreases |s|
  {
    if s == [] {
    } else if IsEscapeAt(s) {
      var rest := Numbered(s[2..], n);
      NumberedIdempotent(s[2..], n, m);
      var t := s[..2] + rest;
      assert t[..2] == s[..2] && IsEscapeAt(t) && t[2..] == rest;
    } else if IsAnonAt(s) {
      NumberedIdempotent(s[2..], n + 1, m);
      NumberedField(n, s[1], Numbered(s[2..], n + 1), m);
    } else {
      var rest := Numbered(s[1..], n);
      NumberedIdempotent(s[1..], n, m);
      if s[0] == '}' {
        NumberedAfterCloseBrace(rest, m);
      } else if s[0] == '{' {
        var t := [s[0]] + rest;
        if |s| >= 2 {
          NumberedFirst(s[1..], n);
          assert t[1] == s[1];
        }
        assert !IsEscapeAt(t) && !IsAnonAt(t) && t[1..] == rest;
      } else {
        NumberedAfterPlain(s[0], rest, m);
      }
    }
  }

  /** Text without braces is copied unchanged. */
  lemma {:induction false} NumberedWithoutBraces(s: string, n: nat)
    requires forall k :: 0 <= k < |s| ==> s[k] != '{' && s[k] != '}'
    ensures Numbered(s, n) == s
    decreases |s|
  {
    if s != [] {
      NumberedWithoutBraces(s[1..], n);
      NumberedAfterPlain(s[0], s[1..], n);
      assert [s[0]] + s[1..] == s;
    }
  }

  /** The first test template: '{} {} {}' becomes '{0} {1} {2}'. */
  lemma InferExample()
    ensures InferPositional("{} {} {}") == "{0} {1} {2}"
  {
    InferExampleTail();
    assert NatToString(0) == "0";
    assert Numbered("{} {} {}", 0) == "{0}" + Numbered(" {} {}", 1);
  }

  lemma InferExampleTail()
    ensures Numbered(" {} {}", 1) == " {1} {2}"
  {
    assert NatToString(1) == "1" && NatToString(2) == "2";
    assert Numbered(" {}", 2) == " {2}";
    assert Numbered("{} {}", 1) == "{1}" + Numbered(" {}", 2);
  }

  // ---------------------------------------------------------------------
  // the type map and BaseFormatField

  /** The nominal type of a presentation character. */
  datatype TypeFunc = IntType | FloatType | StrType

  const IntChars: string := "bcdoxXn"
  const FloatChars: string := "eEfFgGn%"

  /** `_TYPE_MAP`: built from the int characters, then the float characters
      (so a character in both, 'n', ends up a float), then 's'. */
  const TypeMap: map<char, TypeFunc> :=
    (map c | c in IntChars :: IntType) + (map c | c in FloatChars :: FloatType) + map['s' := StrType]

  /** `fspec[-1:]`: the last character of the spec, or '' for an empty spec. */
  function TypeChar(fspec: string): (r: string)
    ensures |r| <= 1 && (r != [] <==> fspec != [])
    ensures fspec != [] ==> r[0] == fspec[|fspec| - 1]
  {
    if fspec == [] then "" else fspec[|fspec| - 1..]
  }

  /** `_TYPE_MAP.get(type_char, str)` */
  function TypeFuncOf(typeChar: string): TypeFunc {
    if |typeChar| == 1 && typeChar[0] in TypeMap then TypeMap[typeChar[0]] else StrType
  }

  /** 'b', 'c', 'd', 'o', 'x' and 'X' stand for int; 'e', 'E', 'f', 'F', 'g',
      'G', '%' and 'n' for float; every other type character, and none, for str. */
  lemma TypeFuncOfChar(typeChar: string)
    ensures TypeFuncOf(typeChar) == IntType <==> |typeChar| == 1 && typeChar[0] in "bcdoxX"
    ensures TypeFuncOf(typeChar) == FloatType <==> |typeChar| == 1 && typeChar[0] in "eEfFgGn%"
  {
    if |typeChar| == 1 {
      var c := typeChar[0];
      TypeMapAt(c);
      IntOnly(c);
    }
  }

  /** What `_TYPE_MAP` holds for one character: a later entry wins. */
  lemma TypeMapAt(c: char)
    ensures c in TypeMap <==> c in FloatChars || c in IntChars || c == 's'
    ensures c in FloatChars ==> TypeMap[c] == FloatType
    ensures c in IntChars && c !in FloatChars ==> TypeMap[c] == IntType
    ensures c == 's' ==> TypeMap[c] == StrType
  {
  }

  /** The int characters that no float entry overrides. */
  lemma IntOnly(c: char)
    ensures c in IntChars && c !in FloatChars <==> c in "bcdoxX"
  {
  }

  predicate IsPathSep(c: char) { c == '.' || c == '[' }

  /** `re.split('[.[]', fname)` */
  function FieldPath(fname: string): (r: seq<string>)
    ensures |r| >= 1
  {
    SplitOn(fname, IsPathSep)
  }

  predicate AllDigits(s: string) {
    s != [] && forall k :: 0 <= k < |s| ==> IsDigit(s[k])
  }

  /** The base name is the longest prefix of the field name without '.' or
      '['; when it is not the whole name, the name continues with one of
      them and the subpath is the split of what follows. */
  lemma FieldPathParts(fname: string)
    ensures var base := FieldPath(fname)[0];
      |base| <= |fname| && base == fname[..|base|] &&
      (forall k :: 0 <= k < |base| ==> !IsPathSep(base[k])) &&
      (|base| == |fname| ==> FieldPath(fname) == [fname]) &&
      (|base| < |fname| ==> IsPathSep(fname[|base|]) && FieldPath(fname)[1..] == FieldPath(fname[|base| + 1..]))
  {
    FirstPiece(fname, IsPathSep);
    var base := FieldPath(fname)[0];
    if |base| == |fname| {
      SplitOnNoSeparator(fname, [], IsPathSep);
      assert fname + [] == fname;
    } else {
      SplitOnRest(fname, IsPathSep);
    }
  }

  /** A reference to an argument inside a format string. */
  class BaseFormatField {
    var fname: string
    var baseName: string
    var subpath: seq<string>
    var isPositional: bool
    var fspec: string
    var typeChar: string
    var typeFunc: TypeFunc
    var conv: Option<string>

    constructor (fname: string, fspec: Option<string>, conv: Option<string>)
      ensures this.fname == fname && baseName == FieldPath(fname)[0] && subpath == FieldPath(fname)[1..]
      ensures isPositional == (baseName == [] || AllDigits(baseName))
      ensures this.fspec == (if fspec.Some? then fspec.value else "")
      ensures typeChar == TypeChar(this.fspec) && typeFunc == TypeFuncOf(typeChar)
      ensures this.conv == conv
    {
      var path := FieldPath(fname);
      this.baseName := path[0];
      this.fname := fname;
      this.subpath := path[1..];
      this.isPositional := path[0] == [] || AllDigits(path[0]);
      var spec := if fspec.Some? then fspec.value else "";
      this.fspec := spec;
      this.typeChar := TypeChar(spec);
      this.typeFunc := TypeFuncOf(TypeChar(spec));
      this.conv := conv;
    }

    /** `set_fname`: the base name is the text before the first '.' or '[',
        the subpath the pieces after it; the field is positional when the
        base name is empty or all digits. */
    method SetFname(fname: string)
      modifies this
      ensures this.fname == fname && baseName == FieldPath(fname)[0] && subpath == FieldPath(fname)[1..]
      ensures isPositional == (baseName == [] || AllDigits(baseName))
      ensures fspec == old(fspec) && typeChar == old(typeChar) && typeFunc == old(typeFunc) && conv == old(conv)
    {
      var path := FieldPath(fname);
      baseName := path[0];
      this.fname := fname;
      subpath := path[1..];
      isPositional := path[0] == [] || AllDigits(path[0]);
    }

    /** `set_fspec` without the nested-field scan: a missing spec counts as
        '', and the type comes from the spec's last character. */
    method SetFspec(fspec: Option<string>)
      modifies this
      ensures this.fspec == (if fspec.Some? then fspec.value else "")
      ensures typeChar == TypeChar(this.fspec) && typeFunc == TypeFuncOf(typeChar)
      ensures fname == old(fname) && baseName == old(baseName) && subpath == old(subpath)
      ensures isPositional == old(isPositional) && conv == old(conv)
    {
      var spec := if fspec.Some? then fspec.value else "";
      var tc := TypeChar(spec);
      var tf := TypeFuncOf(tc);
      this.fspec, typeChar, typeFunc := spec, tc, tf;
    }

    method SetConv(conv: Option<string>)
      modifies this
      ensures this.conv == conv
      ensures fname == old(fname) && baseName == old(baseName) && subpath == old(subpath)
      ensures isPositional == old(isPositional) && fspec == old(fspec)
      ensures typeChar == old(typeChar) && typeFunc == old(typeFunc)
    {
      this.conv := conv;
    }

    /** The `fstr` property: the field string rebuilt from name, spec and
        conversion, which reads them back when the name has no '!' or ':'
        and the conversion no ':'. */
    function Fstr(): (r: string)
      reads this
      ensures |r| >= |fname| + 2 && r[0] == '{' && r[|r| - 1] == '}' && r[1..|fname| + 1] == fname
      ensures NoNameEnd(fname) && (conv.Some? ==> NoColon(conv.value))
        ==> FieldParts(r) == (fname, if Truthy(conv) then conv.value else "", fspec)
    {
      var r := ConstructFormatFieldStr(Some(fname), Some(fspec), conv);
      if NoNameEnd(fname) && (conv.Some? ==> NoColon(conv.value)) then
        FieldPartsOfConstruct(fname, Some(fspec), conv);
        r
      else r
    }
  }
}
