/** `namedtuple` and `namedlist` of boltons/namedutils.py: the checks and
    renaming applied to a type name and its field names before a record
    class is generated, and the behaviour of the generated `_make`,
    `_asdict` and `_replace`. Both factories run the same splitting,
    renaming and validation, so both are modelled by `NamedType`, which
    records which of the two built the type. Whether a name is a Python
    keyword is a parameter `kw`. */
module NamedUtils {
  import opened Wrappers
  import opened PyStr

  /** `field_names` as given: one string, or a list of strings. */
  datatype FieldNames = Text(text: string) | Names(names: seq<string>)

  /** Which factory generated the class: `namedtuple` or `namedlist`. */
  datatype Kind = TupleKind | ListKind

  /** A generated record class: its name and its `_fields`. */
  datatype RecordType = RecordType(kind: Kind, typename: string, fields: seq<string>)

  // ---------------------------------------------------------------------
  // splitting

  predicate IsCommaOrSpace(c: char) {
    c == ',' || IsSpace(c)
  }

  /** `s.replace(',', ' ')` */
  function CommasToSpaces(s: string): (r: string)
    ensures |r| == |s|
    ensures forall i :: 0 <= i < |s| ==> (r[i] == if s[i] == ',' then ' ' else s[i])
  {
    seq(|s|, i requires 0 <= i < |s| => if s[i] == ',' then ' ' else s[i])
  }

  /** The field names a factory works on: a string is split on commas and
      whitespace, a list is taken as it is. */
  function FieldList(f: FieldNames): seq<string> {
    match f
    case Text(s) => SplitWhitespace(CommasToSpaces(s))
    case Names(ns) => ns
  }

  /** Replacing commas by spaces before splitting on whitespace is splitting
      on commas and whitespace alike. */
  lemma {:induction false} SplitCommasToSpaces(s: string)
    ensures SplitOn(CommasToSpaces(s), IsSpace) == SplitOn(s, IsCommaOrSpace)
    decreases |s|
  {
    if s != [] {
      SplitCommasToSpaces(s[1..]);
      assert CommasToSpaces(s)[1..] == CommasToSpaces(s[1..]);
    }
  }

  /** A string of field names yields the maximal non-empty runs of
      characters that are neither commas nor whitespace, and none of them
      holds a comma or a whitespace character. */
  lemma FieldListOfText(s: string)
    ensures FieldList(Text(s)) == Runs(s, IsCommaOrSpace)
    ensures forall k :: 0 <= k < |FieldList(Text(s))| ==> FieldList(Text(s))[k] != []
    ensures forall k, i :: 0 <= k < |FieldList(Text(s))| && 0 <= i < |FieldList(Text(s))[k]| ==>
      !IsCommaOrSpace(FieldList(Text(s))[k][i])
  {
    SplitCommasToSpaces(s);
    SplitOnPiecesClean(s, IsCommaOrSpace);
    NonEmptyKeeps(SplitOn(s, IsCommaOrSpace));
  }

  lemma {:induction false} SplitOnPiecesClean(s: string, isSep: char -> bool)
    ensures forall k, i :: 0 <= k < |SplitOn(s, isSep)| && 0 <= i < |SplitOn(s, isSep)[k]| ==>
      !isSep(SplitOn(s, isSep)[k][i])
    decreases |s|
  {
    if s != [] {
      SplitOnPiecesClean(s[1..], isSep);
      var rest := SplitOn(s[1..], isSep);
      if !isSep(s[0]) {
        assert forall i :: 1 <= i < |[s[0]] + rest[0]| ==> ([s[0]] + rest[0])[i] == rest[0][i - 1];
      }
    }
  }

  lemma {:induction false} NonEmptyKeeps(parts: seq<string>)
    ensures forall k :: 0 <= k < |NonEmpty(parts)| ==> NonEmpty(parts)[k] in parts
    decreases |parts|
  {
    if parts != [] {
      NonEmptyKeeps(parts[1..]);
    }
  }

  // ---------------------------------------------------------------------
  // renaming

  /** `all(c.isalnum() or c == '_' for c in name)` */
  predicate WordChars(name: string) {
    forall i :: 0 <= i < |name| ==> IsAlnum(name[i]) || name[i] == '_'
  }

  predicate LeadingUnderscore(name: string) {
    name != [] && name[0] == '_'
  }

  /** The rename test: not made of word characters, a keyword, empty,
      starting with a digit or an underscore, or equal to an earlier
      ORIGINAL name. */
  predicate NeedsRename(name: string, earlier: seq<string>, kw: string -> bool) {
    !WordChars(name) || kw(name) || name == [] || IsDigit(name[0]) || name[0] == '_' || name in earlier
  }

  /** `'_%d' % index` */
  function PositionalName(index: nat): (r: string)
    ensures r != [] && r[0] == '_'
  {
    "_" + NatToString(index)
  }

  /** The name at `index` after renaming. */
  function RenamedAt(names: seq<string>, index: nat, kw: string -> bool): string
    requires index < |names|
  {
    if NeedsRename(names[index], names[..index], kw) then PositionalName(index) else names[index]
  }

  function Renamed(names: seq<string>, kw: string -> bool): (r: seq<string>)
    ensures |r| == |names|
    ensures forall i :: 0 <= i < |names| ==> r[i] == RenamedAt(names, i, kw)
  {
    seq(|names|, i requires 0 <= i < |names| => RenamedAt(names, i, kw))
  }

  /** The `rename=True` loop: names are replaced in place, and `seen`
      collects the original names. */
  method Rename(names: seq<string>, kw: string -> bool) returns (r: seq<string>)
    ensures r == Renamed(names, kw)
  {
    r := names;
    var seen: set<string> := {};
    var index := 0;
    while index < |names|
      invariant index <= |names| && |r| == |names|
      invariant forall j :: 0 <= j < index ==> r[j] == RenamedAt(names, j, kw)
      invariant forall j :: index <= j < |names| ==> r[j] == names[j]
      invariant forall x :: x in seen <==> x in names[..index]
    {
      var name := names[index];
      if !WordChars(name) || kw(name) || name == [] || IsDigit(name[0]) || name[0] == '_' || name in seen {
        r := r[index := PositionalName(index)];
      }
      seen := seen + {name};
      assert names[..index + 1] == names[..index] + [name];
      index := index + 1;
    }
    assert r == Renamed(names, kw);
  }

  // ---------------------------------------------------------------------
  // validation

  /** The checks on the type name and every field name, in order; an empty
      name passes the first two and then fails on `name[0]` with IndexError. */
  function NameError(name: string, kw: string -> bool): Option<Error> {
    if !WordChars(name) then Some(ValueError)
    else if kw(name) then Some(ValueError)
    else if name == [] then Some(IndexError)
    else if IsDigit(name[0]) then Some(ValueError)
    else None
  }

  predicate NameOk(name: string, kw: string -> bool) {
    WordChars(name) && !kw(name) && name != [] && !IsDigit(name[0])
  }

  /** The first loop, over `[typename] + field_names`. */
  function CheckNames(names: seq<string>, kw: string -> bool): Result<()> {
    if names == [] then Ok(())
    else if NameError(names[0], kw).Some? then Err(NameError(names[0], kw).value)
    else CheckNames(names[1..], kw)
  }

  /** The second loop: a leading underscore (without rename) and a repeated
      name are rejected. */
  function CheckFields(fields: seq<string>, rename: bool, seen: set<string>): Result<()> {
    if fields == [] then Ok(())
    else if LeadingUnderscore(fields[0]) && !rename then Err(ValueError)
    else if fields[0] in seen then Err(ValueError)
    else CheckFields(fields[1..], rename, seen + {fields[0]})
  }

  function Check(typename: string, fields: seq<string>, rename: bool, kw: string -> bool): Result<()> {
    var _ :- CheckNames([typename] + fields, kw);
    CheckFields(fields, rename, {})
  }

  /** The two validation loops, exiting at the first name that fails. */
  method Validate(typename: string, fields: seq<string>, rename: bool, kw: string -> bool)
    returns (r: Result<()>)
    ensures r == Check(typename, fields, rename, kw)
  {
    var all := [typename] + fields;
    var i := 0;
    while i < |all|
      invariant i <= |all|
      invariant CheckNames(all, kw) == CheckNames(all[i..], kw)
    {
      var name := all[i];
      if !WordChars(name) || kw(name) {
        return Err(ValueError);
      }
      if name == [] {
        return Err(IndexError);
      }
      if IsDigit(name[0]) {
        return Err(ValueError);
      }
      assert all[i..][1..] == all[i + 1..];
      i := i + 1;
    }
    var seen: set<string> := {};
    i := 0;
    while i < |fields|
      invariant i <= |fields|
      invariant seen == set j | 0 <= j < i :: fields[j]
      invariant CheckFields(fields, rename, {}) == CheckFields(fields[i..], rename, seen)
    {
      var name := fields[i];
      if LeadingUnderscore(name) && !rename {
        return Err(ValueError);
      }
      if name in seen {
        return Err(ValueError);
      }
      seen := seen + {name};
      assert fields[i..][1..] == fields[i + 1..];
      i := i + 1;
    }
    r := Ok(());
  }

  predicate Distinct(names: seq<string>) {
    forall i, j :: 0 <= i < j < |names| ==> names[i] != names[j]
  }

  lemma {:induction false} CheckNamesOk(names: seq<string>, kw: string -> bool)
    ensures CheckNames(names, kw).Ok? <==> forall i :: 0 <= i < |names| ==> NameOk(names[i], kw)
    decreases |names|
  {
    if names != [] {
      CheckNamesOk(names[1..], kw);
      assert forall i :: 1 <= i < |names| ==> names[i] == names[1..][i - 1];
    }
  }

  lemma {:induction false} CheckFieldsOk(fields: seq<string>, rename: bool, seen: set<string>)
    ensures CheckFields(fields, rename, seen).Ok? <==>
      (rename || forall i :: 0 <= i < |fields| ==> !LeadingUnderscore(fields[i]))
      && (forall i :: 0 <= i < |fields| ==> fields[i] !in seen)
      && Distinct(fields)
    decreases |fields|
  {
    if fields != [] {
      CheckFieldsOk(fields[1..], rename, seen + {fields[0]});
      assert forall i :: 1 <= i < |fields| ==> fields[i] == fields[1..][i - 1];
    }
  }

  /** Validation succeeds exactly when every name passes the name checks,
      no field name starts with an underscore unless renaming, and no field
      name repeats. */
  lemma CheckOk(typename: string, fields: seq<string>, rename: bool, kw: string -> bool)
    ensures Check(typename, fields, rename, kw).Ok? <==>
      NameOk(typename, kw)
      && (forall i :: 0 <= i < |fields| ==> NameOk(fields[i], kw))
      && (rename || forall i :: 0 <= i < |fields| ==> !LeadingUnderscore(fields[i]))
      && Distinct(fields)
  {
    var all := [typename] + fields;
    CheckNamesOk(all, kw);
    assert all[0] == typename && forall i :: 0 <= i < |fields| ==> all[i + 1] == fields[i];
    CheckFieldsOk(fields, rename, {});
  }

  /** Every failure is a ValueError, except an empty name that reaches the
      `name[0]` test, which raises IndexError; an empty type name always
      does. */
  lemma {:induction false} CheckNamesErrors(names: seq<string>, kw: string -> bool)
    ensures CheckNames(names, kw).Err? ==> CheckNames(names, kw).error in {ValueError, IndexError}
    ensures names != [] && names[0] == [] && !kw([]) ==> CheckNames(names, kw) == Err(IndexError)
    decreases |names|
  {
    if names != [] {
      CheckNamesErrors(names[1..], kw);
    }
  }

  lemma EmptyTypeName(fields: seq<string>, rename: bool, kw: string -> bool)
    requires !kw([])
    ensures Check([], fields, rename, kw) == Err(IndexError)
  {
    CheckNamesErrors([[]] + fields, kw);
  }

  /** No Python keyword starts with an underscore. */
  ghost predicate PlainKeywords(kw: string -> bool) {
    forall s :: LeadingUnderscore(s) ==> !kw(s)
  }

  lemma PositionalNameOk(index: nat, kw: string -> bool)
    requires PlainKeywords(kw)
    ensures NameOk(PositionalName(index), kw) && LeadingUnderscore(PositionalName(index))
  {
    var d := NatToString(index);
    assert forall i :: 1 <= i < |PositionalName(index)| ==> PositionalName(index)[i] == d[i - 1];
  }

  lemma PositionalNameInjective(a: nat, b: nat)
    requires PositionalName(a) == PositionalName(b)
    ensures a == b
  {
    assert PositionalName(a)[1..] == NatToString(a);
    assert PositionalName(b)[1..] == NatToString(b);
    DigitsValueOfNatToString(a);
    DigitsValueOfNatToString(b);
  }

  /** After renaming, every field name passes validation with `rename`
      set, so only the type name can still be rejected. */
  lemma RenamedAccepted(typename: string, names: seq<string>, kw: string -> bool)
    requires PlainKeywords(kw)
    ensures Check(typename, Renamed(names, kw), true, kw).Ok? <==> NameOk(typename, kw)
  {
    var r := Renamed(names, kw);
    forall i | 0 <= i < |r|
      ensures NameOk(r[i], kw)
    {
      PositionalNameOk(i, kw);
    }
    forall i, j | 0 <= i < j < |r|
      ensures r[i] != r[j]
    {
      PositionalNameOk(i, kw);
      PositionalNameOk(j, kw);
      var ri, rj := NeedsRename(names[i], names[..i], kw), NeedsRename(names[j], names[..j], kw);
      if ri && rj {
        if r[i] == r[j] {
          PositionalNameInjective(i, j);
        }
      } else if !ri && !rj {
        assert names[..j][i] == names[i];
      }
    }
    CheckOk(typename, r, true, kw);
  }

  // ---------------------------------------------------------------------
  // the factories

  function TypeFields(fieldNames: FieldNames, rename: bool, kw: string -> bool): seq<string> {
    var fields := FieldList(fieldNames);
    if rename then Renamed(fields, kw) else fields
  }

  /** `namedtuple(typename, field_names, rename=rename)` and
      `namedlist(...)`: split, rename if asked, validate, then generate. */
  method NamedType(kind: Kind, typename: string, fieldNames: FieldNames, rename: bool, kw: string -> bool)
    returns (r: Result<RecordType>)
    ensures r.Ok? <==> Check(typename, TypeFields(fieldNames, rename, kw), rename, kw).Ok?
    ensures r.Ok? ==> r.value == RecordType(kind, typename, TypeFields(fieldNames, rename, kw))
    ensures r.Err? ==> r.error == Check(typename, TypeFields(fieldNames, rename, kw), rename, kw).error
  {
    var fields := FieldList(fieldNames);
    if rename {
      fields := Rename(fields, kw);
    }
    var ok := Validate(typename, fields, rename, kw);
    if ok.Err? {
      return Err(ok.error);
    }
    r := Ok(RecordType(kind, typename, fields));
  }

  // ---------------------------------------------------------------------
  // the generated class

  /** `_make(iterable)` as the namedtuple class does it and as the
      namedlist docstring shows it: exactly as many values as fields, else
      TypeError. */
  function Make<V>(t: RecordType, values: seq<V>): (r: Result<seq<V>>)
    ensures r.Ok? <==> |values| == |t.fields|
    ensures r.Ok? ==> r.value == values
    ensures r.Err? ==> r.error == TypeError
  {
    if |values| != |t.fields| then Err(TypeError) else Ok(values)
  }

  /** `_make(iterable)` as written. The namedtuple class builds its result
      with `tuple.__new__(cls, iterable)`, which holds the values. The
      namedlist class uses `list.__new__(cls, iterable)`, which ignores the
      iterable and returns an empty list (filling a list is `__init__`'s
      job), so the length test sees 0 values. */
  function MakeAsWritten<V>(t: RecordType, values: seq<V>): Result<seq<V>> {
    match t.kind
    case TupleKind => Make(t, values)
    case ListKind => Make(t, [])
  }

  /** `_make` of a namedlist type with at least one field raises TypeError
      whatever it is given, the right number of values included; the
      intended `_make` accepts exactly the right number. */
  lemma NamedListMakeFails<V>(t: RecordType, values: seq<V>)
    requires t.kind == ListKind && t.fields != []
    ensures MakeAsWritten(t, values) == Err(TypeError)
    ensures |values| == |t.fields| ==> Make(t, values) == Ok(values)
  {
  }

  /** A namedtuple type's `_make` is the intended one, and a namedlist type
      without fields makes an empty record from any iterable. */
  lemma MakeAsWrittenOtherwise<V>(t: RecordType, values: seq<V>)
    ensures t.kind == TupleKind ==> MakeAsWritten(t, values) == Make(t, values)
    ensures t.kind == ListKind && t.fields == [] ==> MakeAsWritten(t, values) == Ok([])
  {
  }

  /** `_asdict()`: field names paired with values, in field order. */
  function AsDict<V>(t: RecordType, values: seq<V>): (r: seq<(string, V)>)
    requires |values| == |t.fields|
    ensures |r| == |t.fields|
  {
    seq(|values|, i requires 0 <= i < |values| => (t.fields[i], values[i]))
  }

  /** `dict(pairs)`: later pairs override earlier ones. */
  function ToMap<V>(pairs: seq<(string, V)>): map<string, V> {
    if pairs == [] then map[] else ToMap(pairs[..|pairs| - 1])[pairs[|pairs| - 1].0 := pairs[|pairs| - 1].1]
  }

  function Firsts<V>(pairs: seq<(string, V)>): (r: seq<string>)
    ensures |r| == |pairs| && forall i :: 0 <= i < |pairs| ==> r[i] == pairs[i].0
  {
    seq(|pairs|, i requires 0 <= i < |pairs| => pairs[i].0)
  }

  /** Calling the class with keyword arguments, as `Point(**d)` does: every
      field must be given and no other name, else TypeError. */
  function FromKeywords<V>(t: RecordType, kwargs: map<string, V>): (r: Result<seq<V>>)
    ensures r.Ok? <==> kwargs.Keys == set x | x in t.fields
    ensures r.Ok? ==> |r.value| == |t.fields| && forall i :: 0 <= i < |t.fields| ==> r.value[i] == kwargs[t.fields[i]]
  {
    if kwargs.Keys != set x | x in t.fields then Err(TypeError)
    else Ok(seq(|t.fields|, i requires 0 <= i < |t.fields| => kwargs[t.fields[i]]))
  }

  /** With distinct first components, the dictionary maps each first
      component to its partner and holds nothing else. */
  lemma {:induction false} ToMapOf<V>(pairs: seq<(string, V)>)
    requires Distinct(Firsts(pairs))
    ensures forall i :: 0 <= i < |pairs| ==> pairs[i].0 in ToMap(pairs) && ToMap(pairs)[pairs[i].0] == pairs[i].1
    ensures forall x :: x in ToMap(pairs) ==> x in Firsts(pairs)
    decreases |pairs|
  {
    if pairs != [] {
      var n := |pairs| - 1;
      ToMapOf(pairs[..n]);
      assert forall i :: 0 <= i < n ==> pairs[..n][i] == pairs[i];
    }
  }

  /** `Point(**p._asdict())` rebuilds `p`: the dictionary holds every field
      once with its value. */
  lemma AsDictRoundTrip<V>(t: RecordType, values: seq<V>)
    requires |values| == |t.fields| && Distinct(t.fields)
    ensures FromKeywords(t, ToMap(AsDict(t, values))) == Ok(values)
  {
    var d := AsDict(t, values);
    assert Firsts(d) == t.fields;
    ToMapOf(d);
    assert ToMap(d).Keys == set x | x in t.fields by {
      forall x | x in t.fields
        ensures x in ToMap(d)
      {
        var i :| 0 <= i < |t.fields| && t.fields[i] == x;
        assert d[i].0 == x;
      }
    }
    var r := FromKeywords(t, ToMap(d));
    assert r.Ok?;
    assert forall i :: 0 <= i < |values| ==> d[i].0 == t.fields[i] && r.value[i] == values[i];
    assert r.value == values;
  }

  /** The value `_replace(**kwds)` gives field `i`: popped from `kwds`
      when the field's name is there (the first field of that name takes
      it), otherwise the current value. */
  function Replaced<V>(t: RecordType, values: seq<V>, kwds: map<string, V>, i: nat): V
    requires |values| == |t.fields| && i < |values|
  {
    if t.fields[i] in kwds && t.fields[i] !in t.fields[..i] then kwds[t.fields[i]] else values[i]
  }

  /** `map(kwds.pop, field_names, self)`: each field's value is popped from
      `kwds`, with the current value as default, and what is left of
      `kwds` is returned with the values. */
  method PopFields<V>(t: RecordType, values: seq<V>, kwds: map<string, V>) returns (out: seq<V>, left: map<string, V>)
    requires |values| == |t.fields|
    ensures |out| == |values| && forall i :: 0 <= i < |values| ==> out[i] == Replaced(t, values, kwds, i)
    ensures left.Keys == kwds.Keys - (set x | x in t.fields)
  {
    left := kwds;
    out := [];
    var i := 0;
    while i < |t.fields|
      invariant i <= |t.fields| && |out| == i
      invariant left == kwds - (set x | x in t.fields[..i])
      invariant forall j :: 0 <= j < i ==> out[j] == Replaced(t, values, kwds, j)
    {
      var name := t.fields[i];
      var v := if name in left then left[name] else values[i];
      left := left - {name};
      out := out + [v];
      assert t.fields[..i + 1] == t.fields[..i] + [name];
      i := i + 1;
    }
    assert t.fields[..i] == t.fields;
  }

  /** `_replace(**kwds)` as intended: each field's value is popped from
      `kwds`, with the current value as default; any name left over raises
      ValueError. */
  method Replace<V>(t: RecordType, values: seq<V>, kwds: map<string, V>) returns (r: Result<seq<V>>)
    requires |values| == |t.fields|
    ensures r.Ok? <==> kwds.Keys <= set x | x in t.fields
    ensures r.Err? ==> r.error == ValueError
    ensures r.Ok? ==> |r.value| == |values| && forall i :: 0 <= i < |values| ==> r.value[i] == Replaced(t, values, kwds, i)
  {
    var out, left := PopFields(t, values, kwds);
    r := Make(t, out);
    if left != map[] {
      var k :| k in left;
      assert k in kwds.Keys && k !in (set x | x in t.fields);
      return Err(ValueError);
    }
    assert forall k :: k in kwds ==> k in (set x | x in t.fields) by {
      forall k | k in kwds
        ensures k in (set x | x in t.fields)
      {
        assert k !in left;
      }
    }
  }

  /** `_replace(**kwds)` as written: the values go through `_make` as
      written before the leftover names are checked, so a namedlist type
      with fields raises TypeError for every call, and otherwise the call
      is the intended one. */
  method ReplaceAsWritten<V>(t: RecordType, values: seq<V>, kwds: map<string, V>) returns (r: Result<seq<V>>)
    requires |values| == |t.fields|
    ensures t.kind == ListKind && t.fields != [] ==> r == Err(TypeError)
    ensures !(t.kind == ListKind && t.fields != []) ==>
      (r.Ok? <==> kwds.Keys <= set x | x in t.fields)
      && (r.Err? ==> r.error == ValueError)
      && (r.Ok? ==> |r.value| == |values| && forall i :: 0 <= i < |values| ==> r.value[i] == Replaced(t, values, kwds, i))
  {
    var out, left := PopFields(t, values, kwds);
    r := MakeAsWritten(t, out);
    if r.Err? {
      return;
    }
    if left != map[] {
      var k :| k in left;
      assert k in kwds.Keys && k !in (set x | x in t.fields);
      return Err(ValueError);
    }
    assert forall k :: k in kwds ==> k in (set x | x in t.fields) by {
      forall k | k in kwds
        ensures k in (set x | x in t.fields)
      {
        assert k !in left;
      }
    }
  }

  // ---------------------------------------------------------------------
  // examples

  /** A keyword test that knows `def` and `class`. */
  function SomeKeywords(s: string): bool {
    s == "def" || s == "class"
  }

  /** `'x, y'` names the fields `x` and `y`. */
  lemma SplitExample()
    ensures FieldList(Text("x, y")) == ["x", "y"]
  {
    var s := "x, y";
    SplitCommasToSpaces(s);
    SplitXY();
    var parts: seq<string> := ["x", "", "y"];
    assert parts[1..][1..] == ["y"] && parts[1..][1..][1..] == [];
    assert NonEmpty(parts) == ["x", "y"];
  }

  lemma SplitXY()
    ensures SplitOn("x, y", IsCommaOrSpace) == ["x", "", "y"]
  {
    SplitOnNoSeparator("y", [], IsCommaOrSpace);
    assert "y" + [] == "y";
    var e: string := [];
    assert " y" == e + [' '] + "y";
    SplitOnAtSeparator(e, ' ', "y", IsCommaOrSpace);
    assert SplitOn(" y", IsCommaOrSpace) == ["", "y"];
    SplitOnNoSeparator("x", [], IsCommaOrSpace);
    assert "x" + [] == "x";
    assert "x, y" == "x" + [','] + " y";
    SplitOnAtSeparator("x", ',', " y", IsCommaOrSpace);
  }

  /** With rename, `['abc', 'def', 'ghi', 'abc']` becomes
      `['abc', '_1', 'ghi', '_3']`: a keyword and a repeat are replaced. */
  lemma RenameExample()
    ensures Renamed(["abc", "def", "ghi", "abc"], SomeKeywords) == ["abc", "_1", "ghi", "_3"]
  {
    var names := ["abc", "def", "ghi", "abc"];
    var r := Renamed(names, SomeKeywords);
    assert NatToString(1) == "1" && NatToString(3) == "3";
    assert r[0] == "abc" by {
      assert names[..0] == [];
    }
    assert r[1] == "_1" by {
      assert SomeKeywords(names[1]);
    }
    assert r[2] == "ghi" by {
      assert names[..2] == ["abc", "def"];
      assert WordChars("ghi");
    }
    assert r[3] == "_3" by {
      assert names[..3][0] == "abc";
    }
  }
}
