/** Text helpers: camel-case and underscore conversion, splitting on
    punctuation and whitespace, slugs, and English plurals with case matching.
    Strings are Python 2 byte strings restricted to ASCII character classes. */
module StrUtils {
  import opened Wrappers
  import opened PyStr

  // ---------------------------------------------------------------------
  // camel2under / under2camel

  /** Whether the regular expression `((?<=[a-z0-9])[A-Z]|(?!^)[A-Z](?=[a-z]))`
      matches the first character of `s`, where `prev` is the character before
      it (None at the start of the string): an uppercase letter that follows a
      lowercase letter or a digit, or that is not the first character and is
      followed by a lowercase letter. */
  predicate BoundaryAt(prev: Option<char>, s: string)
    requires s != []
  {
    IsUpper(s[0]) && prev.Some? &&
    (IsLower(prev.value) || IsDigit(prev.value) || (|s| > 1 && IsLower(s[1])))
  }

  /** The substitution `_re.sub(r'_\1', s)`: '_' inserted before every match. */
  function MarkBoundaries(prev: Option<char>, s: string): (r: string)
    ensures |r| >= |s|
    decreases |s|
  {
    if s == [] then []
    else (if BoundaryAt(prev, s) then "_" else "") + [s[0]] + MarkBoundaries(Some(s[0]), s[1..])
  }

  /** `camel2under` */
  function Camel2Under(camel: string): (r: string)
    ensures |r| >= |camel|
    ensures forall i :: 0 <= i < |r| ==> !IsUpper(r[i])
  {
    Lower(MarkBoundaries(None, camel))
  }

  /** `w.capitalize() or '_'` */
  function CapitalizePiece(w: string): (r: string)
    ensures r != []
    ensures w != [] ==> r == Capitalize(w)
  {
    if Capitalize(w) == [] then "_" else Capitalize(w)
  }

  function CapitalizePieces(ws: seq<string>): (r: seq<string>)
    ensures |r| == |ws|
    ensures forall k :: 0 <= k < |ws| ==> r[k] == CapitalizePiece(ws[k])
  {
    if ws == [] then [] else [CapitalizePiece(ws[0])] + CapitalizePieces(ws[1..])
  }

  predicate IsUnderscore(c: char) { c == '_' }

  /** `under2camel`: every '_'-separated piece capitalised, empty pieces
      becoming '_', all joined together. */
  function Under2Camel(under: string): (r: string)
  {
    Join("", CapitalizePieces(SplitOn(under, IsUnderscore)))
  }

  /** A word of a camel-cased name: an uppercase letter followed by one or
      more lowercase letters or digits. */
  predicate IsCapWord(w: string) {
    |w| >= 2 && IsUpper(w[0]) && forall i :: 1 <= i < |w| ==> IsLower(w[i]) || IsDigit(w[i])
  }

  lemma {:induction false} MarkNoUpper(prev: Option<char>, s: string)
    requires forall i :: 0 <= i < |s| ==> !IsUpper(s[i])
    ensures MarkBoundaries(prev, s) == s
    decreases |s|
  {
    if s != [] {
      MarkNoUpper(Some(s[0]), s[1..]);
    }
  }

  /** The marking of a piece that does not end in an uppercase letter does not
      depend on what follows it. */
  lemma {:induction false} MarkConcat(prev: Option<char>, w: string, rest: string)
    requires w != [] && !IsUpper(w[|w| - 1])
    ensures MarkBoundaries(prev, w + rest) == MarkBoundaries(prev, w) + MarkBoundaries(Some(w[|w| - 1]), rest)
    decreases |w|
  {
    var s := w + rest;
    MarkStep(prev, s);
    MarkStep(prev, w);
    if |w| == 1 {
      assert s[0] == w[0] && s[1..] == rest;
      assert MarkBoundaries(Some(w[0]), []) == [];
    } else {
      assert s[0] == w[0] && s[1] == w[1];
      assert BoundaryAt(prev, s) == BoundaryAt(prev, w);
      assert s[1..] == w[1..] + rest;
      assert w[1..][|w[1..]| - 1] == w[|w| - 1];
      MarkConcat(Some(w[0]), w[1..], rest);
      var m := if BoundaryAt(prev, w) then "_" else "";
      var a, b := MarkBoundaries(Some(w[0]), w[1..]), MarkBoundaries(Some(w[|w| - 1]), rest);
      assert m + [w[0]] + (a + b) == (m + [w[0]] + a) + b;
    }
  }

  /** One step of the substitution: the mark of the first character, the
      character, and the marking of the rest. A first character that is not
      uppercase is never marked. */
  lemma MarkStep(prev: Option<char>, s: string)
    requires s != []
    ensures MarkBoundaries(prev, s) == (if BoundaryAt(prev, s) then "_" else "") + [s[0]] + MarkBoundaries(Some(s[0]), s[1..])
    ensures !IsUpper(s[0]) ==> MarkBoundaries(prev, s) == [s[0]] + MarkBoundaries(Some(s[0]), s[1..])
  {
  }

  lemma MarkCapWord(prev: Option<char>, w: string)
    requires IsCapWord(w)
    requires prev.None? || IsLower(prev.value) || IsDigit(prev.value)
    ensures MarkBoundaries(prev, w) == (if prev.Some? then "_" else "") + w
  {
    MarkNoUpper(Some(w[0]), w[1..]);
    assert [w[0]] + w[1..] == w;
  }

  lemma {:induction false} MarkCapWords(prev: Option<char>, ws: seq<string>)
    requires ws != [] && forall k :: 0 <= k < |ws| ==> IsCapWord(ws[k])
    requires prev.None? || IsLower(prev.value) || IsDigit(prev.value)
    ensures MarkBoundaries(prev, Join("", ws)) == (if prev.Some? then "_" else "") + Join("_", ws)
    decreases |ws|
  {
    var w := ws[0];
    assert IsCapWord(w);
    if |ws| == 1 {
      MarkCapWord(prev, w);
    } else {
      assert forall k :: 0 <= k < |ws[1..]| ==> ws[1..][k] == ws[k + 1];
      assert IsLower(w[|w| - 1]) || IsDigit(w[|w| - 1]);
      MarkCapWords(Some(w[|w| - 1]), ws[1..]);
      MarkCapWordThen(prev, w, Join("", ws[1..]), Join("_", ws[1..]));
      assert Join("", ws) == w + Join("", ws[1..]);
      assert Join("_", ws) == w + "_" + Join("_", ws[1..]);
    }
  }

  /** A capitalised word followed by text whose marking starts with '_'. */
  lemma MarkCapWordThen(prev: Option<char>, w: string, tail: string, marked: string)
    requires IsCapWord(w)
    requires prev.None? || IsLower(prev.value) || IsDigit(prev.value)
    requires MarkBoundaries(Some(w[|w| - 1]), tail) == "_" + marked
    ensures MarkBoundaries(prev, w + tail) == (if prev.Some? then "_" else "") + (w + "_" + marked)
  {
    MarkCapWord(prev, w);
    MarkConcat(prev, w, tail);
  }

  function LowerAll(ws: seq<string>): (r: seq<string>)
    ensures |r| == |ws| && forall k :: 0 <= k < |ws| ==> r[k] == Lower(ws[k])
  {
    if ws == [] then [] else [Lower(ws[0])] + LowerAll(ws[1..])
  }

  lemma {:induction false} LowerJoin(sep: string, ws: seq<string>)
    requires Lower(sep) == sep
    ensures Lower(Join(sep, ws)) == Join(sep, LowerAll(ws))
    decreases |ws|
  {
    if |ws| > 1 {
      LowerJoin(sep, ws[1..]);
      LowerConcat(ws[0], sep);
      LowerConcat(ws[0] + sep, Join(sep, ws[1..]));
      assert LowerAll(ws)[1..] == LowerAll(ws[1..]);
    }
  }

  /** A camel-cased name made of capitalised words is converted to its lower-case
      words joined by '_'; 'BasicParseTest' becomes 'basic_parse_test'. */
  lemma Camel2UnderOfWords(ws: seq<string>)
    requires ws != [] && forall k :: 0 <= k < |ws| ==> IsCapWord(ws[k])
    ensures Camel2Under(Join("", ws)) == Join("_", LowerAll(ws))
  {
    MarkCapWords(None, ws);
    assert MarkBoundaries(None, Join("", ws)) == Join("_", ws);
    assert Lower("_") == "_";
    LowerJoin("_", ws);
  }

  lemma {:induction false} CapitalizeLowerCapWords(ws: seq<string>)
    requires forall k :: 0 <= k < |ws| ==> IsCapWord(ws[k])
    ensures CapitalizePieces(LowerAll(ws)) == ws
    decreases |ws|
  {
    if ws != [] {
      var w, lowered := ws[0], LowerAll(ws);
      assert IsCapWord(w);
      CapitalizeLowerCapWord(w);
      assert forall k :: 0 <= k < |ws[1..]| ==> ws[1..][k] == ws[k + 1];
      CapitalizeLowerCapWords(ws[1..]);
      assert lowered[1..] == LowerAll(ws[1..]);
      assert CapitalizePieces(lowered) == [CapitalizePiece(lowered[0])] + CapitalizePieces(lowered[1..]);
      assert ws == [w] + ws[1..];
    }
  }

  lemma CapitalizeLowerCapWord(w: string)
    requires IsCapWord(w)
    ensures CapitalizePiece(Lower(w)) == w
  {
    assert Lower(w)[1..] == Lower(w[1..]);
    assert Lower(Lower(w[1..])) == w[1..];
  }

  /** under2camel capitalises every non-empty '_'-separated piece. */
  lemma Under2CamelOfPieces(ws: seq<string>)
    requires ws != []
    requires forall k, i :: 0 <= k < |ws| && 0 <= i < |ws[k]| ==> ws[k][i] != '_'
    ensures Under2Camel(Join("_", ws)) == Join("", CapitalizePieces(ws))
  {
    SplitOnJoin('_', ws, IsUnderscore);
  }

  lemma LowerCapWordsHaveNoUnderscore(ws: seq<string>)
    requires forall k :: 0 <= k < |ws| ==> IsCapWord(ws[k])
    ensures forall k, i :: 0 <= k < |LowerAll(ws)| && 0 <= i < |LowerAll(ws)[k]| ==> LowerAll(ws)[k][i] != '_'
  {
    forall k, i | 0 <= k < |LowerAll(ws)| && 0 <= i < |LowerAll(ws)[k]| ensures LowerAll(ws)[k][i] != '_' {
      assert IsCapWord(ws[k]);
      assert LowerAll(ws)[k][i] == LowerChar(ws[k][i]);
    }
  }

  /** under2camel undoes camel2under on names made of capitalised words. */
  lemma Under2CamelUndoesCamel2Under(ws: seq<string>)
    requires ws != [] && forall k :: 0 <= k < |ws| ==> IsCapWord(ws[k])
    ensures Under2Camel(Camel2Under(Join("", ws))) == Join("", ws)
  {
    Camel2UnderOfWords(ws);
    LowerCapWordsHaveNoUnderscore(ws);
    Under2CamelOfPieces(LowerAll(ws));
    CapitalizeLowerCapWords(ws);
  }

  lemma Camel2UnderExample()
    ensures Camel2Under("BasicParseTest") == "basic_parse_test"
  {
    var ws := ["Basic", "Parse", "Test"];
    ExampleWordsAreCapWords();
    Camel2UnderOfWords(ws);
    ExampleWordsJoined();
  }

  lemma ExampleWordsAreCapWords()
    ensures IsCapWord("Basic") && IsCapWord("Parse") && IsCapWord("Test")
  {
  }

  lemma ExampleWordsJoined()
    ensures Join("", ["Basic", "Parse", "Test"]) == "BasicParseTest"
    ensures Join("_", LowerAll(["Basic", "Parse", "Test"])) == "basic_parse_test"
  {
    ExampleWordsLowered();
    ExampleJoins();
  }

  lemma ExampleJoins()
    ensures Join("", ["Basic", "Parse", "Test"]) == "BasicParseTest"
    ensures Join("_", ["basic", "parse", "test"]) == "basic_parse_test"
  {
    assert ["Basic", "Parse", "Test"][1..] == ["Parse", "Test"];
    assert ["basic", "parse", "test"][1..] == ["parse", "test"];
  }

  lemma ExampleWordsLowered()
    ensures LowerAll(["Basic", "Parse", "Test"]) == ["basic", "parse", "test"]
  {
    assert Lower("Basic") == "basic" && Lower("Parse") == "parse" && Lower("Test") == "test";
  }

  lemma Under2CamelExample()
    ensures Under2Camel("complex_tokenizer") == "ComplexTokenizer"
  {
    var ws := ["complex", "tokenizer"];
    Under2CamelOfPieces(ws);
    ExamplePiecesCapitalized();
    ExamplePiecesJoined();
  }

  lemma ExamplePiecesCapitalized()
    ensures Join("", CapitalizePieces(["complex", "tokenizer"])) == "ComplexTokenizer"
  {
    ExamplePiecesEach();
    ExamplePiecesJoined();
  }

  lemma ExamplePiecesJoined()
    ensures Join("", ["Complex", "Tokenizer"]) == "ComplexTokenizer"
    ensures Join("_", ["complex", "tokenizer"]) == "complex_tokenizer"
  {
  }

  lemma ExamplePiecesEach()
    ensures CapitalizePieces(["complex", "tokenizer"]) == ["Complex", "Tokenizer"]
  {
    CapitalizeComplex();
    CapitalizeTokenizer();
  }

  lemma CapitalizeComplex() ensures CapitalizePiece("complex") == "Complex" {}
  lemma CapitalizeTokenizer() ensures CapitalizePiece("tokenizer") == "Tokenizer" {}

  // ---------------------------------------------------------------------
  // split_punct_ws / slugify

  /** Membership in the character class `[` + string.punctuation +
      string.whitespace + `]`. Inside the class the backslash of
      string.punctuation escapes the following ']', so the backslash itself
      is not a separator. */
  predicate IsPunctOrSpace(c: char) {
    IsSpace(c) || ('!' <= c <= '/') || (':' <= c <= '@') || ('[' <= c <= '`' && c != '\\') || ('{' <= c <= '~')
  }

  /** `split_punct_ws`: the non-empty pieces of `re.split` on runs of separators. */
  function SplitPunctWs(text: string): (r: seq<string>)
    ensures forall k :: 0 <= k < |r| ==> r[k] != []
  {
    Runs(text, IsPunctOrSpace)
  }

  /** A separator always divides the words: the words of the two sides, in order. */
  lemma SplitPunctWsAtSeparator(a: string, c: char, b: string)
    requires IsPunctOrSpace(c)
    ensures SplitPunctWs(a + [c] + b) == SplitPunctWs(a) + SplitPunctWs(b)
  {
    SplitOnAtSeparator(a, c, b, IsPunctOrSpace);
    NonEmptyConcat(SplitOn(a, IsPunctOrSpace), SplitOn(b, IsPunctOrSpace));
  }

  /** A non-empty text without separators is one word. */
  lemma SplitPunctWsOfWord(w: string)
    requires w != [] && forall i :: 0 <= i < |w| ==> !IsPunctOrSpace(w[i])
    ensures SplitPunctWs(w) == [w]
  {
    SplitOnNoSeparator(w, [], IsPunctOrSpace);
    assert SplitOn([], IsPunctOrSpace) == [[]];
    assert w + [] == w;
    assert NonEmpty([w]) == [w] + NonEmpty([]);
  }

  /** A text made only of separators has no words. */
  lemma {:induction false} SplitPunctWsOfSeparators(s: string)
    requires forall i :: 0 <= i < |s| ==> IsPunctOrSpace(s[i])
    ensures SplitPunctWs(s) == []
    decreases |s|
  {
    if s == [] {
      assert SplitOn(s, IsPunctOrSpace) == [[]];
      assert NonEmpty([[]]) == NonEmpty([]);
    } else {
      SplitPunctWsOfSeparators(s[1..]);
      SplitPunctWsAtSeparator([], s[0], s[1..]);
      assert [] + [s[0]] + s[1..] == s;
    }
  }

  /** `slugify(text, delim, lower)` without `ascii`. */
  function Slugify(text: string, delim: string, lower: bool): (r: string)
    ensures lower ==> forall i :: 0 <= i < |r| ==> !IsUpper(r[i])
  {
    var ret := Join(delim, SplitPunctWs(text));
    if lower then Lower(ret) else ret
  }

  /** The slug of a lower-case text is the words joined by the delimiter. */
  lemma SlugifyJoinsWords(text: string, delim: string)
    requires Lower(text) == text && Lower(delim) == delim
    ensures Slugify(text, delim, true) == Join(delim, SplitPunctWs(text))
    ensures Slugify(text, delim, true) == Slugify(text, delim, false)
  {
    var ws := SplitPunctWs(text);
    LowerJoin(delim, ws);
    forall k | 0 <= k < |ws| ensures Lower(ws[k]) == ws[k] {
      WordsAreSlices(text, k);
    }
    assert LowerAll(ws) == ws;
  }

  /** Each word is a slice of the text. */
  lemma WordsAreSlices(text: string, k: nat)
    requires k < |SplitPunctWs(text)|
    ensures exists i, j :: 0 <= i <= j <= |text| && SplitPunctWs(text)[k] == text[i..j]
  {
    WordsOfSplitAreSlices(text, k);
  }

  lemma {:induction false} WordsOfSplitAreSlices(text: string, k: nat)
    requires k < |NonEmpty(SplitOn(text, IsPunctOrSpace))|
    ensures exists i, j :: 0 <= i <= j <= |text| && NonEmpty(SplitOn(text, IsPunctOrSpace))[k] == text[i..j]
  {
    var parts := SplitOn(text, IsPunctOrSpace);
    NonEmptyFrom(parts, k);
    var m :| 0 <= m < |parts| && NonEmpty(parts)[k] == parts[m];
    PiecesAreSlices(text, IsPunctOrSpace, m);
  }

  lemma {:induction false} NonEmptyFrom(parts: seq<string>, k: nat)
    requires k < |NonEmpty(parts)|
    ensures exists m :: 0 <= m < |parts| && NonEmpty(parts)[k] == parts[m]
    decreases |parts|
  {
    if parts[0] == [] {
      NonEmptyFrom(parts[1..], k);
      var m :| 0 <= m < |parts[1..]| && NonEmpty(parts[1..])[k] == parts[1..][m];
      assert parts[m + 1] == parts[1..][m];
    } else if k > 0 {
      NonEmptyFrom(parts[1..], k - 1);
      var m :| 0 <= m < |parts[1..]| && NonEmpty(parts[1..])[k - 1] == parts[1..][m];
      assert parts[m + 1] == parts[1..][m];
    } else {
      assert NonEmpty(parts)[0] == parts[0];
    }
  }

  lemma {:induction false} PiecesAreSlices(s: string, isSep: char -> bool, m: nat)
    requires m < |SplitOn(s, isSep)|
    ensures exists i, j :: 0 <= i <= j <= |s| && SplitOn(s, isSep)[m] == s[i..j]
    decreases |s|
  {
    if s == [] {
      assert SplitOn(s, isSep)[m] == s[0..0];
    } else {
      var rest := SplitOn(s[1..], isSep);
      if isSep(s[0]) {
        if m == 0 {
          assert SplitOn(s, isSep)[m] == s[0..0];
        } else {
          PiecesAreSlices(s[1..], isSep, m - 1);
          var i, j :| 0 <= i <= j <= |s[1..]| && rest[m - 1] == s[1..][i..j];
          assert s[1..][i..j] == s[i + 1..j + 1];
        }
      } else if m == 0 {
        PiecesAreSlices(s[1..], isSep, 0);
        var i, j :| 0 <= i <= j <= |s[1..]| && rest[0] == s[1..][i..j];
        // the first piece of the rest starts at the beginning of the rest
        FirstPiece(s[1..], isSep);
        assert rest[0] == s[1..][..|rest[0]|];
        assert [s[0]] + rest[0] == s[0..|rest[0]| + 1];
      } else {
        PiecesAreSlices(s[1..], isSep, m);
        var i, j :| 0 <= i <= j <= |s[1..]| && rest[m] == s[1..][i..j];
        assert s[1..][i..j] == s[i + 1..j + 1];
      }
    }
  }

  lemma WordThenSeparator(w: string, c: char, b: string)
    requires w != [] && forall i :: 0 <= i < |w| ==> !IsPunctOrSpace(w[i])
    requires IsPunctOrSpace(c)
    ensures SplitPunctWs(w + [c] + b) == [w] + SplitPunctWs(b)
  {
    SplitPunctWsAtSeparator(w, c, b);
    SplitPunctWsOfWord(w);
  }

  lemma SeparatorFirst(c: char, b: string)
    requires IsPunctOrSpace(c)
    ensures SplitPunctWs([c] + b) == SplitPunctWs(b)
  {
    SplitPunctWsAtSeparator([], c, b);
    SplitPunctWsOfSeparators([]);
    assert [] + [c] + b == [c] + b;
  }

  predicate IsWord(w: string) {
    w != [] && forall i :: 0 <= i < |w| ==> !IsPunctOrSpace(w[i])
  }

  /** The words of the shape of the docstring example 'First post! Hi!!!!~1    '. */
  lemma ExampleShapeWords(a: string, b: string, c: string, d: string)
    requires IsWord(a) && IsWord(b) && IsWord(c) && IsWord(d)
    ensures SplitPunctWs(a + " " + b + "! " + c + "!!!!~" + d + "    ") == [a, b, c, d]
  {
    var t4 := d + "    ";
    var t3 := c + "!!!!~" + t4;
    var t2 := b + "! " + t3;
    ShapeTail(d);
    ShapeBangs(c, t4);
    ShapeBangSpace(b, t3);
    WordThenSeparator(a, ' ', t2);
    assert a + [' '] + t2 == a + " " + b + "! " + c + "!!!!~" + d + "    ";
  }

  lemma ShapeTail(d: string)
    requires IsWord(d)
    ensures SplitPunctWs(d + "    ") == [d]
  {
    SplitPunctWsOfSeparators("   ");
    WordThenSeparator(d, ' ', "   ");
    assert d + [' '] + "   " == d + "    ";
  }

  lemma ShapeBangs(c: string, t: string)
    requires IsWord(c)
    ensures SplitPunctWs(c + "!!!!~" + t) == [c] + SplitPunctWs(t)
  {
    SeparatorFirst('~', t);
    SeparatorFirst('!', "~" + t);
    assert ['!'] + ("~" + t) == "!~" + t;
    SeparatorFirst('!', "!~" + t);
    assert ['!'] + ("!~" + t) == "!!~" + t;
    SeparatorFirst('!', "!!~" + t);
    assert ['!'] + ("!!~" + t) == "!!!~" + t;
    WordThenSeparator(c, '!', "!!!~" + t);
    assert c + ['!'] + ("!!!~" + t) == c + "!!!!~" + t;
  }

  lemma ShapeBangSpace(b: string, t: string)
    requires IsWord(b)
    ensures SplitPunctWs(b + "! " + t) == [b] + SplitPunctWs(t)
  {
    SeparatorFirst(' ', t);
    WordThenSeparator(b, '!', " " + t);
    assert b + ['!'] + (" " + t) == b + "! " + t;
  }

  lemma SlugifyExample()
    ensures Slugify("First post! Hi!!!!~1    ", "_", true) == "first_post_hi_1"
  {
    ExampleWordsOfText();
    ExampleTextShape();
    ExampleShapeWords("First", "post", "Hi", "1");
    ExampleSlugLowered();
  }

  lemma ExampleWordsOfText()
    ensures IsWord("First") && IsWord("post") && IsWord("Hi") && IsWord("1")
  {
  }

  lemma ExampleTextShape()
    ensures "First" + " " + "post" + "! " + "Hi" + "!!!!~" + "1" + "    " == "First post! Hi!!!!~1    "
  {
  }

  lemma ExampleSlugLowered()
    ensures Lower(Join("_", ["First", "post", "Hi", "1"])) == "first_post_hi_1"
  {
    assert Join("_", ["First", "post", "Hi", "1"]) == "First_post_Hi_1";
  }

  // ---------------------------------------------------------------------
  // pluralize / singularize / cardinalize / _match_case

  /** `_IRR_S2P.get(word)`: the table of irregular plurals. */
  function IrregularPlural(word: string): Option<string> {
    match word
    case "alumnus" => Some("alumni")
    case "analysis" => Some("analyses")
    case "antenna" => Some("antennae")
    case "appendix" => Some("appendices")
    case "axis" => Some("axes")
    case "bacterium" => Some("bacteria")
    case "basis" => Some("bases")
    case "beau" => Some("beaux")
    case "bureau" => Some("bureaus")
    case "cactus" => Some("cacti")
    case "child" => Some("children")
    case "corpus" => Some("corpora")
    case "crisis" => Some("crises")
    case "criterion" => Some("criteria")
    case "curriculum" => Some("curricula")
    case "datum" => Some("data")
    case "deer" => Some("deer")
    case "diagnosis" => Some("diagnoses")
    case "ellipsis" => Some("ellipses")
    case "fish" => Some("fish")
    case "focus" => Some("foci")
    case "foot" => Some("feet")
    case "formula" => Some("formulae")
    case "fungus" => Some("fungi")
    case "genus" => Some("genera")
    case "goose" => Some("geese")
    case "hypothesis" => Some("hypotheses")
    case "index" => Some("indeces")
    case "louse" => Some("lice")
    case "man" => Some("men")
    case "matrix" => Some("matrices")
    case "means" => Some("means")
    case "medium" => Some("media")
    case "memorandum" => Some("memoranda")
    case "mouse" => Some("mice")
    case "nebula" => Some("nebulae")
    case "nucleus" => Some("nuclei")
    case "oasis" => Some("oases")
    case "offspring" => Some("offspring")
    case "ox" => Some("oxen")
    case "paralysis" => Some("paralyses")
    case "parenthesis" => Some("parentheses")
    case "phenomenon" => Some("phenomena")
    case "radius" => Some("radii")
    case "series" => Some("series")
    case "sheep" => Some("sheep")
    case "species" => Some("species")
    case "stimulus" => Some("stimuli")
    case "stratum" => Some("strata")
    case "synopsis" => Some("synopses")
    case "synthesis" => Some("syntheses")
    case "tableau" => Some("tableaux")
    case "thesis" => Some("theses")
    case "tooth" => Some("teeth")
    case "vertebra" => Some("vertebrae")
    case "vita" => Some("vitae")
    case "woman" => Some("women")
    case _ => None
  }

  /** `_IRR_P2S.get(word)`: the same table read from plural to singular (its
      plurals are pairwise distinct, so the reverse is a function). */
  function IrregularSingular(word: string): Option<string> {
    match word
    case "alumni" => Some("alumnus")
    case "analyses" => Some("analysis")
    case "antennae" => Some("antenna")
    case "appendices" => Some("appendix")
    case "axes" => Some("axis")
    case "bacteria" => Some("bacterium")
    case "bases" => Some("basis")
    case "beaux" => Some("beau")
    case "bureaus" => Some("bureau")
    case "cacti" => Some("cactus")
    case "children" => Some("child")
    case "corpora" => Some("corpus")
    case "crises" => Some("crisis")
    case "criteria" => Some("criterion")
    case "curricula" => Some("curriculum")
    case "data" => Some("datum")
    case "deer" => Some("deer")
    case "diagnoses" => Some("diagnosis")
    case "ellipses" => Some("ellipsis")
    case "fish" => Some("fish")
    case "foci" => Some("focus")
    case "feet" => Some("foot")
    case "formulae" => Some("formula")
    case "fungi" => Some("fungus")
    case "genera" => Some("genus")
    case "geese" => Some("goose")
    case "hypotheses" => Some("hypothesis")
    case "indeces" => Some("index")
    case "lice" => Some("louse")
    case "men" => Some("man")
    case "matrices" => Some("matrix")
    case "means" => Some("means")
    case "media" => Some("medium")
    case "memoranda" => Some("memorandum")
    case "mice" => Some("mouse")
    case "nebulae" => Some("nebula")
    case "nuclei" => Some("nucleus")
    case "oases" => Some("oasis")
    case "offspring" => Some("offspring")
    case "oxen" => Some("ox")
    case "paralyses" => Some("paralysis")
    case "parentheses" => Some("parenthesis")
    case "phenomena" => Some("phenomenon")
    case "radii" => Some("radius")
    case "series" => Some("series")
    case "sheep" => Some("sheep")
    case "species" => Some("species")
    case "stimuli" => Some("stimulus")
    case "strata" => Some("stratum")
    case "synopses" => Some("synopsis")
    case "syntheses" => Some("synthesis")
    case "tableaux" => Some("tableau")
    case "theses" => Some("thesis")
    case "teeth" => Some("tooth")
    case "vertebrae" => Some("vertebra")
    case "vitae" => Some("vita")
    case "women" => Some("woman")
    case _ => None
  }

  predicate IsVowel(c: char) { c in "aeiou" }

  /** `_match_case(master, disciple)`: the case pattern of `master` (all lower,
      all upper or capitalised) imposed on `disciple`, which otherwise, and
      when `master` is blank, is returned as it is. */
  function MatchCase(master: string, disciple: string): (r: string)
    ensures Lower(r) == Lower(disciple)
    ensures Strip(master) == [] ==> r == disciple
    ensures Strip(master) != [] && Lower(master) == master ==> Lower(r) == r
    ensures Strip(master) != [] && Lower(master) != master && Upper(master) == master ==> Upper(r) == r
    ensures Strip(master) != [] && Lower(master) != master && Upper(master) != master && Capitalize(master) == master
      ==> Capitalize(r) == r
    ensures Strip(master) != [] && Lower(master) != master && Upper(master) != master && Capitalize(master) != master
      ==> r == disciple
  {
    CaseLaws(disciple);
    if Strip(master) == [] then disciple
    else if Lower(master) == master then Lower(disciple)
    else if Upper(master) == master then Upper(disciple)
    else if Capitalize(master) == master then Capitalize(disciple)
    else disciple
  }

  /** The regular plural rules of `pluralize`, in order: consonant + 'y'
      becomes 'ies'; a word ending in 's', 'ch' or 'sh' gains 'es' unless it
      already ends in 'es'; any other word gains 's'. */
  function RegularPlural(w: string): string
    requires w != []
  {
    if EndsWith(w, "y") && |w| >= 2 && !IsVowel(w[|w| - 2]) then w[..|w| - 1] + "ies"
    else if w[|w| - 1] == 's' || EndsWith(w, "ch") || EndsWith(w, "sh") then
      (if EndsWith(w, "es") then w else w + "es")
    else w + "s"
  }

  /** `pluralize`: blank words and irregular plurals are returned unchanged;
      otherwise the stripped, lower-cased word is looked up in the irregular
      table or given its regular plural, in the case of the original. */
  function Pluralize(word: string): (r: string)
  {
    var w := Lower(Strip(word));
    if w == [] || IrregularSingular(w).Some? then word
    else if IrregularPlural(w).Some? then MatchCase(word, IrregularPlural(w).value)
    else MatchCase(word, RegularPlural(w))
  }

  /** The regular rules of `singularize` as written: the 'ies' rule tests the
      character two places before the ending (`word[-5:-4]`). */
  function RegularSingularAsWritten(w: string): string
    requires EndsWith(w, "s")
  {
    if |w| == 2 then w[..1]
    else if EndsWith(w, "ies") && |w| >= 5 && !IsVowel(w[|w| - 5]) then w[..|w| - 3] + "y"
    else if EndsWith(w, "es") then w[..|w| - 2]
    else w[..|w| - 1]
  }

  /** The regular rules of `singularize` with the 'ies' rule testing the
      character right before the ending (`word[-4:-3]`), the counterpart of the
      consonant + 'y' rule of `pluralize`. */
  function RegularSingular(w: string): string
    requires EndsWith(w, "s")
  {
    if |w| == 2 then w[..1]
    else if EndsWith(w, "ies") && |w| >= 4 && !IsVowel(w[|w| - 4]) then w[..|w| - 3] + "y"
    else if EndsWith(w, "es") then w[..|w| - 2]
    else w[..|w| - 1]
  }

  /** `singularize` as written. */
  function SingularizeAsWritten(word: string): (r: string)
  {
    var w := Lower(Strip(word));
    if w == [] || IrregularPlural(w).Some? then word
    else if IrregularSingular(w).Some? then MatchCase(word, IrregularSingular(w).value)
    else if !EndsWith(w, "s") then word
    else MatchCase(word, RegularSingularAsWritten(w))
  }

  /** `singularize` with the corrected 'ies' rule: blank words, irregular
      singulars and words not ending in 's' are returned unchanged; irregular
      plurals are looked up, other words lose their regular ending. */
  function Singularize(word: string): (r: string)
  {
    var w := Lower(Strip(word));
    if w == [] || IrregularPlural(w).Some? then word
    else if IrregularSingular(w).Some? then MatchCase(word, IrregularSingular(w).value)
    else if !EndsWith(w, "s") then word
    else MatchCase(word, RegularSingular(w))
  }

  /** `cardinalize(unit_noun, count)` */
  function Cardinalize(unitNoun: string, count: int): (r: string)
    ensures count == 1 ==> r == unitNoun
    ensures count != 1 ==> r == Pluralize(unitNoun)
  {
    if count == 1 then unitNoun else Pluralize(unitNoun)
  }

  /** A non-empty word of lowercase letters. */
  predicate IsLowerWord(w: string) {
    w != [] && forall i :: 0 <= i < |w| ==> IsLower(w[i])
  }

  /** The words whose regular plural `singularize` is meant to undo: a
      consonant followed by 'y' ('city' / 'cities'), a word ending in 's', 'ch'
      or 'sh' but not in 'es' ('bus' / 'buses'), and any other word that does
      not end in 'e' ('cat' / 'cats'). */
  predicate HasInvertiblePlural(w: string)
    requires w != []
  {
    var last := w[|w| - 1];
    (last == 'y' && |w| >= 2 && !IsVowel(w[|w| - 2])) ||
    ((last == 's' || EndsWith(w, "ch") || EndsWith(w, "sh")) && !EndsWith(w, "es")) ||
    (last != 's' && last != 'e' && last != 'y' && !EndsWith(w, "ch") && !EndsWith(w, "sh")) ||
    (last == 'y' && |w| >= 2 && IsVowel(w[|w| - 2]))
  }

  lemma LowerWordIsPlain(w: string)
    requires IsLowerWord(w)
    ensures Strip(w) == w && Lower(w) == w
  {
    assert !IsSpace(w[0]) && !IsSpace(w[|w| - 1]);
    assert StripLeft(w) == w;
    assert StripRight(w) == w;
    assert forall i :: 0 <= i < |w| ==> LowerChar(w[i]) == w[i];
  }

  /** A lower-case word imposes lower case, which a lower-case result already has. */
  lemma MatchCaseOfLowerWords(master: string, disciple: string)
    requires IsLowerWord(master) && forall i :: 0 <= i < |disciple| ==> IsLower(disciple[i])
    ensures MatchCase(master, disciple) == disciple
  {
    LowerWordIsPlain(master);
    assert Lower(disciple) == disciple;
  }

  lemma RegularPluralIsLowerWord(w: string)
    requires IsLowerWord(w)
    ensures IsLowerWord(RegularPlural(w)) && EndsWith(RegularPlural(w), "s")
  {
  }

  /** On a lower-case word outside the irregular table, `pluralize` applies
      the regular rules. */
  lemma PluralizeRegular(w: string)
    requires IsLowerWord(w) && IrregularSingular(w).None? && IrregularPlural(w).None?
    ensures Pluralize(w) == RegularPlural(w)
  {
    LowerWordIsPlain(w);
    RegularPluralIsLowerWord(w);
    MatchCaseOfLowerWords(w, RegularPlural(w));
  }

  /** The corrected regular singular rules undo the regular plural rules on
      every word with an invertible plural. */
  lemma RegularSingularUndoesRegularPlural(w: string)
    requires IsLowerWord(w) && HasInvertiblePlural(w)
    ensures RegularSingular(RegularPlural(w)) == w
  {
    if EndsWith(w, "y") && |w| >= 2 && !IsVowel(w[|w| - 2]) {
      SingularOfIes(w[..|w| - 1]);
      assert w[..|w| - 1] + "y" == w;
    } else if w[|w| - 1] == 's' || EndsWith(w, "ch") || EndsWith(w, "sh") {
      SingularOfEs(w);
    } else {
      SingularOfS(w);
    }
  }

  /** 'ies' after a consonant goes back to 'y'. */
  lemma SingularOfIes(stem: string)
    requires stem != [] && !IsVowel(stem[|stem| - 1])
    ensures RegularSingular(stem + "ies") == stem + "y"
  {
    var p := stem + "ies";
    assert EndsWith(p, "ies") && p[|p| - 4] == stem[|stem| - 1];
    assert p[..|p| - 3] == stem;
  }

  /** 'es' after anything but 'i' goes. */
  lemma SingularOfEs(w: string)
    requires w != [] && w[|w| - 1] != 'i'
    ensures RegularSingular(w + "es") == w
  {
    var p := w + "es";
    assert EndsWith(p, "es") && p[|p| - 3] == w[|w| - 1];
    assert p[..|p| - 2] == w;
  }

  /** A final 's' after anything but 'e' goes. */
  lemma SingularOfS(w: string)
    requires w != [] && w[|w| - 1] != 'e'
    ensures RegularSingular(w + "s") == w
  {
    var p := w + "s";
    assert p[|p| - 2] == w[|w| - 1];
    assert !EndsWith(p, "es");
    assert p[..|p| - 1] == w;
  }

  /** `singularize`, with its 'ies' rule as intended, recovers every
      lower-case word with an invertible regular plural from that plural. */
  lemma SingularizeUndoesPluralize(w: string)
    requires IsLowerWord(w) && HasInvertiblePlural(w)
    requires IrregularSingular(w).None? && IrregularPlural(w).None?
    requires IrregularSingular(RegularPlural(w)).None? && IrregularPlural(RegularPlural(w)).None?
    ensures Singularize(Pluralize(w)) == w
  {
    PluralizeRegular(w);
    SingularizeUndoesRegularPlural(w);
  }

  lemma SingularizeUndoesRegularPlural(w: string)
    requires IsLowerWord(w) && HasInvertiblePlural(w)
    requires IrregularSingular(RegularPlural(w)).None? && IrregularPlural(RegularPlural(w)).None?
    ensures Singularize(RegularPlural(w)) == w
  {
    RegularPluralIsLowerWord(w);
    SingularizeRegular(RegularPlural(w));
    RegularSingularUndoesRegularPlural(w);
  }

  /** On a lower-case word ending in 's' outside the irregular table,
      `singularize` applies the regular rules. */
  lemma SingularizeRegular(p: string)
    requires IsLowerWord(p) && EndsWith(p, "s")
    requires IrregularSingular(p).None? && IrregularPlural(p).None?
    ensures Singularize(p) == RegularSingular(p)
  {
    SingularKeepsLowerCase(p);
    LowerWordIsPlain(p);
    SingularizeUnfolded(p, p);
  }

  /** The same for `singularize` as written, with its own 'ies' rule. */
  lemma SingularizeAsWrittenRegular(p: string)
    requires IsLowerWord(p) && EndsWith(p, "s")
    requires IrregularSingular(p).None? && IrregularPlural(p).None?
    ensures SingularizeAsWritten(p) == RegularSingularAsWritten(p)
  {
    SingularAsWrittenKeepsLowerCase(p);
    LowerWordIsPlain(p);
    SingularizeAsWrittenUnfolded(p, p);
  }

  lemma SingularKeepsLowerCase(p: string)
    requires IsLowerWord(p) && EndsWith(p, "s")
    ensures MatchCase(p, RegularSingular(p)) == RegularSingular(p)
  {
    MatchCaseOfLowerWords(p, RegularSingular(p));
  }

  lemma SingularAsWrittenKeepsLowerCase(p: string)
    requires IsLowerWord(p) && EndsWith(p, "s")
    ensures MatchCase(p, RegularSingularAsWritten(p)) == RegularSingularAsWritten(p)
  {
    MatchCaseOfLowerWords(p, RegularSingularAsWritten(p));
  }

  /** On a word whose stripped, lower-cased form `w` ends in 's' and lies
      outside the irregular table, `singularize` imposes the word's case on
      the regular singular of `w`. */
  lemma SingularizeUnfolded(word: string, w: string)
    requires w == Lower(Strip(word)) && EndsWith(w, "s")
    requires IrregularSingular(w).None? && IrregularPlural(w).None?
    ensures Singularize(word) == MatchCase(word, RegularSingular(w))
  {
  }

  lemma SingularizeAsWrittenUnfolded(word: string, w: string)
    requires w == Lower(Strip(word)) && EndsWith(w, "s")
    requires IrregularSingular(w).None? && IrregularPlural(w).None?
    ensures SingularizeAsWritten(word) == MatchCase(word, RegularSingularAsWritten(w))
  {
  }

  /** `singularize` as written maps 'cities', the plural of 'city', to 'citi'. */
  lemma SingularizeAsWrittenMissesCity()
    ensures Pluralize("city") == "cities"
    ensures SingularizeAsWritten("cities") == "citi"
    ensures Singularize("cities") == "city"
  {
    CityPlural();
    CitiesAsWritten();
    CitiesSingular();
  }

  lemma CitiesSingular()
    ensures Singularize("cities") == "city"
  {
    CitiesSingularIsRegular();
    CityRegularPlural();
  }

  lemma CitiesSingularIsRegular()
    ensures Singularize(RegularPlural("city")) == "city"
  {
    CityNotIrregular();
    CityRegularPlural();
    SingularizeUndoesRegularPlural("city");
  }

  lemma CityPlural()
    ensures Pluralize("city") == "cities"
  {
    CityPluralIsRegular();
    CityRegularPlural();
  }

  lemma CityRegularPlural()
    ensures RegularPlural("city") == "cities"
    ensures RegularSingularAsWritten("cities") == "citi"
  {
  }

  lemma CityPluralIsRegular()
    ensures Pluralize("city") == RegularPlural("city")
  {
    CityNotIrregular();
    PluralizeRegular("city");
  }

  lemma CitiesAsWritten()
    ensures SingularizeAsWritten("cities") == "citi"
  {
    CitiesAsWrittenIsRegular();
    CityRegularPlural();
  }

  lemma CitiesAsWrittenIsRegular()
    ensures SingularizeAsWritten("cities") == RegularSingularAsWritten("cities")
  {
    CityNotIrregular();
    SingularizeAsWrittenRegular("cities");
  }

  lemma CityNotIrregular()
    ensures IrregularSingular("city").None? && IrregularPlural("city").None?
    ensures IrregularSingular("cities").None? && IrregularPlural("cities").None?
  {
  }

  /** The examples of the `cardinalize` docstring. */
  lemma CardinalizeExamples()
    ensures Cardinalize("vowel", 5) == "vowels"
    ensures Cardinalize("Wish", 3) == "Wishes"
    ensures Cardinalize("Wish", 1) == "Wish"
  {
    VowelPlural();
    WishPlural();
  }

  lemma VowelPlural()
    ensures Pluralize("vowel") == "vowels"
  {
    VowelPluralIsRegular();
    ExampleRegularPlurals();
  }

  lemma VowelPluralIsRegular()
    ensures Pluralize("vowel") == RegularPlural("vowel")
  {
    VowelWishNotIrregular();
    PluralizeRegular("vowel");
  }

  lemma ExampleRegularPlurals()
    ensures RegularPlural("vowel") == "vowels"
    ensures RegularPlural("wish") == "wishes"
    ensures Capitalize("wishes") == "Wishes"
  {
    VowelRegularPlural();
    WishRegularPlural();
  }

  lemma VowelRegularPlural()
    ensures RegularPlural("vowel") == "vowels"
  {
  }

  lemma WishRegularPlural()
    ensures RegularPlural("wish") == "wishes"
  {
  }

  /** On a word outside the irregular table, `pluralize` imposes the word's
      case on the regular plural of its stripped, lower-cased form. */
  lemma PluralizeUnfolded(word: string, w: string)
    requires w == Lower(Strip(word)) && w != []
    requires IrregularSingular(w).None? && IrregularPlural(w).None?
    ensures Pluralize(word) == MatchCase(word, RegularPlural(w))
  {
  }

  lemma MatchCaseCapitalized(master: string, disciple: string)
    requires Strip(master) != [] && Lower(master) != master && Upper(master) != master
    requires Capitalize(master) == master
    ensures MatchCase(master, disciple) == Capitalize(disciple)
  {
  }

  lemma WishPlural()
    ensures Pluralize("Wish") == "Wishes"
  {
    WishIsCapitalized();
    VowelWishNotIrregular();
    PluralizeUnfolded("Wish", "wish");
    MatchCaseCapitalized("Wish", RegularPlural("wish"));
    ExampleRegularPlurals();
  }

  lemma WishIsCapitalized()
    ensures Lower(Strip("Wish")) == "wish"
    ensures Strip("Wish") != [] && Lower("Wish") != "Wish" && Upper("Wish") != "Wish"
    ensures Capitalize("Wish") == "Wish"
  {
    assert StripLeft("Wish") == "Wish";
    assert StripRight("Wish") == "Wish";
    assert Lower("Wish") == "wish";
  }

  lemma VowelWishNotIrregular()
    ensures IrregularSingular("vowel").None? && IrregularPlural("vowel").None?
    ensures IrregularSingular("wish").None? && IrregularPlural("wish").None?
  {
  }
}
