/** A model of boltons' `tableutils`: the `Table` row store. A table keeps
    the caller's own row lists (they are not copied), fixes its width the
    first time rows arrive, pads short rows in place with `None`, and
    renders itself as text with one centred, fixed-width column per header. */
module TableUtils {
  import opened Wrappers
  import opened PyStr

  /** A cell: `None` or a value, shown by its text. */
  datatype Cell = NoneCell | Str(s: string)

  /** `unicode(cell)` */
  function Show(c: Cell): string {
    match c
    case NoneCell => "None"
    case Str(s) => s
  }

  /** A Python list used as a row. The table and its caller share it. */
  class Row {
    var cells: seq<Cell>

    constructor(cells: seq<Cell>)
      ensures this.cells == cells
    {
      this.cells := cells;
    }
  }

  /** The `headers` argument of `Table(...)`: omitted, `None`, or a list. */
  datatype HeadersArg = Missing | NoHeaders | Given(names: seq<Cell>)

  /** The `headers` attribute: a list of header cells, or the `_MISSING`
      sentinel object itself. */
  datatype Headers = Sentinel | Names(cells: seq<Cell>)

  /** `headers or []`: the sentinel is a plain `object()`, which is true,
      so an omitted argument survives as the sentinel. */
  function HeadersOf(arg: HeadersArg): Headers {
    match arg
    case Missing => Sentinel
    case NoHeaders => Names([])
    case Given(h) => Names(h)
  }

  /** The cells of each row, in order. */
  function CellsOf(rows: seq<Row>): (r: seq<seq<Cell>>)
    reads rows
    ensures |r| == |rows| && forall i :: 0 <= i < |r| ==> r[i] == rows[i].cells
  {
    if rows == [] then [] else [rows[0].cells] + CellsOf(rows[1..])
  }

  // ---------------------------------------------------------------------
  // Width and padding

  /** `max([len(d) for d in data])` */
  function MaxLen(cs: seq<seq<Cell>>): (m: nat)
    requires cs != []
    ensures forall c :: c in cs ==> |c| <= m
    ensures exists c :: c in cs && |c| == m
  {
    if |cs| == 1 then |cs[0]|
    else
      var m := MaxLen(cs[1..]);
      assert cs == [cs[0]] + cs[1..];
      if |cs[0]| > m then |cs[0]| else m
  }

  /** `_set_width()` once the rows `cs` are stored: a width already set is
      kept; otherwise it is the number of headers, or without headers the
      length of the longest row. */
  function NewWidth(headers: Headers, width: nat, cs: seq<seq<Cell>>): Result<nat> {
    if width != 0 then Ok(width)
    else
      match headers
      case Sentinel => Err(TypeError)
      case Names(h) =>
        if h != [] then Ok(|h|)
        else if cs == [] then Err(ValueError)
        else Ok(MaxLen(cs))
  }

  /** The width rule: a width already set stays; otherwise the headers
      decide it when there are any, and the longest row when there are
      none; no rows and no headers is a ValueError, the sentinel headers a
      TypeError. */
  lemma NewWidthSpec(headers: Headers, width: nat, cs: seq<seq<Cell>>)
    ensures var r := NewWidth(headers, width, cs);
      && (width != 0 ==> r == Ok(width))
      && (width == 0 && headers.Sentinel? ==> r == Err(TypeError))
      && (width == 0 && headers.Names? && headers.cells != [] ==> r == Ok(|headers.cells|))
      && (width == 0 && headers == Names([]) && cs == [] ==> r == Err(ValueError))
      && (width == 0 && headers == Names([]) && cs != [] ==>
        && r.Ok?
        && (forall c :: c in cs ==> |c| <= r.value)
        && (exists c :: c in cs && |c| == r.value))
  {
  }

  /** `[None] * n` */
  function Nones(n: nat): (r: seq<Cell>)
    ensures |r| == n && forall i :: 0 <= i < n ==> r[i] == NoneCell
  {
    seq(n, _ => NoneCell)
  }

  /** What `_fill` does to one row: a row shorter than `width` gets `None`
      appended up to the width; a row as long or longer is left alone. */
  function Pad(cells: seq<Cell>, width: nat): (r: seq<Cell>)
    ensures |r| == if |cells| < width then width else |cells|
    ensures r[..|cells|] == cells
    ensures forall i :: |cells| <= i < |r| ==> r[i] == NoneCell
  {
    if |cells| < width then cells + Nones(width - |cells|) else cells
  }

  /** Rows `[3, 'Kurt Rose']` and `[4]` in a table with two headers: the
      width is two and the short row becomes `[4, None]`. */
  lemma PadExample()
    ensures var cs := [[Str("3"), Str("Kurt Rose")], [Str("4")]];
      && NewWidth(Names([Str("id"), Str("name")]), 0, cs) == Ok(2)
      && Pad(cs[0], 2) == cs[0]
      && Pad(cs[1], 2) == [Str("4"), NoneCell]
  {
    assert Nones(1) == [NoneCell];
  }

  // ---------------------------------------------------------------------
  // Rendering as text

  /** `[len(unicode(cur[idx])) for cur in rows]`; a row too short for
      column `idx` raises IndexError. */
  function ColumnLens(rows: seq<seq<Cell>>, idx: nat): Result<seq<nat>> {
    if rows == [] then Ok([])
    else if |rows[0]| <= idx then Err(IndexError)
    else
      match ColumnLens(rows[1..], idx)
      case Err(e) => Err(e)
      case Ok(rest) => Ok([|Show(rows[0][idx])|] + rest)
  }

  /** The column's text lengths, one per row, exactly when every row
      reaches the column. */
  lemma {:induction false} ColumnLensSpec(rows: seq<seq<Cell>>, idx: nat)
    ensures var r := ColumnLens(rows, idx);
      && (r.Ok? <==> forall i :: 0 <= i < |rows| ==> idx < |rows[i]|)
      && (r.Err? ==> r.error == IndexError)
      && (r.Ok? ==> |r.value| == |rows| && forall i :: 0 <= i < |rows| ==> r.value[i] == |Show(rows[i][idx])|)
  {
    if rows != [] {
      ColumnLensSpec(rows[1..], idx);
      assert forall i :: 1 <= i < |rows| ==> rows[i] == rows[1..][i - 1];
    }
  }

  /** `len(headers[idx])` */
  function HeaderLen(headers: Headers, idx: nat): Result<nat> {
    match headers
    case Sentinel => Err(TypeError)
    case Names(h) =>
      if idx >= |h| then Err(IndexError)
      else
        match h[idx]
        case NoneCell => Err(TypeError)
        case Str(s) => Ok(|s|)
  }

  /** `max(xs)` */
  function MaxOf(xs: seq<nat>): nat
    requires xs != []
  {
    if |xs| == 1 then xs[0]
    else
      var m := MaxOf(xs[1..]);
      if xs[0] > m then xs[0] else m
  }

  /** `max` is an upper bound that is one of the values. */
  lemma {:induction false} MaxOfSpec(xs: seq<nat>)
    requires xs != []
    ensures forall i :: 0 <= i < |xs| ==> xs[i] <= MaxOf(xs)
    ensures exists i :: 0 <= i < |xs| && xs[i] == MaxOf(xs)
  {
    if |xs| == 1 {
      assert xs[0] == MaxOf(xs);
    } else {
      MaxOfSpec(xs[1..]);
      assert forall i :: 1 <= i < |xs| ==> xs[i] == xs[1..][i - 1];
      var k :| 0 <= k < |xs[1..]| && xs[1..][k] == MaxOf(xs[1..]);
      if xs[0] > MaxOf(xs[1..]) {
        assert xs[0] == MaxOf(xs);
      } else {
        assert xs[k + 1] == MaxOf(xs);
      }
    }
  }

  /** Entry `idx` of `widths` in `to_text`: the longest text in that
      column, counting the header when headers are shown. */
  function ColumnWidth(headers: Headers, rows: seq<seq<Cell>>, idx: nat, withHeaders: bool): Result<nat> {
    match ColumnLens(rows, idx)
    case Err(e) => Err(e)
    case Ok(lens) =>
      var all := if withHeaders then (match HeaderLen(headers, idx) case Err(e) => Err(e) case Ok(n) => Ok(lens + [n]))
                 else Ok(lens);
      match all
      case Err(e) => Err(e)
      case Ok(xs) => if xs == [] then Err(ValueError) else Ok(MaxOf(xs))
  }

  /** A column is as wide as its longest cell text, or its header when
      headers are shown, and no narrower than any of them; every row must
      reach the column, and with no rows and no header there is nothing
      to take the maximum of. */
  lemma ColumnWidthSpec(headers: Headers, rows: seq<seq<Cell>>, idx: nat, withHeaders: bool)
    ensures var r := ColumnWidth(headers, rows, idx, withHeaders);
      && (r.Ok? ==> forall i :: 0 <= i < |rows| ==> idx < |rows[i]| && |Show(rows[i][idx])| <= r.value)
      && (r.Ok? && withHeaders ==>
        && headers.Names? && idx < |headers.cells| && headers.cells[idx].Str?
        && |headers.cells[idx].s| <= r.value)
      && (r.Ok? ==>
        || (exists i :: 0 <= i < |rows| && |Show(rows[i][idx])| == r.value)
        || (withHeaders && headers.Names? && idx < |headers.cells| && |Show(headers.cells[idx])| == r.value))
      && (rows == [] && !withHeaders ==> r == Err(ValueError))
  {
    var r := ColumnWidth(headers, rows, idx, withHeaders);
    ColumnLensSpec(rows, idx);
    if r.Ok? {
      var lens := ColumnLens(rows, idx).value;
      if withHeaders {
        var n := HeaderLen(headers, idx).value;
        var xs := lens + [n];
        assert r.value == MaxOf(xs);
        MaxOfSpec(xs);
        assert forall i :: 0 <= i < |lens| ==> xs[i] == lens[i];
        assert xs[|lens|] == n;
      } else {
        assert r.value == MaxOf(lens);
        MaxOfSpec(lens);
      }
    }
  }

  /** `widths` after the loop has covered the first `n` columns. */
  function Widths(headers: Headers, rows: seq<seq<Cell>>, n: nat, withHeaders: bool): Result<seq<nat>> {
    if n == 0 then Ok([])
    else
      match Widths(headers, rows, n - 1, withHeaders)
      case Err(e) => Err(e)
      case Ok(ws) =>
        match ColumnWidth(headers, rows, n - 1, withHeaders)
        case Err(e) => Err(e)
        case Ok(w) => Ok(ws + [w])
  }

  /** `widths` holds one entry per column, each that column's width. */
  lemma {:induction false} WidthsSpec(headers: Headers, rows: seq<seq<Cell>>, n: nat, withHeaders: bool)
    requires Widths(headers, rows, n, withHeaders).Ok?
    ensures var ws := Widths(headers, rows, n, withHeaders).value;
      |ws| == n && forall j :: 0 <= j < n ==> ColumnWidth(headers, rows, j, withHeaders) == Ok(ws[j])
  {
    if n > 0 {
      var prev := Widths(headers, rows, n - 1, withHeaders);
      var w := ColumnWidth(headers, rows, n - 1, withHeaders);
      assert prev.Ok? && w.Ok?;
      WidthsSpec(headers, rows, n - 1, withHeaders);
      WidthsLast(prev.value, w.value, Widths(headers, rows, n, withHeaders).value);
    }
  }

  lemma WidthsLast(ws: seq<nat>, w: nat, all: seq<nat>)
    requires all == ws + [w]
    ensures |all| == |ws| + 1 && all[|ws|] == w && forall j :: 0 <= j < |ws| ==> all[j] == ws[j]
  {
  }

  /** The centred texts of a header list (`h.center(widths[i])`, where a
      `None` header has no `center`) or of a row
      (`unicode(col).center(widths[j])`); a list longer than `widths`
      raises IndexError. */
  function Centered(cells: seq<Cell>, widths: seq<nat>, isHeader: bool): (r: Result<seq<string>>)
    ensures r.Ok? ==> |r.value| == |cells| <= |widths|
    ensures r.Ok? ==> forall i :: 0 <= i < |cells| ==> r.value[i] == Center(Show(cells[i]), widths[i])
    ensures r.Ok? && isHeader ==> forall i :: 0 <= i < |cells| ==> cells[i].Str?
  {
    if cells == [] then Ok([])
    else if isHeader && cells[0].NoneCell? then Err(AttributeError)
    else if widths == [] then Err(IndexError)
    else
      match Centered(cells[1..], widths[1..], isHeader)
      case Err(e) => Err(e)
      case Ok(rest) =>
        assert forall i :: 1 <= i < |cells| ==> cells[i] == cells[1..][i - 1] && widths[i] == widths[1..][i - 1];
        Ok([Center(Show(cells[0]), widths[0])] + rest)
  }

  /** `'-' * w` for each width */
  function Dashes(widths: seq<nat>): (r: seq<string>)
    ensures |r| == |widths| && forall i :: 0 <= i < |widths| ==> |r[i]| == widths[i]
  {
    if widths == [] then [] else [seq(widths[0], _ => '-')] + Dashes(widths[1..])
  }

  /** The header line and the `-+-` separator line. */
  function HeaderLines(headers: Headers, widths: seq<nat>): Result<seq<string>> {
    match headers
    case Sentinel => Err(TypeError)
    case Names(h) =>
      match Centered(h, widths, true)
      case Err(e) => Err(e)
      case Ok(parts) => Ok([Join(" | ", parts), Join("-+-", Dashes(widths))])
  }

  /** The line of one row. */
  function RowLine(row: seq<Cell>, widths: seq<nat>): Result<string> {
    match Centered(row, widths, false)
    case Err(e) => Err(e)
    case Ok(parts) => Ok(Join(" | ", parts))
  }

  /** The lines of the rows, the first failing row deciding the error. */
  function RowLines(rows: seq<seq<Cell>>, widths: seq<nat>): (r: Result<seq<string>>)
    ensures r.Ok? ==> |r.value| == |rows| && forall i :: 0 <= i < |rows| ==> RowLine(rows[i], widths) == Ok(r.value[i])
  {
    if rows == [] then Ok([])
    else
      match RowLines(rows[..|rows| - 1], widths)
      case Err(e) => Err(e)
      case Ok(pre) =>
        match RowLine(rows[|rows| - 1], widths)
        case Err(e) => Err(e)
        case Ok(l) => Ok(pre + [l])
  }

  /** The lines of `to_text(with_headers)` for a table with these headers,
      rows and width. */
  function TextLines(headers: Headers, rows: seq<seq<Cell>>, width: nat, withHeaders: bool): Result<seq<string>> {
    match Widths(headers, rows, width, withHeaders)
    case Err(e) => Err(e)
    case Ok(ws) =>
      match (if withHeaders then HeaderLines(headers, ws) else Ok([]))
      case Err(e) => Err(e)
      case Ok(top) =>
        match RowLines(rows, ws)
        case Err(e) => Err(e)
        case Ok(body) => Ok(top + body)
  }

  /** `to_text(with_headers)` */
  function Text(headers: Headers, rows: seq<seq<Cell>>, width: nat, withHeaders: bool): Result<string> {
    match TextLines(headers, rows, width, withHeaders)
    case Err(e) => Err(e)
    case Ok(ls) => Ok(Join("\n", ls))
  }

  function Sum(ws: seq<nat>): nat {
    if ws == [] then 0 else ws[0] + Sum(ws[1..])
  }

  /** The length of a line whose columns have widths `ws`, joined by a
      three-character separator. */
  function LineWidth(ws: seq<nat>): nat {
    if ws == [] then 0 else Sum(ws) + 3 * (|ws| - 1)
  }

  lemma {:induction false} JoinWidth(sep: string, parts: seq<string>, ws: seq<nat>)
    requires |sep| == 3 && |parts| == |ws|
    requires forall i :: 0 <= i < |ws| ==> |parts[i]| == ws[i]
    ensures |Join(sep, parts)| == LineWidth(ws)
    decreases |ws|
  {
    if |ws| > 1 {
      JoinWidth(sep, parts[1..], ws[1..]);
    }
  }

  /** A row whose cells all fit their column widths, one cell per width,
      renders to a line of the table's full width. */
  lemma RowLineWidth(row: seq<Cell>, ws: seq<nat>)
    requires |row| == |ws|
    requires forall j :: 0 <= j < |ws| ==> |Show(row[j])| <= ws[j]
    requires RowLine(row, ws).Ok?
    ensures |RowLine(row, ws).value| == LineWidth(ws)
  {
    var parts := Centered(row, ws, false).value;
    JoinWidth(" | ", parts, ws);
  }

  /** When rendering succeeds, every row has exactly one cell per column,
      so does the header list when headers are shown, and every line has
      the same length: the columns line up. */
  lemma TextAligned(headers: Headers, rows: seq<seq<Cell>>, width: nat, withHeaders: bool)
    requires TextLines(headers, rows, width, withHeaders).Ok?
    ensures forall i :: 0 <= i < |rows| ==> |rows[i]| == width
    ensures withHeaders ==> headers.Names? && |headers.cells| == width
    ensures var ws := Widths(headers, rows, width, withHeaders).value;
      forall l :: l in TextLines(headers, rows, width, withHeaders).value ==> |l| == LineWidth(ws)
  {
    var ws := Widths(headers, rows, width, withHeaders).value;
    var body := RowLines(rows, ws).value;
    forall i | 0 <= i < |rows|
      ensures |rows[i]| == width && |body[i]| == LineWidth(ws)
    {
      RowFits(headers, rows, width, withHeaders, ws, i);
      RowLineWidth(rows[i], ws);
    }
    if withHeaders {
      HeaderFits(headers, rows, width, ws);
    }
  }

  lemma RowFits(headers: Headers, rows: seq<seq<Cell>>, width: nat, withHeaders: bool, ws: seq<nat>, i: nat)
    requires Widths(headers, rows, width, withHeaders) == Ok(ws)
    requires i < |rows| && RowLine(rows[i], ws).Ok?
    ensures |ws| == width && |rows[i]| == width
    ensures forall j :: 0 <= j < |ws| ==> |Show(rows[i][j])| <= ws[j]
  {
    WidthsSpec(headers, rows, width, withHeaders);
    if width > 0 {
      ColumnWidthSpec(headers, rows, width - 1, withHeaders);
    }
    forall j | 0 <= j < |ws|
      ensures |Show(rows[i][j])| <= ws[j]
    {
      ColumnWidthSpec(headers, rows, j, withHeaders);
    }
  }

  lemma HeaderFits(headers: Headers, rows: seq<seq<Cell>>, width: nat, ws: seq<nat>)
    requires Widths(headers, rows, width, true) == Ok(ws)
    requires HeaderLines(headers, ws).Ok?
    ensures headers.Names? && |headers.cells| == width
    ensures forall l :: l in HeaderLines(headers, ws).value ==> |l| == LineWidth(ws)
  {
    var h := headers.cells;
    WidthsSpec(headers, rows, width, true);
    if width > 0 {
      ColumnWidthSpec(headers, rows, width - 1, true);
    }
    var parts := Centered(h, ws, true).value;
    forall j | 0 <= j < |ws|
      ensures |parts[j]| == ws[j]
    {
      ColumnWidthSpec(headers, rows, j, true);
    }
    JoinWidth(" | ", parts, ws);
    JoinWidth("-+-", Dashes(ws), ws);
  }

  lemma {:induction false} WidthsStayErr(headers: Headers, rows: seq<seq<Cell>>, k: nat, n: nat, withHeaders: bool)
    requires k <= n && Widths(headers, rows, k, withHeaders).Err?
    ensures Widths(headers, rows, n, withHeaders) == Widths(headers, rows, k, withHeaders)
    decreases n
  {
    if k < n {
      WidthsStayErr(headers, rows, k, n - 1, withHeaders);
    }
  }

  lemma {:induction false} RowLinesStayErr(rows: seq<seq<Cell>>, k: nat, ws: seq<nat>)
    requires k <= |rows| && RowLines(rows[..k], ws).Err?
    ensures RowLines(rows, ws) == RowLines(rows[..k], ws)
    decreases |rows|
  {
    if k == |rows| {
      assert rows[..k] == rows;
    } else {
      var init := rows[..|rows| - 1];
      assert init[..k] == rows[..k];
      RowLinesStayErr(init, k, ws);
    }
  }

  /** The loops of `to_text`: the column widths first, then the header
      and separator lines, then one line per row. */
  method Render(headers: Headers, rows: seq<seq<Cell>>, width: nat, withHeaders: bool) returns (r: Result<string>)
    ensures r == Text(headers, rows, width, withHeaders)
  {
    var widths: seq<nat> := [];
    for idx := 0 to width
      invariant Widths(headers, rows, idx, withHeaders) == Ok(widths)
    {
      var w := ColumnWidth(headers, rows, idx, withHeaders);
      if w.Err? {
        WidthsStayErr(headers, rows, idx + 1, width, withHeaders);
        return Err(w.error);
      }
      widths := widths + [w.value];
    }
    var top: seq<string> := [];
    if withHeaders {
      var hl := HeaderLines(headers, widths);
      if hl.Err? {
        return Err(hl.error);
      }
      top := hl.value;
    }
    var body: seq<string> := [];
    for k := 0 to |rows|
      invariant RowLines(rows[..k], widths) == Ok(body)
    {
      assert rows[..k + 1][..k] == rows[..k];
      var line := RowLine(rows[k], widths);
      if line.Err? {
        RowLinesStayErr(rows, k + 1, widths);
        return Err(line.error);
      }
      body := body + [line.value];
    }
    assert rows[..|rows|] == rows;
    return Ok(Join("\n", top + body));
  }

  // ---------------------------------------------------------------------
  // The omitted-headers sentinel

  /** As written, a table made with neither data nor a `headers` argument
      keeps the sentinel as its headers: extending it with any rows raises
      TypeError, and so does rendering it. */
  lemma SentinelHeaders(cs: seq<seq<Cell>>)
    requires cs != []
    ensures HeadersOf(Missing) == Sentinel
    ensures NewWidth(HeadersOf(Missing), 0, cs) == Err(TypeError)
    ensures Text(HeadersOf(Missing), [], 0, true) == Err(TypeError)
  {
  }

  /** `headers or []` as evidently intended: an omitted `headers` argument
      with no data to take them from leaves the table without headers. */
  function HeadersOfFixed(arg: HeadersArg): (h: Headers)
    ensures h.Names?
    ensures arg.Given? ==> h.cells == arg.names
    ensures !arg.Given? ==> h.cells == []
  {
    match arg
    case Given(h) => Names(h)
    case _ => Names([])
  }

  /** With the intended headers such a table takes the width of its longest
      row when extended, and renders as an empty header and separator. */
  lemma FixedHeadersExtend(cs: seq<seq<Cell>>)
    requires cs != []
    ensures NewWidth(HeadersOfFixed(Missing), 0, cs) == Ok(MaxLen(cs))
    ensures Text(HeadersOfFixed(Missing), [], 0, true) == Ok("\n")
  {
    var h := HeadersOfFixed(Missing);
    assert Widths(h, [], 0, true) == Ok([]);
    var ws: seq<nat> := [];
    assert Centered([], ws, true) == Ok([]);
    assert HeaderLines(h, ws) == Ok([Join(" | ", []), Join("-+-", Dashes(ws))]) == Ok(["", ""]);
    assert RowLines([], ws) == Ok([]);
    assert TextLines(h, [], 0, true) == Ok(["", ""] + []);
    assert Join("\n", ["", ""]) == "" + "\n" + Join("\n", [""]) == "\n";
  }

  // ---------------------------------------------------------------------
  // The object

  class Table {
    var headers: Headers
    var data: seq<Row>
    var width: nat

    /** A table with the given headers attribute and no rows yet. */
    constructor Empty(headers: Headers)
      ensures this.headers == headers && data == [] && width == 0
    {
      this.headers := headers;
      data := [];
      width := 0;
    }

    /** `Table(data, headers)`. Without a `headers` argument the first row
        is copied as the headers and the rest become the data; they are
        stored even when there are none left, so a table of one empty row
        fails to find a width. */
    static method New(rows: seq<Row>, headers: HeadersArg) returns (r: Result<Table>)
      modifies rows
      ensures headers.Missing? && rows != [] ==>
        var hs := Names(old(rows[0].cells));
        var nw := NewWidth(hs, 0, old(CellsOf(rows[1..])));
        && (nw.Err? ==> r == Err(nw.error))
        && (nw.Ok? ==>
          && r.Ok? && fresh(r.value)
          && r.value.headers == hs && r.value.data == rows[1..] && r.value.width == nw.value
          && forall x :: x in rows[1..] ==> x.cells == Pad(old(x.cells), nw.value))
      ensures !headers.Missing? || rows == [] ==>
        var hs := HeadersOf(headers);
        var nw := NewWidth(hs, 0, old(CellsOf(rows)));
        && (rows == [] ==>
          && r.Ok? && fresh(r.value)
          && r.value.headers == hs && r.value.data == [] && r.value.width == 0)
        && (rows != [] && nw.Err? ==> r == Err(nw.error))
        && (rows != [] && nw.Ok? ==>
          && r.Ok? && fresh(r.value)
          && r.value.headers == hs && r.value.data == rows && r.value.width == nw.value
          && forall x :: x in rows ==> x.cells == Pad(old(x.cells), nw.value))
    {
      if headers.Missing? && rows != [] {
        r := NewInferred(rows);
      } else {
        r := NewWith(rows, HeadersOf(headers));
      }
    }

    /** `Table(data)`: the first row, copied, is the headers. */
    static method NewInferred(rows: seq<Row>) returns (r: Result<Table>)
      requires rows != []
      modifies rows
      ensures var hs := Names(old(rows[0].cells));
        var nw := NewWidth(hs, 0, old(CellsOf(rows[1..])));
        && (nw.Err? ==> r == Err(nw.error))
        && (nw.Ok? ==>
          && r.Ok? && fresh(r.value)
          && r.value.headers == hs && r.value.data == rows[1..] && r.value.width == nw.value
          && forall x :: x in rows[1..] ==> x.cells == Pad(old(x.cells), nw.value))
    {
      ghost var cs := CellsOf(rows[1..]);
      var t := new Table.Empty(Names(rows[0].cells));
      assert CellsOf(t.data + rows[1..]) == cs by {
        assert t.data + rows[1..] == rows[1..];
      }
      var e := t.Absorb(rows[1..]);
      if e.Err? {
        return Err(e.error);
      }
      return Ok(t);
    }

    /** `Table(data, headers)` with the headers attribute `hs`. */
    static method NewWith(rows: seq<Row>, hs: Headers) returns (r: Result<Table>)
      modifies rows
      ensures var nw := NewWidth(hs, 0, old(CellsOf(rows)));
        && (rows == [] ==>
          && r.Ok? && fresh(r.value)
          && r.value.headers == hs && r.value.data == [] && r.value.width == 0)
        && (rows != [] && nw.Err? ==> r == Err(nw.error))
        && (rows != [] && nw.Ok? ==>
          && r.Ok? && fresh(r.value)
          && r.value.headers == hs && r.value.data == rows && r.value.width == nw.value
          && forall x :: x in rows ==> x.cells == Pad(old(x.cells), nw.value))
    {
      ghost var cs := CellsOf(rows);
      var t := new Table.Empty(hs);
      assert CellsOf(t.data + rows) == cs by {
        assert t.data + rows == rows;
      }
      var e := t.Extend(rows);
      if e.Err? {
        return Err(e.error);
      }
      return Ok(t);
    }

    /** `len(table)`: the number of data rows. */
    function Len(): nat
      reads this
    {
      |data|
    }

    /** `table[index]`: the stored row object itself, not a copy, so the
        caller's own list comes back; IndexError outside the Python index
        range. */
    function GetItem(index: int): (r: Result<Row>)
      reads this
      ensures r.Ok? <==> -(Len() as int) <= index < Len()
      ensures r.Ok? ==> r.value in data && r.value == data[if index < 0 then index + Len() else index]
      ensures r.Err? ==> r.error == IndexError
    {
      if 0 <= index < |data| then Ok(data[index])
      else if -|data| <= index < 0 then Ok(data[index + |data|])
      else Err(IndexError)
    }

    /** `extend(data)`: empty data changes nothing. */
    method Extend(rows: seq<Row>) returns (r: Result<()>)
      modifies this, data, rows
      ensures rows == [] ==> r == Ok(()) && data == old(data) && width == old(width) && headers == old(headers)
      ensures rows != [] ==>
        && headers == old(headers) && data == old(data) + rows && Len() == old(Len()) + |rows|
        && var nw := NewWidth(old(headers), old(width), old(CellsOf(data + rows)));
        && (nw.Ok? ==>
          && r == Ok(()) && width == nw.value && (old(width) != 0 ==> width == old(width))
          && forall x :: x in data ==> x.cells == Pad(old(x.cells), nw.value))
        && (nw.Err? ==> r == Err(nw.error) && width == old(width) && forall x :: x in data ==> x.cells == old(x.cells))
    {
      if rows == [] {
        return Ok(());
      }
      r := Absorb(rows);
    }

    /** The body of `extend` past its emptiness test: store the rows, set
        the width, then pad. */
    method Absorb(rows: seq<Row>) returns (r: Result<()>)
      modifies this, data, rows
      ensures headers == old(headers) && data == old(data) + rows
      ensures var nw := NewWidth(old(headers), old(width), old(CellsOf(data + rows)));
        && (nw.Ok? ==> r == Ok(()) && width == nw.value && forall x :: x in data ==> x.cells == Pad(old(x.cells), nw.value))
        && (nw.Err? ==> r == Err(nw.error) && width == old(width) && forall x :: x in data ==> x.cells == old(x.cells))
    {
      ghost var cs := CellsOf(data + rows);
      ghost var w0 := width;
      data := data + rows;
      assert CellsOf(data) == cs;
      r := SetWidth(false);
      assert CellsOf(data) == cs;
      ghost var nw := NewWidth(headers, w0, cs);
      assert forall x :: x in data ==> x.cells == old(x.cells);
      if r.Ok? {
        Fill();
      }
    }

    /** `_set_width(reset)` */
    method SetWidth(reset: bool) returns (r: Result<()>)
      modifies this
      ensures headers == old(headers) && data == old(data)
      ensures var w0 := if reset then 0 else old(width);
        var nw := NewWidth(headers, w0, CellsOf(data));
        && (nw.Ok? ==> r == Ok(()) && width == nw.value)
        && (nw.Err? ==> r == Err(nw.error) && width == w0)
    {
      if reset {
        width := 0;
      }
      var cs := CellsOf(data);
      ghost var nw := NewWidth(headers, width, cs);
      if width != 0 {
        return Ok(());
      }
      match headers
      case Sentinel =>
        return Err(TypeError);
      case Names(h) =>
        if h != [] {
          width := |h|;
        } else if cs == [] {
          return Err(ValueError);
        } else {
          width := MaxLen(cs);
        }
        assert nw == Ok(width) && CellsOf(data) == cs;
        return Ok(());
    }

    /** `_fill()`: pad every stored row, in place, to the width. */
    method Fill()
      modifies data
      ensures forall x :: x in data ==> x.cells == Pad(old(x.cells), width)
    {
      var w := width;
      if w == 0 {
        return;
      }
      for k := 0 to |data|
        invariant forall x :: x in data ==> x.cells == if x in data[..k] then Pad(old(x.cells), w) else old(x.cells)
      {
        var d := data[k];
        var rem := w - |d.cells|;
        if rem > 0 {
          d.cells := d.cells + Nones(rem);
        }
        assert data[..k + 1] == data[..k] + [d];
      }
      assert data[..|data|] == data;
    }

    /** `to_text(with_headers)` */
    method ToText(withHeaders: bool) returns (r: Result<string>)
      ensures r == Text(headers, CellsOf(data), width, withHeaders)
    {
      r := Render(headers, CellsOf(data), width, withHeaders);
    }
  }
}
