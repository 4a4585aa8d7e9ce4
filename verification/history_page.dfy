/** The history page of `src/components/HistoryPage.jsx`: the filtered list the
    page shows, and its export as comma-separated values. Lower-casing and the
    locale's date rendering are host functions and come in as parameters. */
module HistoryPage {
  import opened Wrappers
  import opened Text
  import opened History

  // ---------------------------------------------------------------------------
  // Field access with JavaScript's fallbacks
  // ---------------------------------------------------------------------------

  /** `a || b` for a string field: a missing, null or empty value gives `b`. */
  function OrElse(a: Option<string>, b: string): (r: string)
    ensures a.Some? && a.value != "" ==> r == a.value
    ensures a.None? || a.value == "" ==> r == b
  {
    if a.Some? && a.value != "" then a.value else b
  }

  /** `c.hexagrama_original ?? c.hexOriginal`. */
  function HexOf(c: Item): Option<int> {
    if c.hexOriginalCol.Some? then c.hexOriginalCol else c.hexOriginal
  }

  /** `c.nombre_original || c.nombreOriginal || ''`. */
  function NombreOriginal(c: Item): string {
    OrElse(c.nombreOriginalCol, OrElse(c.nombreOriginal, ""))
  }

  /** `c.nombre_mutado || c.nombreMutado || ''`. */
  function NombreMutado(c: Item): string {
    OrElse(c.nombreMutadoCol, OrElse(c.nombreMutado, ""))
  }

  // ---------------------------------------------------------------------------
  // The filtered list
  // ---------------------------------------------------------------------------

  /** The page's filter settings: favourites only, the hexagram-number box and the
      search box, as typed. */
  datatype Filters = Filters(fav: bool, hex: string, search: string)

  /** The number to filter by: `parseInt(filterHex, 10)` when the box is not
      empty and holds a number. */
  function HexFilter(f: Filters): Option<int> {
    if f.hex == "" then None else ParseInt(f.hex, false)
  }

  /** Whether the text filter is on: `search.trim()` is not empty. */
  predicate SearchOn(f: Filters) {
    Trim(f.search, IsJsSpace) != ""
  }

  /** The search test, with `q` the lower-cased search text. */
  predicate Matches(c: Item, q: string, lower: string -> string) {
    || Contains(lower(OrElse(c.pregunta, "")), q)
    || Contains(lower(NombreOriginal(c)), q)
    || Contains(lower(OrElse(c.nota, "")), q)
  }

  function IsFavorito(c: Item): bool {
    c.favorito
  }

  function HasHex(num: Option<int>): Item -> bool {
    (c: Item) => HexOf(c) == num
  }

  function MatchesSearch(q: string, lower: string -> string): Item -> bool {
    (c: Item) => Matches(c, q, lower)
  }

  /** `filtered`: the three filters applied one after the other. */
  function Filtered(consultas: seq<Item>, f: Filters, lower: string -> string): seq<Item> {
    var items := if f.fav then Filter(consultas, IsFavorito) else consultas;
    var num := HexFilter(f);
    var items := if num.Some? then Filter(items, HasHex(num)) else items;
    if SearchOn(f) then Filter(items, MatchesSearch(lower(f.search), lower)) else items
  }

  /** What an item must satisfy to be shown. The search uses the whole lower-cased
      search text, surrounding spaces included; only the decision to search looks
      at the trimmed text. */
  predicate Shown(c: Item, f: Filters, lower: string -> string) {
    && (f.fav ==> c.favorito)
    && (HexFilter(f).Some? ==> HexOf(c) == HexFilter(f))
    && (SearchOn(f) ==> Matches(c, lower(f.search), lower))
  }

  function ShownBy(f: Filters, lower: string -> string): Item -> bool {
    (c: Item) => Shown(c, f, lower)
  }

  lemma {:induction false} FilterAll<T>(xs: seq<T>, p: T -> bool)
    requires forall k :: 0 <= k < |xs| ==> p(xs[k])
    ensures Filter(xs, p) == xs
    decreases |xs|
  {
    if xs != [] {
      FilterAll(xs[1..], p);
      assert xs == [xs[0]] + xs[1..];
    }
  }

  /** Filtering twice is filtering once by both tests. */
  lemma {:induction false} FilterFilter<T>(xs: seq<T>, p: T -> bool, q: T -> bool, both: T -> bool)
    requires forall k :: 0 <= k < |xs| ==> (both(xs[k]) <==> p(xs[k]) && q(xs[k]))
    ensures Filter(Filter(xs, p), q) == Filter(xs, both)
    decreases |xs|
  {
    if xs != [] {
      FilterFilter(xs[1..], p, q, both);
      var rest := Filter(xs[1..], p);
      var x := xs[0];
      assert Filter(xs, both) == (if both(x) then [x] else []) + Filter(xs[1..], both);
      if p(x) {
        assert Filter(xs, p) == [x] + rest;
        assert ([x] + rest)[1..] == rest;
        assert Filter([x] + rest, q) == (if q(x) then [x] else []) + Filter(rest, q);
      } else {
        assert Filter(xs, p) == rest;
      }
    }
  }

  /** The filter with a test that does not depend on the item being on or off. */
  lemma FilterWhen<T>(xs: seq<T>, on: bool, p: T -> bool, q: T -> bool)
    requires forall k :: 0 <= k < |xs| ==> (q(xs[k]) <==> (on ==> p(xs[k])))
    ensures (if on then Filter(xs, p) else xs) == Filter(xs, q)
  {
    if on {
      FilterFilter(xs, (x: T) => true, p, q);
      FilterAll(xs, (x: T) => true);
    } else {
      FilterAll(xs, q);
    }
  }

  /** The three stages together are one filter by `Shown`. */
  lemma FilteredIsOneFilter(consultas: seq<Item>, f: Filters, lower: string -> string)
    ensures Filtered(consultas, f, lower) == Filter(consultas, ShownBy(f, lower))
  {
    var num := HexFilter(f);
    var q := lower(f.search);
    var favOk := (c: Item) => f.fav ==> c.favorito;
    var hexOk := (c: Item) => num.Some? ==> HexOf(c) == num;
    var searchOk := (c: Item) => SearchOn(f) ==> Matches(c, q, lower);
    var favHex := (c: Item) => favOk(c) && hexOk(c);
    FilterWhen(consultas, f.fav, IsFavorito, favOk);
    var a := Filter(consultas, favOk);
    FilterWhen(a, num.Some?, HasHex(num), hexOk);
    FilterFilter(consultas, favOk, hexOk, favHex);
    var b := Filter(consultas, favHex);
    FilterWhen(b, SearchOn(f), MatchesSearch(q, lower), searchOk);
    FilterFilter(consultas, favHex, searchOk, ShownBy(f, lower));
  }

  /** The page shows, in their original order, exactly the items that pass every
      active filter. */
  lemma FilteredSpec(consultas: seq<Item>, f: Filters, lower: string -> string)
    ensures Sublist(Filtered(consultas, f, lower), consultas)
    ensures forall c :: c in Filtered(consultas, f, lower) <==> c in consultas && Shown(c, f, lower)
  {
    FilteredIsOneFilter(consultas, f, lower);
    FilterSpec(consultas, ShownBy(f, lower));
  }

  // ---------------------------------------------------------------------------
  // Comma-separated values (RFC 4180, section 2)
  // ---------------------------------------------------------------------------

  /** `s.replace(/"/g, '""')`: every double quote doubled (rule 7). */
  function Escape(s: string): string
    decreases |s|
  {
    if s == [] then [] else (if s[0] == '"' then "\"\"" else [s[0]]) + Escape(s[1..])
  }

  /** A field as written: as is, or enclosed in double quotes with inner quotes
      doubled. */
  datatype Cell = Plain(text: string) | Quoted(text: string)

  function Encode(c: Cell): string {
    match c
    case Plain(v) => v
    case Quoted(v) => "\"" + Escape(v) + "\""
  }

  /** A field that reads back as written: quoted, or free of commas and quotes. */
  predicate Safe(c: Cell) {
    c.Quoted? || (',' !in c.text && '"' !in c.text)
  }

  function EncodeAll(cells: seq<Cell>): (r: seq<string>)
    ensures |r| == |cells|
    decreases |cells|
  {
    if cells == [] then [] else [Encode(cells[0])] + EncodeAll(cells[1..])
  }

  function Values(cells: seq<Cell>): (r: seq<string>)
    ensures |r| == |cells|
    decreases |cells|
  {
    if cells == [] then [] else [cells[0].text] + Values(cells[1..])
  }

  /** `r.join(',')`. */
  function Record(cells: seq<Cell>): string {
    Join(EncodeAll(cells), ",")
  }

  /** Reads the inside of a quoted field, after its opening quote: the field's
      value and the text after the closing quote. */
  function QuotedBody(t: string): (r: Option<(string, string)>)
    ensures r.Some? ==> |r.value.1| < |t|
    decreases |t|
  {
    if t == [] then None
    else if t[0] == '"' then
      if |t| >= 2 && t[1] == '"' then
        match QuotedBody(t[2..])
        case None => None
        case Some(p) => Some(("\"" + p.0, p.1))
      else Some(("", t[1..]))
    else
      match QuotedBody(t[1..])
      case None => None
      case Some(p) => Some(([t[0]] + p.0, p.1))
  }

  /** Reads one record into its field values; `None` when it breaks the format. */
  function Fields(s: string): Option<seq<string>>
    decreases |s|
  {
    if s != [] && s[0] == '"' then
      match QuotedBody(s[1..])
      case None => None
      case Some(p) =>
        if p.1 == [] then Some([p.0])
        else if p.1[0] != ',' then None
        else match Fields(p.1[1..])
             case None => None
             case Some(vs) => Some([p.0] + vs)
    else
      match IndexOf(s, ',')
      case None => if '"' in s then None else Some([s])
      case Some(i) =>
        if '"' in s[..i] then None
        else match Fields(s[i + 1..])
             case None => None
             case Some(vs) => Some([s[..i]] + vs)
  }

  lemma {:induction false} QuotedBodyEscape(v: string, rest: string)
    requires rest == [] || rest[0] != '"'
    ensures QuotedBody(Escape(v) + "\"" + rest) == Some((v, rest))
    decreases |v|
  {
    var t := Escape(v) + "\"" + rest;
    if v == [] {
      assert t == "\"" + rest;
      assert t[1..] == rest;
    } else {
      QuotedBodyEscape(v[1..], rest);
      var u := Escape(v[1..]) + "\"" + rest;
      if v[0] == '"' {
        assert t == "\"\"" + u;
        assert t[2..] == u;
      } else {
        assert t == [v[0]] + u;
        assert t[1..] == u;
      }
      assert v == [v[0]] + v[1..];
    }
  }

  lemma FieldsQuotedLast(v: string)
    ensures Fields("\"" + Escape(v) + "\"") == Some([v])
  {
    var s := "\"" + Escape(v) + "\"";
    QuotedBodyEscape(v, "");
    assert s[1..] == Escape(v) + "\"" + "";
  }

  lemma FieldsQuotedCons(v: string, tail: string, vs: seq<string>)
    requires Fields(tail) == Some(vs)
    ensures Fields("\"" + Escape(v) + "\"" + "," + tail) == Some([v] + vs)
  {
    var s := "\"" + Escape(v) + "\"" + "," + tail;
    QuotedBodyEscape(v, "," + tail);
    assert s[1..] == Escape(v) + "\"" + ("," + tail);
    assert ("," + tail)[1..] == tail;
  }

  lemma FieldsPlainLast(v: string)
    requires ',' !in v && '"' !in v
    ensures Fields(v) == Some([v])
  {
    if v != [] {
      assert v[0] != '"';
    }
  }

  lemma FieldsPlainCons(v: string, tail: string, vs: seq<string>)
    requires ',' !in v && '"' !in v
    requires Fields(tail) == Some(vs)
    ensures Fields(v + "," + tail) == Some([v] + vs)
  {
    var s := v + "," + tail;
    if v != [] {
      assert s[0] == v[0];
    }
    IndexOfIsFirst(s, ',', |v|);
    assert s[..|v|] == v;
    assert s[|v| + 1..] == tail;
  }

  /** Reading back a record whose fields are all safe recovers their values. */
  lemma {:induction false} FieldsRecord(cells: seq<Cell>)
    requires |cells| >= 1
    requires forall k :: 0 <= k < |cells| ==> Safe(cells[k])
    ensures Fields(Record(cells)) == Some(Values(cells))
    decreases |cells|
  {
    var c := cells[0];
    assert Safe(c);
    if |cells| == 1 {
      assert EncodeAll(cells) == [Encode(c)];
      assert Values(cells) == [c.text];
      match c
      case Quoted(v) => FieldsQuotedLast(v);
      case Plain(v) => FieldsPlainLast(v);
    } else {
      var tail := Record(cells[1..]);
      FieldsRecord(cells[1..]);
      assert EncodeAll(cells) == [Encode(c)] + EncodeAll(cells[1..]);
      JoinCons(Encode(c), EncodeAll(cells[1..]), ",");
      assert Record(cells) == Encode(c) + "," + tail;
      assert Values(cells) == [c.text] + Values(cells[1..]);
      match c
      case Quoted(v) => FieldsQuotedCons(v, tail, Values(cells[1..]));
      case Plain(v) => FieldsPlainCons(v, tail, Values(cells[1..]));
    }
  }

  lemma {:induction false} ValuesAt(cells: seq<Cell>, j: int)
    requires 0 <= j < |cells|
    ensures Values(cells)[j] == cells[j].text
    decreases |cells|
  {
    if j > 0 {
      ValuesAt(cells[1..], j - 1);
    }
  }

  /** The values of a six-field row are its six texts. */
  lemma ValuesOfRow(cells: seq<Cell>, vals: seq<string>)
    requires |cells| == |vals|
    requires forall j :: 0 <= j < |cells| ==> cells[j].text == vals[j]
    ensures Values(cells) == vals
  {
    forall j | 0 <= j < |cells| ensures Values(cells)[j] == vals[j] {
      ValuesAt(cells, j);
    }
  }

  // ---------------------------------------------------------------------------
  // The export
  // ---------------------------------------------------------------------------

  const Header: seq<string> := ["Fecha", "Pregunta", "Hexagrama", "Mutado", "Favorito", "Nota"]

  function SiNo(c: Item): string {
    if c.favorito then "Si" else "No"
  }

  /** The values a row is meant to carry, one per header column. */
  function RowValues(c: Item, fecha: string): (r: seq<string>)
    ensures |r| == |Header|
  {
    [fecha, OrElse(c.pregunta, ""), NombreOriginal(c), NombreMutado(c), SiNo(c), OrElse(c.nota, "")]
  }

  /** A row of `exportCSV` as written: only the question and the note are quoted.
      `fecha` is `new Date(c.created_at || c.fecha).toLocaleString(dateLang)`. */
  function RowAsWritten(c: Item, fecha: string): seq<Cell> {
    [Plain(fecha), Quoted(OrElse(c.pregunta, "")), Plain(NombreOriginal(c)), Plain(NombreMutado(c)),
     Plain(SiNo(c)), Quoted(OrElse(c.nota, ""))]
  }

  /** As written, a row reads back as its six values only when the date and the
      names hold no comma or quote. */
  lemma RowAsWrittenRoundTrip(c: Item, fecha: string)
    requires Safe(Plain(fecha)) && Safe(Plain(NombreOriginal(c))) && Safe(Plain(NombreMutado(c)))
    ensures Fields(Record(RowAsWritten(c, fecha))) == Some(RowValues(c, fecha))
  {
    var cells := RowAsWritten(c, fecha);
    assert forall k :: 0 <= k < |cells| ==> Safe(cells[k]);
    FieldsRecord(cells);
    ValuesOfRow(cells, RowValues(c, fecha));
  }

  /** A date whose rendering holds a comma (`es-ES` renders "10/10/2026, 14:33:00"
      and `en-US` "10/10/2026, 2:33:00 PM", both with ", " between date and
      time) splits the first column in two, so the row reads back as seven
      fields under a six-column header. */
  lemma DateCommaShiftsColumns(c: Item, d1: string, d2: string)
    requires Safe(Plain(d1)) && Safe(Plain(d2))
    requires Safe(Plain(NombreOriginal(c))) && Safe(Plain(NombreMutado(c)))
    ensures Fields(Record(RowAsWritten(c, d1 + "," + d2)))
            == Some([d1, d2] + RowValues(c, d1 + "," + d2)[1..])
  {
    var row := RowAsWritten(c, d1 + "," + d2);
    var rest := row[1..];
    assert row == [Plain(d1 + "," + d2)] + rest;
    assert forall k :: 0 <= k < |rest| ==> Safe(rest[k]);
    ValuesOfRow(rest, RowValues(c, d1 + "," + d2)[1..]);
    SplitPlainHead(d1, d2, rest);
  }

  /** A plain first field holding a comma reads back as two fields. */
  lemma SplitPlainHead(d1: string, d2: string, rest: seq<Cell>)
    requires Safe(Plain(d1)) && Safe(Plain(d2))
    requires |rest| >= 1 && forall k :: 0 <= k < |rest| ==> Safe(rest[k])
    ensures Fields(Record([Plain(d1 + "," + d2)] + rest)) == Some([d1, d2] + Values(rest))
  {
    var split := [Plain(d1), Plain(d2)] + rest;
    SplitCellSameRecord(d1, d2, rest);
    SafePrefix(Plain(d1), Plain(d2), rest);
    FieldsRecord(split);
    ValuesPair(Plain(d1), Plain(d2), rest);
  }

  lemma SafePrefix(x: Cell, y: Cell, rest: seq<Cell>)
    requires Safe(x) && Safe(y) && forall k :: 0 <= k < |rest| ==> Safe(rest[k])
    ensures forall k :: 0 <= k < |[x, y] + rest| ==> Safe(([x, y] + rest)[k])
  {
    forall k | 0 <= k < |[x, y] + rest| ensures Safe(([x, y] + rest)[k]) {
      if k >= 2 { assert ([x, y] + rest)[k] == rest[k - 2]; }
    }
  }

  lemma ValuesPair(x: Cell, y: Cell, rest: seq<Cell>)
    ensures Values([x, y] + rest) == [x.text, y.text] + Values(rest)
  {
    ValuesCons(y, rest);
    ValuesCons(x, [y] + rest);
    assert [x] + ([y] + rest) == [x, y] + rest;
    assert [x.text] + ([y.text] + Values(rest)) == [x.text, y.text] + Values(rest);
  }

  lemma ValuesCons(x: Cell, rest: seq<Cell>)
    ensures Values([x] + rest) == [x.text] + Values(rest)
  {
    assert ([x] + rest)[0] == x && ([x] + rest)[1..] == rest;
  }

  /** A plain field holding a comma writes the same text as two fields. */
  lemma SplitCellSameRecord(d1: string, d2: string, rest: seq<Cell>)
    requires |rest| >= 1
    ensures Record([Plain(d1 + "," + d2)] + rest) == Record([Plain(d1), Plain(d2)] + rest)
  {
    var tail := EncodeAll(rest);
    assert EncodeAll([Plain(d1 + "," + d2)] + rest) == [d1 + "," + d2] + tail by {
      assert ([Plain(d1 + "," + d2)] + rest)[1..] == rest;
    }
    assert EncodeAll([Plain(d1), Plain(d2)] + rest) == [d1] + ([d2] + tail) by {
      assert ([Plain(d1), Plain(d2)] + rest)[1..] == [Plain(d2)] + rest;
      assert ([Plain(d2)] + rest)[1..] == rest;
    }
    JoinCons(d1 + "," + d2, tail, ",");
    JoinCons(d2, tail, ",");
    JoinCons(d1, [d2] + tail, ",");
    assert d1 + "," + d2 + "," + Join(tail, ",") == d1 + "," + (d2 + "," + Join(tail, ","));
  }

  lemma DateCommaExample(c: Item)
    requires Safe(Plain(NombreOriginal(c))) && Safe(Plain(NombreMutado(c)))
    ensures var r := Fields(Record(RowAsWritten(c, "10/10/2026, 14:33:00")));
            r.Some? && |r.value| == 7 && r.value[0] == "10/10/2026" && |Header| == 6
  {
    assert "10/10/2026, 14:33:00" == "10/10/2026" + "," + " 14:33:00";
    DateCommaShiftsColumns(c, "10/10/2026", " 14:33:00");
  }

  /** A row with every field quoted, which reads back as its values whatever they hold. */
  function Row(c: Item, fecha: string): seq<Cell> {
    [Quoted(fecha), Quoted(OrElse(c.pregunta, "")), Quoted(NombreOriginal(c)), Quoted(NombreMutado(c)),
     Quoted(SiNo(c)), Quoted(OrElse(c.nota, ""))]
  }

  lemma RowRoundTrip(c: Item, fecha: string)
    ensures Fields(Record(Row(c, fecha))) == Some(RowValues(c, fecha))
  {
    var cells := Row(c, fecha);
    FieldsRecord(cells);
    ValuesOfRow(cells, RowValues(c, fecha));
  }

  /** A file: the header line, then one line per shown item built by `row`,
      joined by '\n'. `fecha` renders an item's date. */
  function CsvFile(items: seq<Item>, fecha: Item -> string, row: (Item, string) -> seq<Cell>): string {
    Join([Join(Header, ",")] + RowLines(items, fecha, row), "\n")
  }

  function RowLines(items: seq<Item>, fecha: Item -> string, row: (Item, string) -> seq<Cell>): (r: seq<string>)
    ensures |r| == |items|
    ensures forall k :: 0 <= k < |items| ==> r[k] == Record(row(items[k], fecha(items[k])))
    decreases |items|
  {
    if items == [] then [] else [Record(row(items[0], fecha(items[0])))] + RowLines(items[1..], fecha, row)
  }

  /** `exportCSV` as written: the rows of `RowAsWritten`. */
  function ExportCsv(items: seq<Item>, fecha: Item -> string): string {
    CsvFile(items, fecha, RowAsWritten)
  }

  /** The corrected export: every field quoted. */
  function ExportCsvQuoted(items: seq<Item>, fecha: Item -> string): string {
    CsvFile(items, fecha, Row)
  }

  lemma {:induction false} EscapeLacks(s: string, ch: char)
    requires ch != '"' && ch !in s
    ensures ch !in Escape(s)
    decreases |s|
  {
    if s != [] {
      EscapeLacks(s[1..], ch);
    }
  }

  lemma {:induction false} JoinLacks(parts: seq<string>, sep: string, ch: char)
    requires ch !in sep
    requires forall k :: 0 <= k < |parts| ==> ch !in parts[k]
    ensures ch !in Join(parts, sep)
    decreases |parts|
  {
    if |parts| > 1 {
      JoinLacks(parts[1..], sep, ch);
    }
  }

  /** No value of the item's row holds a line break. */
  predicate NoLineBreak(c: Item, fecha: string) {
    forall j :: 0 <= j < |Header| ==> '\n' !in RowValues(c, fecha)[j]
  }

  /** No cell's value holds a line break. */
  predicate CellsLackNewline(cells: seq<Cell>) {
    forall j :: 0 <= j < |cells| ==> '\n' !in cells[j].text
  }

  /** Both ways of writing a row carry the item's values, one per column. */
  lemma RowsCarryValues(c: Item, fecha: string)
    ensures Values(RowAsWritten(c, fecha)) == RowValues(c, fecha)
    ensures Values(Row(c, fecha)) == RowValues(c, fecha)
    ensures NoLineBreak(c, fecha) ==> CellsLackNewline(RowAsWritten(c, fecha)) && CellsLackNewline(Row(c, fecha))
  {
    ValuesOfRow(RowAsWritten(c, fecha), RowValues(c, fecha));
    ValuesOfRow(Row(c, fecha), RowValues(c, fecha));
  }

  /** A record has no line break when its values have none. */
  lemma RecordLacksNewline(cells: seq<Cell>)
    requires CellsLackNewline(cells)
    ensures '\n' !in Record(cells)
  {
    forall j | 0 <= j < |cells| ensures '\n' !in EncodeAll(cells)[j] {
      EncodeAllAt(cells, j);
      EscapeLacks(cells[j].text, '\n');
    }
    JoinLacks(EncodeAll(cells), ",", '\n');
  }

  lemma HeaderLacksNewline()
    ensures '\n' !in Join(Header, ",")
  {
    JoinLacks(Header, ",", '\n');
  }

  /** No row line holds a line break when no cell value does. */
  lemma RowLinesLackNewline(items: seq<Item>, fecha: Item -> string, row: (Item, string) -> seq<Cell>)
    requires forall k :: 0 <= k < |items| ==> CellsLackNewline(row(items[k], fecha(items[k])))
    ensures forall k :: 0 <= k < |items| ==> '\n' !in RowLines(items, fecha, row)[k]
  {
    forall k | 0 <= k < |items| ensures '\n' !in RowLines(items, fecha, row)[k] {
      RecordLacksNewline(row(items[k], fecha(items[k])));
    }
  }

  /** With no line break inside a value, a file splits back into the header line
      and then each item's record, in order. */
  lemma CsvFileLines(items: seq<Item>, fecha: Item -> string, row: (Item, string) -> seq<Cell>)
    requires forall k :: 0 <= k < |items| ==> CellsLackNewline(row(items[k], fecha(items[k])))
    ensures var lines := Split(CsvFile(items, fecha, row), '\n');
            && |lines| == |items| + 1
            && lines[0] == Join(Header, ",")
            && forall k :: 0 <= k < |items| ==> lines[k + 1] == Record(row(items[k], fecha(items[k])))
  {
    HeaderLacksNewline();
    RowLinesLackNewline(items, fecha, row);
    SplitJoinAfterHead(Join(Header, ","), RowLines(items, fecha, row), '\n');
  }

  /** The date and both names hold no comma or quote: the unquoted fields of a
      written row read back as written. */
  predicate PlainFieldsSafe(c: Item, fecha: string) {
    Safe(Plain(fecha)) && Safe(Plain(NombreOriginal(c))) && Safe(Plain(NombreMutado(c)))
  }

  /** With no line break inside a value, the exported file splits into the header
      line and one line per item, that item's row as written; a line reads back as
      the item's values when its date and names hold no comma or quote. */
  lemma ExportCsvLines(items: seq<Item>, fecha: Item -> string)
    requires forall k :: 0 <= k < |items| ==> NoLineBreak(items[k], fecha(items[k]))
    ensures var lines := Split(ExportCsv(items, fecha), '\n');
            && |lines| == |items| + 1
            && lines[0] == Join(Header, ",")
            && (forall k :: 0 <= k < |items| ==> lines[k + 1] == Record(RowAsWritten(items[k], fecha(items[k]))))
            && forall k :: 0 <= k < |items| && PlainFieldsSafe(items[k], fecha(items[k])) ==>
                 Fields(lines[k + 1]) == Some(RowValues(items[k], fecha(items[k])))
  {
    forall k | 0 <= k < |items| ensures CellsLackNewline(RowAsWritten(items[k], fecha(items[k]))) {
      RowsCarryValues(items[k], fecha(items[k]));
    }
    CsvFileLines(items, fecha, RowAsWritten);
    forall k | 0 <= k < |items| && PlainFieldsSafe(items[k], fecha(items[k]))
      ensures Fields(Record(RowAsWritten(items[k], fecha(items[k])))) == Some(RowValues(items[k], fecha(items[k])))
    {
      RowAsWrittenRoundTrip(items[k], fecha(items[k]));
    }
  }

  /** In the corrected export every line reads back as its item's values,
      whatever they hold besides line breaks. */
  lemma ExportCsvQuotedLines(items: seq<Item>, fecha: Item -> string)
    requires forall k :: 0 <= k < |items| ==> NoLineBreak(items[k], fecha(items[k]))
    ensures var lines := Split(ExportCsvQuoted(items, fecha), '\n');
            && |lines| == |items| + 1
            && lines[0] == Join(Header, ",")
            && forall k :: 0 <= k < |items| ==>
                 Fields(lines[k + 1]) == Some(RowValues(items[k], fecha(items[k])))
  {
    forall k | 0 <= k < |items| ensures CellsLackNewline(Row(items[k], fecha(items[k]))) {
      RowsCarryValues(items[k], fecha(items[k]));
    }
    CsvFileLines(items, fecha, Row);
    forall k | 0 <= k < |items|
      ensures Fields(Record(Row(items[k], fecha(items[k])))) == Some(RowValues(items[k], fecha(items[k])))
    {
      RowRoundTrip(items[k], fecha(items[k]));
    }
  }

  lemma {:induction false} EncodeAllAt(cells: seq<Cell>, j: int)
    requires 0 <= j < |cells|
    ensures EncodeAll(cells)[j] == Encode(cells[j])
    decreases |cells|
  {
    if j > 0 {
      EncodeAllAt(cells[1..], j - 1);
    }
  }
}
