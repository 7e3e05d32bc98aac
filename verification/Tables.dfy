/** Tables printed with aligned columns. */
module Tables {
  import opened Bytes
  import opened TextLayout

  predicate Distinct(fields: seq<string>) {
    forall i, j | 0 <= i < j < |fields| :: fields[i] != fields[j]
  }

  /** Columns and separators: what lineLength adds up, over a map in any order. */
  ghost function Total(m: map<string, int>): int {
    if m == map[] then 0
    else
      var k :| k in m;
      m[k] + 1 + Total(m - {k})
  }

  lemma {:induction false} TotalWithout(m: map<string, int>, k: string)
    requires k in m
    ensures Total(m) == m[k] + 1 + Total(m - {k})
    decreases |m|
  {
    var j :| j in m && Total(m) == m[j] + 1 + Total(m - {j});
    if j != k {
      TotalWithout(m - {j}, k);
      TotalWithout(m - {k}, j);
      assert m - {j} - {k} == m - {k} - {j};
    }
  }

  function SizeOf(sizes: map<string, int>, name: string): int {
    if name in sizes then sizes[name] else 0
  }

  /** The columns of a row, one per field of the list, and their separators. */
  function Columns(fields: seq<string>, sizes: map<string, int>): int {
    if fields == [] then 0
    else Columns(fields[..|fields| - 1], sizes) + SizeOf(sizes, fields[|fields| - 1]) + 1
  }

  lemma {:induction false} SameColumns(fields: seq<string>, a: map<string, int>, b: map<string, int>)
    requires forall i | 0 <= i < |fields| :: SizeOf(a, fields[i]) == SizeOf(b, fields[i])
    ensures Columns(fields, a) == Columns(fields, b)
  {
    if fields != [] {
      SameColumns(fields[..|fields| - 1], a, b);
    }
  }

  lemma {:induction false} ColumnsAtLeast(fields: seq<string>, sizes: map<string, int>)
    requires forall k | k in sizes :: sizes[k] >= 0 && k in fields
    ensures Columns(fields, sizes) >= Total(sizes)
    ensures Distinct(fields) && (forall i | 0 <= i < |fields| :: fields[i] in sizes) ==>
              Columns(fields, sizes) == Total(sizes)
    ensures !Distinct(fields) ==> Columns(fields, sizes) > Total(sizes)
  {
    if fields == [] {
      assert sizes == map[];
    } else {
      var front, last := fields[..|fields| - 1], fields[|fields| - 1];
      if last in front {
        ColumnsAtLeast(front, sizes);
      } else {
        var rest := sizes - {last};
        assert forall k | k in rest :: k in front;
        ColumnsAtLeast(front, rest);
        SameColumns(front, sizes, rest);
        if last in sizes {
          TotalWithout(sizes, last);
        } else {
          assert rest == sizes;
        }
        assert Distinct(front) ==> Distinct(fields);
      }
    }
  }

  function Max(a: int, b: int): int {
    if a < b then b else a
  }

  // ----- lines -----

  type Row = map<string, string>

  function ValueOf(row: Row, name: string): string {
    if name in row then row[name] else ""
  }

  function FieldText(width: Widths, sizes: map<string, int>, name: string, value: string): string {
    var padded := " " + value + " ";
    var left := SizeOf(sizes, name) - Width(width, padded);
    padded + Spaces(if left > 0 then left else 0)
  }

  function RowText(width: Widths, fields: seq<string>, sizes: map<string, int>, row: Row): string {
    if fields == [] then "|"
    else
      var name := fields[|fields| - 1];
      RowText(width, fields[..|fields| - 1], sizes, row) + FieldText(width, sizes, name, ValueOf(row, name)) + "|"
  }

  ghost predicate Printable(width: Widths) {
    width(' ') == 1 && width('-') == 1 && width('|') == 1
  }

  lemma WidthOfOne(width: Widths, c: char)
    ensures Width(width, [c]) == width(c)
  {
    assert [c][..0] == [];
  }

  lemma FieldWidth(width: Widths, sizes: map<string, int>, name: string, value: string)
    requires Printable(width)
    ensures Width(width, " " + value + " ") == Width(width, value) + 2
    ensures Width(width, FieldText(width, sizes, name, value)) == Max(SizeOf(sizes, name), Width(width, value) + 2)
  {
    var padded := " " + value + " ";
    WidthAppend(width, " ", value);
    WidthAppend(width, " " + value, " ");
    WidthOfOne(width, ' ');
    var left := SizeOf(sizes, name) - Width(width, padded);
    var n: nat := if left > 0 then left else 0;
    WidthOfSame(width, n, ' ');
    WidthAppend(width, padded, Spaces(n));
  }

  /** The value leaves room for a space on both sides of it in its column. */
  predicate FitsColumn(width: Widths, sizes: map<string, int>, name: string, value: string) {
    Width(width, value) + 2 <= SizeOf(sizes, name)
  }

  predicate RowFits(width: Widths, fields: seq<string>, sizes: map<string, int>, row: Row) {
    forall i | 0 <= i < |fields| :: FitsColumn(width, sizes, fields[i], ValueOf(row, fields[i]))
  }

  lemma RowFitsMore(width: Widths, fields: seq<string>, sizes: map<string, int>, row: Row)
    requires fields != []
    ensures var front, name := fields[..|fields| - 1], fields[|fields| - 1];
            RowFits(width, fields, sizes, row) <==>
              RowFits(width, front, sizes, row) && FitsColumn(width, sizes, name, ValueOf(row, name))
  {
    var front := fields[..|fields| - 1];
    if RowFits(width, fields, sizes, row) {
      forall i | 0 <= i < |front|
        ensures FitsColumn(width, sizes, front[i], ValueOf(row, front[i]))
      {
        assert front[i] == fields[i];
      }
    }
  }

  lemma WidthOfThree(width: Widths, a: string, b: string, c: string)
    ensures Width(width, a + b + c) == Width(width, a) + Width(width, b) + Width(width, c)
  {
    WidthAppend(width, a, b);
    WidthAppend(width, a + b, c);
  }

  /** A row is as wide as its columns exactly when every value fits its column; otherwise wider. */
  lemma {:induction false} RowWidth(width: Widths, fields: seq<string>, sizes: map<string, int>, row: Row)
    requires Printable(width)
    ensures var n := Width(width, RowText(width, fields, sizes, row));
            n >= 1 + Columns(fields, sizes) && (n == 1 + Columns(fields, sizes) <==> RowFits(width, fields, sizes, row))
  {
    WidthOfOne(width, '|');
    if fields != [] {
      var front, name := fields[..|fields| - 1], fields[|fields| - 1];
      var value := ValueOf(row, name);
      RowWidth(width, front, sizes, row);
      FieldWidth(width, sizes, name, value);
      WidthOfThree(width, RowText(width, front, sizes, row), FieldText(width, sizes, name, value), "|");
      RowFitsMore(width, fields, sizes, row);
      assert Columns(fields, sizes) == Columns(front, sizes) + SizeOf(sizes, name) + 1;
    }
  }

  /** Every field has a column. */
  predicate AllSized(fields: seq<string>, sizes: map<string, int>) {
    forall i | 0 <= i < |fields| :: fields[i] in sizes
  }

  /** Columns belong to fields and have room for the two spaces. */
  predicate ColumnsOk(fields: seq<string>, sizes: map<string, int>) {
    forall k | k in sizes :: sizes[k] >= 2 && k in fields
  }

  ghost function LineLengthOf(sizes: map<string, int>): int {
    1 + Total(sizes)
  }

  /** A row lines up with the table exactly when its values fit and no field is listed twice. */
  lemma RowAligned(width: Widths, fields: seq<string>, sizes: map<string, int>, row: Row)
    requires Printable(width) && ColumnsOk(fields, sizes)
    ensures Width(width, RowText(width, fields, sizes, row)) == LineLengthOf(sizes)
            <==> RowFits(width, fields, sizes, row) && Distinct(fields)
    ensures RowFits(width, fields, sizes, row) ==> AllSized(fields, sizes)
  {
    RowWidth(width, fields, sizes, row);
    ColumnsAtLeast(fields, sizes);
    if RowFits(width, fields, sizes, row) {
      forall i | 0 <= i < |fields|
        ensures fields[i] in sizes
      {
        assert FitsColumn(width, sizes, fields[i], ValueOf(row, fields[i]));
      }
    }
  }

  function DashText(n: int): string {
    "|" + seq(if n > 2 then n - 2 else 0, _ => '-') + "|"
  }

  lemma DashWidth(width: Widths, n: int)
    requires Printable(width)
    ensures Width(width, DashText(n)) == Max(n, 2)
  {
    var k: nat := if n > 2 then n - 2 else 0;
    var dashes := seq(k, _ => '-');
    WidthOfOne(width, '|');
    WidthOfSame(width, k, '-');
    WidthAppend(width, "|", dashes);
    WidthAppend(width, "|" + dashes, "|");
  }

  // ----- column sizes -----

  function Needed(width: Widths, name: string, value: string): int {
    Max(Width(width, value), Width(width, name)) + 2
  }

  /** What calculateSizes makes of the sizes, field by field. */
  function Grown(width: Widths, fields: seq<string>, sizes: map<string, int>, row: Row): map<string, int> {
    if fields == [] then sizes
    else
      var before, k := Grown(width, fields[..|fields| - 1], sizes, row), fields[|fields| - 1];
      if k in row && SizeOf(before, k) < Needed(width, k, row[k]) then before[k := Needed(width, k, row[k])] else before
  }

  /** Sizes only grow, and afterwards every field of the row fits. */
  lemma {:induction false} GrownFits(width: Widths, fields: seq<string>, sizes: map<string, int>, row: Row)
    ensures var g := Grown(width, fields, sizes, row);
            && (forall k | k in sizes :: k in g && g[k] >= sizes[k])
            && (forall k | k in g && k !in sizes :: k in fields && g[k] >= 2)
            && (forall i | 0 <= i < |fields| && fields[i] in row ::
                  && fields[i] in g && FitsColumn(width, g, fields[i], row[fields[i]])
                  && FitsColumn(width, g, fields[i], fields[i]))
  {
    if fields != [] {
      GrownFits(width, fields[..|fields| - 1], sizes, row);
    }
  }

  /** Measuring a row gives every field it has a value for exactly the room it needs, that of its name or its value,
      whichever is wider, and a space on both sides, unless the column is as wide already; nothing else changes. */
  lemma {:induction false} GrownExactly(width: Widths, fields: seq<string>, sizes: map<string, int>, row: Row,
                                        k: string)
    ensures var grown := SizeOf(Grown(width, fields, sizes, row), k);
            if k in fields && k in row then
              var name, value := Width(width, k), Width(width, row[k]);
              var needed := 2 + if value < name then name else value;
              grown == if SizeOf(sizes, k) < needed then needed else SizeOf(sizes, k)
            else grown == SizeOf(sizes, k)
  {
    if fields != [] {
      FrontAndLast(fields);
      GrownExactly(width, fields[..|fields| - 1], sizes, row, k);
    }
  }

  lemma StillFits(width: Widths, fields: seq<string>, sizes: map<string, int>, more: map<string, int>, row: Row)
    requires RowFits(width, fields, sizes, row)
    requires forall i | 0 <= i < |fields| :: SizeOf(sizes, fields[i]) <= SizeOf(more, fields[i])
    ensures RowFits(width, fields, more, row)
  {
    forall i | 0 <= i < |fields|
      ensures FitsColumn(width, more, fields[i], ValueOf(row, fields[i]))
    {
      assert FitsColumn(width, sizes, fields[i], ValueOf(row, fields[i]));
    }
  }

  /** The row that maps every field to its own name, as it decides the least width of the columns. */
  function Names(fields: seq<string>): Row {
    map k | k in fields :: k
  }

  /** A row as AddRow stores it: nil and missing values become empty. */
  function Stored(fields: seq<string>, row: map<string, Option<string>>): Row {
    map k | k in fields :: if k in row && row[k].Some? then row[k].value else ""
  }

  /** The header line's values. */
  function Titles(fields: seq<string>, title: string -> string): Row {
    map k | k in fields :: title(k)
  }

  /** What every table keeps: columns only for fields, and room for every stored row and for the names. */
  ghost predicate Sound(width: Widths, fields: seq<string>, sizes: map<string, int>, rows: seq<Row>) {
    && ColumnsOk(fields, sizes)
    && (rows != [] ==> fields != [] && AllSized(fields, sizes) && RowFits(width, fields, sizes, Names(fields)))
    && (forall i | 0 <= i < |rows| :: RowFits(width, fields, sizes, rows[i]))
  }

  lemma GrownSound(width: Widths, fields: seq<string>, sizes: map<string, int>, rows: seq<Row>, row: Row)
    requires Sound(width, fields, sizes, rows)
    ensures Sound(width, fields, Grown(width, fields, sizes, row), rows)
  {
    var g := Grown(width, fields, sizes, row);
    GrownFits(width, fields, sizes, row);
    if rows != [] {
      StillFits(width, fields, sizes, g, Names(fields));
      forall i | 0 <= i < |rows|
        ensures RowFits(width, fields, g, rows[i])
      {
        StillFits(width, fields, sizes, g, rows[i]);
      }
    }
  }

  lemma NewRowFits(width: Widths, fields: seq<string>, sizes: map<string, int>, row: Row)
    requires forall i | 0 <= i < |fields| :: fields[i] in row
    ensures var g := Grown(width, fields, sizes, row);
            RowFits(width, fields, g, row) && RowFits(width, fields, g, Names(fields))
  {
    var g := Grown(width, fields, sizes, row);
    GrownFits(width, fields, sizes, row);
    forall i | 0 <= i < |fields|
      ensures FitsColumn(width, g, fields[i], ValueOf(row, fields[i]))
      ensures FitsColumn(width, g, fields[i], ValueOf(Names(fields), fields[i]))
    {
      assert fields[i] in row;
    }
  }

  lemma StoredSound(width: Widths, fields: seq<string>, sizes: map<string, int>, rows: seq<Row>, row: Row)
    requires Sound(width, fields, sizes, rows) && fields != []
    requires forall i | 0 <= i < |fields| :: fields[i] in row
    ensures Sound(width, fields, Grown(width, fields, sizes, row), rows + [row])
  {
    GrownSound(width, fields, sizes, rows, row);
    NewRowFits(width, fields, sizes, row);
    GrownFits(width, fields, sizes, row);
    assert forall i | 0 <= i < |fields| :: fields[i] in row && fields[i] in Grown(width, fields, sizes, row);
  }

  lemma StoredNext(fields: seq<string>, row: map<string, Option<string>>, i: nat)
    requires i < |fields|
    ensures Stored(fields[..i + 1], row) ==
            Stored(fields[..i], row)
              [fields[i] := if fields[i] in row && row[fields[i]].Some? then row[fields[i]].value else ""]
  {
    assert fields[..i + 1] == fields[..i] + [fields[i]];
  }

  // ----- the printed table -----

  ghost predicate AllAligned(width: Widths, lines: seq<string>, length: int) {
    forall i | 0 <= i < |lines| :: Width(width, lines[i]) == length
  }

  lemma AlignedAppend(width: Widths, a: seq<string>, b: seq<string>, length: int)
    ensures AllAligned(width, a + b, length) <==> AllAligned(width, a, length) && AllAligned(width, b, length)
  {
    if AllAligned(width, a + b, length) {
      assert forall i | 0 <= i < |a| :: (a + b)[i] == a[i];
      assert forall i | 0 <= i < |b| :: (a + b)[|a| + i] == b[i];
    }
  }

  lemma OneAligned(width: Widths, line: string, length: int)
    ensures AllAligned(width, [line], length) <==> Width(width, line) == length
  {
    assert [line][0] == line;
  }

  lemma TwoAligned(width: Widths, a: string, b: string, length: int)
    ensures AllAligned(width, [a, b], length) <==> Width(width, a) == length && Width(width, b) == length
  {
    assert [a, b][0] == a && [a, b][1] == b;
  }

  function Dashes(fields: seq<string>, sizes: map<string, int>): Row {
    map k | k in fields :: seq(if SizeOf(sizes, k) > 2 then SizeOf(sizes, k) - 2 else 0, _ => '-')
  }

  function MarkdownText(width: Widths, fields: seq<string>, sizes: map<string, int>): string {
    RowText(width, fields, sizes, Dashes(fields, sizes))
  }

  datatype Style = Style(width: Widths, title: string -> string, hideHead: bool, markdown: bool)

  ghost function TableDash(st: Style, fields: seq<string>, sizes: map<string, int>): string {
    if st.markdown then MarkdownText(st.width, fields, sizes) else DashText(LineLengthOf(sizes))
  }

  ghost function RowLines(st: Style, fields: seq<string>, sizes: map<string, int>, rows: seq<Row>): seq<string> {
    if rows == [] then []
    else
      RowLines(st, fields, sizes, rows[..|rows| - 1]) + [RowText(st.width, fields, sizes, rows[|rows| - 1])]
      + (if st.markdown then [] else [DashText(LineLengthOf(sizes))])
  }

  ghost function HeadLines(st: Style, fields: seq<string>, sizes: map<string, int>): seq<string> {
    (if st.markdown then [] else [DashText(LineLengthOf(sizes))])
    + (if st.hideHead then []
       else [RowText(st.width, fields, sizes, Titles(fields, st.title)), TableDash(st, fields, sizes)])
  }

  ghost function FootLines(st: Style, fields: seq<string>, sizes: map<string, int>, footer: Option<Row>): seq<string> {
    match footer
    case None => []
    case Some(row) =>
      [TableDash(st, fields, sizes), RowText(st.width, fields, sizes, row)]
      + (if st.markdown then [] else [TableDash(st, fields, sizes)])
  }

  /** The lines Print makes, without their newlines. */
  ghost function Printed(st: Style, fields: seq<string>, sizes: map<string, int>, rows: seq<Row>,
                         footer: Option<Row>): seq<string> {
    HeadLines(st, fields, sizes) + RowLines(st, fields, sizes, rows) + FootLines(st, fields, sizes, footer)
  }

  lemma OneRowMore(before: seq<string>, text: string, dashes: seq<string>)
    ensures var lines := before + [text] + dashes;
            && |lines| == |before| + 1 + |dashes| && lines[|before|] == text
            && (|dashes| == 1 ==> lines[|before| + 1] == dashes[0])
            && forall i | 0 <= i < |before| :: lines[i] == before[i]
  {
  }

  /** The lines that row i makes. */
  lemma {:induction false} RowLinesAt(st: Style, fields: seq<string>, sizes: map<string, int>, rows: seq<Row>, i: nat)
    ensures var lines, k := RowLines(st, fields, sizes, rows), if st.markdown then i else 2 * i;
            && |lines| == (if st.markdown then |rows| else 2 * |rows|)
            && (i < |rows| ==>
                  && lines[k] == RowText(st.width, fields, sizes, rows[i])
                  && (!st.markdown ==> lines[k + 1] == DashText(LineLengthOf(sizes))))
  {
    if rows != [] {
      var front, text := rows[..|rows| - 1], RowText(st.width, fields, sizes, rows[|rows| - 1]);
      RowLinesAt(st, fields, sizes, front, i);
      OneRowMore(RowLines(st, fields, sizes, front), text, if st.markdown then [] else [DashText(LineLengthOf(sizes))]);
    }
  }

  /** The lines of a table: dashes, the titles and dashes unless the head is hidden, every row in its order with dashes
      behind it, and a footer between dashes. A Markdown table has dashes of its own and only behind the titles and in
      front of the footer. */
  lemma PrintedLines(st: Style, fields: seq<string>, sizes: map<string, int>, rows: seq<Row>, footer: Option<Row>,
                     i: nat)
    ensures var dash := if st.markdown then MarkdownText(st.width, fields, sizes) else DashText(LineLengthOf(sizes));
            var titles := RowText(st.width, fields, sizes, map k | k in fields :: st.title(k));
            var body := RowLines(st, fields, sizes, rows);
            Printed(st, fields, sizes, rows, footer) ==
            (if st.markdown then [] else [dash]) + (if st.hideHead then [] else [titles, dash]) + body
            + (if footer.None? then []
               else [dash, RowText(st.width, fields, sizes, footer.value)] + if st.markdown then [] else [dash])
    ensures var body := RowLines(st, fields, sizes, rows);
            && |body| == (if st.markdown then |rows| else 2 * |rows|)
            && (i < |rows| ==>
                  var text := RowText(st.width, fields, sizes, rows[i]);
                  if st.markdown then body[i] == text
                  else body[2 * i] == text && body[2 * i + 1] == DashText(LineLengthOf(sizes)))
  {
    assert Titles(fields, st.title) == map k | k in fields :: st.title(k);
    RowLinesAt(st, fields, sizes, rows, i);
  }

  /** In the dashes of a Markdown table a field's dashes fill its column but for the two spaces. */
  lemma MarkdownField(width: Widths, fields: seq<string>, sizes: map<string, int>, name: string)
    requires Printable(width) && name in fields && SizeOf(sizes, name) >= 2
    ensures var dashes := ValueOf(Dashes(fields, sizes), name);
            && FieldText(width, sizes, name, dashes) == " " + dashes + " "
            && |dashes| == SizeOf(sizes, name) - 2 && forall i | 0 <= i < |dashes| :: dashes[i] == '-'
  {
    var dashes := ValueOf(Dashes(fields, sizes), name);
    WidthOfSame(width, SizeOf(sizes, name) - 2, '-');
    FieldWidth(width, sizes, name, dashes);
    assert " " + dashes + " " + Spaces(0) == " " + dashes + " ";
  }

  lemma MarkdownAligned(width: Widths, fields: seq<string>, sizes: map<string, int>)
    requires Printable(width) && ColumnsOk(fields, sizes) && AllSized(fields, sizes) && Distinct(fields)
    ensures Width(width, MarkdownText(width, fields, sizes)) == LineLengthOf(sizes)
  {
    var row := Dashes(fields, sizes);
    forall i | 0 <= i < |fields|
      ensures FitsColumn(width, sizes, fields[i], ValueOf(row, fields[i]))
    {
      WidthOfSame(width, SizeOf(sizes, fields[i]) - 2, '-');
    }
    RowAligned(width, fields, sizes, row);
  }

  lemma {:induction false} TotalAtLeast(sizes: map<string, int>)
    requires forall k | k in sizes :: sizes[k] >= 2
    ensures Total(sizes) >= 3 * |sizes|
    decreases |sizes|
  {
    if sizes != map[] {
      var k :| k in sizes;
      TotalWithout(sizes, k);
      assert (sizes - {k}).Keys == sizes.Keys - {k};
      TotalAtLeast(sizes - {k});
    }
  }

  lemma DashAligned(width: Widths, fields: seq<string>, sizes: map<string, int>)
    requires Printable(width) && ColumnsOk(fields, sizes) && AllSized(fields, sizes)
    ensures Width(width, DashText(LineLengthOf(sizes))) == LineLengthOf(sizes) <==> fields != []
  {
    DashWidth(width, LineLengthOf(sizes));
    TotalAtLeast(sizes);
    if fields == [] {
      assert sizes == map[];
    } else {
      assert fields[0] in sizes;
    }
  }

  lemma {:induction false} RowLinesAligned(st: Style, fields: seq<string>, sizes: map<string, int>, rows: seq<Row>)
    requires Printable(st.width) && Sound(st.width, fields, sizes, rows) && rows != []
    ensures AllAligned(st.width, RowLines(st, fields, sizes, rows), LineLengthOf(sizes)) <==> Distinct(fields)
  {
    var front, row, n := rows[..|rows| - 1], rows[|rows| - 1], LineLengthOf(sizes);
    var text, dash := RowText(st.width, fields, sizes, row), if st.markdown then [] else [DashText(n)];
    RowAligned(st.width, fields, sizes, row);
    DashAligned(st.width, fields, sizes);
    if front != [] {
      RowLinesAligned(st, fields, sizes, front);
    }
    var before := RowLines(st, fields, sizes, front);
    AlignedAppend(st.width, before + [text], dash, n);
    AlignedAppend(st.width, before, [text], n);
    OneAligned(st.width, text, n);
    OneAligned(st.width, DashText(n), n);
  }

  /** The condition under which every printed line has the same width. */
  predicate Neat(st: Style, fields: seq<string>, sizes: map<string, int>) {
    && Distinct(fields) && AllSized(fields, sizes) && (st.markdown || fields != [])
    && (st.hideHead || RowFits(st.width, fields, sizes, Titles(fields, st.title)))
  }

  lemma TableDashAligned(st: Style, fields: seq<string>, sizes: map<string, int>)
    requires Printable(st.width) && ColumnsOk(fields, sizes) && AllSized(fields, sizes) && Distinct(fields)
    requires st.markdown || fields != []
    ensures Width(st.width, TableDash(st, fields, sizes)) == LineLengthOf(sizes)
  {
    DashAligned(st.width, fields, sizes);
    MarkdownAligned(st.width, fields, sizes);
  }

  lemma HeadAligned(st: Style, fields: seq<string>, sizes: map<string, int>)
    requires Printable(st.width) && ColumnsOk(fields, sizes) && Neat(st, fields, sizes)
    ensures AllAligned(st.width, HeadLines(st, fields, sizes), LineLengthOf(sizes))
  {
    var head, n := RowText(st.width, fields, sizes, Titles(fields, st.title)), LineLengthOf(sizes);
    DashAligned(st.width, fields, sizes);
    TableDashAligned(st, fields, sizes);
    RowAligned(st.width, fields, sizes, Titles(fields, st.title));
    TwoAligned(st.width, head, TableDash(st, fields, sizes), n);
    AlignedAppend(st.width, if st.markdown then [] else [DashText(n)],
                  if st.hideHead then [] else [head, TableDash(st, fields, sizes)], n);
  }

  lemma FootAligned(st: Style, fields: seq<string>, sizes: map<string, int>, row: Row)
    requires Printable(st.width) && ColumnsOk(fields, sizes) && Distinct(fields)
    requires RowFits(st.width, fields, sizes, row)
    requires Width(st.width, TableDash(st, fields, sizes)) == LineLengthOf(sizes)
    ensures AllAligned(st.width, FootLines(st, fields, sizes, Some(row)), LineLengthOf(sizes))
  {
    var dash, text, n := TableDash(st, fields, sizes), RowText(st.width, fields, sizes, row), LineLengthOf(sizes);
    RowAligned(st.width, fields, sizes, row);
    TwoAligned(st.width, dash, text, n);
    AlignedAppend(st.width, [dash, text], if st.markdown then [] else [dash], n);
  }

  lemma NeatIsAligned(st: Style, fields: seq<string>, sizes: map<string, int>, rows: seq<Row>, footer: Option<Row>)
    requires Printable(st.width) && Sound(st.width, fields, sizes, rows) && Neat(st, fields, sizes)
    requires footer.Some? ==> RowFits(st.width, fields, sizes, footer.value)
    ensures AllAligned(st.width, Printed(st, fields, sizes, rows, footer), LineLengthOf(sizes))
  {
    var n := LineLengthOf(sizes);
    HeadAligned(st, fields, sizes);
    TableDashAligned(st, fields, sizes);
    if footer.Some? {
      FootAligned(st, fields, sizes, footer.value);
    }
    if rows != [] {
      RowLinesAligned(st, fields, sizes, rows);
    }
    var head, body := HeadLines(st, fields, sizes), RowLines(st, fields, sizes, rows);
    AlignedAppend(st.width, head, body, n);
    AlignedAppend(st.width, head + body, FootLines(st, fields, sizes, footer), n);
  }

  lemma HeadIsNeat(st: Style, fields: seq<string>, sizes: map<string, int>)
    requires Printable(st.width) && ColumnsOk(fields, sizes) && AllSized(fields, sizes) && Distinct(fields)
    requires AllAligned(st.width, HeadLines(st, fields, sizes), LineLengthOf(sizes))
    ensures Neat(st, fields, sizes)
  {
    var head := HeadLines(st, fields, sizes);
    DashAligned(st.width, fields, sizes);
    if !st.markdown {
      assert head[0] == DashText(LineLengthOf(sizes));
    }
    if !st.hideHead {
      var k := if st.markdown then 0 else 1;
      assert head[k] == RowText(st.width, fields, sizes, Titles(fields, st.title));
      RowAligned(st.width, fields, sizes, Titles(fields, st.title));
    }
  }

  lemma AlignedIsNeat(st: Style, fields: seq<string>, sizes: map<string, int>, rows: seq<Row>, footer: Option<Row>)
    requires Printable(st.width) && Sound(st.width, fields, sizes, rows) && (rows != [] || footer.Some?)
    requires AllAligned(st.width, Printed(st, fields, sizes, rows, footer), LineLengthOf(sizes))
    ensures Neat(st, fields, sizes)
  {
    var n := LineLengthOf(sizes);
    var head, body := HeadLines(st, fields, sizes), RowLines(st, fields, sizes, rows);
    var foot := FootLines(st, fields, sizes, footer);
    AlignedAppend(st.width, head, body, n);
    AlignedAppend(st.width, head + body, foot, n);
    if rows != [] {
      RowLinesAligned(st, fields, sizes, rows);
    } else {
      assert foot[1] == RowText(st.width, fields, sizes, footer.value);
      RowAligned(st.width, fields, sizes, footer.value);
    }
    HeadIsNeat(st, fields, sizes);
  }

  /** The footer fits the columns sized for it, if every field has one. */
  lemma FooterFits(width: Widths, fields: seq<string>, sizes: map<string, int>, row: Row)
    requires ColumnsOk(fields, Grown(width, fields, sizes, row)) && AllSized(fields, Grown(width, fields, sizes, row))
    ensures RowFits(width, fields, Grown(width, fields, sizes, row), row)
  {
    var g := Grown(width, fields, sizes, row);
    GrownFits(width, fields, sizes, row);
    forall i | 0 <= i < |fields|
      ensures FitsColumn(width, g, fields[i], ValueOf(row, fields[i]))
    {
      assert fields[i] in g;
    }
  }

  /** The sizes Print works with: the footer's values are measured too. */
  function FinalSizes(width: Widths, fields: seq<string>, sizes: map<string, int>,
                      footer: Option<Row>): map<string, int> {
    match footer
    case None => sizes
    case Some(row) => Grown(width, fields, sizes, row)
  }

  /** Every line of a printed table is exactly lineLength wide if and only if no field is listed twice,
      every field has a column (it has one as soon as there is a row), the titles fit where they are
      printed, and there is a field at all where dashes are printed. */
  lemma AlignedExactly(st: Style, fields: seq<string>, sizes: map<string, int>, rows: seq<Row>, footer: Option<Row>)
    requires Printable(st.width) && Sound(st.width, fields, sizes, rows) && (rows != [] || footer.Some?)
    ensures var g := FinalSizes(st.width, fields, sizes, footer);
            && (AllAligned(st.width, Printed(st, fields, g, rows, footer), LineLengthOf(g)) <==> Neat(st, fields, g))
            && (rows != [] ==> AllSized(fields, g) && fields != []) && Sound(st.width, fields, g, rows)
  {
    var g := FinalSizes(st.width, fields, sizes, footer);
    if footer.Some? {
      GrownSound(st.width, fields, sizes, rows, footer.value);
    }
    if Neat(st, fields, g) {
      if footer.Some? {
        FooterFits(st.width, fields, sizes, footer.value);
      }
      NeatIsAligned(st, fields, g, rows, footer);
    }
    if AllAligned(st.width, Printed(st, fields, g, rows, footer), LineLengthOf(g)) {
      AlignedIsNeat(st, fields, g, rows, footer);
    }
  }

  /** Titles as wide as their names fit as soon as there is a row. */
  lemma TitlesFit(st: Style, fields: seq<string>, sizes: map<string, int>, rows: seq<Row>)
    requires Sound(st.width, fields, sizes, rows) && rows != []
    requires forall i | 0 <= i < |fields| :: Width(st.width, st.title(fields[i])) <= Width(st.width, fields[i])
    ensures RowFits(st.width, fields, sizes, Titles(fields, st.title))
  {
    forall i | 0 <= i < |fields|
      ensures FitsColumn(st.width, sizes, fields[i], ValueOf(Titles(fields, st.title), fields[i]))
    {
      assert FitsColumn(st.width, sizes, fields[i], ValueOf(Names(fields), fields[i]));
    }
  }

  /** A field without a column wide enough for its two spaces. */
  predicate Missing(fields: seq<string>, sizes: map<string, int>) {
    exists i :: 0 <= i < |fields| && SizeOf(sizes, fields[i]) < 2
  }

  lemma MissingIffUnsized(fields: seq<string>, sizes: map<string, int>)
    requires ColumnsOk(fields, sizes)
    ensures Missing(fields, sizes) <==> !AllSized(fields, sizes)
  {
    if i :| 0 <= i < |fields| && fields[i] !in sizes {
      assert SizeOf(sizes, fields[i]) < 2;
    }
  }

  /** A field that has no column yet and no value in the row that is to be measured. */
  predicate Unmeasured(fields: seq<string>, sizes: map<string, int>, row: Row) {
    exists i :: 0 <= i < |fields| && fields[i] !in sizes && fields[i] !in row
  }

  lemma {:induction false} GrownKeys(width: Widths, fields: seq<string>, sizes: map<string, int>, row: Row, k: string)
    ensures k in Grown(width, fields, sizes, row) <==> k in sizes || (k in fields && k in row)
  {
    if fields != [] {
      FrontAndLast(fields);
      GrownKeys(width, fields[..|fields| - 1], sizes, row, k);
    }
  }

  /** Whether measuring a row leaves a field without a column can be told before. */
  lemma UnsizedExactly(width: Widths, fields: seq<string>, sizes: map<string, int>, row: Row)
    ensures AllSized(fields, Grown(width, fields, sizes, row)) <==> !Unmeasured(fields, sizes, row)
  {
    forall i | 0 <= i < |fields|
      ensures fields[i] in Grown(width, fields, sizes, row) <==> fields[i] in sizes || fields[i] in row
    {
      GrownKeys(width, fields, sizes, row, fields[i]);
    }
  }

  /** A misaligned table: a field listed twice, and one row. Its row is a column wider than lineLength. */
  lemma Misaligned(width: Widths)
    requires Printable(width) && width('a') == 1
    ensures var fields, row := ["a", "a"], Stored(["a", "a"], map["a" := Some("a")]);
            var sizes := Grown(width, fields, map[], row);
            var st := Style(width, t => t, true, true);
            && Sound(width, fields, sizes, [row])
            && !AllAligned(width, Printed(st, fields, sizes, [row], None), LineLengthOf(sizes))
  {
    var fields, row := ["a", "a"], Stored(["a", "a"], map["a" := Some("a")]);
    assert fields[0] in row && fields[1] in row;
    StoredSound(width, fields, map[], [], row);
    assert [] + [row] == [row];
    AlignedExactly(Style(width, t => t, true, true), fields, Grown(width, fields, map[], row), [row], None);
    assert !Distinct(fields) by {
      assert fields[0] == fields[1];
    }
  }

  lemma DashesNext(fields: seq<string>, sizes: map<string, int>, i: nat)
    requires i < |fields| && SizeOf(sizes, fields[i]) >= 2
    ensures Dashes(fields[..i + 1], sizes)
            == Dashes(fields[..i], sizes)[fields[i] := seq(SizeOf(sizes, fields[i]) - 2, _ => '-')]
  {
    assert fields[..i + 1] == fields[..i] + [fields[i]];
  }

  class Table {
    const width: Widths
    const title: string -> string
    const fields: seq<string>
    var footer: Option<Row>
    var rows: seq<Row>
    var hideHead: bool
    var markdown: bool
    var fieldSizes: map<string, int>

    ghost predicate Valid()
      reads this
    {
      Printable(width) && Sound(width, fields, fieldSizes, rows)
    }

    constructor (width: Widths, title: string -> string, fields: seq<string>)
      requires Printable(width)
      ensures Valid() && this.width == width && this.title == title && this.fields == fields
      ensures rows == [] && footer == None && fieldSizes == map[] && !hideHead && !markdown
    {
      this.width, this.title, this.fields := width, title, fields;
      footer, rows, hideHead, markdown, fieldSizes := None, [], false, false, map[];
    }

    method CalculateSizes(row: Row)
      modifies this`fieldSizes
      ensures fieldSizes == Grown(width, fields, old(fieldSizes), row)
    {
      ghost var before := fieldSizes;
      for i := 0 to |fields|
        invariant fieldSizes == Grown(width, fields[..i], before, row)
      {
        var k := fields[i];
        assert fields[..i + 1][..i] == fields[..i];
        if k !in row {
          continue;
        }
        var vlen := StringWidth(width, row[k]);
        var klen := StringWidth(width, k);
        if vlen < klen {
          vlen := klen;
        }
        vlen := vlen + 2;
        if SizeOf(fieldSizes, k) < vlen {
          fieldSizes := fieldSizes[k := vlen];
        }
      }
      assert fields[..|fields|] == fields;
    }

    method Format(row: map<string, Option<string>>) returns (newRow: Row)
      ensures newRow == Stored(fields, row) && (newRow == map[] <==> fields == [])
      ensures forall i | 0 <= i < |fields| :: fields[i] in newRow
      ensures forall k | k in newRow :: newRow[k] == if k in row && row[k].Some? then row[k].value else ""
    {
      newRow := map[];
      for i := 0 to |fields|
        invariant newRow == Stored(fields[..i], row) && (newRow == map[] <==> i == 0)
      {
        var k := fields[i];
        var val := if k in row && row[k].Some? then row[k].value else "";
        StoredNext(fields, row, i);
        newRow := newRow[k := val];
        assert k in newRow;
      }
      assert fields[..|fields|] == fields;
    }

    /** AddRow: the row is stored with room for it in every column, unless there are no fields. */
    method AddRow(row: map<string, Option<string>>)
      requires Valid()
      modifies this`rows, this`fieldSizes
      ensures Valid() && fieldSizes == Grown(width, fields, old(fieldSizes), Stored(fields, row))
      ensures rows == if fields == [] then old(rows) else old(rows) + [Stored(fields, row)]
    {
      var newRow := Format(row);
      ghost var sizes, others := fieldSizes, rows;
      CalculateSizes(newRow);
      GrownSound(width, fields, sizes, others, newRow);
      if newRow != map[] {
        StoredSound(width, fields, sizes, others, newRow);
        rows := rows + [newRow];
      }
    }

    method AddFooter(row: Row)
      requires Valid()
      modifies this`footer
      ensures Valid() && footer == Some(row)
    {
      footer := Some(row);
    }

    method FieldString(name: string, value: string) returns (s: string)
      ensures s == FieldText(width, fieldSizes, name, value)
      ensures var padded := " " + value + " "; padded <= s && forall i | |padded| <= i < |s| :: s[i] == ' '
    {
      s := " " + value + " ";
      var n := StringWidth(width, s);
      var spacesLeft := SizeOf(fieldSizes, name) - n;
      if spacesLeft > 0 {
        ghost var padded := s;
        for i := 0 to spacesLeft
          invariant s == padded + Spaces(i)
        {
          s := s + " ";
        }
      }
    }

    method RowString(row: Row) returns (s: string)
      ensures s == RowText(width, fields, fieldSizes, row)
      ensures fields == [] ==> s == "|"
      ensures fields != [] ==>
                var last := fields[|fields| - 1];
                s == RowText(width, fields[..|fields| - 1], fieldSizes, row)
                     + FieldText(width, fieldSizes, last, if last in row then row[last] else "") + "|"
    {
      s := "|";
      for i := 0 to |fields|
        invariant s == RowText(width, fields[..i], fieldSizes, row)
      {
        var name := fields[i];
        assert fields[..i + 1][..i] == fields[..i];
        var text := FieldString(name, ValueOf(row, name));
        s := s + text + "|";
      }
      assert fields[..|fields|] == fields;
    }

    method GetHead() returns (s: string)
      ensures s == RowText(width, fields, fieldSizes, Titles(fields, title))
    {
      s := "|";
      for i := 0 to |fields|
        invariant s == RowText(width, fields[..i], fieldSizes, Titles(fields, title))
      {
        var name := fields[i];
        assert fields[..i + 1][..i] == fields[..i];
        var text := FieldString(name, title(name));
        s := s + text + "|";
      }
      assert fields[..|fields|] == fields;
    }

    /** The sum over the map, in whatever order it is ranged over. */
    method LineLength() returns (sum: int)
      ensures sum == LineLengthOf(fieldSizes)
    {
      sum := 0;
      var left := fieldSizes;
      while left != map[]
        invariant sum + Total(left) == Total(fieldSizes)
        decreases |left|
      {
        var k :| k in left;
        TotalWithout(left, k);
        sum := sum + left[k] + 1;
        left := left - {k};
      }
      sum := sum + 1;
    }

    method PrintDash() returns (dash: string)
      ensures dash == DashText(LineLengthOf(fieldSizes))
      ensures |dash| >= 2 && dash[0] == dash[|dash| - 1] == '|' && forall i | 0 < i < |dash| - 1 :: dash[i] == '-'
    {
      dash := "|";
      var n := LineLength();
      ghost var k := 0;
      for i := 0 to if n > 2 then n - 2 else 0
        invariant dash == "|" + seq(i, _ => '-')
      {
        dash := dash + "-";
      }
      dash := dash + "|";
    }

    /** The dashes between header and rows in Markdown; strings.Repeat panics on a negative count, which
        it gets for a field that has no column yet. */
    method PrintMarkdownDash() returns (dash: Option<string>)
      ensures dash.None? <==> Missing(fields, fieldSizes)
      ensures dash.Some? ==> dash.value == MarkdownText(width, fields, fieldSizes)
    {
      var r: Row := map[];
      for i := 0 to |fields|
        invariant forall j | 0 <= j < i :: SizeOf(fieldSizes, fields[j]) >= 2
        invariant r == Dashes(fields[..i], fieldSizes)
      {
        var n := SizeOf(fieldSizes, fields[i]) - 2;
        if n < 0 {
          return None;
        }
        DashesNext(fields, fieldSizes, i);
        r := r[fields[i] := seq(n, _ => '-')];
      }
      assert fields[..|fields|] == fields;
      var line := RowString(r);
      dash := Some(line);
    }

    method PrintTableDash() returns (dash: Option<string>)
      ensures dash.None? <==> markdown && Missing(fields, fieldSizes)
      ensures dash.Some? ==> dash.value == TableDash(Look(), fields, fieldSizes)
    {
      if markdown {
        dash := PrintMarkdownDash();
      } else {
        var d := PrintDash();
        dash := Some(d);
      }
    }

    function Look(): Style
      reads this
    {
      Style(width, title, hideHead, markdown)
    }

    method HeadPart() returns (lines: Option<seq<string>>)
      ensures lines.Some? ==> lines.value == HeadLines(Look(), fields, fieldSizes)
      ensures lines.None? <==> !hideHead && markdown && Missing(fields, fieldSizes)
    {
      var ls := [];
      if !markdown {
        var dash := PrintDash();
        ls := ls + [dash];
      }
      if !hideHead {
        var head := GetHead();
        var dash := PrintTableDash();
        if dash.None? {
          return None;
        }
        ls := ls + [head, dash.value];
      }
      lines := Some(ls);
    }

    method RowPart() returns (lines: seq<string>)
      ensures lines == RowLines(Look(), fields, fieldSizes, rows)
    {
      lines := [];
      for i := 0 to |rows|
        invariant lines == RowLines(Look(), fields, fieldSizes, rows[..i])
      {
        assert rows[..i + 1][..i] == rows[..i];
        var row := RowString(rows[i]);
        lines := lines + [row];
        if !markdown {
          var dash := PrintDash();
          lines := lines + [dash];
        }
      }
      assert rows[..|rows|] == rows;
    }

    method FootPart() returns (lines: Option<seq<string>>)
      ensures lines.Some? ==> lines.value == FootLines(Look(), fields, fieldSizes, footer)
      ensures lines.None? <==> footer.Some? && markdown && Missing(fields, fieldSizes)
    {
      if footer.None? {
        return Some([]);
      }
      var dash := PrintTableDash();
      if dash.None? {
        return None;
      }
      var row := RowString(footer.value);
      var ls := [dash.value, row];
      if !markdown {
        ls := ls + [dash.value];
      }
      lines := Some(ls);
    }

    method AllParts() returns (lines: Option<seq<string>>)
      requires rows != [] ==> !Missing(fields, fieldSizes)
      requires rows != [] || footer.Some?
      ensures lines.Some? ==> lines.value == Printed(Look(), fields, fieldSizes, rows, footer)
      ensures lines.None? <==> markdown && Missing(fields, fieldSizes)
    {
      var head := HeadPart();
      if head.None? {
        return None;
      }
      var body := RowPart();
      var foot := FootPart();
      if foot.None? {
        return None;
      }
      lines := Some(head.value + body + foot.value);
    }

    method MeasureFooter()
      modifies this`fieldSizes
      ensures fieldSizes == FinalSizes(width, fields, old(fieldSizes), footer)
    {
      if footer.Some? {
        CalculateSizes(footer.value);
      }
    }

    /** Print: the lines that are logged, or None when strings.Repeat panics: exactly for a Markdown table
        without rows that has a footer and a field with neither a column nor a value in the footer. */
    method Print() returns (lines: Option<seq<string>>)
      requires Valid()
      modifies this`fieldSizes
      ensures Valid()
      ensures rows == [] && footer.None? ==> lines == Some([]) && fieldSizes == old(fieldSizes)
      ensures rows != [] || footer.Some? ==> fieldSizes == FinalSizes(width, fields, old(fieldSizes), footer)
      ensures lines.None? <==>
        rows == [] && footer.Some? && markdown && Unmeasured(fields, old(fieldSizes), footer.value)
      ensures (rows != [] || footer.Some?) && lines.Some? ==>
        && lines.value == Printed(Look(), fields, fieldSizes, rows, footer)
        && (AllAligned(width, lines.value, LineLengthOf(fieldSizes)) <==> Neat(Look(), fields, fieldSizes))
    {
      if |rows| == 0 && footer.None? {
        return Some([]);
      }
      ghost var sizes := fieldSizes;
      MeasureFooter();
      AlignedExactly(Look(), fields, sizes, rows, footer);
      MissingIffUnsized(fields, fieldSizes);
      if footer.Some? {
        UnsizedExactly(width, fields, sizes, footer.value);
      }
      lines := AllParts();
    }
  }

  /** For one, a Markdown table of one field with a footer and no rows: it panics exactly when the footer
      has no value for the field. */
  method FooterOnly(width: Widths, title: string -> string, footer: Row) returns (lines: Option<seq<string>>)
    requires Printable(width)
    ensures lines.None? <==> "a" !in footer
  {
    var table := new Table(width, title, ["a"]);
    table.markdown := true;
    table.AddFooter(footer);
    lines := table.Print();
    assert "a" !in footer ==> Unmeasured(["a"], map[], footer) by {
      assert ["a"][0] == "a";
    }
  }
}
