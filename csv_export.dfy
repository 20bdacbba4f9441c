/** The text exportCSV builds before handing it to the download: a header row, then one
    row per transaction from the last in the list to the first, fields joined with ';' and
    rows with '\n'. There is no quoting: a ';' inside the description becomes ',', but a
    ';' inside the category is written as is. RowAsWritten, RowsAsWritten and CsvAsWritten
    are the export as the code builds it; CorrectedRow, CorrectedRows and CorrectedCsv clean
    the category too, so that every row reads back as five fields. */
module CsvExport {
  import opened Ledger
  import Text

  const Header: seq<string> := ["Fecha", "Tipo", "Monto", "Categoría", "Descripción"]

  function KindLabel(k: TxKind): (s: string)
    ensures s == "Gasto" <==> k == Expense
    ensures ';' !in s && '\n' !in s
  {
    if k == Expense then "Gasto" else "Ingreso"
  }

  /** `t.category || "General"`: an empty category reads as "General". */
  function CategoryOrDefault(c: string): (r: string)
    ensures r != []
    ensures c != [] ==> r == c
  {
    if c == "" then "General" else c
  }

  /** `String(t.amount)`: digits and perhaps a minus sign, so never a separator. */
  function AmountText(amount: int): (s: string)
    ensures ';' !in s && '\n' !in s
  {
    var s := Text.IntToDecimal(amount);
    assert forall i :: 0 <= i < |s| ==> s[i] != ';' && s[i] != '\n';
    s
  }

  /** `replaceAll(";", ",")`: no ';' is left, and no line break is added. */
  function Clean(s: string): (r: string)
    ensures ';' !in r
    ensures '\n' !in s ==> '\n' !in r
  {
    var r := Text.ReplaceChar(s, ';', ',');
    assert forall i :: 0 <= i < |r| ==> r[i] == s[i] || r[i] == ',';
    r
  }

  /** The row exactly as exportCSV writes it: only the description is cleaned of ';'. */
  function RowAsWritten(t: Tx): (r: seq<string>)
    ensures |r| == 5 && ';' !in r[4]
  {
    [t.date, KindLabel(t.kind), AmountText(t.amount), CategoryOrDefault(t.category), Clean(t.description)]
  }

  /** The corrected row: the free-text category is cleaned the same way as the description. */
  function CorrectedRow(t: Tx): (r: seq<string>)
    ensures |r| == 5
    ensures ';' !in r[1] && ';' !in r[2] && ';' !in r[3] && ';' !in r[4]
  {
    [t.date, KindLabel(t.kind), AmountText(t.amount), Clean(CategoryOrDefault(t.category)), Clean(t.description)]
  }

  /** The header, then `txs.slice().reverse().map(row)`, as exportCSV builds it: data
      row i is the written row of txs[|txs| - i], with five fields and no ';' in the
      description. */
  function RowsAsWritten(txs: seq<Tx>): (rows: seq<seq<string>>)
    ensures |rows| == |txs| + 1 && rows[0] == Header
    ensures forall i :: 1 <= i < |rows| ==> rows[i] == RowAsWritten(txs[|txs| - i])
    ensures forall i :: 1 <= i < |rows| ==> |rows[i]| == 5 && ';' !in rows[i][4]
  {
    seq(|txs| + 1, i requires 0 <= i <= |txs| => if i == 0 then Header else RowAsWritten(txs[|txs| - i]))
  }

  /** The same rows built from the corrected row. */
  function CorrectedRows(txs: seq<Tx>): (rows: seq<seq<string>>)
    ensures |rows| == |txs| + 1 && rows[0] == Header
    ensures forall i :: 1 <= i < |rows| ==> rows[i] == CorrectedRow(txs[|txs| - i])
  {
    seq(|txs| + 1, i requires 0 <= i <= |txs| => if i == 0 then Header else CorrectedRow(txs[|txs| - i]))
  }

  /** rows.map((r) => r.join(";")) */
  function Lines(rows: seq<seq<string>>): (lines: seq<string>)
    ensures |lines| == |rows|
    ensures forall i :: 0 <= i < |rows| ==> lines[i] == Text.Join(rows[i], ';')
  {
    seq(|rows|, i requires 0 <= i < |rows| => Text.Join(rows[i], ';'))
  }

  /** The exported text as exportCSV builds it: the lines joined with '\n'. It starts with
      the header line, and a month with no entries exports the header line alone. */
  function CsvAsWritten(txs: seq<Tx>): (s: string)
    ensures HeaderText() <= s
    ensures txs == [] ==> s == HeaderText()
  {
    JoinStartsWithFirst(Lines(RowsAsWritten(txs)), '\n');
    Text.Join(Lines(RowsAsWritten(txs)), '\n')
  }

  /** The exported text built from the corrected rows. */
  function CorrectedCsv(txs: seq<Tx>): (s: string)
    ensures HeaderText() <= s
    ensures txs == [] ==> s == HeaderText()
  {
    JoinStartsWithFirst(Lines(CorrectedRows(txs)), '\n');
    Text.Join(Lines(CorrectedRows(txs)), '\n')
  }

  function HeaderText(): string {
    Text.Join(Header, ';')
  }

  /** Joined lines start with the first line, and one line joins to itself. */
  lemma JoinStartsWithFirst(lines: seq<string>, sep: char)
    requires |lines| >= 1
    ensures lines[0] <= Text.Join(lines, sep)
    ensures |lines| == 1 ==> Text.Join(lines, sep) == lines[0]
  {
    if |lines| > 1 {
      var rest := Text.Join(lines[1..], sep);
      assert Text.Join(lines, sep) == lines[0] + ([sep] + rest);
    }
  }

  /** A category with a ';' in it, as exportCSV writes it, splits the row into six fields:
      the category's two halves land in the fourth and fifth columns and the description
      is pushed into a sixth. */
  lemma SemicolonInCategory(t: Tx, a: string, b: string)
    requires t.category == a + ";" + b && ';' !in a && ';' !in b && ';' !in t.date
    ensures var row := RowAsWritten(t);
      Text.Split(Text.Join(row, ';'), ';') == [row[0], row[1], row[2], a, b, row[4]]
  {
    var row := RowAsWritten(t);
    assert row == [row[0], row[1], row[2], a + ";" + b, row[4]];
    JoinSplitField(row[0], row[1], row[2], a, b, row[4]);
    Text.SplitJoin([row[0], row[1], row[2], a, b, row[4]], ';');
  }

  /** Joining with ';' cannot tell a field holding a ';' from two fields. */
  lemma JoinSplitField(d: string, k: string, am: string, a: string, b: string, ds: string)
    ensures Text.Join([d, k, am, a + ";" + b, ds], ';') == Text.Join([d, k, am, a, b, ds], ';')
  {
    var cat := a + ";" + b;
    Text.JoinCons(b, [ds], ';');
    Text.JoinCons(a, [b, ds], ';');
    Text.JoinCons(cat, [ds], ';');
    assert Text.Join([a, b, ds], ';') == Text.Join([cat, ds], ';');
    Text.JoinCons(am, [a, b, ds], ';');
    Text.JoinCons(am, [cat, ds], ';');
    Text.JoinCons(k, [am, a, b, ds], ';');
    Text.JoinCons(k, [am, cat, ds], ';');
    Text.JoinCons(d, [k, am, a, b, ds], ';');
    Text.JoinCons(d, [k, am, cat, ds], ';');
  }

  /** Any corrected row whose date has no ';' reads back, field by field, as the row. */
  lemma CorrectedRowRoundTrip(t: Tx)
    requires ';' !in t.date
    ensures Text.Split(Text.Join(CorrectedRow(t), ';'), ';') == CorrectedRow(t)
  {
    Text.SplitJoin(CorrectedRow(t), ';');
  }

  predicate SingleLine(t: Tx) {
    '\n' !in t.date && '\n' !in t.description && '\n' !in t.category
  }

  /** The corrected line of a single-line transaction has no line break and splits back
      into its row. */
  lemma CorrectedRowLine(t: Tx)
    requires ';' !in t.date && SingleLine(t)
    ensures '\n' !in Text.Join(CorrectedRow(t), ';')
    ensures Text.Split(Text.Join(CorrectedRow(t), ';'), ';') == CorrectedRow(t)
  {
    CorrectedRowRoundTrip(t);
    var row := CorrectedRow(t);
    assert '\n' !in row[0] && '\n' !in row[1] && '\n' !in row[2];
    assert '\n' !in row[3] && '\n' !in row[4];
    assert forall p :: p in row ==> '\n' !in p;
    Text.JoinWithout(row, ';', '\n');
  }

  lemma HeaderLine()
    ensures '\n' !in Text.Join(Header, ';')
    ensures Text.Split(Text.Join(Header, ';'), ';') == Header
  {
    assert forall p :: p in Header ==> ';' !in p && '\n' !in p by {
      assert ';' !in "Fecha" && '\n' !in "Fecha";
      assert ';' !in "Tipo" && '\n' !in "Tipo";
      assert ';' !in "Monto" && '\n' !in "Monto";
      assert ';' !in "Categoría" && '\n' !in "Categoría";
      assert ';' !in "Descripción" && '\n' !in "Descripción";
    }
    Text.SplitJoin(Header, ';');
    Text.JoinWithout(Header, ';', '\n');
  }

  /** Line i of the corrected export is free of line breaks and splits back into row i. */
  lemma CorrectedLineRoundTrip(txs: seq<Tx>, i: nat)
    requires forall t :: t in txs ==> ';' !in t.date && SingleLine(t)
    requires i < |txs| + 1
    ensures '\n' !in Text.Join(CorrectedRows(txs)[i], ';')
    ensures Text.Split(Text.Join(CorrectedRows(txs)[i], ';'), ';') == CorrectedRows(txs)[i]
  {
    if i == 0 {
      HeaderLine();
    } else {
      var t := txs[|txs| - i];
      assert t in txs;
      CorrectedRowLine(t);
    }
  }

  /** Reading the corrected export back: splitting on '\n' gives one line per row,
      |txs| + 1 in all, and splitting each line on ';' gives that row's five fields. Dates
      must not hold ';' and no field may hold a line break (the form's inputs are
      single-line). */
  lemma CorrectedCsvRoundTrip(txs: seq<Tx>)
    requires forall t :: t in txs ==> ';' !in t.date && SingleLine(t)
    ensures var lines := Text.Split(CorrectedCsv(txs), '\n');
      && |lines| == |txs| + 1
      && forall i :: 0 <= i < |lines| ==> Text.Split(lines[i], ';') == CorrectedRows(txs)[i]
  {
    var rows := CorrectedRows(txs);
    var lines := Lines(rows);
    forall i | 0 <= i < |lines|
      ensures '\n' !in lines[i] && Text.Split(lines[i], ';') == rows[i]
    {
      CorrectedLineRoundTrip(txs, i);
    }
    Text.SplitJoin(lines, '\n');
  }

  /** A written row whose category holds no ';' is the corrected row. */
  lemma RowAgrees(t: Tx)
    requires ';' !in t.category
    ensures RowAsWritten(t) == CorrectedRow(t)
  {
    if t.category == "" {
      assert ';' !in CategoryOrDefault(t.category) by {
        assert CategoryOrDefault(t.category) == "General";
      }
    }
  }

  /** While no category holds a ';', the written export is the corrected one. */
  lemma CsvAgrees(txs: seq<Tx>)
    requires forall t :: t in txs ==> ';' !in t.category
    ensures RowsAsWritten(txs) == CorrectedRows(txs)
    ensures CsvAsWritten(txs) == CorrectedCsv(txs)
  {
    var w, c := RowsAsWritten(txs), CorrectedRows(txs);
    forall i | 1 <= i < |w| ensures w[i] == c[i] {
      assert txs[|txs| - i] in txs;
      RowAgrees(txs[|txs| - i]);
    }
  }

  /** Reading back the export as exportCSV writes it: when no date or category holds a
      ';' and no field a line break, the text splits into |txs| + 1 lines, and each line
      splits into its row's fields. */
  lemma CsvAsWrittenRoundTrip(txs: seq<Tx>)
    requires forall t :: t in txs ==> ';' !in t.date && ';' !in t.category && SingleLine(t)
    ensures var lines := Text.Split(CsvAsWritten(txs), '\n');
      && |lines| == |txs| + 1
      && forall i :: 0 <= i < |lines| ==> Text.Split(lines[i], ';') == RowsAsWritten(txs)[i]
  {
    CsvAgrees(txs);
    CorrectedCsvRoundTrip(txs);
  }
}
