/**
 * The table heuristic of PDF_to_CSV.php, over the text of each page: the
 * candidate rows of a page, the widest of them as the page's header, the
 * other rows padded to its width, and the rows gathered across pages with
 * the header of the first page that has a table.
 */
module PdfTable {
  import opened Wrappers
  import Php
  import PdfText
  import Seqs

  type Row = seq<string>

  /** What the script prints when it stops without writing a CSV file. */
  const NoTableMessage := "No table data detected in the PDF.\n"

  // ---------------------------------------------------------------------
  // Candidate rows of one page
  // ---------------------------------------------------------------------

  /** The non-blank lines of a page's text. */
  function PageLines(text: string): seq<string>
  {
    PdfText.NonBlank(PdfText.SplitLines(text))
  }

  /** The cells of every line that has at least two, in line order. */
  function Candidates(lines: seq<string>): (rows: seq<Row>)
    ensures |rows| <= |lines|
    ensures forall k :: 0 <= k < |rows| ==> |rows[k]| >= 2
  {
    if lines == [] then []
    else
      var cells := PdfText.RowCells(lines[|lines| - 1]);
      var init := Candidates(lines[..|lines| - 1]);
      var more := if |cells| >= 2 then [cells] else [];
      assert forall k :: 0 <= k < |init| ==> (init + more)[k] == init[k];
      init + more
  }

  /** A row is a candidate exactly when it is the cells of some line and has at least two. */
  lemma {:induction false} CandidatesAre(lines: seq<string>, row: Row)
    ensures row in Candidates(lines) <==>
      |row| >= 2 && exists k :: 0 <= k < |lines| && row == PdfText.RowCells(lines[k])
  {
    if row in Candidates(lines) {
      var k := CandidateLine(lines, row);
    }
    if |row| >= 2 && exists k :: 0 <= k < |lines| && row == PdfText.RowCells(lines[k]) {
      var k :| 0 <= k < |lines| && row == PdfText.RowCells(lines[k]);
      CandidateOfLine(lines, k);
    }
  }

  /** The line a candidate row comes from. */
  function CandidateLine(lines: seq<string>, row: Row): (k: nat)
    requires row in Candidates(lines)
    ensures k < |lines| && row == PdfText.RowCells(lines[k])
  {
    var init, l := lines[..|lines| - 1], lines[|lines| - 1];
    assert lines == init + [l];
    CandidatesSnoc(init, l);
    if row in Candidates(init) then
      var k := CandidateLine(init, row);
      assert init[k] == lines[k];
      k
    else
      CandidatesOne(l);
      |lines| - 1
  }

  /** A line of at least two cells gives a candidate row. */
  lemma {:induction false} CandidateOfLine(lines: seq<string>, k: nat)
    requires k < |lines| && |PdfText.RowCells(lines[k])| >= 2
    ensures PdfText.RowCells(lines[k]) in Candidates(lines)
    decreases |lines|
  {
    var init, l := lines[..|lines| - 1], lines[|lines| - 1];
    assert lines == init + [l];
    CandidatesSnoc(init, l);
    if k < |lines| - 1 {
      assert init[k] == lines[k];
      CandidateOfLine(init, k);
    } else {
      CandidatesOne(l);
    }
  }

  /** Lines are looked at one at a time: the candidates of a + b are those of a, then those of b. */
  lemma {:induction false} CandidatesAppend(a: seq<string>, b: seq<string>)
    ensures Candidates(a + b) == Candidates(a) + Candidates(b)
    decreases |b|
  {
    if b == [] {
      assert a + b == a;
    } else {
      var init, l := b[..|b| - 1], b[|b| - 1];
      assert b == init + [l];
      assert a + b == (a + init) + [l];
      CandidatesAppend(a, init);
      CandidatesSnoc(a + init, l);
      CandidatesSnoc(init, l);
      Seqs.Assoc(Candidates(a), Candidates(init), Candidates([l]));
    }
  }

  /** The candidates of lines + [l]: those of lines, then the one l gives, if any. */
  lemma CandidatesSnoc(lines: seq<string>, l: string)
    ensures Candidates(lines + [l]) == Candidates(lines) + Candidates([l])
  {
    var all := lines + [l];
    assert all[..|all| - 1] == lines;
    assert [l][..0] == [];
  }

  /** One line gives a candidate exactly when it has at least two cells. */
  lemma CandidatesOne(l: string)
    ensures Candidates([l]) == if |PdfText.RowCells(l)| >= 2 then [PdfText.RowCells(l)] else []
  {
    assert [l][..0] == [];
  }

  function PageRows(text: string): seq<Row>
  {
    Candidates(PageLines(text))
  }

  // ---------------------------------------------------------------------
  // usort by descending cell count (stable, as PHP 8's sort is)
  // ---------------------------------------------------------------------

  predicate SortedDesc(rows: seq<Row>)
  {
    forall i, j :: 0 <= i < j < |rows| ==> |rows[i]| >= |rows[j]|
  }

  /** Puts row after every row at least as wide: a later row stays after earlier rows of its width. */
  function Insert(row: Row, sorted: seq<Row>): (r: seq<Row>)
    ensures |r| == |sorted| + 1
  {
    if sorted == [] then [row]
    else if |sorted[0]| >= |row| then [sorted[0]] + Insert(row, sorted[1..])
    else [row] + sorted
  }

  lemma {:induction false} InsertPermutes(row: Row, sorted: seq<Row>)
    ensures multiset(Insert(row, sorted)) == multiset(sorted) + multiset{row}
    decreases |sorted|
  {
    if sorted != [] {
      assert sorted == [sorted[0]] + sorted[1..];
      if |sorted[0]| >= |row| {
        InsertPermutes(row, sorted[1..]);
      }
    }
  }

  lemma {:induction false} InsertSorted(row: Row, sorted: seq<Row>)
    requires SortedDesc(sorted)
    ensures SortedDesc(Insert(row, sorted))
    decreases |sorted|
  {
    if sorted != [] {
      if |sorted[0]| >= |row| {
        var tail := sorted[1..];
        assert SortedDesc(tail) by {
          assert forall i :: 0 <= i < |tail| ==> tail[i] == sorted[i + 1];
        }
        InsertSorted(row, tail);
        InsertWidths(row, tail, |sorted[0]|);
        ConsSorted(sorted[0], Insert(row, tail));
      } else {
        ConsSorted(row, sorted);
      }
    }
  }

  /** Inserting a row no wider than a bound into rows no wider than it keeps every row within it. */
  lemma {:induction false} InsertWidths(row: Row, rows: seq<Row>, bound: nat)
    requires |row| <= bound && forall k :: 0 <= k < |rows| ==> |rows[k]| <= bound
    ensures forall k :: 0 <= k < |Insert(row, rows)| ==> |Insert(row, rows)[k]| <= bound
    decreases |rows|
  {
    if rows != [] && |rows[0]| >= |row| {
      var tail := rows[1..];
      assert forall k :: 0 <= k < |tail| ==> tail[k] == rows[k + 1];
      InsertWidths(row, tail, bound);
      var r := Insert(row, tail);
      assert Insert(row, rows) == [rows[0]] + r;
      assert forall k :: 1 <= k < |r| + 1 ==> ([rows[0]] + r)[k] == r[k - 1];
    }
  }

  lemma ConsSorted(x: Row, r: seq<Row>)
    requires SortedDesc(r) && forall k :: 0 <= k < |r| ==> |r[k]| <= |x|
    ensures SortedDesc([x] + r)
  {
    var all := [x] + r;
    assert forall k :: 1 <= k < |all| ==> all[k] == r[k - 1];
  }

  /** usort($rows, fn($a, $b) => count($b) <=> count($a)), as an insertion sort. */
  function SortByWidth(rows: seq<Row>): (s: seq<Row>)
    ensures |s| == |rows|
  {
    if rows == [] then [] else Insert(rows[|rows| - 1], SortByWidth(rows[..|rows| - 1]))
  }

  /** The sorted rows are the rows, each as often as before. */
  lemma {:induction false} SortPermutes(rows: seq<Row>)
    ensures multiset(SortByWidth(rows)) == multiset(rows)
    decreases |rows|
  {
    if rows != [] {
      var init := rows[..|rows| - 1];
      assert rows == init + [rows[|rows| - 1]];
      SortPermutes(init);
      InsertPermutes(rows[|rows| - 1], SortByWidth(init));
    }
  }

  /** The sorted rows are widest first. */
  lemma {:induction false} SortSorted(rows: seq<Row>)
    ensures SortedDesc(SortByWidth(rows))
    decreases |rows|
  {
    if rows != [] {
      var init := rows[..|rows| - 1];
      SortSorted(init);
      InsertSorted(rows[|rows| - 1], SortByWidth(init));
    }
  }

  /** The rows of exactly w cells, in order. */
  function OfWidth(rows: seq<Row>, w: nat): seq<Row>
  {
    if rows == [] then []
    else (if |rows[0]| == w then [rows[0]] else []) + OfWidth(rows[1..], w)
  }

  lemma {:induction false} OfWidthAppend(a: seq<Row>, b: seq<Row>, w: nat)
    ensures OfWidth(a + b, w) == OfWidth(a, w) + OfWidth(b, w)
    decreases |a|
  {
    if a == [] {
      assert a + b == b;
    } else {
      var h := if |a[0]| == w then [a[0]] else [];
      Seqs.AppendHead(a, b);
      calc {
        OfWidth(a + b, w);
        h + OfWidth(a[1..] + b, w);
        { OfWidthAppend(a[1..], b, w); }
        h + (OfWidth(a[1..], w) + OfWidth(b, w));
        { Seqs.Assoc(h, OfWidth(a[1..], w), OfWidth(b, w)); }
        OfWidth(a, w) + OfWidth(b, w);
      }
    }
  }

  lemma {:induction false} OfWidthNone(rows: seq<Row>, w: nat)
    requires forall k :: 0 <= k < |rows| ==> |rows[k]| < w
    ensures OfWidth(rows, w) == []
    decreases |rows|
  {
    if rows != [] {
      OfWidthNone(rows[1..], w);
    }
  }

  lemma {:induction false} InsertOfWidth(row: Row, sorted: seq<Row>, w: nat)
    requires SortedDesc(sorted)
    ensures OfWidth(Insert(row, sorted), w) == OfWidth(sorted, w) + (if |row| == w then [row] else [])
    decreases |sorted|
  {
    var tail := if |row| == w then [row] else [];
    if sorted == [] {
      assert OfWidth([row], w) == tail by {
        assert [row][1..] == [];
      }
    } else if |sorted[0]| >= |row| {
      var head := if |sorted[0]| == w then [sorted[0]] else [];
      var ins := Insert(row, sorted);
      assert ins == [sorted[0]] + Insert(row, sorted[1..]);
      assert ins[0] == sorted[0] && ins[1..] == Insert(row, sorted[1..]);
      InsertOfWidth(row, sorted[1..], w);
      calc {
        OfWidth(ins, w);
        head + OfWidth(Insert(row, sorted[1..]), w);
        head + (OfWidth(sorted[1..], w) + tail);
        (head + OfWidth(sorted[1..], w)) + tail;
      }
    } else {
      var ins := Insert(row, sorted);
      assert ins == [row] + sorted;
      assert ins[0] == row && ins[1..] == sorted;
      if |row| == w {
        OfWidthNone(sorted, w);
      }
    }
  }

  /** The sort is stable: the rows of each width keep their order. */
  lemma {:induction false} SortStable(rows: seq<Row>, w: nat)
    ensures OfWidth(SortByWidth(rows), w) == OfWidth(rows, w)
    decreases |rows|
  {
    if rows != [] {
      var init := rows[..|rows| - 1];
      var last := rows[|rows| - 1];
      var tail := if |last| == w then [last] else [];
      assert OfWidth([last], w) == tail by {
        assert [last][1..] == [];
      }
      calc {
        OfWidth(SortByWidth(rows), w);
        OfWidth(Insert(last, SortByWidth(init)), w);
        { SortSorted(init); InsertOfWidth(last, SortByWidth(init), w); }
        OfWidth(SortByWidth(init), w) + tail;
        { SortStable(init, w); }
        OfWidth(init, w) + OfWidth([last], w);
        { OfWidthAppend(init, [last], w); }
        OfWidth(init + [last], w);
        { assert rows == init + [last]; }
        OfWidth(rows, w);
      }
    }
  }

  /** Where the first row of exactly w cells is. */
  function IndexOfWidth(rows: seq<Row>, w: nat): (i: nat)
    requires OfWidth(rows, w) != []
    ensures i < |rows| && rows[i] == OfWidth(rows, w)[0] && |rows[i]| == w
    ensures forall j :: 0 <= j < i ==> |rows[j]| != w
  {
    if |rows[0]| == w then 0 else 1 + IndexOfWidth(rows[1..], w)
  }

  /**
   * The header array_shift takes off the sorted rows is the first of the
   * widest rows: no row is wider, and every row before it is narrower.
   */
  lemma HeaderIsFirstWidest(rows: seq<Row>)
    requires rows != []
    ensures var h := SortByWidth(rows)[0];
      (forall j :: 0 <= j < |rows| ==> |rows[j]| <= |h|)
      && OfWidth(rows, |h|) != []
      && rows[IndexOfWidth(rows, |h|)] == h
      && forall j :: 0 <= j < IndexOfWidth(rows, |h|) ==> |rows[j]| < |h|
  {
    var s := SortByWidth(rows);
    var h := s[0];
    SortPermutes(rows);
    SortSorted(rows);
    forall j | 0 <= j < |rows|
      ensures |rows[j]| <= |h|
    {
      assert rows[j] in multiset(s);
      var m :| 0 <= m < |s| && s[m] == rows[j];
    }
    SortStable(rows, |h|);
    assert OfWidth(s, |h|)[0] == h;
  }

  // ---------------------------------------------------------------------
  // array_pad and one page's table
  // ---------------------------------------------------------------------

  /** array_pad($row, $n, ''): the row's cells, then empty cells up to n; never shorter than the row. */
  function Pad(row: Row, n: nat): (r: Row)
    ensures |r| == if n <= |row| then |row| else n
    ensures r[..|row|] == row
    ensures forall k :: |row| <= k < |r| ==> r[k] == ""
  {
    if n <= |row| then row else row + seq(n - |row|, _ => "")
  }

  function PadAll(rows: seq<Row>, n: nat): (r: seq<Row>)
    ensures |r| == |rows|
  {
    seq(|rows|, k requires 0 <= k < |rows| => Pad(rows[k], n))
  }

  /** A page's header and the page's other rows after padding. */
  datatype Table = Table(header: Row, body: seq<Row>)

  /** The header and padded remaining rows of a page's candidates; None when it has none. */
  function TableOf(rows: seq<Row>): Option<Table>
  {
    if rows == [] then None
    else
      var sorted := SortByWidth(rows);
      Some(Table(sorted[0], PadAll(sorted[1..], |sorted[0]|)))
  }

  lemma TableOfNone(rows: seq<Row>)
    ensures TableOf(rows).None? <==> rows == []
  {
  }

  function PageTable(text: string): Option<Table>
  {
    TableOf(PageRows(text))
  }

  /**
   * The table of some candidate rows: its header is the first widest row,
   * and every other row appears once below it, widest first, as its own
   * cells followed by empty cells up to the header's width.
   */
  lemma TableShape(rows: seq<Row>)
    requires rows != []
    ensures var sorted := SortByWidth(rows);
      var t := TableOf(rows).value;
      (forall j :: 0 <= j < |rows| ==> |rows[j]| <= |t.header|)
      && OfWidth(rows, |t.header|) != []
      && rows[IndexOfWidth(rows, |t.header|)] == t.header
      && (forall j :: 0 <= j < IndexOfWidth(rows, |t.header|) ==> |rows[j]| < |t.header|)
      && multiset([t.header] + sorted[1..]) == multiset(rows)
      && SortedDesc(sorted[1..])
      && |t.body| == |rows| - 1
      && forall k :: 0 <= k < |t.body| ==>
           |t.body[k]| == |t.header| && t.body[k] == Pad(sorted[k + 1], |t.header|)
           && t.body[k][..|sorted[k + 1]|] == sorted[k + 1]
  {
    var sorted := SortByWidth(rows);
    var h := sorted[0];
    var t := TableOf(rows).value;
    assert t.header == h && t.body == PadAll(sorted[1..], |h|);
    HeaderIsFirstWidest(rows);
    assert multiset([h] + sorted[1..]) == multiset(rows) by {
      SortPermutes(rows);
      assert sorted == [h] + sorted[1..];
    }
    SortSorted(rows);
    BodyPadded(sorted);
  }

  /** Below the widest of rows sorted widest first, each row padded to the header's width. */
  lemma BodyPadded(sorted: seq<Row>)
    requires sorted != [] && SortedDesc(sorted)
    ensures var body := PadAll(sorted[1..], |sorted[0]|);
      SortedDesc(sorted[1..])
      && |body| == |sorted| - 1
      && forall k :: 0 <= k < |body| ==>
           |body[k]| == |sorted[0]| && body[k] == Pad(sorted[k + 1], |sorted[0]|)
           && body[k][..|sorted[k + 1]|] == sorted[k + 1]
  {
    var h := sorted[0];
    var body := PadAll(sorted[1..], |h|);
    forall k | 0 <= k < |body|
      ensures |body[k]| == |h| && body[k] == Pad(sorted[k + 1], |h|)
        && body[k][..|sorted[k + 1]|] == sorted[k + 1]
    {
      assert sorted[1..][k] == sorted[k + 1];
      assert |sorted[k + 1]| <= |h|;
    }
    assert SortedDesc(sorted[1..]) by {
      assert forall k :: 0 <= k < |sorted| - 1 ==> sorted[1..][k] == sorted[k + 1];
    }
  }

  /** A page has a table exactly when it has a candidate row, and its header then has at least two cells. */
  lemma PageTableHeader(text: string)
    ensures PageTable(text).None? <==> PageRows(text) == []
    ensures PageTable(text).Some? ==> |PageTable(text).value.header| >= 2
  {
    var rows := PageRows(text);
    if rows != [] {
      TableShape(rows);
    }
  }

  // ---------------------------------------------------------------------
  // All pages
  // ---------------------------------------------------------------------

  /** The table of each page, in page order. */
  function Tables(pages: seq<string>): (ts: seq<Option<Table>>)
    ensures |ts| == |pages|
  {
    if pages == [] then [] else Tables(pages[..|pages| - 1]) + [PageTable(pages[|pages| - 1])]
  }

  lemma {:induction false} TablesAt(pages: seq<string>, k: nat)
    requires k < |pages|
    ensures Tables(pages)[k] == PageTable(pages[k])
    decreases |pages|
  {
    if k < |pages| - 1 {
      var init := pages[..|pages| - 1];
      TablesAt(init, k);
      assert init[k] == pages[k];
    }
  }

  lemma GatherSnoc(ts: seq<Option<Table>>, t: Option<Table>)
    ensures Gather(ts + [t]) == AddTable(Gather(ts), t)
  {
    assert (ts + [t])[..|ts|] == ts;
  }

  /** One iteration of the page loop: the header only when nothing is stored yet, then the other rows. */
  function AddTable(allRows: seq<Row>, t: Option<Table>): seq<Row>
  {
    match t
    case None => allRows
    case Some(Table(header, body)) => (if allRows == [] then allRows + [header] else allRows) + body
  }

  /** The rows the page loop has gathered after pages with the given tables. */
  function Gather(ts: seq<Option<Table>>): seq<Row>
  {
    if ts == [] then [] else AddTable(Gather(ts[..|ts| - 1]), ts[|ts| - 1])
  }

  /** The rows $allRows holds after the page loop (line 77 of the script). */
  function Tabulate(pages: seq<string>): seq<Row>
  {
    Gather(Tables(pages))
  }

  /** The header of the first page that has a table. */
  function FirstHeader(ts: seq<Option<Table>>): Option<Row>
  {
    if ts == [] then None
    else match ts[0]
      case Some(t) => Some(t.header)
      case None => FirstHeader(ts[1..])
  }

  /** The padded rows below each page's header, page after page. */
  function Bodies(ts: seq<Option<Table>>): seq<Row>
  {
    if ts == [] then []
    else
      var more := match ts[|ts| - 1] case None => [] case Some(t) => t.body;
      Bodies(ts[..|ts| - 1]) + more
  }

  /** How many candidate rows the pages have below their headers. */
  function BodyCount(pages: seq<string>): nat
  {
    if pages == [] then 0
    else
      var rows := PageRows(pages[|pages| - 1]);
      BodyCount(pages[..|pages| - 1]) + (if rows == [] then 0 else |rows| - 1)
  }

  lemma {:induction false} FirstHeaderNoneIff(ts: seq<Option<Table>>)
    ensures FirstHeader(ts).None? <==> forall k :: 0 <= k < |ts| ==> ts[k].None?
    decreases |ts|
  {
    if ts != [] {
      FirstHeaderNoneIff(ts[1..]);
      assert forall k :: 1 <= k < |ts| ==> ts[k] == ts[1..][k - 1];
    }
  }

  lemma {:induction false} FirstHeaderSnoc(ts: seq<Option<Table>>, t: Option<Table>)
    ensures FirstHeader(ts + [t]) ==
      if FirstHeader(ts).Some? then FirstHeader(ts) else match t case None => None case Some(t) => Some(t.header)
    decreases |ts|
  {
    if ts == [] {
      assert ts + [t] == [t];
    } else {
      assert (ts + [t])[0] == ts[0];
      assert (ts + [t])[1..] == ts[1..] + [t];
      FirstHeaderSnoc(ts[1..], t);
    }
  }

  lemma {:induction false} NoTablesNoBodies(ts: seq<Option<Table>>)
    requires forall k :: 0 <= k < |ts| ==> ts[k].None?
    ensures Bodies(ts) == []
    decreases |ts|
  {
    if ts != [] {
      var init := ts[..|ts| - 1];
      assert forall k :: 0 <= k < |init| ==> init[k] == ts[k];
      NoTablesNoBodies(init);
    }
  }

  /** The gathered rows are the first table page's header, then every page's other rows. */
  lemma {:induction false} GatherSplit(ts: seq<Option<Table>>)
    ensures Gather(ts) == (match FirstHeader(ts) case None => [] case Some(h) => [h]) + Bodies(ts)
    decreases |ts|
  {
    if ts != [] {
      var init := ts[..|ts| - 1];
      var last := ts[|ts| - 1];
      assert ts == init + [last];
      GatherSplit(init);
      FirstHeaderSnoc(init, last);
      if FirstHeader(init).None? {
        FirstHeaderNoneIff(init);
        NoTablesNoBodies(init);
      }
    }
  }

  lemma {:induction false} BodiesCount(pages: seq<string>)
    ensures |Bodies(Tables(pages))| == BodyCount(pages)
    decreases |pages|
  {
    if pages != [] {
      var init := pages[..|pages| - 1];
      var last := pages[|pages| - 1];
      BodiesCount(init);
      assert Tables(pages)[..|pages| - 1] == Tables(init);
      assert Tables(pages)[|pages| - 1] == PageTable(last);
      var rows := PageRows(last);
      if rows != [] {
        TableShape(rows);
      }
    }
  }

  /** No page has a table exactly when no page has a candidate row. */
  lemma NoTablesIff(pages: seq<string>)
    ensures (forall k :: 0 <= k < |pages| ==> Tables(pages)[k].None?)
        <==> forall k :: 0 <= k < |pages| ==> PageRows(pages[k]) == []
  {
    var ts := Tables(pages);
    if forall k :: 0 <= k < |pages| ==> ts[k].None? {
      forall k | 0 <= k < |pages| ensures PageRows(pages[k]) == [] {
        TableNoneAt(pages, k);
      }
    } else {
      var k :| 0 <= k < |pages| && ts[k].Some?;
      TableNoneAt(pages, k);
      assert PageRows(pages[k]) != [];
    }
  }

  lemma TableNoneAt(pages: seq<string>, k: nat)
    requires k < |pages|
    ensures Tables(pages)[k].None? <==> PageRows(pages[k]) == []
  {
    TablesAt(pages, k);
    TableOfNone(PageRows(pages[k]));
  }

  /**
   * The rows written: the header of the first page with a table, then for
   * each such page its other candidate rows, so one more than the candidate
   * rows the pages have below their headers; none at all exactly when no
   * page has a candidate row.
   */
  lemma RowCount(pages: seq<string>)
    ensures Tabulate(pages) == (match FirstHeader(Tables(pages)) case None => [] case Some(h) => [h]) + Bodies(Tables(pages))
    ensures |Tabulate(pages)| == (if FirstHeader(Tables(pages)).Some? then 1 else 0) + BodyCount(pages)
    ensures Tabulate(pages) == [] <==> forall k :: 0 <= k < |pages| ==> PageRows(pages[k]) == []
  {
    GatherSplit(Tables(pages));
    BodiesCount(pages);
    FirstHeaderNoneIff(Tables(pages));
    NoTablesIff(pages);
  }

  // ---------------------------------------------------------------------
  // The reference $row left behind by the padding loop
  // ---------------------------------------------------------------------

  /**
   * The slot of the gathered rows that the variable $row still references
   * after the page loop. The padding foreach binds $row by reference to
   * each padded row in turn and nothing unsets it, and array_merge keeps a
   * referenced element a reference; so $row is left pointing at the last
   * row stored by the last page with rows below its header. When no page
   * has such rows, $row is never bound.
   */
  function RowAlias(ts: seq<Option<Table>>): Option<nat>
  {
    if Bodies(ts) == [] then None else Some(|Bodies(ts)|)
  }

  lemma AliasSnoc(ts: seq<Option<Table>>, t: Option<Table>)
    ensures RowAlias(ts + [t]) ==
      if t.Some? && t.value.body != [] then Some(|Gather(ts + [t])| - 1) else RowAlias(ts)
  {
    var all := ts + [t];
    assert all[..|ts|] == ts;
    assert Bodies(all) == Bodies(ts) + match t case None => [] case Some(t) => t.body;
    if Bodies(all) != [] {
      GatherSplit(all);
      FirstHeaderHas(all);
    }
  }

  /** Some page has a table when some page has rows below its header. */
  lemma FirstHeaderHas(ts: seq<Option<Table>>)
    requires Bodies(ts) != []
    ensures FirstHeader(ts).Some?
  {
    if FirstHeader(ts).None? {
      FirstHeaderNoneIff(ts);
      NoTablesNoBodies(ts);
    }
  }

  /**
   * The rows fputcsv receives from foreach ($allRows as $row) while $row
   * still references slot alias: each row is assigned through the
   * reference before it is written, so by the time the loop reaches that
   * slot it holds the row before it.
   */
  function WrittenThrough(rows: seq<Row>, alias: Option<nat>): seq<Row>
  {
    if alias.Some? && 0 < alias.value < |rows| then rows[alias.value := rows[alias.value - 1]] else rows
  }

  /**
   * As the script is written, the CSV file repeats the second-last row in
   * place of the last whenever some page has rows below its header; only
   * when no page has such rows are the gathered rows written as they are.
   */
  lemma AliasWrites(ts: seq<Option<Table>>)
    ensures var rows := Gather(ts);
      var w := WrittenThrough(rows, RowAlias(ts));
      |w| == |rows|
      && (Bodies(ts) == [] ==> w == rows)
      && (Bodies(ts) != [] ==> |rows| >= 2 && w == rows[..|rows| - 1] + [rows[|rows| - 2]])
  {
    GatherSplit(ts);
    if Bodies(ts) != [] {
      FirstHeaderHas(ts);
      var rows := Gather(ts);
      var n := |rows|;
      assert rows[n - 1 := rows[n - 2]] == rows[..n - 1] + [rows[n - 2]];
    }
  }

  /** The padded rows below a header are one fewer than the candidates. */
  lemma BodyLength(rows: seq<Row>)
    requires rows != []
    ensures |TableOf(rows).value.body| == |rows| - 1
  {
  }

  // ---------------------------------------------------------------------
  // The loops of the script
  // ---------------------------------------------------------------------

  /** The inner foreach over a page's lines, appending each line with at least two cells. */
  method PageCandidates(lines: seq<string>) returns (potentialRows: seq<Row>)
    ensures potentialRows == Candidates(lines)
  {
    potentialRows := [];
    ghost var done: seq<string> := [];
    var i := 0;
    while i < |lines|
      invariant 0 <= i <= |lines| && done == lines[..i]
      invariant potentialRows == Candidates(done)
    {
      var cols := PdfText.RowCells(lines[i]);
      var more := potentialRows;
      if |cols| >= 2 {
        more := more + [cols];
      }
      CandidatesStep(done, lines[i], potentialRows, more);
      Seqs.PrefixSnoc(lines, i);
      potentialRows, done := more, done + [lines[i]];
      i := i + 1;
    }
    assert done == lines;
  }

  /** One turn of the inner foreach: the line's cells are appended when there are at least two. */
  lemma CandidatesStep(init: seq<string>, l: string, before: seq<Row>, after: seq<Row>)
    requires before == Candidates(init)
    requires after == if |PdfText.RowCells(l)| >= 2 then before + [PdfText.RowCells(l)] else before
    ensures after == Candidates(init + [l])
  {
    CandidatesSnoc(init, l);
    CandidatesOne(l);
  }

  /** foreach ($potentialRows as &$row) $row = array_pad($row, $colCount, ''). */
  method PadRows(rows: array<Row>, colCount: nat)
    modifies rows
    ensures rows[..] == PadAll(old(rows[..]), colCount)
  {
    var k := 0;
    while k < rows.Length
      invariant 0 <= k <= rows.Length
      invariant forall j :: 0 <= j < k ==> rows[j] == Pad(old(rows[j]), colCount)
      invariant forall j :: k <= j < rows.Length ==> rows[j] == old(rows[j])
    {
      rows[k] := Pad(rows[k], colCount);
      k := k + 1;
    }
  }

  /**
   * One page of the loop: sort, take the header, pad the rest, and store.
   * When there are rows to pad, $row is left referencing the last of them,
   * which becomes the last stored row; otherwise it keeps what it had.
   */
  method StorePage(allRows: seq<Row>, potentialRows: seq<Row>, aliasBefore: Option<nat>)
    returns (stored: seq<Row>, alias: Option<nat>)
    ensures stored == AddTable(allRows, TableOf(potentialRows))
    ensures alias == if |potentialRows| >= 2 then Some(|stored| - 1) else aliasBefore
  {
    stored := allRows;
    alias := aliasBefore;
    if potentialRows != [] {
      var sorted := SortByWidth(potentialRows);
      var header := sorted[0];
      var rest := new Row[|sorted| - 1](k requires 0 <= k < |sorted| - 1 => sorted[k + 1]);
      assert rest[..] == sorted[1..];
      var colCount := |header|;
      PadRows(rest, colCount);
      if stored == [] {
        stored := stored + [header];
      }
      stored := stored + rest[..];
      if rest.Length > 0 {
        alias := Some(|stored| - 1);
      }
    }
  }

  /** The foreach over the pages, growing $allRows; alias is the slot $row references afterwards. */
  method ExtractTable(pages: seq<string>) returns (allRows: seq<Row>, alias: Option<nat>)
    ensures allRows == Tabulate(pages)
    ensures alias == RowAlias(Tables(pages))
  {
    allRows := [];
    alias := None;
    var p := 0;
    while p < |pages|
      invariant 0 <= p <= |pages|
      invariant allRows == Gather(Tables(pages[..p]))
      invariant alias == RowAlias(Tables(pages[..p]))
    {
      var potentialRows := PageCandidates(PageLines(pages[p]));
      var stored, aliasAfter := StorePage(allRows, potentialRows, alias);
      StoreStep(Tables(pages[..p]), potentialRows, allRows, alias, stored, aliasAfter);
      TablesSnoc(pages, p);
      allRows, alias := stored, aliasAfter;
      p := p + 1;
    }
    assert pages[..|pages|] == pages;
  }

  /** The tables of one more page. */
  lemma TablesSnoc(pages: seq<string>, p: nat)
    requires p < |pages|
    ensures Tables(pages[..p + 1]) == Tables(pages[..p]) + [TableOf(Candidates(PageLines(pages[p])))]
  {
    assert pages[..p + 1][..p] == pages[..p];
  }

  /** One page of the loop keeps the rows and the referenced slot in step with the tables so far. */
  lemma StoreStep(ts: seq<Option<Table>>, rows: seq<Row>, allRows: seq<Row>, alias: Option<nat>,
                  stored: seq<Row>, aliasAfter: Option<nat>)
    requires allRows == Gather(ts) && alias == RowAlias(ts)
    requires stored == AddTable(allRows, TableOf(rows))
    requires aliasAfter == if |rows| >= 2 then Some(|stored| - 1) else alias
    ensures stored == Gather(ts + [TableOf(rows)])
    ensures aliasAfter == RowAlias(ts + [TableOf(rows)])
  {
    var t := TableOf(rows);
    assert stored == Gather(ts + [t]) by {
      GatherSnoc(ts, t);
    }
    assert (t.Some? && t.value.body != []) <==> |rows| >= 2 by {
      TableOfNone(rows);
      if rows != [] {
        BodyLength(rows);
      }
    }
    AliasSnoc(ts, t);
  }

  /**
   * foreach ($allRows as $row) fputcsv($fp, $row): the rows handed to
   * fputcsv, in order, when $row references slot alias of the array.
   */
  method WriteRows(allRows: seq<Row>, alias: Option<nat>) returns (written: seq<Row>)
    requires alias.Some? ==> alias.value < |allRows|
    ensures written == WrittenThrough(allRows, alias)
  {
    var slots := new Row[|allRows|](k requires 0 <= k < |allRows| => allRows[k]);
    ghost var w := WrittenThrough(allRows, alias);
    written := [];
    var i := 0;
    while i < slots.Length
      invariant 0 <= i <= slots.Length
      invariant written == w[..i]
      invariant forall j :: 0 <= j < slots.Length && (alias.None? || j != alias.value) ==> slots[j] == allRows[j]
      invariant alias.Some? ==> slots[alias.value] == if i == 0 then allRows[alias.value] else w[i - 1]
    {
      var row := slots[i];
      assert row == w[i];
      assert w[..i + 1] == w[..i] + [row];
      if alias.Some? {
        slots[alias.value] := row;
      }
      written := written + [row];
      i := i + 1;
    }
  }

  /**
   * The script after the page loop, as written: stop with the message when
   * nothing was gathered, otherwise the rows fputcsv receives. They are the
   * gathered rows with the last one replaced by a copy of the one before
   * it whenever some page has rows below its header.
   */
  method ConvertAsWritten(pages: seq<string>) returns (r: Result<seq<Row>, string>)
    ensures r.Failure? <==> forall k :: 0 <= k < |pages| ==> PageRows(pages[k]) == []
    ensures r.Failure? ==> r.error == NoTableMessage
    ensures r.Success? ==> r.value == WrittenThrough(Tabulate(pages), RowAlias(Tables(pages)))
    ensures r.Success? ==> |r.value| == 1 + BodyCount(pages)
  {
    var allRows, alias := ExtractTable(pages);
    ghost var ts := Tables(pages);
    RowCount(pages);
    if allRows == [] {
      return Failure(NoTableMessage);
    }
    assert FirstHeader(ts).Some? by {
      if FirstHeader(ts).None? {
        FirstHeaderNoneIff(ts);
        NoTablesNoBodies(ts);
      }
    }
    AliasWrites(ts);
    var written := WriteRows(allRows, alias);
    return Success(written);
  }

  /**
   * The script after the page loop, with the reference released after the
   * padding loop (unset($row)): stop with the message when nothing was
   * gathered, otherwise every gathered row is written as it is, the first
   * being the header of the first page with a table.
   */
  method Convert(pages: seq<string>) returns (r: Result<seq<Row>, string>)
    ensures r.Failure? <==> forall k :: 0 <= k < |pages| ==> PageRows(pages[k]) == []
    ensures r.Failure? ==> r.error == NoTableMessage
    ensures r.Success? ==> r.value == Tabulate(pages)
    ensures r.Success? ==> FirstHeader(Tables(pages)).Some? && |r.value| == 1 + BodyCount(pages)
    ensures r.Success? ==> r.value[0] == FirstHeader(Tables(pages)).value
  {
    var allRows, _ := ExtractTable(pages);
    ghost var ts := Tables(pages);
    RowCount(pages);
    if allRows == [] {
      return Failure(NoTableMessage);
    }
    assert FirstHeader(ts).Some? by {
      if FirstHeader(ts).None? {
        FirstHeaderNoneIff(ts);
        NoTablesNoBodies(ts);
      }
    }
    var written := WriteRows(allRows, None);
    return Success(written);
  }
}
