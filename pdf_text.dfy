/**
 * The string handling of PDF_to_CSV.php: cleanCell, the split of a page's
 * text into lines, the blank-line filter, tab expansion, and the split of a
 * line into cells on runs of two or more spaces. Each regular expression is
 * stated directly on characters. Without the u modifier, PCRE's \s matches
 * space, \t, \n, \v, \f and \r.
 */
module PdfText {
  import Php
  import Seqs

  /** A character PCRE's \s matches. */
  predicate IsSpace(c: char)
  {
    c == ' ' || c == '\t' || c == '\n' || c as int == 11 || c as int == 12 || c == '\r'
  }

  /** Whitespace only as single spaces: no other \s character, and no two \s side by side. */
  predicate Collapsed(s: string)
  {
    (forall i :: 0 <= i < |s| && IsSpace(s[i]) ==> s[i] == ' ')
    && (forall i :: 0 <= i < |s| - 1 ==> !(IsSpace(s[i]) && IsSpace(s[i + 1])))
  }

  /** The characters that are neither \s nor NUL: what cleaning a cell must keep, in order. */
  function Content(s: string): string
  {
    if s == [] then "" else Kept(s[0]) + Content(s[1..])
  }

  function Kept(c: char): string
  {
    if IsSpace(c) || c as int == 0 then "" else [c]
  }

  // ---------------------------------------------------------------------
  // cleanCell: trim(preg_replace('/\s+/', ' ', $cell))
  // ---------------------------------------------------------------------

  /** The rest of s after its leading run of \s. */
  function SkipSpace(s: string): (r: string)
    ensures |r| <= |s| && r == s[|s| - |r|..]
    ensures r == [] || !IsSpace(r[0])
    ensures s != [] && IsSpace(s[0]) ==> |r| < |s|
  {
    if s != [] && IsSpace(s[0]) then SkipSpace(s[1..]) else s
  }

  /** preg_replace('/\s+/', ' ', s): every maximal run of \s becomes one space. */
  function CollapseWs(s: string): string
    decreases |s|
  {
    if s == [] then ""
    else if IsSpace(s[0]) then " " + CollapseWs(SkipSpace(s))
    else [s[0]] + CollapseWs(s[1..])
  }

  /** After collapsing, whitespace only comes as single spaces; an empty or \s start is kept. */
  lemma {:induction false} CollapseShape(s: string)
    ensures var r := CollapseWs(s);
      (r == [] <==> s == []) && (r != [] ==> (IsSpace(r[0]) <==> IsSpace(s[0]))) && Collapsed(r)
    decreases |s|
  {
    if s != [] {
      var tail := if IsSpace(s[0]) then SkipSpace(s) else s[1..];
      var head := if IsSpace(s[0]) then ' ' else s[0];
      CollapseShape(tail);
      var t := CollapseWs(tail);
      assert CollapseWs(s) == [head] + t;
      assert t == [] || !IsSpace(head) || !IsSpace(t[0]);
      ConsCollapsed(head, t);
    }
  }

  /** One character in front of a collapsed string that does not start a second \s. */
  lemma ConsCollapsed(c: char, t: string)
    requires Collapsed(t)
    requires IsSpace(c) ==> c == ' '
    requires t == [] || !IsSpace(c) || !IsSpace(t[0])
    ensures Collapsed([c] + t)
  {
    var r := [c] + t;
    assert forall i :: 1 <= i < |r| ==> r[i] == t[i - 1];
  }

  /** cleanCell. */
  function CleanCell(cell: string): string
  {
    Php.Trim(CollapseWs(cell))
  }

  lemma {:induction false} ContentAppend(a: string, b: string)
    ensures Content(a + b) == Content(a) + Content(b)
    decreases |a|
  {
    if a != [] {
      assert (a + b)[0] == a[0];
      assert (a + b)[1..] == a[1..] + b;
      ContentAppend(a[1..], b);
      calc {
        Content(a + b);
        Kept(a[0]) + Content(a[1..] + b);
        Kept(a[0]) + (Content(a[1..]) + Content(b));
        (Kept(a[0]) + Content(a[1..])) + Content(b);
      }
    } else {
      assert a + b == b;
    }
  }

  /** A string of trim() characters has no content. */
  lemma {:induction false} ContentOfTrimChars(s: string)
    requires forall k :: 0 <= k < |s| ==> Php.IsTrimChar(s[k])
    ensures Content(s) == ""
    decreases |s|
  {
    if s != [] {
      ContentOfTrimChars(s[1..]);
    }
  }

  lemma {:induction false} SkipSpaceContent(s: string)
    ensures Content(SkipSpace(s)) == Content(s)
    decreases |s|
  {
    if s != [] && IsSpace(s[0]) {
      SkipSpaceContent(s[1..]);
    }
  }

  /** Collapsing whitespace keeps every other character, in order. */
  lemma {:induction false} CollapseKeepsContent(s: string)
    ensures Content(CollapseWs(s)) == Content(s)
    decreases |s|
  {
    if s != [] {
      if IsSpace(s[0]) {
        var t := SkipSpace(s);
        CollapseKeepsContent(t);
        SkipSpaceContent(s);
        ContentAppend(" ", CollapseWs(t));
      } else {
        CollapseKeepsContent(s[1..]);
        ContentAppend([s[0]], CollapseWs(s[1..]));
      }
    }
  }

  /** trim() only cuts characters without content. */
  lemma TrimKeepsContent(s: string)
    ensures Content(Php.Trim(s)) == Content(s)
  {
    TrimLeftKeepsContent(s);
    TrimRightKeepsContent(Php.TrimLeft(s));
  }

  lemma {:induction false} TrimLeftKeepsContent(s: string)
    ensures Content(Php.TrimLeft(s)) == Content(s)
    decreases |s|
  {
    if s != [] && Php.IsTrimChar(s[0]) {
      TrimLeftKeepsContent(s[1..]);
    }
  }

  lemma {:induction false} TrimRightKeepsContent(s: string)
    ensures Content(Php.TrimRight(s)) == Content(s)
    decreases |s|
  {
    if s != [] && Php.IsTrimChar(s[|s| - 1]) {
      var init := s[..|s| - 1];
      TrimRightKeepsContent(init);
      assert s == init + [s[|s| - 1]];
      ContentAppend(init, [s[|s| - 1]]);
    }
  }

  lemma CollapsedSlice(s: string, i: int, j: int)
    requires Collapsed(s) && 0 <= i <= j <= |s|
    ensures Collapsed(s[i..j])
  {
    var t := s[i..j];
    assert forall k :: 0 <= k < |t| ==> t[k] == s[i + k];
  }

  /**
   * A cleaned cell starts and ends with a character that is not \s, holds
   * no \s but single spaces, and keeps every character of the cell that is
   * neither \s nor NUL, in order.
   */
  lemma CleanCellShape(cell: string)
    ensures var r := CleanCell(cell);
      Collapsed(r) && (r == [] || (!IsSpace(r[0]) && !IsSpace(r[|r| - 1])))
      && Content(r) == Content(cell)
  {
    var c := CollapseWs(cell);
    var r := Php.Trim(c);
    Php.TrimShape(c);
    CollapseShape(cell);
    var i, j :| 0 <= i <= j <= |c| && r == c[i..j];
    CollapsedSlice(c, i, j);
    CollapseKeepsContent(cell);
    TrimKeepsContent(c);
  }

  /** A collapsed string is left as it is by a second collapse. */
  lemma {:induction false} CollapseFixed(s: string)
    requires Collapsed(s)
    ensures CollapseWs(s) == s
    decreases |s|
  {
    if s != [] {
      CollapsedSlice(s, 1, |s|);
      CollapseFixed(s[1..]);
      if IsSpace(s[0]) {
        assert s[1..] == [] || !IsSpace(s[1]);
        assert SkipSpace(s) == s[1..];
      }
      assert s == [s[0]] + s[1..];
    }
  }

  /** A string whose ends are not trim() characters is its own trim(). */
  lemma TrimFixed(s: string)
    requires s == [] || (!Php.IsTrimChar(s[0]) && !Php.IsTrimChar(s[|s| - 1]))
    ensures Php.Trim(s) == s
  {
    assert Php.TrimLeft(s) == s;
    assert Php.TrimRight(s) == s;
  }

  /** cleanCell is idempotent. */
  lemma CleanCellIdempotent(cell: string)
    ensures CleanCell(CleanCell(cell)) == CleanCell(cell)
  {
    var r := CleanCell(cell);
    CleanCellShape(cell);
    Php.TrimShape(CollapseWs(cell));
    CollapseFixed(r);
    TrimFixed(r);
  }

  /** A non-empty string wholly of \s: one match of \s+. */
  predicate AllSpace(s: string)
  {
    forall i :: 0 <= i < |s| ==> IsSpace(s[i])
  }

  /** A character cleanCell never cuts from the end of a cell: neither \s nor NUL. */
  predicate Visible(c: char)
  {
    !IsSpace(c) && c as int != 0
  }

  /** Skipping the \s run at the front of a + b. */
  lemma {:induction false} SkipSpaceAppend(a: string, b: string)
    ensures AllSpace(a) && (b == [] || !IsSpace(b[0])) ==> SkipSpace(a + b) == b
    ensures !AllSpace(a) ==> SkipSpace(a + b) == SkipSpace(a) + b
    decreases |a|
  {
    if a == [] {
      assert a + b == b;
    } else if IsSpace(a[0]) {
      assert (a + b)[0] == a[0];
      assert (a + b)[1..] == a[1..] + b;
      SkipSpaceAppend(a[1..], b);
      AllSpaceTail(a);
    } else {
      assert (a + b)[0] == a[0];
    }
  }

  lemma AllSpaceTail(a: string)
    requires a != [] && IsSpace(a[0])
    ensures AllSpace(a) <==> AllSpace(a[1..])
  {
    assert forall i :: 1 <= i < |a| ==> a[i] == a[1..][i - 1];
  }

  /** Collapsing distributes over a cut that does not fall inside a run of \s. */
  lemma {:induction false} CollapseAppend(a: string, b: string)
    requires a == [] || b == [] || !IsSpace(a[|a| - 1]) || !IsSpace(b[0])
    ensures CollapseWs(a + b) == CollapseWs(a) + CollapseWs(b)
    decreases |a|, 1
  {
    if a == [] {
      assert a + b == b;
    } else if b == [] {
      assert a + b == a;
    } else if !IsSpace(a[0]) {
      assert (a + b)[0] == a[0];
      assert (a + b)[1..] == a[1..] + b;
      CollapseAppend(a[1..], b);
      assert CollapseWs(a + b) == [a[0]] + CollapseWs(a[1..] + b);
      Seqs.Assoc([a[0]], CollapseWs(a[1..]), CollapseWs(b));
    } else {
      CollapseAppendSpace(a, b);
    }
  }

  /** The case of CollapseAppend where a starts with \s. */
  lemma CollapseAppendSpace(a: string, b: string)
    requires a != [] && b != [] && IsSpace(a[0])
    requires !IsSpace(a[|a| - 1]) || !IsSpace(b[0])
    ensures CollapseWs(a + b) == CollapseWs(a) + CollapseWs(b)
    decreases |a|, 0
  {
    assert (a + b)[0] == a[0];
    var cb := CollapseWs(b);
    if AllSpace(a) {
      CollapseAllSpace(a, b);
    } else {
      SkipSpaceAppend(a, b);
      var t := SkipSpace(a);
      assert t == [] || t[|t| - 1] == a[|a| - 1];
      CollapseAppend(t, b);
      var ct := CollapseWs(t);
      calc {
        CollapseWs(a + b);
        " " + CollapseWs(SkipSpace(a + b));
        " " + CollapseWs(t + b);
        " " + (ct + cb);
        { Seqs.Assoc(" ", ct, cb); }
        (" " + ct) + cb;
      }
    }
  }

  /** A run of \s collapses to one space, also in front of text that starts with a character not \s. */
  lemma CollapseAllSpace(a: string, b: string)
    requires a != [] && AllSpace(a) && (b == [] || !IsSpace(b[0]))
    ensures CollapseWs(a) == " " && CollapseWs(a + b) == " " + CollapseWs(b)
  {
    assert IsSpace(a[0]) && (a + b)[0] == a[0];
    SkipAllSpace(a);
    SkipSpaceAppend(a, b);
    assert CollapseWs(SkipSpace(a)) == "";
  }

  lemma {:induction false} SkipAllSpace(a: string)
    requires AllSpace(a)
    ensures SkipSpace(a) == []
    decreases |a|
  {
    if a != [] {
      assert AllSpace(a[1..]) by {
        assert forall i :: 0 <= i < |a| - 1 ==> a[1..][i] == a[i + 1];
      }
      SkipAllSpace(a[1..]);
    }
  }

  /**
   * One maximal run of \s becomes exactly one space and the text either
   * side is collapsed on its own; a string without \s is left as it is.
   */
  lemma CollapseGap(a: string, ws: string, b: string)
    requires ws != [] && AllSpace(ws)
    requires a == [] || !IsSpace(a[|a| - 1])
    requires b == [] || !IsSpace(b[0])
    ensures CollapseWs(a + ws + b) == CollapseWs(a) + " " + CollapseWs(b)
    ensures (forall i :: 0 <= i < |a| ==> !IsSpace(a[i])) ==> CollapseWs(a) == a
  {
    Seqs.Assoc(a, ws, b);
    CollapseAppend(a, ws + b);
    CollapseAppend(ws, b);
    SkipAllSpace(ws);
    assert CollapseWs(ws) == " ";
    Seqs.Assoc(CollapseWs(a), " ", CollapseWs(b));
    if forall i :: 0 <= i < |a| ==> !IsSpace(a[i]) {
      CollapseFixed(a);
    }
  }

  /** A string that ends in a character other than \s still ends in it after collapsing. */
  lemma CollapseLast(a: string)
    requires a != [] && !IsSpace(a[|a| - 1])
    ensures CollapseWs(a) != [] && CollapseWs(a)[|CollapseWs(a)| - 1] == a[|a| - 1]
  {
    var init := a[..|a| - 1];
    assert a == init + [a[|a| - 1]];
    CollapseAppend(init, [a[|a| - 1]]);
  }

  /**
   * cleanCell on a run of \s between two characters it keeps: the run
   * becomes one space and each side is cleaned on its own. So cleaning
   * never joins two words and never cuts one.
   */
  lemma CleanCellGap(a: string, ws: string, b: string)
    requires ws != [] && AllSpace(ws)
    requires a != [] && Visible(a[|a| - 1])
    requires b != [] && Visible(b[0])
    ensures CleanCell(a + ws + b) == CleanCell(a) + " " + CleanCell(b)
  {
    CollapseGap(a, ws, b);
    var x := CollapseWs(a);
    var y := CollapseWs(b);
    CollapseLast(a);
    assert y[0] == b[0];
    Php.TrimLeftAppend(x, " " + y);
    var l := Php.TrimLeft(x);
    Php.TrimLeftShape(x);
    assert l != [] && l[|l| - 1] == x[|x| - 1];
    Php.TrimRightPrepend(l + " ", y);
    Seqs.Assoc(x, " ", y);
    Seqs.Assoc(l, " ", y);
    assert Php.TrimRight(l) == l;
    assert Php.TrimLeft(y) == y;
  }

  // ---------------------------------------------------------------------
  // preg_split('/\r\n|\r|\n/', $text) and the blank-line filter
  // ---------------------------------------------------------------------

  /** The page text cut at every CRLF, lone CR and lone LF; empty pieces are kept. */
  function SplitLines(text: string): (lines: seq<string>)
    ensures |lines| >= 1
    decreases |text|
  {
    if text == [] then [""]
    else if text[0] == '\r' && |text| >= 2 && text[1] == '\n' then [""] + SplitLines(text[2..])
    else if text[0] == '\r' || text[0] == '\n' then [""] + SplitLines(text[1..])
    else
      var rest := SplitLines(text[1..]);
      [[text[0]] + rest[0]] + rest[1..]
  }

  /** No line holds a CR or an LF. */
  lemma {:induction false} SplitLinesShape(text: string)
    ensures forall k :: 0 <= k < |SplitLines(text)| ==> '\r' !in SplitLines(text)[k] && '\n' !in SplitLines(text)[k]
    decreases |text|
  {
    if text != [] {
      var rest := if text[0] == '\r' && |text| >= 2 && text[1] == '\n' then text[2..] else text[1..];
      SplitLinesShape(rest);
      var lines := SplitLines(text);
      var tail := SplitLines(rest);
      if text[0] == '\r' || text[0] == '\n' {
        assert lines == [""] + tail;
        assert forall k :: 1 <= k < |lines| ==> lines[k] == tail[k - 1];
      } else {
        assert lines == [[text[0]] + tail[0]] + tail[1..];
        assert forall k :: 1 <= k < |lines| ==> lines[k] == tail[k];
      }
    }
  }

  /** The lines put back together with LF between them. */
  function JoinLf(lines: seq<string>): string
    requires |lines| >= 1
  {
    if |lines| == 1 then lines[0] else lines[0] + "\n" + JoinLf(lines[1..])
  }

  /** The text with every line end written as LF: a CRLF pair or a lone CR becomes one LF. */
  function Eol(text: string): string
    decreases |text|
  {
    if text == [] then ""
    else if text[0] == '\r' then "\n" + Eol(if |text| >= 2 && text[1] == '\n' then text[2..] else text[1..])
    else [text[0]] + Eol(text[1..])
  }

  /** Text without CR is its own normal form. */
  lemma {:induction false} EolNoCr(text: string)
    requires '\r' !in text
    ensures Eol(text) == text
    decreases |text|
  {
    if text != [] {
      assert '\r' !in text[1..];
      EolNoCr(text[1..]);
      assert text == [text[0]] + text[1..];
    }
  }

  /**
   * The lines join back, with LF between them, into the text with its line
   * ends normalised: nothing but the line ends is lost, and text without CR
   * comes back whole.
   */
  lemma {:induction false} SplitLinesJoin(text: string)
    ensures JoinLf(SplitLines(text)) == Eol(text)
    ensures '\r' !in text ==> JoinLf(SplitLines(text)) == text
    decreases |text|
  {
    if '\r' !in text {
      EolNoCr(text);
    }
    if text != [] {
      var rest := if text[0] == '\r' && |text| >= 2 && text[1] == '\n' then text[2..] else text[1..];
      var tail := SplitLines(rest);
      assert JoinLf(tail) == Eol(rest) by {
        SplitLinesJoin(rest);
      }
      if text[0] == '\r' || text[0] == '\n' {
        assert SplitLines(text) == [""] + tail;
        assert Eol(text) == "\n" + Eol(rest);
        JoinLfBreak(tail);
      } else {
        assert SplitLines(text) == [[text[0]] + tail[0]] + tail[1..];
        assert Eol(text) == [text[0]] + Eol(rest);
        JoinLfCons(text[0], tail);
      }
    }
  }

  /** An empty first line puts an LF in front of the rest. */
  lemma JoinLfBreak(tail: seq<string>)
    requires |tail| >= 1
    ensures JoinLf([""] + tail) == "\n" + JoinLf(tail)
  {
    assert ([""] + tail)[1..] == tail;
  }

  /** A character in front of the first line is a character in front of the joined text. */
  lemma JoinLfCons(c: char, tail: seq<string>)
    requires |tail| >= 1
    ensures JoinLf([[c] + tail[0]] + tail[1..]) == [c] + JoinLf(tail)
  {
    var lines := [[c] + tail[0]] + tail[1..];
    assert lines[0] == [c] + tail[0] && lines[1..] == tail[1..];
    if |tail| > 1 {
      var t0, j := tail[0], JoinLf(tail[1..]);
      calc {
        JoinLf(lines);
        ([c] + t0) + "\n" + j;
        { Seqs.Assoc([c], t0, "\n"); }
        ([c] + (t0 + "\n")) + j;
        { Seqs.Assoc([c], t0 + "\n", j); }
        [c] + (t0 + "\n" + j);
        [c] + JoinLf(tail);
      }
    }
  }

  /** A line made only of trim characters, which is what trim($l) === '' tests. */
  predicate Blank(l: string)
    decreases |l|
  {
    l == [] || (Php.IsTrimChar(l[0]) && Blank(l[1..]))
  }

  /** Blank is exactly trim($l) === ''. */
  lemma BlankIff(l: string)
    ensures Blank(l) <==> Php.Trim(l) == ""
  {
    Php.TrimEmptyIff(l);
    BlankAll(l);
  }

  lemma {:induction false} BlankAll(l: string)
    ensures Blank(l) <==> forall k :: 0 <= k < |l| ==> Php.IsTrimChar(l[k])
    decreases |l|
  {
    if l != [] {
      BlankAll(l[1..]);
      assert forall k :: 1 <= k < |l| ==> l[k] == l[1..][k - 1];
    }
  }

  /** array_filter with trim($l) !== '': the lines that are not blank, in order. */
  function NonBlank(lines: seq<string>): seq<string>
  {
    if lines == [] then []
    else (if !Blank(lines[0]) then [lines[0]] else []) + NonBlank(lines[1..])
  }

  /** A line is kept exactly when it is one of the lines and trim() leaves something of it. */
  lemma {:induction false} NonBlankKeeps(lines: seq<string>, l: string)
    ensures l in NonBlank(lines) <==> l in lines && Php.Trim(l) != ""
    decreases |lines|
  {
    BlankIff(l);
    if lines != [] {
      var rest := lines[1..];
      var head := if !Blank(lines[0]) then [lines[0]] else [];
      NonBlankKeeps(rest, l);
      assert NonBlank(lines) == head + NonBlank(rest);
      assert l in head + NonBlank(rest) <==> l in head || l in NonBlank(rest);
      assert lines == [lines[0]] + rest;
      assert l in lines <==> l == lines[0] || l in rest;
    }
  }

  /** The filter works line by line: the kept lines of a + b are those of a, then those of b. */
  lemma {:induction false} NonBlankAppend(a: seq<string>, b: seq<string>)
    ensures NonBlank(a + b) == NonBlank(a) + NonBlank(b)
    decreases |a|
  {
    if a == [] {
      assert a + b == b;
    } else {
      assert (a + b)[0] == a[0];
      assert (a + b)[1..] == a[1..] + b;
      NonBlankAppend(a[1..], b);
    }
  }

  /** One line is kept exactly when trim() leaves something of it. */
  lemma NonBlankOne(l: string)
    ensures NonBlank([l]) == if Php.Trim(l) != "" then [l] else []
  {
    BlankIff(l);
    assert [l][1..] == [];
  }

  // ---------------------------------------------------------------------
  // str_replace("\t", '    ', $line) and preg_split('/ {2,}/', ..., PREG_SPLIT_NO_EMPTY)
  // ---------------------------------------------------------------------

  function Tabs(s: string): nat
  {
    if s == [] then 0 else (if s[0] == '\t' then 1 else 0) + Tabs(s[1..])
  }

  /** Every tab replaced by four spaces. */
  function ExpandTabs(s: string): string
  {
    if s == [] then ""
    else (if s[0] == '\t' then "    " else [s[0]]) + ExpandTabs(s[1..])
  }

  /** Expanding tabs leaves no tab and adds three characters per tab. */
  lemma {:induction false} ExpandTabsShape(s: string)
    ensures '\t' !in ExpandTabs(s)
    ensures |ExpandTabs(s)| == |s| + 3 * Tabs(s)
    decreases |s|
  {
    if s != [] {
      ExpandTabsShape(s[1..]);
      var head := if s[0] == '\t' then "    " else [s[0]];
      assert ExpandTabs(s) == head + ExpandTabs(s[1..]);
      assert '\t' !in head;
    }
  }

  /** Expanding tabs keeps the content, and leaves a line without tabs as it is. */
  lemma {:induction false} ExpandTabsKeeps(s: string)
    ensures Content(ExpandTabs(s)) == Content(s)
    ensures '\t' !in s ==> ExpandTabs(s) == s
    decreases |s|
  {
    if s != [] {
      var head := if s[0] == '\t' then "    " else [s[0]];
      var rest := ExpandTabs(s[1..]);
      assert ExpandTabs(s) == head + rest;
      assert s == [s[0]] + s[1..];
      ExpandTabsKeeps(s[1..]);
      assert Content(head) == Content([s[0]]) by {
        if s[0] == '\t' {
          ContentOfTrimChars("    ");
          ContentOfTrimChars([s[0]]);
        }
      }
      calc {
        Content(ExpandTabs(s));
        Content(head + rest);
        { ContentAppend(head, rest); }
        Content(head) + Content(rest);
        Content([s[0]]) + Content(s[1..]);
        { ContentAppend([s[0]], s[1..]); }
        Content(s);
      }
      if '\t' !in s {
        assert '\t' !in s[1..] && head == [s[0]];
      }
    }
  }

  /** Tabs are expanded one character at a time: the expansion of a + b is that of a, then that of b. */
  lemma {:induction false} ExpandTabsAppend(a: string, b: string)
    ensures ExpandTabs(a + b) == ExpandTabs(a) + ExpandTabs(b)
    decreases |a|
  {
    if a == [] {
      assert a + b == b;
    } else {
      assert (a + b)[0] == a[0];
      assert (a + b)[1..] == a[1..] + b;
      ExpandTabsAppend(a[1..], b);
      var head := if a[0] == '\t' then "    " else [a[0]];
      Seqs.Assoc(head, ExpandTabs(a[1..]), ExpandTabs(b));
    }
  }

  /** A tab becomes four spaces and any other character stays as it is. */
  lemma ExpandTabsChar(c: char)
    ensures ExpandTabs([c]) == if c == '\t' then "    " else [c]
  {
    assert [c][1..] == [];
  }

  /** No two spaces side by side. */
  predicate NoDoubleSpace(s: string)
  {
    forall i :: 0 <= i < |s| - 1 ==> !(s[i] == ' ' && s[i + 1] == ' ')
  }

  /** s without its leading spaces. */
  function DropSpaces(s: string): (r: string)
    ensures |r| <= |s| && r == s[|s| - |r|..]
    ensures r == [] || r[0] != ' '
    ensures s != [] && s[0] == ' ' ==> |r| < |s|
  {
    if s != [] && s[0] == ' ' then DropSpaces(s[1..]) else s
  }

  /** The piece gathered so far, unless it is empty (PREG_SPLIT_NO_EMPTY). */
  function Emit(piece: string): seq<string>
  {
    if piece == "" then [] else [piece]
  }

  /**
   * The pieces of piece + s: scanning left to right, a run of two or more
   * spaces ends the current piece and is dropped whole.
   */
  function Pieces(s: string, piece: string): seq<string>
    decreases |s|
  {
    if s == [] then Emit(piece)
    else if |s| >= 2 && s[0] == ' ' && s[1] == ' ' then Emit(piece) + Pieces(DropSpaces(s), "")
    else Pieces(s[1..], piece + [s[0]])
  }

  /** No piece is empty and none holds two spaces side by side. */
  lemma {:induction false} PiecesShape(s: string, piece: string)
    requires NoDoubleSpace(piece)
    requires piece != [] && piece[|piece| - 1] == ' ' ==> s == [] || s[0] != ' '
    ensures forall k :: 0 <= k < |Pieces(s, piece)| ==> Pieces(s, piece)[k] != "" && NoDoubleSpace(Pieces(s, piece)[k])
    decreases |s|
  {
    if s == [] {
    } else if |s| >= 2 && s[0] == ' ' && s[1] == ' ' {
      var after := Pieces(DropSpaces(s), "");
      PiecesShape(DropSpaces(s), "");
      assert Pieces(s, piece) == Emit(piece) + after;
      var all := Emit(piece) + after;
      forall k | 0 <= k < |all| ensures all[k] != "" && NoDoubleSpace(all[k]) {
        if k >= |Emit(piece)| {
          assert all[k] == after[k - |Emit(piece)|];
        }
      }
    } else {
      SnocNoDoubleSpace(piece, s[0]);
      PiecesShape(s[1..], piece + [s[0]]);
    }
  }

  lemma SnocNoDoubleSpace(piece: string, c: char)
    requires NoDoubleSpace(piece)
    requires piece != [] && piece[|piece| - 1] == ' ' ==> c != ' '
    ensures NoDoubleSpace(piece + [c])
  {
    var r := piece + [c];
    assert forall i :: 0 <= i < |piece| ==> r[i] == piece[i];
  }

  /** preg_split('/ {2,}/', line, -1, PREG_SPLIT_NO_EMPTY). */
  function SplitWide(line: string): seq<string>
  {
    Pieces(line, "")
  }

  /** s without its spaces. */
  function Unspaced(s: string): string
  {
    if s == [] then "" else NonSpace(s[0]) + Unspaced(s[1..])
  }

  function NonSpace(c: char): string
  {
    if c == ' ' then "" else [c]
  }

  function Glue(cells: seq<string>): string
  {
    if cells == [] then "" else cells[0] + Glue(cells[1..])
  }

  lemma {:induction false} UnspacedAppend(a: string, b: string)
    ensures Unspaced(a + b) == Unspaced(a) + Unspaced(b)
    decreases |a|
  {
    if a != [] {
      assert (a + b)[0] == a[0];
      assert (a + b)[1..] == a[1..] + b;
      UnspacedAppend(a[1..], b);
      calc {
        Unspaced(a + b);
        NonSpace(a[0]) + Unspaced(a[1..] + b);
        NonSpace(a[0]) + (Unspaced(a[1..]) + Unspaced(b));
        (NonSpace(a[0]) + Unspaced(a[1..])) + Unspaced(b);
      }
    } else {
      assert a + b == b;
    }
  }

  lemma {:induction false} DropSpacesUnspaced(s: string)
    ensures Unspaced(DropSpaces(s)) == Unspaced(s)
    decreases |s|
  {
    if s != [] && s[0] == ' ' {
      DropSpacesUnspaced(s[1..]);
    }
  }

  /** Splitting drops only spaces: the pieces hold every other character, in order. */
  lemma {:induction false} PiecesKeepChars(s: string, piece: string)
    requires NoDoubleSpace(piece)
    requires piece != [] && piece[|piece| - 1] == ' ' ==> s == [] || s[0] != ' '
    ensures Unspaced(Glue(Pieces(s, piece))) == Unspaced(piece + s)
    decreases |s|
  {
    if s == [] {
      assert piece + s == piece;
      assert Glue([piece]) == piece + Glue([]);
    } else if |s| >= 2 && s[0] == ' ' && s[1] == ' ' {
      var t := DropSpaces(s);
      PiecesKeepChars(t, "");
      assert "" + t == t;
      GapKeepsChars(s, piece, Pieces(t, ""));
    } else {
      var longer := piece + [s[0]];
      assert forall i :: 0 <= i < |piece| ==> longer[i] == piece[i];
      PiecesKeepChars(s[1..], longer);
      assert longer + s[1..] == piece + s;
    }
  }

  /** The step at a wide gap: the piece so far, then the pieces after the gap. */
  lemma GapKeepsChars(s: string, piece: string, after: seq<string>)
    requires |s| >= 2 && s[0] == ' ' && s[1] == ' '
    requires Unspaced(Glue(after)) == Unspaced(DropSpaces(s))
    ensures Unspaced(Glue(Emit(piece) + after)) == Unspaced(piece + s)
  {
    GlueAppend(Emit(piece), after);
    UnspacedAppend(Glue(Emit(piece)), Glue(after));
    UnspacedAppend(piece, s);
    DropSpacesUnspaced(s);
    assert Glue(Emit(piece)) == piece by {
      if piece != "" {
        assert Glue([piece]) == piece + Glue([]);
      }
    }
  }

  lemma {:induction false} GlueAppend(a: seq<string>, b: seq<string>)
    ensures Glue(a + b) == Glue(a) + Glue(b)
    decreases |a|
  {
    if a != [] {
      assert (a + b)[0] == a[0];
      assert (a + b)[1..] == a[1..] + b;
      GlueAppend(a[1..], b);
      calc {
        Glue(a + b);
        a[0] + Glue(a[1..] + b);
        a[0] + (Glue(a[1..]) + Glue(b));
        (a[0] + Glue(a[1..])) + Glue(b);
      }
    } else {
      assert a + b == b;
    }
  }

  /** A non-empty line without two spaces side by side is a single piece. */
  lemma {:induction false} PiecesWhole(s: string, piece: string)
    requires NoDoubleSpace(piece + s) && piece + s != ""
    ensures NoDoubleSpace(piece)
    ensures piece != [] && piece[|piece| - 1] == ' ' ==> s == [] || s[0] != ' '
    ensures Pieces(s, piece) == [piece + s]
    decreases |s|
  {
    var all := piece + s;
    assert forall i :: 0 <= i < |piece| ==> all[i] == piece[i];
    if piece != [] && s != [] {
      assert all[|piece| - 1] == piece[|piece| - 1] && all[|piece|] == s[0];
    }
    if s == [] {
      assert all == piece;
    } else {
      assert !(|s| >= 2 && s[0] == ' ' && s[1] == ' ') by {
        if |s| >= 2 {
          assert all[|piece|] == s[0] && all[|piece| + 1] == s[1];
        }
      }
      assert (piece + [s[0]]) + s[1..] == all;
      PiecesWhole(s[1..], piece + [s[0]]);
    }
  }

  lemma SplitWideWhole(line: string)
    requires line != "" && NoDoubleSpace(line)
    ensures SplitWide(line) == [line]
  {
    assert "" + line == line;
    PiecesWhole(line, "");
  }

  /** Pieces joined back together with sep between each two. */
  function JoinWith(pieces: seq<string>, sep: string): string
  {
    if pieces == [] then ""
    else if |pieces| == 1 then pieces[0]
    else pieces[0] + sep + JoinWith(pieces[1..], sep)
  }

  /** A run of two or more spaces at the front of s. */
  predicate WideGap(s: string)
  {
    |s| >= 2 && s[0] == ' ' && s[1] == ' '
  }

  /**
   * The line with each run of two or more spaces shortened to exactly two,
   * and such a run at either end dropped; single spaces stay where they are.
   */
  function NarrowGaps(line: string): string
  {
    if WideGap(line) then NarrowTail(DropSpaces(line)) else NarrowTail(line)
  }

  /** NarrowGaps past the start of the line: a wide run at the end is dropped, any other becomes two spaces. */
  function NarrowTail(s: string): string
    decreases |s|
  {
    if s == [] then ""
    else if WideGap(s) then (if DropSpaces(s) == [] then "" else "  " + NarrowTail(DropSpaces(s)))
    else [s[0]] + NarrowTail(s[1..])
  }

  lemma {:induction false} PiecesNonEmpty(s: string, piece: string)
    requires piece != ""
    ensures Pieces(s, piece) != []
    decreases |s|
  {
    if s != [] && !WideGap(s) {
      PiecesNonEmpty(s[1..], piece + [s[0]]);
    }
  }

  /**
   * The pieces of piece + s, joined with two spaces, give piece followed by
   * s with its wide gaps narrowed (its leading one dropped when nothing
   * comes before it).
   */
  lemma {:induction false} PiecesJoin(s: string, piece: string)
    ensures JoinWith(Pieces(s, piece), "  ") == if piece == "" then NarrowGaps(s) else piece + NarrowTail(s)
    decreases |s|
  {
    if s == [] {
    } else if WideGap(s) {
      var d := DropSpaces(s);
      var after := Pieces(d, "");
      PiecesJoin(d, "");
      assert !WideGap(d);
      if d != [] {
        assert "" + [d[0]] == [d[0]];
        assert Pieces(d, "") == Pieces(d[1..], [d[0]]);
        PiecesNonEmpty(d[1..], [d[0]]);
      }
      if piece != "" {
        assert Pieces(s, piece) == [piece] + after;
        assert ([piece] + after)[1..] == after;
        if after != [] {
          assert JoinWith([piece] + after, "  ") == piece + "  " + JoinWith(after, "  ");
          Seqs.Assoc(piece, "  ", NarrowTail(d));
        }
      } else {
        assert Pieces(s, piece) == after;
      }
    } else {
      PiecesJoin(s[1..], piece + [s[0]]);
      Seqs.Assoc(piece, [s[0]], NarrowTail(s[1..]));
    }
  }

  /** Joining the cells with two spaces gives back the line with its wide gaps narrowed. */
  lemma SplitWideJoin(line: string)
    ensures JoinWith(SplitWide(line), "  ") == NarrowGaps(line)
  {
    PiecesJoin(line, "");
  }

  /** The cells of one line: tabs expanded, split on wide gaps, each piece cleaned. */
  function RowCells(line: string): (cells: seq<string>)
  {
    CleanAll(SplitWide(ExpandTabs(line)))
  }

  /** array_map('cleanCell', ...). */
  function CleanAll(pieces: seq<string>): seq<string>
  {
    if pieces == [] then [] else CleanAll(pieces[..|pieces| - 1]) + [CleanCell(pieces[|pieces| - 1])]
  }

  /** Each cell is the cleaned piece in the same place. */
  lemma {:induction false} CleanAllAt(pieces: seq<string>)
    ensures |CleanAll(pieces)| == |pieces|
    ensures forall k :: 0 <= k < |pieces| ==> CleanAll(pieces)[k] == CleanCell(pieces[k])
    decreases |pieces|
  {
    if pieces != [] {
      var init := pieces[..|pieces| - 1];
      CleanAllAt(init);
      assert forall k :: 0 <= k < |init| ==> init[k] == pieces[k];
    }
  }

  /**
   * The cells of a line are its pieces after splitting, each cleaned, so
   * each cell is collapsed with no \s at either end; and, as a whole, the
   * pieces hold every character of the expanded line but its spaces.
   */
  lemma RowCellsShape(line: string)
    ensures var pieces := SplitWide(ExpandTabs(line));
      |RowCells(line)| == |pieces|
      && JoinWith(pieces, "  ") == NarrowGaps(ExpandTabs(line))
      && Unspaced(Glue(pieces)) == Unspaced(ExpandTabs(line))
      && forall k :: 0 <= k < |pieces| ==>
           RowCells(line)[k] == CleanCell(pieces[k])
           && Content(RowCells(line)[k]) == Content(pieces[k])
           && Collapsed(RowCells(line)[k])
  {
    var pieces := SplitWide(ExpandTabs(line));
    CleanAllAt(pieces);
    PiecesKeepChars(ExpandTabs(line), "");
    SplitWideJoin(ExpandTabs(line));
    assert "" + ExpandTabs(line) == ExpandTabs(line);
    forall k | 0 <= k < |pieces|
      ensures Content(RowCells(line)[k]) == Content(pieces[k]) && Collapsed(RowCells(line)[k])
    {
      CleanCellShape(pieces[k]);
    }
  }
}
