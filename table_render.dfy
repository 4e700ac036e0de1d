/** `md_table_to_latex`: a run of pipe rows becomes a booktabs `tabular`
    block. The first row is the header; every row is cut at `|`, each piece is
    trimmed, and EVERY piece that trims to nothing is dropped (interior empty
    cells too, not only the ones outside the outer pipes). The column
    specification has one `l` per remaining header cell; data rows keep
    whatever cells they have, with no padding or truncation. */
module TableRender {
  import opened Text
  import opened LatexEscape

  /** `[escape_latex(c.strip()) for c in pieces if c.strip()]`. */
  function NonEmptyCells(pieces: seq<string>): (r: seq<string>)
    ensures |r| <= |pieces|
    decreases |pieces|
  {
    if pieces == [] then []
    else if Strip(pieces[0]) == "" then NonEmptyCells(pieces[1..])
    else [Cell(pieces[0])] + NonEmptyCells(pieces[1..])
  }

  /** `escape_latex(c.strip())`. */
  function Cell(piece: string): string {
    EscapeLatex(Strip(piece))
  }

  /** The cells of one pipe row. */
  function Cells(row: string): seq<string> {
    NonEmptyCells(Split(row, '|'))
  }

  /** `[l for l in rows if l.strip()]`. */
  function NonBlankRows(rows: seq<string>): (r: seq<string>)
    ensures |r| <= |rows|
    decreases |rows|
  {
    if rows == [] then []
    else if Strip(rows[0]) == "" then NonBlankRows(rows[1..])
    else [rows[0]] + NonBlankRows(rows[1..])
  }

  /** `" & ".join(cells) + " \\\\"`. */
  function RowLine(cells: seq<string>): string {
    Join(cells, " & ") + @" \\"
  }

  function RowLines(rows: seq<string>): (r: seq<string>)
    ensures |r| == |rows|
    ensures forall k :: 0 <= k < |rows| ==> r[k] == RowLine(Cells(rows[k]))
    decreases |rows|
  {
    if rows == [] then [] else [RowLine(Cells(rows[0]))] + RowLines(rows[1..])
  }

  /** The list `latex` the renderer builds, before it is joined with newlines.
      An empty run would make the source fail on `table_lines[0]`; the table
      handler always passes at least the row that triggered it. */
  function TableLines(tableLines: seq<string>): seq<string>
    requires tableLines != []
  {
    var headers := Cells(tableLines[0]);
    [@"\begin{tabular}{" + Repeat('l', |headers|) + "}", @"\toprule", RowLine(headers), @"\midrule"]
    + RowLines(NonBlankRows(tableLines[1..]))
    + [@"\bottomrule", @"\end{tabular}"]
  }

  function MdTableToLatex(tableLines: seq<string>): string
    requires tableLines != []
  {
    Join(TableLines(tableLines), "\n")
  }

  /** The shape of the rendered block: six fixed lines plus one per non-blank
      data row; the column specification counts the header's non-empty cells;
      each data row is rendered from its own cells alone, whatever the header. */
  lemma TableLinesShape(tableLines: seq<string>)
    requires tableLines != []
    ensures var r := TableLines(tableLines);
      var data := NonBlankRows(tableLines[1..]);
      && |r| == 6 + |data|
      && r[0] == @"\begin{tabular}{" + Repeat('l', |Cells(tableLines[0])|) + "}"
      && r[1] == @"\toprule" && r[2] == RowLine(Cells(tableLines[0])) && r[3] == @"\midrule"
      && (forall k :: 0 <= k < |data| ==> r[4 + k] == RowLine(Cells(data[k])))
      && r[4 + |data|] == @"\bottomrule" && r[5 + |data|] == @"\end{tabular}"
  {
    var headers := Cells(tableLines[0]);
    var head := [@"\begin{tabular}{" + Repeat('l', |headers|) + "}", @"\toprule", RowLine(headers), @"\midrule"];
    var body := RowLines(NonBlankRows(tableLines[1..]));
    var foot := [@"\bottomrule", @"\end{tabular}"];
    assert TableLines(tableLines) == head + body + foot;
  }

  /** Every kept cell is non-empty. */
  lemma {:induction false} NonEmptyCellsNonEmpty(pieces: seq<string>)
    ensures forall k :: 0 <= k < |NonEmptyCells(pieces)| ==> NonEmptyCells(pieces)[k] != ""
    decreases |pieces|
  {
    if pieces != [] {
      NonEmptyCellsNonEmpty(pieces[1..]);
      if Strip(pieces[0]) != "" {
        EscapeLatexContents(Strip(pieces[0]));
        CellsCons(Cell(pieces[0]), NonEmptyCells(pieces[1..]));
      }
    }
  }

  lemma CellsCons(c: string, rest: seq<string>)
    requires c != "" && forall k :: 0 <= k < |rest| ==> rest[k] != ""
    ensures forall k :: 0 <= k < |[c] + rest| ==> ([c] + rest)[k] != ""
  {
  }

  /** When no piece is blank, each piece is kept, trimmed and escaped, in order. */
  lemma {:induction false} NonEmptyCellsAll(pieces: seq<string>)
    requires forall k :: 0 <= k < |pieces| ==> Strip(pieces[k]) != ""
    ensures |NonEmptyCells(pieces)| == |pieces|
    ensures forall k :: 0 <= k < |pieces| ==> NonEmptyCells(pieces)[k] == Cell(pieces[k])
    decreases |pieces|
  {
    if pieces != [] {
      var r := NonEmptyCells(pieces);
      var f := Cell;
      assert |r| == |pieces| && r[0] == f(pieces[0]) &&
             forall k :: 0 <= k < |pieces| - 1 ==> r[1..][k] == f(pieces[1..][k]) by {
        TailNonBlank(pieces);
        NonEmptyCellsAll(pieces[1..]);
        NonEmptyCellsCons(pieces);
      }
      ShiftIndex(r, pieces, f);
    }
  }

  lemma TailNonBlank(pieces: seq<string>)
    requires pieces != [] && forall k :: 0 <= k < |pieces| ==> Strip(pieces[k]) != ""
    ensures forall k :: 0 <= k < |pieces[1..]| ==> Strip(pieces[1..][k]) != ""
  {
    forall k | 0 <= k < |pieces[1..]|
      ensures Strip(pieces[1..][k]) != ""
    {
      assert pieces[1..][k] == pieces[k + 1];
    }
  }

  lemma NonEmptyCellsCons(pieces: seq<string>)
    requires pieces != [] && Strip(pieces[0]) != ""
    ensures NonEmptyCells(pieces) == [Cell(pieces[0])] + NonEmptyCells(pieces[1..])
  {
  }

  /** A pointwise image whose head and tail are both images is an image. */
  lemma ShiftIndex(r: seq<string>, ps: seq<string>, f: string -> string)
    requires ps != [] && |r| == |ps| && r[0] == f(ps[0])
    requires forall k :: 0 <= k < |ps| - 1 ==> r[1..][k] == f(ps[1..][k])
    ensures forall k :: 0 <= k < |ps| ==> r[k] == f(ps[k])
  {
    forall k | 0 < k < |ps|
      ensures r[k] == f(ps[k])
    {
      assert r[1..][k - 1] == r[k] && ps[1..][k - 1] == ps[k];
    }
  }

  /** A blank piece contributes no cell. */
  lemma BlankPieceDropped(a: seq<string>, blank: string, b: seq<string>)
    requires Strip(blank) == ""
    ensures NonEmptyCells(a + [blank] + b) == NonEmptyCells(a) + NonEmptyCells(b)
  {
    NonEmptyCellsAppend(a, [blank] + b);
    assert a + [blank] + b == a + ([blank] + b);
    assert ([blank] + b)[1..] == b;
  }

  lemma {:induction false} NonEmptyCellsAppend(a: seq<string>, b: seq<string>)
    ensures NonEmptyCells(a + b) == NonEmptyCells(a) + NonEmptyCells(b)
    decreases |a|
  {
    if a == [] {
      assert a + b == b;
    } else {
      assert (a + b)[1..] == a[1..] + b;
      NonEmptyCellsAppend(a[1..], b);
      if Strip(a[0]) != "" {
        Regroup([Cell(a[0])], NonEmptyCells(a[1..]), NonEmptyCells(b));
      }
    }
  }

  /** Every non-blank data row is kept, in order; blank ones are dropped. */
  lemma {:induction false} NonBlankRowsKeeps(rows: seq<string>)
    ensures forall k :: 0 <= k < |NonBlankRows(rows)| ==> Strip(NonBlankRows(rows)[k]) != ""
    ensures (forall k :: 0 <= k < |rows| ==> Strip(rows[k]) != "") ==> NonBlankRows(rows) == rows
    decreases |rows|
  {
    if rows != [] {
      NonBlankRowsKeeps(rows[1..]);
    }
  }

  lemma {:induction false} SplitPiecesFree(s: string, c: char, d: char)
    requires d !in s
    ensures forall k :: 0 <= k < |Split(s, c)| ==> d !in Split(s, c)[k]
    decreases |s|
  {
    if s != [] {
      SplitPiecesFree(s[1..], c, d);
    }
  }

  lemma {:induction false} JoinFree(xs: seq<string>, sep: string, d: char)
    requires d !in sep
    requires forall k :: 0 <= k < |xs| ==> d !in xs[k]
    ensures d !in Join(xs, sep)
    decreases |xs|
  {
    if |xs| > 1 {
      JoinFree(xs[1..], sep, d);
    }
  }

  lemma {:induction false} NonEmptyCellsFree(pieces: seq<string>, d: char)
    requires d == '\n'
    requires forall k :: 0 <= k < |pieces| ==> d !in pieces[k]
    ensures forall k :: 0 <= k < |NonEmptyCells(pieces)| ==> d !in NonEmptyCells(pieces)[k]
    decreases |pieces|
  {
    if pieces != [] {
      NonEmptyCellsFree(pieces[1..], d);
      if Strip(pieces[0]) != "" {
        StripFree(pieces[0], d);
        EscapeLatexContents(Strip(pieces[0]));
      }
    }
  }

  lemma RowLineFree(row: string)
    requires '\n' !in row
    ensures '\n' !in RowLine(Cells(row))
  {
    SplitPiecesFree(row, '|', '\n');
    NonEmptyCellsFree(Split(row, '|'), '\n');
    JoinFree(Cells(row), " & ", '\n');
  }

  lemma {:induction false} NonBlankRowsFrom(rows: seq<string>)
    ensures forall k :: 0 <= k < |NonBlankRows(rows)| ==> NonBlankRows(rows)[k] in rows
    decreases |rows|
  {
    if rows != [] {
      NonBlankRowsFrom(rows[1..]);
    }
  }

  lemma {:induction false} RowLinesFree(rows: seq<string>)
    requires forall k :: 0 <= k < |rows| ==> '\n' !in rows[k]
    ensures forall k :: 0 <= k < |RowLines(rows)| ==> '\n' !in RowLines(rows)[k]
    decreases |rows|
  {
    if rows != [] {
      RowLineFree(rows[0]);
      RowLinesFree(rows[1..]);
    }
  }

  /** A line with one `l` per column. */
  lemma ColumnSpecFree(n: nat)
    ensures '\n' !in @"\begin{tabular}{" + Repeat('l', n) + "}"
  {
    var line := @"\begin{tabular}{" + Repeat('l', n) + "}";
    assert forall k :: 0 <= k < |line| ==> line[k] != '\n' by {
      assert forall k :: 16 <= k < 16 + n ==> line[k] == 'l';
    }
  }

  lemma TableLinesFree(tableLines: seq<string>)
    requires tableLines != []
    requires forall k :: 0 <= k < |tableLines| ==> '\n' !in tableLines[k]
    ensures forall k :: 0 <= k < |TableLines(tableLines)| ==> '\n' !in TableLines(tableLines)[k]
  {
    var headers := Cells(tableLines[0]);
    var data := NonBlankRows(tableLines[1..]);
    RowLineFree(tableLines[0]);
    NonBlankRowsFrom(tableLines[1..]);
    RowLinesFree(data);
    ColumnSpecFree(|headers|);
    var top := [@"\begin{tabular}{" + Repeat('l', |headers|) + "}", @"\toprule", RowLine(headers), @"\midrule"];
    var bottom := [@"\bottomrule", @"\end{tabular}"];
    var mid := RowLines(data);
    assert '\n' !in @"\toprule" && '\n' !in @"\midrule";
    assert '\n' !in @"\bottomrule" && '\n' !in @"\end{tabular}";
    var r := top + mid + bottom;
    assert TableLines(tableLines) == r;
    forall k | 0 <= k < |r|
      ensures '\n' !in r[k]
    {
      if k < 4 {
        assert r[k] == top[k];
      } else if k < 4 + |mid| {
        assert r[k] == mid[k - 4];
      } else {
        assert r[k] == bottom[k - 4 - |mid|];
      }
    }
  }

  /** Rows taken from text split at line breaks give a block of exactly
      6 + (number of non-blank data rows) lines. */
  lemma MdTableLineCount(tableLines: seq<string>)
    requires tableLines != []
    requires forall k :: 0 <= k < |tableLines| ==> '\n' !in tableLines[k]
    ensures CountChar(MdTableToLatex(tableLines), '\n') + 1 == 6 + |NonBlankRows(tableLines[1..])|
  {
    TableLinesShape(tableLines);
    TableLinesFree(tableLines);
    JoinCount(TableLines(tableLines), '\n');
  }
}
