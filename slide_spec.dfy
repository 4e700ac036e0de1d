/** A functional reference for `md_to_beamer_slides`.

    The input lines are first cut into blocks, exactly as the ordered handler
    table and the list/table handlers' lookahead cut them; the blocks are then
    folded, left to right, into the slide accumulator (finished frames, current
    title, current content) that `flush_slide` empties. The imperative
    transpiler in module Beamer is proved to compute `BeamerSlides`; the
    lemmas here state what that result is. */
module SlideSpec {
  import opened Text
  import opened LatexEscape
  import opened InlineFormat
  import opened TableRender

  datatype BlockKind = TitleBlock | SubtitleBlock | SubsubtitleBlock | ListBlock | TableBlock | ParagraphBlock

  /** One handler invocation: the (stripped) line that triggered it and the raw
      lines the list or table handler consumed after it. */
  datatype Block = Block(kind: BlockKind, line: string, more: seq<string>)

  /** The table predicate: `"|" in l and "---" not in l`. */
  predicate IsTableRow(l: string) {
    '|' in l && !Contains(l, "---")
  }

  /** The list handler's continuation test: `next_line.strip().startswith("- ")`. */
  predicate IsListItem(raw: string) {
    StartsWith(Strip(raw), "- ")
  }

  /** No line starts with two of the four handler prefixes. */
  lemma PrefixesExclusive(line: string)
    ensures StartsWith(line, "# ") ==> !StartsWith(line, "## ") && !StartsWith(line, "### ") && !StartsWith(line, "- ")
    ensures StartsWith(line, "## ") ==> !StartsWith(line, "### ") && !StartsWith(line, "- ")
    ensures StartsWith(line, "### ") ==> !StartsWith(line, "- ")
  {
    if StartsWith(line, "## ") {
      assert line[1] == line[..3][1] == '#';
    }
    if StartsWith(line, "### ") {
      assert line[2] == line[..4][2] == '#';
      assert line[1] == line[..4][1] == '#';
    }
    if |line| >= 2 {
      assert StartsWith(line, "# ") ==> line[1] == line[..2][1] == ' ';
      assert StartsWith(line, "## ") ==> line[..3][0] == '#';
    }
  }

  /** The handler table, tried top to bottom; the first predicate that holds wins.
      The four prefixes exclude one another, so only the table predicate and the
      fallback depend on the order. */
  function Classify(line: string): (r: BlockKind)
    ensures r == TitleBlock <==> StartsWith(line, "# ")
    ensures r == SubtitleBlock <==> StartsWith(line, "## ")
    ensures r == SubsubtitleBlock <==> StartsWith(line, "### ")
    ensures r == ListBlock <==> StartsWith(line, "- ")
    ensures r == TableBlock <==>
      IsTableRow(line) && !StartsWith(line, "# ") && !StartsWith(line, "## ") &&
      !StartsWith(line, "### ") && !StartsWith(line, "- ")
  {
    PrefixesExclusive(line);
    if StartsWith(line, "# ") then TitleBlock
    else if StartsWith(line, "## ") then SubtitleBlock
    else if StartsWith(line, "### ") then SubsubtitleBlock
    else if StartsWith(line, "- ") then ListBlock
    else if IsTableRow(line) then TableBlock
    else ParagraphBlock
  }

  /** How many of the lines `rs` the list handler consumes: the longest run of
      list items at the front. */
  function ListSpan(rs: seq<string>): (n: nat)
    ensures n <= |rs|
    ensures forall k :: 0 <= k < n ==> IsListItem(rs[k])
    ensures n < |rs| ==> !IsListItem(rs[n])
    decreases |rs|
  {
    if rs != [] && IsListItem(rs[0]) then 1 + ListSpan(rs[1..]) else 0
  }

  /** How many of the lines `rs` the table handler consumes. */
  function TableSpan(rs: seq<string>): (n: nat)
    ensures n <= |rs|
    ensures forall k :: 0 <= k < n ==> IsTableRow(rs[k])
    ensures n < |rs| ==> !IsTableRow(rs[n])
    decreases |rs|
  {
    if rs != [] && IsTableRow(rs[0]) then 1 + TableSpan(rs[1..]) else 0
  }

  /** Reading the lines one at a time finds the end of a list run: a list
      item extends it, anything else or the end of input ends it. */
  lemma ListSpanStep(rs: seq<string>, n: nat)
    requires n <= ListSpan(rs)
    ensures n == |rs| ==> ListSpan(rs) == n
    ensures n < |rs| && IsListItem(rs[n]) ==> n + 1 <= ListSpan(rs)
    ensures n < |rs| && !IsListItem(rs[n]) ==> ListSpan(rs) == n
  {
  }

  lemma TableSpanStep(rs: seq<string>, n: nat)
    requires n <= TableSpan(rs)
    ensures n == |rs| ==> TableSpan(rs) == n
    ensures n < |rs| && IsTableRow(rs[n]) ==> n + 1 <= TableSpan(rs)
    ensures n < |rs| && !IsTableRow(rs[n]) ==> TableSpan(rs) == n
  {
  }

  /** The block a non-blank stripped `line` opens, given the lines after it:
      a list or table block takes the maximal run of continuation lines, and
      the line that ends the run is left to be dispatched afresh. */
  function FirstBlock(line: string, tail: seq<string>): (b: Block)
    ensures b.line == line && b.kind == Classify(line)
    ensures |b.more| <= |tail| && b.more == tail[..|b.more|]
  {
    var kind := Classify(line);
    if kind == ListBlock then Block(kind, line, tail[..ListSpan(tail)])
    else if kind == TableBlock then Block(kind, line, tail[..TableSpan(tail)])
    else Block(kind, line, [])
  }

  /** The blocks the dispatch loop makes of the remaining lines `ls`; blank
      lines are skipped. */
  function Blocks(ls: seq<string>): seq<Block>
    decreases |ls|
  {
    if ls == [] then []
    else
      var line := Strip(ls[0]);
      if line == "" then Blocks(ls[1..])
      else
        var b := FirstBlock(line, ls[1..]);
        [b] + Blocks(ls[1..][|b.more|..])
  }

  /** A line that strips to nothing opens no block. */
  lemma BlocksBlank(ls: seq<string>)
    requires ls != [] && Strip(ls[0]) == ""
    ensures Blocks(ls) == Blocks(ls[1..])
  {
  }

  /** A line with text opens the block `FirstBlock` describes, and the blocks
      go on after the lines it took. */
  lemma BlocksFirst(ls: seq<string>)
    requires ls != [] && Strip(ls[0]) != ""
    ensures var b := FirstBlock(Strip(ls[0]), ls[1..]);
      Blocks(ls) == [b] + Blocks(ls[1..][|b.more|..])
  {
  }

  /** `handle_slide_title`: the new title. */
  function TitleText(line: string): string {
    EscapeLatex(Strip(Slice(line, 2)))
  }

  function SubtitleFragment(line: string): string {
    @"\textbf{" + EscapeLatex(Strip(Slice(line, 3))) + @"}\\[1ex]"
  }

  function SubsubtitleFragment(line: string): string {
    @"\textbf{\small " + EscapeLatex(Strip(Slice(line, 4))) + @"}\\[0.5ex]"
  }

  /** A list item after the first: the prefix is cut after stripping, and what
      follows it is not stripped again. */
  function ItemFragment(raw: string): string {
    @"\item " + ApplyFormatting(Slice(Strip(raw), 2))
  }

  /** `[f(x) for x in xs]`. */
  function MapLines(f: string -> string, xs: seq<string>): (r: seq<string>)
    ensures |r| == |xs|
  {
    seq(|xs|, k requires 0 <= k < |xs| => f(xs[k]))
  }

  lemma MapLinesSnoc(f: string -> string, xs: seq<string>, x: string)
    ensures MapLines(f, xs + [x]) == MapLines(f, xs) + [f(x)]
  {
  }

  function ItemFragments(more: seq<string>): seq<string> {
    MapLines(ItemFragment, more)
  }

  /** `handle_list`: the first item is `line[2:].strip()`. */
  function ListFragments(line: string, more: seq<string>): seq<string> {
    [@"\begin{itemize}", @"\item " + ApplyFormatting(Strip(Slice(line, 2)))]
    + ItemFragments(more) + [@"\end{itemize}"]
  }

  function ParagraphFragment(line: string): string {
    ApplyFormatting(line) + @"\\"
  }

  /** What a block other than a title appends to the slide content. */
  function Fragments(b: Block): seq<string> {
    match b.kind
    case TitleBlock => []
    case SubtitleBlock => [SubtitleFragment(b.line)]
    case SubsubtitleBlock => [SubsubtitleFragment(b.line)]
    case ListBlock => ListFragments(b.line, b.more)
    case TableBlock => [MdTableToLatex([b.line] + b.more)]
    case ParagraphBlock => [ParagraphFragment(b.line)]
  }

  /** What a handler hands back to the dispatch loop: a new title (the loop
      flushes the slide first) or lines to append to the current content. */
  datatype Item = Heading(title: string) | Body(lines: seq<string>)

  function Render(b: Block): Item {
    if b.kind == TitleBlock then Heading(TitleText(b.line)) else Body(Fragments(b))
  }

  function Items(bs: seq<Block>): (r: seq<Item>)
    ensures |r| == |bs|
    decreases |bs|
  {
    if bs == [] then [] else [Render(bs[0])] + Items(bs[1..])
  }

  lemma {:induction false} ItemsAppend(a: seq<Block>, b: seq<Block>)
    ensures Items(a + b) == Items(a) + Items(b)
    decreases |a|
  {
    if a == [] {
      assert a + b == b;
    } else {
      assert (a + b)[1..] == a[1..] + b;
      ItemsAppend(a[1..], b);
      Regroup([Render(a[0])], Items(a[1..]), Items(b));
    }
  }

  /** The accumulator: finished frames, the current title and content. */
  datatype Deck = Deck(slides: seq<string>, title: Option<string>, content: seq<string>)

  const EmptyDeck := Deck([], None, [])

  /** Python truthiness of `slide_title`. */
  predicate HasTitle(title: Option<string>) {
    title.Some? && title.value != ""
  }

  function Frame(title: Option<string>, content: seq<string>): string {
    @"\begin{frame}{" + (if HasTitle(title) then title.value else "") + "}\n"
    + Join(content, "\n") + "\n" + @"\end{frame}"
  }

  /** `flush_slide`: emit a frame only when there is a title or some content. */
  function Flush(d: Deck): Deck {
    if HasTitle(d.title) || d.content != [] then Deck(d.slides + [Frame(d.title, d.content)], None, [])
    else d
  }

  /** One pass of the dispatch loop's body. */
  function Step(d: Deck, it: Item): Deck {
    match it
    case Heading(t) => Deck(Flush(d).slides, Some(t), [])
    case Body(ls) => d.(content := d.content + ls)
  }

  function RunFrom(d: Deck, items: seq<Item>): Deck
    decreases |items|
  {
    if items == [] then d else RunFrom(Step(d, items[0]), items[1..])
  }

  /** What `md_to_beamer_slides(text)` returns. */
  function BeamerSlides(text: string): string {
    Join(Flush(RunFrom(EmptyDeck, Items(Blocks(Split(text, '\n'))))).slides, "\n")
  }

  /** Folding one more item onto a prefix is one more step. */
  lemma {:induction false} RunFromSnoc(d: Deck, items: seq<Item>, it: Item)
    ensures RunFrom(d, items + [it]) == Step(RunFrom(d, items), it)
    decreases |items|
  {
    if items == [] {
      assert RunFrom(d, [it]) == RunFrom(Step(d, it), []);
    } else {
      assert (items + [it])[1..] == items[1..] + [it];
      RunFromSnoc(Step(d, items[0]), items[1..], it);
    }
  }

  // ---------------------------------------------------------------------
  // Frames by sections: an independent description of the result.

  /** How many items come before the first heading. */
  function LeadLen(items: seq<Item>): (n: nat)
    ensures n <= |items|
    ensures forall k :: 0 <= k < n ==> items[k].Body?
    ensures n < |items| ==> items[n].Heading?
    decreases |items|
  {
    if items == [] || items[0].Heading? then 0 else 1 + LeadLen(items[1..])
  }

  /** All lines the body items contribute, in order. */
  function Content(items: seq<Item>): seq<string>
    decreases |items|
  {
    if items == [] then [] else (if items[0].Body? then items[0].lines else []) + Content(items[1..])
  }

  /** One frame per heading, holding exactly the content up to the next heading. */
  function TitledFrames(items: seq<Item>): seq<string>
    requires items == [] || items[0].Heading?
    decreases |items|
  {
    if items == [] then []
    else
      var n := LeadLen(items[1..]);
      [Frame(Some(items[0].title), Content(items[1..1 + n]))] + TitledFrames(items[1 + n..])
  }

  /** The frames of a document: a leading untitled frame if anything comes
      before the first heading, then one frame per heading. */
  function FramesOf(items: seq<Item>): seq<string> {
    var n := LeadLen(items);
    (if n > 0 then [Frame(None, Content(items[..n]))] else []) + TitledFrames(items[n..])
  }

  /** Every heading is a non-empty title and every body holds some lines. */
  predicate WellFormed(items: seq<Item>) {
    forall k :: 0 <= k < |items| ==>
      (items[k].Heading? ==> items[k].title != "") && (items[k].Body? ==> items[k].lines != [])
  }

  lemma WellFormedTail(items: seq<Item>)
    requires items != [] && WellFormed(items)
    ensures WellFormed(items[1..])
  {
    forall k | 0 <= k < |items[1..]|
      ensures (items[1..][k].Heading? ==> items[1..][k].title != "")
           && (items[1..][k].Body? ==> items[1..][k].lines != [])
    {
      assert items[1..][k] == items[k + 1];
    }
  }

  /** Content before the first heading is empty only when there is none. */
  lemma {:induction false} LeadContentEmpty(items: seq<Item>)
    requires WellFormed(items)
    ensures Content(items[..LeadLen(items)]) == [] <==> LeadLen(items) == 0
  {
    var n := LeadLen(items);
    if n > 0 {
      assert items[..n][0] == items[0];
      assert items[0].lines != [];
    }
  }

  lemma FlushTitled(slides: seq<string>, t: string, c: seq<string>)
    requires t != ""
    ensures Flush(Deck(slides, Some(t), c)).slides == slides + [Frame(Some(t), c)]
  {
  }

  /** The fold, from any accumulator `d`, gives what `d` flushed with the
      leading content gives, followed by one frame per heading section. */
  lemma {:induction false} RunFromSections(d: Deck, items: seq<Item>)
    requires WellFormed(items)
    ensures var n := LeadLen(items);
      Flush(RunFrom(d, items)).slides
        == Flush(d.(content := d.content + Content(items[..n]))).slides + TitledFrames(items[n..])
    decreases |items|, 1
  {
    if items == [] {
      assert d.(content := d.content + []) == d;
    } else if items[0].Heading? {
      RunFromSectionsHeading(d, items);
      assert items[..0] == [] && items[0..] == items;
      assert d.(content := d.content + []) == d;
    } else {
      var d' := Step(d, items[0]);
      WellFormedTail(items);
      RunFromSections(d', items[1..]);
      LeadStep(items);
      Regroup(d.content, items[0].lines, Content(items[1..][..LeadLen(items[1..])]));
    }
  }

  /** A body item at the front lengthens the leading run by one. */
  lemma LeadStep(items: seq<Item>)
    requires items != [] && items[0].Body?
    ensures var n := LeadLen(items[1..]);
      && LeadLen(items) == 1 + n
      && Content(items[..1 + n]) == items[0].lines + Content(items[1..][..n])
      && items[1..][n..] == items[1 + n..]
  {
    var n := LeadLen(items[1..]);
    assert items[..1 + n] == [items[0]] + items[1..][..n];
  }

  lemma {:induction false} RunFromSectionsHeading(d: Deck, items: seq<Item>)
    requires WellFormed(items) && items != [] && items[0].Heading?
    ensures Flush(RunFrom(d, items)).slides == Flush(d).slides + TitledFrames(items)
    decreases |items|, 0
  {
    var t := items[0].title;
    var d' := Deck(Flush(d).slides, Some(t), []);
    var n := LeadLen(items[1..]);
    var c := Content(items[1..][..n]);
    assert RunFrom(d, items) == RunFrom(d', items[1..]);
    WellFormedTail(items);
    RunFromSections(d', items[1..]);
    assert d'.(content := d'.content + c) == Deck(Flush(d).slides, Some(t), c);
    FlushTitled(Flush(d).slides, t, c);
    assert items[1..][..n] == items[1..1 + n];
    assert items[1..][n..] == items[1 + n..];
    Regroup(Flush(d).slides, [Frame(Some(t), c)], TitledFrames(items[1 + n..]));
  }

  /** The fold from an empty accumulator yields exactly the sections' frames:
      each heading opens a frame holding only what follows it up to the next
      heading, and content before the first heading forms a leading frame
      with an empty title. */
  lemma SlidesAreSections(items: seq<Item>)
    requires WellFormed(items)
    ensures Flush(RunFrom(EmptyDeck, items)).slides == FramesOf(items)
  {
    var n := LeadLen(items);
    var c := Content(items[..n]);
    RunFromSections(EmptyDeck, items);
    assert EmptyDeck.(content := [] + c) == Deck([], None, c);
    LeadContentEmpty(items);
    assert Flush(Deck([], None, c)).slides == if n > 0 then [Frame(None, c)] else [];
  }

  function HeadingCount(items: seq<Item>): nat
    decreases |items|
  {
    if items == [] then 0 else (if items[0].Heading? then 1 else 0) + HeadingCount(items[1..])
  }

  lemma {:induction false} TitledFramesCount(items: seq<Item>)
    requires items == [] || items[0].Heading?
    ensures |TitledFrames(items)| == HeadingCount(items)
    decreases |items|
  {
    if items != [] {
      var n := LeadLen(items[1..]);
      TitledFramesCount(items[1 + n..]);
      HeadingCountSkip(items[1..], n);
      DropDrop(items, 1, n);
    }
  }

  /** Body items in front add no heading. */
  lemma {:induction false} HeadingCountSkip(items: seq<Item>, n: nat)
    requires n <= |items| && forall k :: 0 <= k < n ==> items[k].Body?
    ensures HeadingCount(items) == HeadingCount(items[n..])
    decreases n
  {
    if n > 0 {
      HeadingCountSkip(items[1..], n - 1);
      DropDrop(items, 1, n - 1);
    }
  }

  /** One frame per heading, plus one when content precedes the first heading. */
  lemma FrameCount(items: seq<Item>)
    ensures |FramesOf(items)| == HeadingCount(items) + (if LeadLen(items) > 0 then 1 else 0)
  {
    var n := LeadLen(items);
    TitledFramesCount(items[n..]);
    HeadingCountSkip(items, n);
  }

  // ---------------------------------------------------------------------
  // What the block parse keeps.

  /** A block as the dispatch loop builds it: a non-empty stripped line that
      selects the block's handler, and continuation lines only for lists
      (all list items) and tables (all table rows). */
  predicate ValidBlock(b: Block) {
    && b.line != "" && Strip(b.line) == b.line && Classify(b.line) == b.kind
    && (b.kind == ListBlock ==> forall k :: 0 <= k < |b.more| ==> IsListItem(b.more[k]))
    && (b.kind == TableBlock ==> forall k :: 0 <= k < |b.more| ==> IsTableRow(b.more[k]))
    && (b.kind != ListBlock && b.kind != TableBlock ==> b.more == [])
  }

  /** The first block of a non-blank first line, and the lines left after it. */
  lemma BlocksHead(ls: seq<string>) returns (b: Block, rest: seq<string>)
    requires ls != [] && Strip(ls[0]) != ""
    ensures Blocks(ls) == [b] + Blocks(rest)
    ensures ValidBlock(b) && b.line == Strip(ls[0])
    ensures ls[1..] == b.more + rest
  {
    var line := Strip(ls[0]);
    StripIdempotent(ls[0]);
    b := FirstBlock(line, ls[1..]);
    rest := ls[1..][|b.more|..];
    assert ls[1..] == b.more + rest;
  }

  lemma {:induction false} BlocksValid(ls: seq<string>)
    ensures forall k :: 0 <= k < |Blocks(ls)| ==> ValidBlock(Blocks(ls)[k])
    decreases |ls|
  {
    if ls != [] {
      if Strip(ls[0]) == "" {
        BlocksValid(ls[1..]);
      } else {
        var b, rest := BlocksHead(ls);
        BlocksValid(rest);
      }
    }
  }

  /** A `# ` title line that survived stripping leaves a non-empty title. */
  lemma TitleTextNonEmpty(line: string)
    requires Strip(line) == line && StartsWith(line, "# ")
    ensures TitleText(line) != ""
  {
    var _ := StripFacts(line);
    assert line[1] == line[..2][1] == ' ';
    assert |line| > 2;
    var rest := Slice(line, 2);
    assert rest[|rest| - 1] == line[|line| - 1];
    StripEmpty(rest);
    EscapeLatexContents(Strip(rest));
  }

  /** Every handler other than the title handler appends at least one line. */
  lemma FragmentsNonEmpty(b: Block)
    requires b.kind != TitleBlock
    ensures Fragments(b) != []
  {
  }

  lemma RenderWellFormed(b: Block)
    requires ValidBlock(b)
    ensures Render(b).Heading? ==> Render(b).title != ""
    ensures Render(b).Body? ==> Render(b).lines != []
  {
    if b.kind == TitleBlock {
      TitleTextNonEmpty(b.line);
    } else {
      FragmentsNonEmpty(b);
    }
  }

  lemma WellFormedCons(it: Item, rest: seq<Item>)
    requires it.Heading? ==> it.title != ""
    requires it.Body? ==> it.lines != []
    requires WellFormed(rest)
    ensures WellFormed([it] + rest)
  {
    var items := [it] + rest;
    forall k | 0 <= k < |items|
      ensures (items[k].Heading? ==> items[k].title != "") && (items[k].Body? ==> items[k].lines != [])
    {
      if k > 0 {
        assert items[k] == rest[k - 1];
      }
    }
  }

  lemma {:induction false} ItemsWellFormed(bs: seq<Block>)
    requires forall k :: 0 <= k < |bs| ==> ValidBlock(bs[k])
    ensures WellFormed(Items(bs))
    decreases |bs|
  {
    if bs != [] {
      RenderWellFormed(bs[0]);
      ItemsWellFormed(bs[1..]);
      WellFormedCons(Render(bs[0]), Items(bs[1..]));
    }
  }

  /** The slides are the frames of the document's heading sections. */
  lemma SlidesByHeadings(text: string)
    ensures var items := Items(Blocks(Split(text, '\n')));
      BeamerSlides(text) == Join(FramesOf(items), "\n")
  {
    var ls := Split(text, '\n');
    BlocksValid(ls);
    ItemsWellFormed(Blocks(ls));
    SlidesAreSections(Items(Blocks(ls)));
  }

  /** `[l.strip() for l in ls if l.strip()]`: the lines the dispatch loop acts on. */
  function NonBlank(ls: seq<string>): seq<string>
    decreases |ls|
  {
    if ls == [] then []
    else (if Strip(ls[0]) == "" then [] else [Strip(ls[0])]) + NonBlank(ls[1..])
  }

  function StripAll(ls: seq<string>): (r: seq<string>)
    ensures |r| == |ls|
    decreases |ls|
  {
    if ls == [] then [] else [Strip(ls[0])] + StripAll(ls[1..])
  }

  /** The source lines each block stands for, stripped, in order. */
  function SourceLines(bs: seq<Block>): seq<string>
    decreases |bs|
  {
    if bs == [] then [] else ([bs[0].line] + StripAll(bs[0].more)) + SourceLines(bs[1..])
  }

  lemma {:induction false} NonBlankAppend(a: seq<string>, b: seq<string>)
    ensures NonBlank(a + b) == NonBlank(a) + NonBlank(b)
    decreases |a|
  {
    if a == [] {
      assert a + b == b;
    } else {
      assert (a + b)[1..] == a[1..] + b;
      NonBlankAppend(a[1..], b);
      var h := if Strip(a[0]) == "" then [] else [Strip(a[0])];
      Regroup(h, NonBlank(a[1..]), NonBlank(b));
    }
  }

  lemma {:induction false} NonBlankAll(ls: seq<string>)
    requires forall k :: 0 <= k < |ls| ==> Strip(ls[k]) != ""
    ensures NonBlank(ls) == StripAll(ls)
    decreases |ls|
  {
    if ls != [] {
      NonBlankAll(ls[1..]);
    }
  }

  /** A continuation line of a list or table is never blank. */
  lemma ContinuationNonBlank(b: Block)
    requires ValidBlock(b)
    ensures forall k :: 0 <= k < |b.more| ==> Strip(b.more[k]) != ""
  {
    forall k | 0 <= k < |b.more|
      ensures Strip(b.more[k]) != ""
    {
      if b.kind == TableBlock {
        StripKeepsChar(b.more[k], '|');
      }
    }
  }

  /** No line is lost or repeated: the blocks account for exactly the
      non-blank lines of the input, each once, in order. */
  lemma {:induction false} BlocksKeepLines(ls: seq<string>)
    ensures SourceLines(Blocks(ls)) == NonBlank(ls)
    decreases |ls|
  {
    if ls != [] {
      if Strip(ls[0]) == "" {
        BlocksKeepLines(ls[1..]);
      } else {
        var b, rest := BlocksHead(ls);
        BlocksKeepLines(rest);
        assert ([b] + Blocks(rest))[1..] == Blocks(rest);
        assert SourceLines(Blocks(ls)) == ([b.line] + StripAll(b.more)) + SourceLines(Blocks(rest));
        ContinuationNonBlank(b);
        NonBlankAll(b.more);
        NonBlankAppend(b.more, rest);
        Regroup([b.line], StripAll(b.more), NonBlank(rest));
      }
    }
  }

  predicate AllBlank(ls: seq<string>) {
    forall k :: 0 <= k < |ls| ==> Strip(ls[k]) == ""
  }

  lemma {:induction false} NonBlankEmpty(ls: seq<string>)
    ensures NonBlank(ls) == [] <==> AllBlank(ls)
    decreases |ls|
  {
    if ls != [] {
      NonBlankEmpty(ls[1..]);
      if AllBlank(ls) {
        assert AllBlank(ls[1..]) by {
          forall k | 0 <= k < |ls[1..]|
            ensures Strip(ls[1..][k]) == ""
          {
            assert ls[1..][k] == ls[k + 1];
          }
        }
      } else if Strip(ls[0]) == "" {
        var k :| 0 <= k < |ls| && Strip(ls[k]) != "";
        assert ls[1..][k - 1] == ls[k];
      }
    }
  }

  /** Only blank input has no blocks. */
  lemma BlocksEmpty(ls: seq<string>)
    ensures Blocks(ls) == [] <==> AllBlank(ls)
  {
    BlocksKeepLines(ls);
    NonBlankEmpty(ls);
  }

  lemma JoinNonEmpty(xs: seq<string>, sep: string)
    requires xs != [] && xs[0] != ""
    ensures Join(xs, sep) != ""
  {
  }

  /** The transpiler returns the empty string exactly when every line of
      the input is blank; otherwise it emits at least one frame. */
  lemma BlankDocument(text: string)
    ensures BeamerSlides(text) == "" <==> AllBlank(Split(text, '\n'))
  {
    var ls := Split(text, '\n');
    var bs := Blocks(ls);
    var items := Items(bs);
    SlidesByHeadings(text);
    BlocksEmpty(ls);
    FrameCount(items);
    if bs != [] {
      var frames := FramesOf(items);
      assert items[0] == Render(bs[0]);
      if items[0].Heading? {
        assert HeadingCount(items) >= 1;
      } else {
        assert LeadLen(items) >= 1;
      }
      assert frames != [];
      var n := LeadLen(items);
      if n > 0 {
        assert frames[0] == Frame(None, Content(items[..n]));
      } else {
        assert frames[0] == TitledFrames(items)[0];
      }
      JoinNonEmpty(frames, "\n");
    }
  }

  /** A Markdown separator row (`|---|---|`) does not continue a table: the
      table block ends before it, and the row, dispatched afresh, fails the
      table predicate and falls through to the paragraph handler. */
  lemma SeparatorRowEndsTable(line: string, tail: seq<string>)
    requires Classify(line) == TableBlock
    requires tail != [] && Contains(tail[0], "---")
    ensures FirstBlock(line, tail).more == []
    ensures var sep := Strip(tail[0]);
      Classify(sep) == ParagraphBlock <==>
      !StartsWith(sep, "# ") && !StartsWith(sep, "## ") &&
      !StartsWith(sep, "### ") && !StartsWith(sep, "- ")
  {
    assert !IsSpace('-');
    StripKeepsContains(tail[0], "---");
  }

  /** A Markdown table with its separator row: the header row alone forms a
      table, the separator a paragraph line, and the data row a second table.
      Each row starts with a pipe and does not end with a space; only the
      separator has dashes. */
  lemma SeparatorRowSplitsTable(ls: seq<string>)
    requires |ls| == 3 && forall k :: 0 <= k < 3 ==> PipeRow(ls[k])
    requires '-' !in ls[0] && Contains(ls[1], "---") && '-' !in ls[2]
    ensures Blocks(ls) ==
      [Block(TableBlock, ls[0], []), Block(ParagraphBlock, ls[1], []), Block(TableBlock, ls[2], [])]
  {
    SeparatorThenLastRow(ls[1..]);
    TableRowThenSeparator(ls);
  }

  /** A separator row and then a last table row: a paragraph line and a table. */
  lemma SeparatorThenLastRow(ls: seq<string>)
    requires |ls| == 2 && PipeRow(ls[0]) && Contains(ls[0], "---")
    requires PipeRow(ls[1]) && '-' !in ls[1]
    ensures Blocks(ls) == [Block(ParagraphBlock, ls[0], []), Block(TableBlock, ls[1], [])]
  {
    assert ls[1..] == [ls[1]];
    LastTableRow(ls[1]);
    SeparatorThen(ls);
  }

  /** A line that starts with a pipe and does not end with a space. */
  predicate PipeRow(l: string) {
    l != [] && l[0] == '|' && !IsSpace(l[|l| - 1])
  }

  /** A table row on the last line is a table of that row alone. */
  lemma LastTableRow(row: string)
    requires PipeRow(row) && '-' !in row
    ensures Blocks([row]) == [Block(TableBlock, row, [])]
  {
    PipeRowClass(row);
    ContainsFirstChar(row, "---");
    BlocksFirst([row]);
  }

  /** A table row followed by a separator row is a table of that row alone. */
  lemma TableRowThenSeparator(ls: seq<string>)
    requires |ls| >= 2 && Contains(ls[1], "---")
    requires PipeRow(ls[0]) && '-' !in ls[0]
    ensures Blocks(ls) == [Block(TableBlock, ls[0], [])] + Blocks(ls[1..])
  {
    PipeRowClass(ls[0]);
    ContainsFirstChar(ls[0], "---");
    assert TableSpan(ls[1..]) == 0;
    BlocksFirst(ls);
  }

  /** A separator row forms a paragraph line of its own. */
  lemma SeparatorThen(ls: seq<string>)
    requires ls != [] && Contains(ls[0], "---") && PipeRow(ls[0])
    ensures Blocks(ls) == [Block(ParagraphBlock, ls[0], [])] + Blocks(ls[1..])
  {
    PipeRowClass(ls[0]);
    BlocksFirst(ls);
  }

  /** A line that starts with a pipe and ends with a non-space is its own
      strip and is a table row or a paragraph line, by its dashes. */
  lemma PipeRowClass(l: string)
    requires PipeRow(l)
    ensures Strip(l) == l
    ensures Classify(l) == (if Contains(l, "---") then ParagraphBlock else TableBlock)
  {
    StripTrimmed(l);
    assert l[..1] == "|";
  }

  /** The rows of the Markdown table `| A | B |`, `|---|---|`, `| 1 | 2 |`
      meet the conditions above. */
  lemma SeparatorRowExample()
    ensures Blocks(["| A | B |", "|---|---|", "| 1 | 2 |"]) ==
      [Block(TableBlock, "| A | B |", []), Block(ParagraphBlock, "|---|---|", []),
       Block(TableBlock, "| 1 | 2 |", [])]
  {
    var sep := "|---|---|";
    assert sep[1..4] == "---";
    ContainsAt(sep, "---", 1);
    SeparatorRowSplitsTable(["| A | B |", sep, "| 1 | 2 |"]);
  }
}
