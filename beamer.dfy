/** `md_to_beamer_slides` as the code runs it: an accumulator object whose
    fields the handlers update in place, driven by a loop over the shared
    pushback cursor. The method is proved to return `SlideSpec.BeamerSlides`. */
module Beamer {
  import opened Text
  import opened InlineFormat
  import opened TableRender
  import opened LineCursor
  import opened SlideSpec

  lemma TakeOneMore(rem: seq<string>, n: nat)
    requires n < |rem|
    ensures rem[..n + 1] == rem[..n] + [rem[n]] && rem[..n + 1][..n] == rem[..n]
    ensures rem[n..][1..] == rem[n + 1..] && rem[n..] == [rem[n]] + rem[n + 1..]
  {
  }

  /** The state `md_to_beamer_slides` keeps in its closure: the finished
      slides, the current title and content (rebound by `flush_slide`), and
      the shared `table_lines` buffer of the table handler. */
  class SlideAccumulator {
    var slides: seq<string>
    var slideTitle: Option<string>
    var slideContent: seq<string>
    var tableLines: seq<string>

    function State(): Deck
      reads this
    {
      Deck(slides, slideTitle, slideContent)
    }

    constructor ()
      ensures State() == EmptyDeck && tableLines == []
    {
      slides, slideTitle, slideContent, tableLines := [], None, [], [];
    }

    /** `flush_slide`. */
    method FlushSlide()
      modifies this
      ensures State() == Flush(old(State())) && tableLines == old(tableLines)
    {
      if HasTitle(slideTitle) || slideContent != [] {
        slides := slides + [Frame(slideTitle, slideContent)];
        slideTitle, slideContent := None, [];
      }
    }

    /** The dispatch of a `# ` line: flush, then take the new title. */
    method StartSlide(line: string)
      modifies this
      ensures State() == Step(old(State()), Heading(TitleText(line))) && tableLines == old(tableLines)
    {
      FlushSlide();
      slideTitle, slideContent := Some(TitleText(line)), [];
    }

    /** `handle_subtitle`. */
    method HandleSubtitle(line: string)
      modifies this
      ensures State() == Step(old(State()), Body([SubtitleFragment(line)])) && tableLines == old(tableLines)
    {
      slideContent := slideContent + [SubtitleFragment(line)];
    }

    /** `handle_subsubtitle`. */
    method HandleSubsubtitle(line: string)
      modifies this
      ensures State() == Step(old(State()), Body([SubsubtitleFragment(line)])) && tableLines == old(tableLines)
    {
      slideContent := slideContent + [SubsubtitleFragment(line)];
    }

    /** `handle_bold_italic`, the fallback. */
    method HandleBoldItalic(line: string)
      modifies this
      ensures State() == Step(old(State()), Body([ParagraphFragment(line)])) && tableLines == old(tableLines)
    {
      slideContent := slideContent + [ParagraphFragment(line)];
    }

    /** `handle_list`: opens an itemize environment with `line` as its first
        item, then the items `TakeListItems` reads from the cursor. */
    method HandleList(line: string, it: PushbackIterator)
      requires it.Valid()
      modifies this, it
      ensures it.Valid()
      ensures var rem := old(it.Remaining());
        && it.Remaining() == rem[ListSpan(rem)..]
        && State() == Step(old(State()), Body(ListFragments(line, rem[..ListSpan(rem)])))
      ensures tableLines == old(tableLines)
      ensures old(it.buffer) == [] ==> |it.buffer| <= 1
    {
      ghost var rem := it.Remaining();
      var items := TakeListItems(it, ItemFragment);
      ghost var more := rem[..ListSpan(rem)];
      var fragments := [@"\begin{itemize}", @"\item " + ApplyFormatting(Strip(Slice(line, 2)))] + items + [@"\end{itemize}"];
      assert fragments == ListFragments(line, more);
      slideContent := slideContent + fragments;
    }

    /** `handle_table`: collects `line` and the pipe rows after it into
        `table_lines`, renders them, and clears the buffer. */
    method HandleTable(line: string, it: PushbackIterator)
      requires it.Valid()
      modifies this, it
      ensures it.Valid()
      ensures var rem := old(it.Remaining());
        && it.Remaining() == rem[TableSpan(rem)..]
        && State() == Step(old(State()), Body([MdTableToLatex(old(tableLines) + [line] + rem[..TableSpan(rem)])]))
      ensures tableLines == []
      ensures old(it.buffer) == [] ==> |it.buffer| <= 1
    {
      tableLines := tableLines + [line];
      var rows := TakeTableRows(it);
      tableLines := tableLines + rows;
      slideContent := slideContent + [MdTableToLatex(tableLines)];
      tableLines := [];
    }

    /** The handlers that take only the line: a title flushes the slide and
        starts a new one; the others append one fragment. */
    method HandleLine(line: string)
      requires Classify(line) != ListBlock && Classify(line) != TableBlock
      modifies this
      ensures State() == Step(old(State()), Render(Block(Classify(line), line, [])))
      ensures tableLines == old(tableLines)
    {
      var kind := Classify(line);
      if kind == TitleBlock {
        StartSlide(line);
      } else if kind == SubtitleBlock {
        HandleSubtitle(line);
      } else if kind == SubsubtitleBlock {
        HandleSubsubtitle(line);
      } else {
        HandleBoldItalic(line);
      }
    }

    /** The `handlers` lookup of the dispatch loop: the handler the stripped,
        non-blank `line` selects, run with the cursor positioned after it. */
    method HandleBlock(line: string, it: PushbackIterator)
      requires it.Valid() && it.buffer == [] && tableLines == []
      modifies this, it
      ensures it.Valid() && |it.buffer| <= 1 && tableLines == []
      ensures var b := FirstBlock(line, old(it.Remaining()));
        && State() == Step(old(State()), Render(b))
        && it.Remaining() == old(it.Remaining())[|b.more|..]
    {
      ghost var rem := it.Remaining();
      var kind := Classify(line);
      if kind == ListBlock {
        HandleList(line, it);
      } else if kind == TableBlock {
        HandleTable(line, it);
      } else {
        HandleLine(line);
        assert rem[0..] == rem;
      }
    }
  }

  /** The loop of `handle_list`: takes list items from the cursor while they
      last, formatting each with `format`, and hands the first other line
      (blank or not) back to it. */
  method TakeListItems(it: PushbackIterator, format: string -> string) returns (items: seq<string>)
    requires it.Valid()
    modifies it
    ensures it.Valid()
    ensures var rem := old(it.Remaining());
      && it.Remaining() == rem[ListSpan(rem)..]
      && items == MapLines(format, rem[..ListSpan(rem)])
    ensures old(it.buffer) == [] ==> |it.buffer| <= 1
  {
    ghost var rem := it.Remaining();
    ghost var taken: seq<string> := [];
    items := [];
    var stop := false;
    while !stop
      invariant it.Valid()
      invariant |taken| <= ListSpan(rem) && it.Remaining() == rem[|taken|..]
      invariant stop ==> |taken| == ListSpan(rem)
      invariant taken == rem[..|taken|] && items == MapLines(format, taken)
      invariant old(it.buffer) == [] ==> |it.buffer| <= (if stop then 1 else 0)
      decreases |it.Remaining()|, !stop
    {
      ghost var n := |taken|;
      var next := it.Next();
      ListSpanStep(rem, n);
      if next.None? {
        stop := true;
      } else {
        var nextLine := next.value;
        TakeOneMore(rem, n);
        if IsListItem(nextLine) {
          MapLinesSnoc(format, taken, nextLine);
          items := items + [format(nextLine)];
          taken := taken + [nextLine];
        } else {
          it.Pushback(nextLine);
          stop := true;
        }
      }
    }
  }

  /** The loop of `handle_table`: gathers the pipe rows the cursor delivers
      and hands the first other line back to it. */
  method TakeTableRows(it: PushbackIterator) returns (rows: seq<string>)
    requires it.Valid()
    modifies it
    ensures it.Valid()
    ensures var rem := old(it.Remaining());
      && it.Remaining() == rem[TableSpan(rem)..]
      && rows == rem[..TableSpan(rem)]
    ensures old(it.buffer) == [] ==> |it.buffer| <= 1
  {
    ghost var rem := it.Remaining();
    rows := [];
    ghost var n := 0;
    var stop := false;
    while !stop
      invariant it.Valid()
      invariant n <= TableSpan(rem) && it.Remaining() == rem[n..]
      invariant stop ==> n == TableSpan(rem)
      invariant rows == rem[..n]
      invariant old(it.buffer) == [] ==> |it.buffer| <= (if stop then 1 else 0)
      decreases |it.Remaining()|, !stop
    {
      var next := it.Next();
      TableSpanStep(rem, n);
      if next.None? {
        stop := true;
      } else {
        var nextLine := next.value;
        TakeOneMore(rem, n);
        if IsTableRow(nextLine) {
          rows := rows + [nextLine];
          n := n + 1;
        } else {
          it.Pushback(nextLine);
          stop := true;
        }
      }
    }
  }

  /** `md_to_beamer_slides(text)`. */
  method MdToBeamerSlides(text: string) returns (out: string)
    ensures out == BeamerSlides(text)
  {
    var lines := Split(text, '\n');
    var acc := new SlideAccumulator();
    var it := new PushbackIterator(lines);
    ghost var done: seq<Block> := [];
    while true
      invariant it.Valid() && |it.buffer| <= 1
      invariant Blocks(lines) == done + Blocks(it.Remaining())
      invariant acc.State() == RunFrom(EmptyDeck, Items(done)) && acc.tableLines == []
      decreases |it.Remaining()|
    {
      ghost var rem := it.Remaining();
      var next := it.Next();
      if next.None? {
        assert it.Remaining() == [];
        assert Blocks(lines) == done;
        break;
      }
      var line := Strip(next.value);
      if line == "" {
        BlocksBlank(rem);
        assert it.Remaining() == rem[1..];
        assert Blocks(lines) == done + Blocks(it.Remaining());
        continue;
      }
      BlocksFirst(rem);
      ghost var b := FirstBlock(line, rem[1..]);
      ghost var before := acc.State();
      assert before == RunFrom(EmptyDeck, Items(done));
      acc.HandleBlock(line, it);
      assert acc.State() == Step(before, Render(b));
      assert Items([b]) == [Render(b)];
      RunFromSnoc(EmptyDeck, Items(done), Render(b));
      ItemsAppend(done, [b]);
      Regroup(done, [b], Blocks(it.Remaining()));
      done := done + [b];
      assert Blocks(lines) == done + Blocks(it.Remaining());
      assert acc.State() == RunFrom(EmptyDeck, Items(done));
    }
    assert acc.State() == RunFrom(EmptyDeck, Items(Blocks(lines)));
    acc.FlushSlide();
    out := Join(acc.slides, "\n");
  }
}
