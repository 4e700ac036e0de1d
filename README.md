# Report generator core: Markdown-to-Beamer export and Jira statistics

This project models two parts of a report generator that pulls issues from
Jira and exports an AI-written Markdown report.

**Beamer export.** `save_latex_report` (services/exports.py) turns a
Markdown report into a LaTeX Beamer document. The model covers:

- `escape_latex`, the ten ordered replacements (module `LatexEscape`);
- `apply_formatting` (`InlineFormat`);
- `md_table_to_latex` (`TableRender`);
- the `PushbackIterator` the handlers share (`LineCursor`);
- `md_to_beamer_slides` with `flush_slide` and the handler table (`Beamer`);
- the title and the template that wrap the slides, and the `convert_report`
  dispatch to the LaTeX exporter (`Document`).

**Jira statistics.** The model covers the JQL query `fetch_data` composes
(`JiraQuery`) and the one-pass statistics loop of `generate_report_data` with
its `safe_get` defaults (`JiraReport`). Both come from integrations/jira.py.

The code that works by changing state is imperative Dafny:

- `PushbackIterator` is a class over the lines, a position and a buffer stack.
- The closure state of `md_to_beamer_slides` is the class
  `Beamer.SlideAccumulator`. Its handler methods update the slides, the
  current title and content, and the shared `table_lines` buffer.
- The dispatch loop, the two lookahead loops of `handle_list` and
  `handle_table`, and the counting loops of `generate_report_data` are
  `while`/`for` loops with invariants.

Each loop is proved equal to a functional reference:

- `SlideSpec.BeamerSlides` cuts the lines into handler blocks and folds them
  into frames.
- `JiraReport.ReportData` is a fold of the same bumps over the issues.

The lemmas then state what those references mean:

- one frame per heading section;
- no input line lost or repeated;
- counters that hold the number of occurrences and add up to the total;
- the epic hierarchy grouping the issue keys in input order.

Design points:

- Python strings are `seq<char>`. `str.strip` uses Python's whitespace set
  (`Text.IsSpace`), and `split`, `join` and `startswith` are written out in
  module `Text`.
- Python truthiness is spelled out: `""`, `None`, `[]` and a sprint id of 0
  are false.
- Dictionaries the loop fills are `map`s. `d.get(k, 0) + 1` is
  `JiraReport.Bump`, and `setdefault(k, []).append(v)` is a map update.
- The pushback buffer is a stack. Python keeps its top last; the model keeps
  it first, so the lines still to come are `buffer + lines[pos..]`.
- The lookahead loops of `handle_list` and `handle_table` are the methods
  `Beamer.TakeListItems` and `Beamer.TakeTableRows`. The handler appends
  what they return. Python appends each item to the content as it goes; the
  final content is the same.
- `re.sub` with the two non-greedy patterns is a left-to-right scan. It takes
  the leftmost opening delimiter that has a closing one and the nearest
  closing delimiter, never across a line break, since `.` does not match one.
- `sprint_id` is `Option<nat>`, written in decimal in the clause.

## Model

| member | source | states |
|---|---|---|
| LatexEscape.EscapeLatex | services/exports.py:159-174 | `escape_latex`: the ten replacements applied to the whole text one after another, in the table's order; what that means is stated by the lemmas below |
| LatexEscape.EscapeLatexIsEscapeEach | services/exports.py:159-174 | the ordered fold of the ten replacements equals escaping each character on its own by `EscapeChar`: reserved characters get `\textbackslash{}` before their escaped form, tilde and caret are spelled out |
| LatexEscape.EscapeLatexChar | services/exports.py:160-173 | one character escapes to exactly `EscapeChar(c)`; the values inserted by earlier entries meet only the backslash rule |
| LatexEscape.EscapeLatexAppend | services/exports.py:172-173 | escaping distributes over concatenation |
| LatexEscape.EscapeLatexPlain | services/exports.py:159-174 | text with no reserved character comes back unchanged |
| LatexEscape.EscapeLatexAmpersand | services/exports.py:159-174 | because the backslash rule runs last, `&` becomes `\textbackslash{}&` |
| LatexEscape.EscapeLatexContents | services/exports.py:159-174 | escaped text has no `~` and no `^`, is never shorter, and keeps `*` and line breaks exactly when the input has them |
| LatexEscape.EscapeLatexKeeps | services/exports.py:159-174 | a character outside the inserted markup alphabet (other than `~` and `^`) occurs in the output if and only if it occurs in the input |
| InlineFormat.ApplyFormatting | services/exports.py:225-229 | `apply_formatting`: escape first, then the bold rewrite, then the italic rewrite |
| InlineFormat.Bold | services/exports.py:227 | the bold `re.sub`: a left-to-right scan that replaces each `**…**` span, nearest closing `**` on the same line, by `\textbf{…}` |
| InlineFormat.Italic | services/exports.py:228 | the italic `re.sub`: the same scan for `*…*` spans and `\textit{…}` |
| InlineFormat.FindDoubleStar | services/exports.py:227 | finds the first `**` at or after a position with no line break before it; when none is found, every later `**` lies past a line break |
| InlineFormat.FindStar | services/exports.py:228 | the same search for a single `*` |
| InlineFormat.NoStarUnchanged | services/exports.py:227-228 | text without an asterisk is left alone by both rewrites |
| InlineFormat.NoDoubleStarBoldUnchanged | services/exports.py:227 | with no two adjacent asterisks the bold rewrite changes nothing |
| InlineFormat.BoldSpan | services/exports.py:227 | `**w**` becomes `\textbf{w}` |
| InlineFormat.ItalicSpan | services/exports.py:228 | `*w*` becomes `\textit{w}` |
| InlineFormat.ApplyFormattingPlain | services/exports.py:225-229 | a line with no asterisk is only escaped |
| InlineFormat.ApplyFormattingBold | services/exports.py:225-229 | `**w**` yields `\textbf{` + escaped `w` + `}`: escaping comes first, so the inserted markup is not escaped |
| InlineFormat.ApplyFormattingItalic | services/exports.py:225-229 | `*w*` yields `\textit{` + escaped `w` + `}`; for an empty `w` the line `**` is left alone by the bold rewrite and becomes `\textit{}` |
| InlineFormat.BoldAround | services/exports.py:227 | inside a line, the text before a `**w**` span is kept, the span becomes `\textbf{w}`, and the rewrite carries on after it, so every span on the line is converted |
| InlineFormat.ItalicAround | services/exports.py:228 | the same for a `*w*` span and `\textit{w}` |
| InlineFormat.ApplyFormattingAround | services/exports.py:225-229 | a line with a bold span: the text before it is escaped, the span becomes `\textbf{` + escaped `w` + `}`, and the rest of the line is formatted on its own |
| TableRender.MdTableToLatex | services/exports.py:176-188 | `md_table_to_latex`: the lines of `TableLines` joined by line breaks |
| TableRender.TableLines | services/exports.py:179-187 | the list `latex`: the column spec, `\toprule`, the header row, `\midrule`, one line per non-blank data row, `\bottomrule`, `\end{tabular}` |
| TableRender.Cells | services/exports.py:177 | the cells of a row: the pieces between pipes, trimmed and escaped, blank ones dropped |
| TableRender.Cell | services/exports.py:184 | one cell: `escape_latex(c.strip())` |
| TableRender.NonEmptyCells | services/exports.py:184 | the comprehension over the pieces; never more cells than pieces |
| TableRender.NonEmptyCellsNonEmpty | services/exports.py:184 | every kept cell is non-empty |
| TableRender.NonEmptyCellsAll | services/exports.py:184 | when no piece is blank, every piece is kept, trimmed and escaped, in order |
| TableRender.BlankPieceDropped | services/exports.py:184 | a blank piece adds no cell wherever it stands, between two pipes included |
| TableRender.TableLinesShape | services/exports.py:176-188 | the table is six fixed lines plus one per non-blank data row; the column spec has one `l` per non-empty header cell; each row is rendered from its own non-empty cells |
| TableRender.NonBlankRowsKeeps | services/exports.py:178 | blank data rows are dropped, and when there are none every row is kept in order |
| TableRender.NonBlankRows | services/exports.py:178 | the data rows that do not strip to nothing, in their order |
| TableRender.RowLine | services/exports.py:181-185 | the line of one row: its cells joined by ` & `, then ` \\` |
| TableRender.TableLinesFree | services/exports.py:176-188 | rows without line breaks give lines without line breaks |
| TableRender.MdTableLineCount | services/exports.py:176-188 | the joined table has exactly 6 + (non-blank data rows) lines |
| LineCursor.PushbackIterator.constructor | services/exports.py:236-238 | the cursor starts with an empty buffer and delivers the lines in order |
| LineCursor.PushbackIterator.Next | services/exports.py:243-246 | the buffer is popped first, then the lines are advanced; `None` (StopIteration) exactly when nothing remains; the rest is what was left minus the value returned |
| LineCursor.PushbackIterator.Pushback | services/exports.py:248-249 | the pushed value is the next one delivered, ahead of everything that was left |
| LineCursor.PushbackOrder | services/exports.py:243-249 | two pushed-back lines come back last in, first out, and then the lines resume where they were |
| SlideSpec.BeamerSlides | services/exports.py:251-296 | what `md_to_beamer_slides` returns: the lines cut into handler blocks, folded into the accumulator, flushed, and the frames joined by line breaks |
| SlideSpec.TitleText | services/exports.py:190-191 | the new title: `line[2:]` stripped and escaped |
| SlideSpec.SubtitleFragment | services/exports.py:193-195 | `\textbf{…}\\[1ex]` around `line[3:]` stripped and escaped |
| SlideSpec.SubsubtitleFragment | services/exports.py:197-199 | `\textbf{\small …}\\[0.5ex]` around `line[4:]` stripped and escaped |
| SlideSpec.ListFragments | services/exports.py:201-211 | `\begin{itemize}`, the first item from `line[2:]` stripped and formatted, one item per continuation line, `\end{itemize}` |
| SlideSpec.ItemFragment | services/exports.py:206 | a continuation item: the stripped line with its first two characters cut, formatted |
| SlideSpec.ParagraphFragment | services/exports.py:231-233 | the formatted line followed by `\\` |
| SlideSpec.Frame | services/exports.py:270-273 | `\begin{frame}{title}`, the content lines, `\end{frame}`; a missing or empty title prints as nothing |
| SlideSpec.Flush | services/exports.py:267-275 | `flush_slide`: a frame is added and title and content reset only when the title is truthy or there is content |
| SlideSpec.Step | services/exports.py:282-293 | one pass of the loop body: a heading flushes the slide and starts a new title with empty content; any other block appends its lines to the content |
| SlideSpec.RunFrom | services/exports.py:277-293 | the loop: one step per handler result, in input order |
| SlideSpec.PrefixesExclusive | services/exports.py:259-262 | no line starts with two of the four handler prefixes |
| SlideSpec.Classify | services/exports.py:258-265 | the handler a line selects: each prefix handler if and only if its prefix; the table handler if and only if the line has `\|`, no `---` and no prefix; otherwise the paragraph handler |
| SlideSpec.ListSpan | services/exports.py:204-209 | the list handler consumes the longest run of following lines that strip to a `- ` item |
| SlideSpec.TableSpan | services/exports.py:215-220 | the table handler consumes the longest run of following lines with `\|` and no `---` |
| SlideSpec.FirstBlock | services/exports.py:201-223 | a block has the handler its line selects and consumes a prefix of the lines that follow |
| SlideSpec.Blocks | services/exports.py:277-293 | the handler calls the loop makes: a line that strips to nothing is skipped; any other line opens the block its first matching handler selects; a list or table block takes the run of lines after it, and dispatch resumes after that run |
| SlideSpec.SeparatorRowEndsTable | services/exports.py:213-223 | a row containing `---` ends the table run; dispatched afresh, its stripped line goes to the paragraph handler if and only if it starts with none of the four handler prefixes |
| SlideSpec.PipeRowClass | services/exports.py:258-265 | a line that starts with a pipe and ends with a non-space is left alone by strip and selects the table handler, or the paragraph handler when it contains `---` |
| SlideSpec.TableRowThenSeparator | services/exports.py:213-223 | a table row followed by a separator row makes a table of that row alone, and dispatch resumes at the separator |
| SlideSpec.SeparatorThen | services/exports.py:277-293 | a separator row makes a paragraph block of its own |
| SlideSpec.SeparatorRowSplitsTable | services/exports.py:213-293 | rows that start with a pipe and end with a non-space, where only the middle one has dashes and it contains `---`: a table of the header alone, a paragraph line, and a second table of the data row |
| SlideSpec.SeparatorRowExample | services/exports.py:213-293 | the same for the rows `\| A \| B \|`, `\|---\|---\|` and `\| 1 \| 2 \|` |
| SlideSpec.BlocksBlank | services/exports.py:279-281 | a line that strips to nothing opens no block |
| SlideSpec.BlocksKeepLines | services/exports.py:277-293 | the blocks account for exactly the non-blank stripped input lines, each once, in order |
| SlideSpec.TitleTextNonEmpty | services/exports.py:190-191 | a stripped `# ` line gives a non-empty title |
| SlideSpec.FragmentsNonEmpty | services/exports.py:193-233 | every handler but the title handler appends at least one line |
| SlideSpec.RunFromSnoc | services/exports.py:277-293 | folding one more handler result is one more loop step |
| SlideSpec.LeadContentEmpty | services/exports.py:269 | the content before the first heading is empty only when there is none |
| SlideSpec.SlidesAreSections | services/exports.py:267-296 | the fold and final flush give one frame per heading, holding exactly the content up to the next heading, after a leading untitled frame when content precedes the first heading |
| SlideSpec.SlidesByHeadings | services/exports.py:251-296 | `md_to_beamer_slides` returns those section frames joined by line breaks |
| SlideSpec.FrameCount | services/exports.py:267-296 | the number of frames is the number of headings, plus one when content precedes the first |
| SlideSpec.BlocksEmpty | services/exports.py:277-281 | there are no blocks if and only if every line is blank |
| SlideSpec.BlankDocument | services/exports.py:267-296 | the slides are empty if and only if every input line is blank |
| Beamer.SlideAccumulator.constructor | services/exports.py:252-256 | no slides, no title, no content, empty table buffer |
| Beamer.SlideAccumulator.FlushSlide | services/exports.py:267-275 | emits a frame and resets title and content exactly when there is a (non-empty) title or some content |
| Beamer.SlideAccumulator.StartSlide | services/exports.py:284-286 | flushes, then starts a slide titled by the escaped, stripped heading text with empty content |
| Beamer.SlideAccumulator.HandleSubtitle | services/exports.py:193-195 | appends the `\textbf{…}\\[1ex]` line |
| Beamer.SlideAccumulator.HandleSubsubtitle | services/exports.py:197-199 | appends the `\textbf{\small …}\\[0.5ex]` line |
| Beamer.SlideAccumulator.HandleBoldItalic | services/exports.py:231-233 | appends the formatted line followed by `\\` |
| Beamer.SlideAccumulator.HandleList | services/exports.py:201-211 | appends the itemize block of the first item and the consumed run of items; the cursor resumes after the run |
| Beamer.SlideAccumulator.HandleTable | services/exports.py:213-223 | renders the buffer, the line and the consumed run of rows as one table; the buffer is cleared; the cursor resumes after the run |
| Beamer.SlideAccumulator.HandleLine | services/exports.py:282-293 | the single-line handlers perform one fold step of the block the line opens |
| Beamer.SlideAccumulator.HandleBlock | services/exports.py:282-293 | the handler lookup performs one fold step of `FirstBlock` and advances the cursor past the block's lines |
| Beamer.TakeListItems | services/exports.py:204-209 | takes exactly the list run from the cursor, formatting each item; the line that ends it is pushed back |
| Beamer.TakeTableRows | services/exports.py:215-220 | takes exactly the table run from the cursor; the line that ends it is pushed back |
| Beamer.MdToBeamerSlides | services/exports.py:251-296 | returns `SlideSpec.BeamerSlides(text)` |
| Document.DocumentTitle | services/exports.py:298-306 | the first line with every `#` removed, stripped and escaped |
| Document.LatexDocument | services/exports.py:139-157 | the raw template's lines with the title on the `\title{…}` line and the slides on the line between the title page and `\end{document}` |
| Document.TitleFacts | services/exports.py:298-306 | the escaped title contains no `#` and no line break |
| Document.TitleFromFirstLine | services/exports.py:299-300 | only the first line decides the title |
| Document.TitleOfPlainHeading | services/exports.py:298-306 | a first line with no reserved characters and no surrounding space is the title once its `#` marks are removed |
| Document.DocumentLines | services/exports.py:139-157 | read back line by line, the document is the template head with the title on line 8, then the slides' lines, then the template foot |
| Document.SaveLatexReport | services/exports.py:298-306 | the document is the template filled with the escaped title and the transpiled slides |
| Document.SelectFormat | services/exports.py:24-32 | `pdf`, `excel` and `latex` select their own exporter; every other name falls back to Markdown |
| Document.SelectFormatName | services/exports.py:24-29 | each exporter is found under its own key |
| Document.ConvertReport | services/exports.py:21-35 | runs the selected exporter: Markdown keeps the text, LaTeX yields the Beamer document |
| JiraQuery.SprintStateClause | integrations/jira.py:53-57 | exactly `active`, `closed` and `future` map to their clauses |
| JiraQuery.SprintClause | integrations/jira.py:65-68 | a truthy sprint id gives `sprint = <id>`; otherwise the state's clause, if any |
| JiraQuery.JqlComponents | integrations/jira.py:60-68 | a project clause when a key is given, then at most one sprint clause, in that order |
| JiraQuery.JqlQuery | integrations/jira.py:71 | a non-empty custom JQL wins; with no inputs the query is empty |
| JiraQuery.SprintIdWins | integrations/jira.py:65-68 | with a sprint id the state does not affect the query |
| JiraQuery.UnknownStateAddsNothing | integrations/jira.py:67-68 | an unmapped state adds no clause |
| JiraQuery.ProjectAndSprint | integrations/jira.py:60-71 | project and sprint give `project = k AND <sprint clause>` |
| JiraQuery.ActiveSprintQuery | integrations/jira.py:53-71 | an active-sprint query of project `k` is `project = k AND sprint in openSprints()` |
| JiraReport.SafeGet | integrations/jira.py:86-95 | `safe_get` for a one-part attribute: the default when the fields are missing or the attribute is `None`, otherwise the value, even an empty one |
| JiraReport.SafeGetName | integrations/jira.py:86-95 | `safe_get(fields, 'x.name', default)`: the default when any step is missing |
| JiraReport.SafeGetPerson | integrations/jira.py:86-95 | `safe_get(fields, 'x.displayName', default)`: likewise |
| JiraReport.ReportData | integrations/jira.py:80-171 | what `generate_report_data` returns: the error for an empty list, otherwise the flattened issues, the four counters, the epic sizes and the hierarchy folded over the issues in order |
| JiraReport.Extract | integrations/jira.py:119-131 | the key is kept; assignee and type take `Sin asignar`/`Tarea` exactly when missing; an issue without fields has empty status and labels; the epic is set exactly when the epic link is non-empty |
| JiraReport.EpicSizes | integrations/jira.py:168 | same epics as the hierarchy; each count is the length of its key list |
| JiraReport.Tally | integrations/jira.py:143-149 | a counter after `d[k] = d.get(k, 0) + 1` for each value, in order |
| JiraReport.Hierarchy | integrations/jira.py:151-155 | `epic_issues` after the loop: for each issue with a truthy epic link, its key appended to that epic's list, in input order |
| JiraReport.CountLabels | integrations/jira.py:148-149 | the label counter after the loop is the counter of every label seen so far followed by this issue's labels |
| JiraReport.CountedStep | integrations/jira.py:139-155 | one loop body keeps every counter equal to the counter of the issues processed so far |
| JiraReport.GenerateReportData | integrations/jira.py:80-171 | returns `ReportData(issues)`, the fold of the same updates over the issues |
| JiraReport.TallyCounts | integrations/jira.py:143-149 | a counter holds exactly the values that occur, each with its number of occurrences |
| JiraReport.TallySum | integrations/jira.py:143-145 | a counter's values add up to the number of values counted |
| JiraReport.ReportShape | integrations/jira.py:80-171 | the error exactly for an empty list; otherwise `total_issues` is the number of issues and each issue is flattened in order |
| JiraReport.CountsSumToTotal | integrations/jira.py:143-166 | `by_status`, `by_assignee` and `by_type` each add up to `total_issues` |
| JiraReport.DefaultsCounted | integrations/jira.py:119-145 | an issue with no assignee or no type is counted under `Sin asignar` or `Tarea` |
| JiraReport.LabelsCounted | integrations/jira.py:147-167 | `by_label[l]` is the number of occurrences of `l` across all issues' labels |
| JiraReport.HierarchyIsEpicMembers | integrations/jira.py:151-170 | `hierarchy` has epic `e` exactly when some issue links to it, with those issues' keys in input order |
| JiraReport.EpicStatistics | integrations/jira.py:151-170 | as above, and `by_epic[e]` is the number of issues in epic `e` |

## Left out

- File output. `save_report`, `save_markdown_report`, the `.tex` write and `os.makedirs` perform I/O. The model returns the text the exporters would write.
- Document.SaveLatexReport: returns the document text, not the path of the written file.
- Document.ConvertReport: the PDF and Excel exporters (exports/pdf.py, exports/excel.py) are not part of this model. Their results are the opaque `PdfFile` and `ExcelFile`.
- The `"Presentación"` fallback title (services/exports.py:300) is unreachable, because `split` always returns at least one line. The model has no branch for it.
- `re.sub` is modelled only for the two patterns `apply_formatting` uses, not as a general regex engine.
- `escape_latex` escapes characters, not Unicode normalisation or encodings. `str.strip` covers the whitespace characters listed in `Text.IsSpace`.
- LineCursor.PushbackIterator.Next: the model's cursor is a sequence and a position. A general Python iterator is not modelled; `md_to_beamer_slides` only ever wraps a list.
- JiraQuery.SprintClause: a sprint id is `None` or a natural number. String or negative ids, which Python would format as given, are not modelled.
- The Jira client: the connection check, `search_issues`, `max_results`, the `print` of the query and the error returned on an exception are external calls or I/O.
- `extract_sprint` and the `sprint` field of each issue (integrations/jira.py:98-108, 129) parse a custom field whose contents are free text. The flattened issue has no sprint entry.
- JiraReport.Extract: `safe_get`'s `except` branch is not modelled, since attribute reads on the modelled records cannot fail. A `labels` attribute that is present but `None`, which would make the label loop raise, is not modelled either.
- Insertion order of the counter dictionaries is not modelled: they are `map`s. The order of the keys inside each `hierarchy` list is modelled.
- The remaining modules (main.py, config.py, the OpenAI and database services) are not part of this model.

## Behaviour a reader may not expect

- **Separator rows.** A Markdown separator row (`|---|---|`) contains `---`, so it fails the table predicate and ends the table. Dispatched afresh, it becomes a paragraph. A header, separator and data row therefore yield a header-only table, a paragraph line and a second table, not one table (`SlideSpec.SeparatorRowSplitsTable`, `SlideSpec.SeparatorRowExample`).
- **Leading content.** Content before the first heading forms a leading frame with an empty title, emitted before the titled frames (`SlideSpec.SlidesAreSections`).
- **Empty cells.** `md_table_to_latex` drops every empty cell of a row, not only the ones outside the outer pipes (`TableRender.BlankPieceDropped`).
- **Title.** The document title comes from the report's first line with every `#` removed, wherever it stands, then stripped and escaped (`Document.DocumentTitle`).
- **List items.** Items after the first have the `- ` prefix cut after stripping and are not stripped again (`SlideSpec.ItemFragment`); the first item is stripped after the cut.
- **Ampersand.** The backslash rule runs after the others, so every escape inserted earlier has its backslash escaped again: `&` becomes `\textbackslash{}&` (`LatexEscape.EscapeLatexAmpersand`).
