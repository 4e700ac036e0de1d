/** `escape_latex` of the beamer exporter: ten literal replacements applied
    one after the other in the order of the replacement table, the backslash
    rule last. Because the backslash rule runs after the others, the backslash
    each earlier rule inserts is itself replaced: `&` comes out as
    `\textbackslash{}&`, not `\&`. The model keeps that behaviour. */
module LatexEscape {
  import opened Text

  /** The replacement table, in its insertion order. */
  function Replacements(): seq<(char, string)> {
    [
    ('&', @"\&"),
    ('%', @"\%"),
    ('$', @"\$"),
    ('#', @"\#"),
    ('_', @"\_"),
    ('{', @"\{"),
    ('}', @"\}"),
    ('~', @"\textasciitilde{}"),
    ('^', @"\textasciicircum{}"),
    ('\\', @"\textbackslash{}")
    ]
  }

  /** The characters the table has a rule for. */
  predicate IsReserved(c: char) {
    c == '&' || c == '%' || c == '$' || c == '#' || c == '_' ||
    c == '{' || c == '}' || c == '~' || c == '^' || c == '\\'
  }

  /** `for key, val in replacements.items(): text = text.replace(key, val)`. */
  function ApplyReplacements(text: string, table: seq<(char, string)>): string
    decreases |table|
  {
    if table == [] then text
    else ApplyReplacements(ReplaceChar(text, table[0].0, table[0].1), table[1..])
  }

  function EscapeLatex(text: string): string {
    ApplyReplacements(text, Replacements())
  }

  /** What the whole table does to one character, written out by hand. */
  function EscapeChar(c: char): string {
    if c == '\\' then @"\textbackslash{}"
    else if c == '~' then @"\textbackslash{}" + "textasciitilde{}"
    else if c == '^' then @"\textbackslash{}" + "textasciicircum{}"
    else if IsReserved(c) then @"\textbackslash{}" + [c]
    else [c]
  }

  /** Character-by-character reference escaping. */
  function EscapeEach(s: string): string
    decreases |s|
  {
    if s == [] then [] else EscapeChar(s[0]) + EscapeEach(s[1..])
  }

  lemma {:induction false} ApplyReplacementsAppend(a: string, b: string, table: seq<(char, string)>)
    ensures ApplyReplacements(a + b, table) == ApplyReplacements(a, table) + ApplyReplacements(b, table)
    decreases |table|
  {
    if table != [] {
      var (c, v) := table[0];
      ReplaceCharAppend(a, b, c, v);
      ApplyReplacementsAppend(ReplaceChar(a, c, v), ReplaceChar(b, c, v), table[1..]);
    }
  }

  /** Escaping distributes over concatenation. */
  lemma EscapeLatexAppend(a: string, b: string)
    ensures EscapeLatex(a + b) == EscapeLatex(a) + EscapeLatex(b)
  {
    ApplyReplacementsAppend(a, b, Replacements());
  }

  lemma {:induction false} ApplyReplacementsAbsent(s: string, table: seq<(char, string)>)
    requires forall k :: 0 <= k < |table| ==> table[k].0 !in s
    ensures ApplyReplacements(s, table) == s
    decreases |table|
  {
    if table != [] {
      ReplaceCharAbsent(s, table[0].0, table[0].1);
      ApplyReplacementsAbsent(s, table[1..]);
    }
  }

  /** Two facts about the table: its keys are pairwise distinct, and every
      value but the last starts with a backslash. */
  lemma TableShape()
    ensures forall k, j :: 0 <= k < j < |Replacements()| ==> Replacements()[k].0 != Replacements()[j].0
    ensures forall k :: 0 <= k < 9 ==> |Replacements()[k].1| >= 2 && Replacements()[k].1[0] == '\\'
  {
  }

  /** What follows the leading backslash of entry `i`'s value holds no key of a later entry. */
  lemma ValueTailHasNoLaterKey(i: nat)
    requires i < 9
    ensures forall k :: i < k < |Replacements()| ==> Replacements()[k].0 !in Replacements()[i].1[1..]
  {
    TableShape();
    if i == 7 {
      assert Replacements()[7].1[1..] == "textasciitilde{}";
      assert '^' !in "textasciitilde{}" && '\\' !in "textasciitilde{}";
    } else if i == 8 {
      assert Replacements()[8].1[1..] == "textasciicircum{}";
      assert '\\' !in "textasciicircum{}";
    } else {
      assert Replacements()[i].1[1..] == [Replacements()[i].0];
    }
  }

  /** Entries whose key is not `c` leave the one-character string `[c]` alone. */
  lemma {:induction false} SkipOtherKeys(c: char, table: seq<(char, string)>, i: nat)
    requires i <= |table|
    requires forall k :: 0 <= k < i ==> table[k].0 != c
    ensures ApplyReplacements([c], table) == ApplyReplacements([c], table[i..])
    decreases i
  {
    if i > 0 {
      ReplaceCharAbsent([c], table[0].0, table[0].1);
      assert table[1..][i - 1..] == table[i..];
      SkipOtherKeys(c, table[1..], i - 1);
    }
  }

  /** A backslash meets only the last entry. */
  lemma EscapeBackslashFrom(i: nat)
    requires i <= 9
    ensures ApplyReplacements(['\\'], Replacements()[i..]) == @"\textbackslash{}"
  {
    TableShape();
    SkipOtherKeys('\\', Replacements()[i..], 9 - i);
    assert Replacements()[i..][9 - i..] == [Replacements()[9]];
    assert ReplaceChar(['\\'], '\\', @"\textbackslash{}") == @"\textbackslash{}";
  }

  /** The value entry `i` inserts meets only the backslash rule afterwards. */
  lemma EscapeReservedAt(i: nat)
    requires i < 9
    ensures ApplyReplacements([Replacements()[i].0], Replacements()[i..]) == @"\textbackslash{}" + Replacements()[i].1[1..]
  {
    TableShape();
    var (c, v) := Replacements()[i];
    assert ReplaceChar([c], c, v) == v;
    assert Replacements()[i..][1..] == Replacements()[i + 1..];
    assert v == ['\\'] + v[1..];
    ApplyReplacementsAppend(['\\'], v[1..], Replacements()[i + 1..]);
    EscapeBackslashFrom(i + 1);
    ValueTailHasNoLaterKey(i);
    ApplyReplacementsAbsent(v[1..], Replacements()[i + 1..]);
  }

  /** Entry `i`'s value, its leading backslash escaped, is `EscapeChar` of its key. */
  lemma EscapedValueAt(i: nat)
    requires i < 9
    ensures @"\textbackslash{}" + Replacements()[i].1[1..] == EscapeChar(Replacements()[i].0)
  {
    if i == 7 {
      assert Replacements()[7].1[1..] == "textasciitilde{}";
    } else if i == 8 {
      assert Replacements()[8].1[1..] == "textasciicircum{}";
    } else {
      assert Replacements()[i].1[1..] == [Replacements()[i].0];
    }
  }

  /** The table, applied to the key of entry `i`, does what `EscapeChar` says. */
  lemma EscapeKeyAt(i: nat)
    requires i < |Replacements()|
    ensures EscapeLatex([Replacements()[i].0]) == EscapeChar(Replacements()[i].0)
  {
    TableShape();
    SkipOtherKeys(Replacements()[i].0, Replacements(), i);
    if i == 9 {
      EscapeBackslashFrom(9);
    } else {
      EscapeReservedAt(i);
      EscapedValueAt(i);
    }
  }

  /** Where a reserved character sits in the table. */
  function KeyIndex(c: char): (i: nat)
    requires IsReserved(c)
    ensures i < |Replacements()| && Replacements()[i].0 == c
  {
    if c == '&' then 0 else if c == '%' then 1 else if c == '$' then 2
    else if c == '#' then 3 else if c == '_' then 4 else if c == '{' then 5
    else if c == '}' then 6 else if c == '~' then 7 else if c == '^' then 8
    else 9
  }

  /** The table, applied to one character, does what `EscapeChar` says. */
  lemma EscapeLatexChar(c: char)
    ensures EscapeLatex([c]) == EscapeChar(c)
  {
    if IsReserved(c) {
      EscapeKeyAt(KeyIndex(c));
    } else {
      assert forall k :: 0 <= k < |Replacements()| ==> Replacements()[k].0 !in [c];
      ApplyReplacementsAbsent([c], Replacements());
    }
  }

  /** Escaping is the character-by-character reference. */
  lemma {:induction false} EscapeLatexIsEscapeEach(s: string)
    ensures EscapeLatex(s) == EscapeEach(s)
    decreases |s|
  {
    if s != [] {
      ConsSplit(s);
      EscapeLatexAppend([s[0]], s[1..]);
      EscapeLatexChar(s[0]);
      EscapeLatexIsEscapeEach(s[1..]);
    }
  }

  /** Text with no reserved character comes back unchanged; in particular
      the empty string escapes to itself. */
  lemma EscapeLatexPlain(s: string)
    requires forall k :: 0 <= k < |s| ==> !IsReserved(s[k])
    ensures EscapeLatex(s) == s
  {
    forall k | 0 <= k < |Replacements()|
      ensures Replacements()[k].0 !in s
    {
      assert IsReserved(Replacements()[k].0);
    }
    ApplyReplacementsAbsent(s, Replacements());
  }

  /** The quirk of the backslash rule running last: an ampersand is escaped
      twice over, and so is every other reserved character. */
  lemma EscapeLatexAmpersand()
    ensures EscapeLatex("&") == @"\textbackslash{}&"
  {
    EscapeLatexChar('&');
  }

  /** The markup the table inserts: backslashes, braces and lower-case letters. */
  predicate IsMarkupChar(c: char) {
    c == '\\' || c == '{' || c == '}' || 'a' <= c <= 'z'
  }

  predicate IsMarkup(s: string) {
    forall k :: 0 <= k < |s| ==> IsMarkupChar(s[k])
  }

  /** A character escaping passes through unchanged wherever it occurs: neither
      a character of the inserted markup nor one of the two that are spelled out. */
  predicate IsKept(d: char) {
    !IsMarkupChar(d) && d != '~' && d != '^'
  }

  lemma MarkupWords()
    ensures IsMarkup(@"\textbackslash{}") && IsMarkup("textasciitilde{}") && IsMarkup("textasciicircum{}")
  {
  }

  /** Markup holds no tilde, no caret, and no character outside its alphabet. */
  lemma MarkupExcludes(s: string, d: char)
    requires IsMarkup(s)
    ensures '~' !in s && '^' !in s
    ensures !IsMarkupChar(d) ==> d !in s
  {
  }

  /** What one character escapes to never contains a tilde or a caret, and
      contains a kept character `d` exactly when it is that character. */
  lemma EscapeCharContents(c: char, d: char)
    ensures '~' !in EscapeChar(c) && '^' !in EscapeChar(c)
    ensures IsKept(d) ==> (d in EscapeChar(c) <==> d == c)
    ensures |EscapeChar(c)| >= 1
  {
    var b := @"\textbackslash{}";
    MarkupWords();
    MarkupExcludes(b, d);
    if c == '~' {
      MarkupExcludes("textasciitilde{}", d);
    } else if c == '^' {
      MarkupExcludes("textasciicircum{}", d);
    }
  }

  lemma {:induction false} EscapeEachNoTildeCaret(s: string)
    ensures '~' !in EscapeEach(s) && '^' !in EscapeEach(s)
    decreases |s|
  {
    if s != [] {
      var h, t := EscapeChar(s[0]), EscapeEach(s[1..]);
      EscapeCharContents(s[0], ' ');
      EscapeEachNoTildeCaret(s[1..]);
      InConcat(h, t, '~');
      InConcat(h, t, '^');
    }
  }

  lemma {:induction false} EscapeEachKeeps(s: string, d: char)
    requires IsKept(d)
    ensures d in EscapeEach(s) <==> d in s
    decreases |s|
  {
    if s != [] {
      EscapeCharContents(s[0], d);
      EscapeEachKeeps(s[1..], d);
      InConcat(EscapeChar(s[0]), EscapeEach(s[1..]), d);
      InCons(s, d);
    }
  }

  lemma {:induction false} EscapeEachLength(s: string)
    ensures |EscapeEach(s)| >= |s|
    decreases |s|
  {
    if s != [] {
      EscapeCharContents(s[0], ' ');
      EscapeEachLength(s[1..]);
    }
  }

  lemma EscapeEachContents(s: string)
    ensures '~' !in EscapeEach(s) && '^' !in EscapeEach(s)
    ensures |EscapeEach(s)| >= |s|
    ensures '*' in EscapeEach(s) <==> '*' in s
    ensures '\n' in EscapeEach(s) <==> '\n' in s
  {
    EscapeEachNoTildeCaret(s);
    EscapeEachLength(s);
    EscapeEachKeeps(s, '*');
    EscapeEachKeeps(s, '\n');
  }

  /** Escaped text never contains `~` or `^`, is empty only when the input is,
      and neither adds nor drops an asterisk or a line break. */
  lemma EscapeLatexContents(s: string)
    ensures '~' !in EscapeLatex(s) && '^' !in EscapeLatex(s)
    ensures |EscapeLatex(s)| >= |s|
    ensures '*' in EscapeLatex(s) <==> '*' in s
    ensures '\n' in EscapeLatex(s) <==> '\n' in s
  {
    EscapeLatexIsEscapeEach(s);
    EscapeEachContents(s);
  }

  /** Escaping neither adds nor drops a kept character such as `#`, `*` or a
      line break: the markup it inserts is made of backslashes, braces and
      lower-case letters only. */
  lemma EscapeLatexKeeps(s: string, d: char)
    requires IsKept(d)
    ensures d in EscapeLatex(s) <==> d in s
  {
    EscapeLatexIsEscapeEach(s);
    EscapeEachKeeps(s, d);
  }
}
