/** `apply_formatting`: escape the text, then rewrite `**…**` spans to
    `\textbf{…}` and then `*…*` spans to `\textit{…}`. Each rewrite is a
    left-to-right scan that, like `re.sub` with a non-greedy group, takes the
    leftmost opening delimiter that has a closing one and the nearest closing
    delimiter; the group may not run over a line break, as `.` does not match
    one. */
module InlineFormat {
  import opened Text
  import opened LatexEscape

  /** The first `j >= from` where `**` starts, if no line break comes first. */
  function FindDoubleStar(s: string, from: nat): (r: Option<nat>)
    ensures r.Some? ==> from <= r.value && r.value + 2 <= |s| && s[r.value] == '*' && s[r.value + 1] == '*'
    ensures r.Some? ==> forall k :: from <= k < r.value ==> s[k] != '\n' && !(s[k] == '*' && s[k + 1] == '*')
    ensures r.None? ==> forall k :: from <= k && k + 1 < |s| && s[k] == '*' && s[k + 1] == '*' ==>
                          '\n' in s[from..k]
    decreases |s| - from
  {
    if from + 1 >= |s| then None
    else if s[from] == '*' && s[from + 1] == '*' then Some(from)
    else if s[from] == '\n' then None
    else FindDoubleStar(s, from + 1)
  }

  /** The first `j >= from` holding `*`, if no line break comes first. */
  function FindStar(s: string, from: nat): (r: Option<nat>)
    ensures r.Some? ==> from <= r.value < |s| && s[r.value] == '*'
    ensures r.Some? ==> forall k :: from <= k < r.value ==> s[k] != '\n' && s[k] != '*'
    ensures r.None? ==> forall k :: from <= k < |s| && s[k] == '*' ==> '\n' in s[from..k]
    decreases |s| - from
  {
    if from >= |s| then None
    else if s[from] == '*' then Some(from)
    else if s[from] == '\n' then None
    else FindStar(s, from + 1)
  }

  /** `re.sub(r'\*\*(.*?)\*\*', r'\\textbf{\1}', s)`. */
  function Bold(s: string): string
    decreases |s|
  {
    if |s| < 2 then s
    else if s[0] == '*' && s[1] == '*' then
      match FindDoubleStar(s, 2)
      case Some(j) => @"\textbf{" + s[2..j] + "}" + Bold(s[j + 2..])
      case None => [s[0]] + Bold(s[1..])
    else [s[0]] + Bold(s[1..])
  }

  /** `re.sub(r'\*(.*?)\*', r'\\textit{\1}', s)`. */
  function Italic(s: string): string
    decreases |s|
  {
    if s == [] then s
    else if s[0] == '*' then
      match FindStar(s, 1)
      case Some(j) => @"\textit{" + s[1..j] + "}" + Italic(s[j + 1..])
      case None => [s[0]] + Italic(s[1..])
    else [s[0]] + Italic(s[1..])
  }

  function ApplyFormatting(text: string): string {
    Italic(Bold(EscapeLatex(text)))
  }

  /** Without an asterisk there is nothing for either rewrite to match. */
  lemma {:induction false} NoStarUnchanged(s: string)
    requires '*' !in s
    ensures Bold(s) == s && Italic(s) == s
    decreases |s|
  {
    if s != [] {
      NoStarUnchanged(s[1..]);
      assert s == [s[0]] + s[1..];
    }
  }

  /** A line without an asterisk is only escaped. */
  lemma ApplyFormattingPlain(text: string)
    requires '*' !in text
    ensures ApplyFormatting(text) == EscapeLatex(text)
  {
    EscapeLatexContents(text);
    NoStarUnchanged(EscapeLatex(text));
  }

  /** A whole `**w**` span becomes `\textbf{w}`. */
  lemma BoldSpan(w: string)
    requires '*' !in w && '\n' !in w
    ensures Bold("**" + w + "**") == @"\textbf{" + w + "}"
  {
    var s := "**" + w + "**";
    var j := |w| + 2;
    assert s[j] == '*' && s[j + 1] == '*';
    forall k | 2 <= k < j
      ensures s[k] != '\n' && !(s[k] == '*' && s[k + 1] == '*')
    {
      assert s[k] == w[k - 2];
    }
    FindDoubleStarAt(s, 2, j);
    assert s[2..j] == w;
    assert s[j + 2..] == [];
  }

  /** `FindDoubleStar` finds the first `**` when nothing stops it earlier. */
  lemma {:induction false} FindDoubleStarAt(s: string, from: nat, j: nat)
    requires from <= j && j + 1 < |s| && s[j] == '*' && s[j + 1] == '*'
    requires forall k :: from <= k < j ==> s[k] != '\n' && !(s[k] == '*' && s[k + 1] == '*')
    ensures FindDoubleStar(s, from) == Some(j)
    decreases j - from
  {
    if from < j {
      FindDoubleStarAt(s, from + 1, j);
    }
  }

  /** `FindStar` finds the first `*` when nothing stops it earlier. */
  lemma {:induction false} FindStarAt(s: string, from: nat, j: nat)
    requires from <= j < |s| && s[j] == '*'
    requires forall k :: from <= k < j ==> s[k] != '\n' && s[k] != '*'
    ensures FindStar(s, from) == Some(j)
    decreases j - from
  {
    if from < j {
      FindStarAt(s, from + 1, j);
    }
  }

  /** A whole `*w*` span becomes `\textit{w}`. */
  lemma ItalicSpan(w: string)
    requires '*' !in w && '\n' !in w
    ensures Italic("*" + w + "*") == @"\textit{" + w + "}"
  {
    var s := "*" + w + "*";
    var j := |w| + 1;
    forall k | 1 <= k < j
      ensures s[k] != '\n' && s[k] != '*'
    {
      assert s[k] == w[k - 1];
    }
    FindStarAt(s, 1, j);
    assert s[1..j] == w;
    assert s[j + 1..] == [];
  }

  /** With no two asterisks in a row the bold rewrite has nothing to match. */
  lemma {:induction false} NoDoubleStarBoldUnchanged(s: string)
    requires forall k :: 0 <= k < |s| - 1 ==> !(s[k] == '*' && s[k + 1] == '*')
    ensures Bold(s) == s
    decreases |s|
  {
    if |s| >= 2 {
      NoDoubleStarBoldUnchanged(s[1..]);
      assert s == [s[0]] + s[1..];
    }
  }

  /** Escaping leaves the delimiters around `w` alone and escapes `w`. */
  lemma EscapeAround(d: string, w: string)
    requires forall k :: 0 <= k < |d| ==> d[k] == '*'
    ensures EscapeLatex(d + w + d) == d + EscapeLatex(w) + d
  {
    EscapeLatexPlain(d);
    EscapeLatexAppend(d, w);
    EscapeLatexAppend(d + w, d);
  }

  /** The rewrites alone, on an already escaped `e`: `**e**` becomes `\textbf{e}`. */
  lemma RewriteBoldSpan(e: string)
    requires '*' !in e && '\n' !in e
    ensures Italic(Bold("**" + e + "**")) == @"\textbf{" + e + "}"
  {
    BoldSpan(e);
    NoStarUnchanged(@"\textbf{" + e + "}");
  }

  /** The rewrites alone, on an already escaped `e`: `*e*` becomes `\textit{e}`.
      For an empty `e` the line is `**`, which the bold rewrite leaves alone
      (it needs four asterisks) and the italic rewrite turns into `\textit{}`. */
  lemma RewriteItalicSpan(e: string)
    requires '*' !in e && '\n' !in e
    ensures Italic(Bold("*" + e + "*")) == @"\textit{" + e + "}"
  {
    var s := "*" + e + "*";
    if e == [] {
      assert s == "**";
      assert FindDoubleStar(s, 2) == None;
      assert Bold(s) == [s[0]] + Bold(s[1..]);
    } else {
      forall k | 0 <= k < |s| - 1
        ensures !(s[k] == '*' && s[k + 1] == '*')
      {
        if k == 0 {
          assert s[1] == e[0];
        } else {
          assert s[k] == e[k - 1];
        }
      }
      NoDoubleStarBoldUnchanged(s);
    }
    ItalicSpan(e);
  }

  /** Escaping comes first, so the markup the rewrites insert is never escaped:
      `**w**` yields `\textbf{` + the escaped `w` + `}`. */
  lemma ApplyFormattingBold(w: string)
    requires '*' !in w && '\n' !in w
    ensures ApplyFormatting("**" + w + "**") == @"\textbf{" + EscapeLatex(w) + "}"
  {
    EscapeAround("**", w);
    EscapeLatexContents(w);
    RewriteBoldSpan(EscapeLatex(w));
  }

  /** `*w*` yields `\textit{` + the escaped `w` + `}`; `**` yields `\textit{}`. */
  lemma ApplyFormattingItalic(w: string)
    requires '*' !in w && '\n' !in w
    ensures ApplyFormatting("*" + w + "*") == @"\textit{" + EscapeLatex(w) + "}"
  {
    EscapeAround("*", w);
    EscapeLatexContents(w);
    RewriteItalicSpan(EscapeLatex(w));
  }

  /** Text without an asterisk in front of the rest passes the bold rewrite unchanged. */
  lemma {:induction false} BoldPlainPrefix(x: string, y: string)
    requires '*' !in x
    ensures Bold(x + y) == x + Bold(y)
    decreases |x|
  {
    if x != [] {
      assert x[0] != '*';
      BoldPlainPrefix(x[1..], y);
      assert (x + y)[1..] == x[1..] + y;
      if |x + y| < 2 {
        assert x[1..] == [] && |y| < 2;
      } else {
        assert Bold(x + y) == [x[0]] + Bold(x[1..] + y);
      }
      assert x == [x[0]] + x[1..];
      Regroup([x[0]], x[1..], Bold(y));
    } else {
      assert x + y == y;
    }
  }

  /** Text without an asterisk in front of the rest passes the italic rewrite unchanged. */
  lemma {:induction false} ItalicPlainPrefix(x: string, y: string)
    requires '*' !in x
    ensures Italic(x + y) == x + Italic(y)
    decreases |x|
  {
    if x != [] {
      assert x[0] != '*';
      ItalicPlainPrefix(x[1..], y);
      assert (x + y)[1..] == x[1..] + y;
      assert Italic(x + y) == [x[0]] + Italic(x[1..] + y);
      assert x == [x[0]] + x[1..];
      Regroup([x[0]], x[1..], Italic(y));
    } else {
      assert x + y == y;
    }
  }

  /** A bold span at the front of the text, followed by anything. */
  lemma BoldSpanFront(w: string, q: string)
    requires '*' !in w && '\n' !in w
    ensures Bold("**" + w + "**" + q) == @"\textbf{" + w + "}" + Bold(q)
  {
    var s := "**" + w + "**" + q;
    var j := |w| + 2;
    forall k | 2 <= k < j
      ensures s[k] != '\n' && !(s[k] == '*' && s[k + 1] == '*')
    {
      assert s[k] == w[k - 2];
    }
    FindDoubleStarAt(s, 2, j);
    assert s[2..j] == w;
    assert s[j + 2..] == q;
  }

  lemma SpanRegroup(p: string, d: string, w: string, q: string)
    ensures p + d + w + d + q == p + (d + w + d + q)
  {
  }

  /** A bold span inside a line: the text before it is kept, the span is
      converted, and the rewrite carries on after it. Applied again to `q`,
      it converts every further span on the line. */
  lemma BoldAround(p: string, w: string, q: string)
    requires '*' !in p && '*' !in w && '\n' !in w
    ensures Bold(p + "**" + w + "**" + q) == p + @"\textbf{" + w + "}" + Bold(q)
  {
    var s := "**" + w + "**" + q;
    BoldSpanFront(w, q);
    SpanRegroup(p, "**", w, q);
    BoldPlainPrefix(p, s);
  }

  /** An italic span at the front of the text, followed by anything. */
  lemma ItalicSpanFront(w: string, q: string)
    requires '*' !in w && '\n' !in w
    ensures Italic("*" + w + "*" + q) == @"\textit{" + w + "}" + Italic(q)
  {
    var s := "*" + w + "*" + q;
    var j := |w| + 1;
    forall k | 1 <= k < j
      ensures s[k] != '\n' && s[k] != '*'
    {
      assert s[k] == w[k - 1];
    }
    FindStarAt(s, 1, j);
    assert s[1..j] == w;
    assert s[j + 1..] == q;
  }

  /** An italic span inside a line, likewise. */
  lemma ItalicAround(p: string, w: string, q: string)
    requires '*' !in p && '*' !in w && '\n' !in w
    ensures Italic(p + "*" + w + "*" + q) == p + @"\textit{" + w + "}" + Italic(q)
  {
    var s := "*" + w + "*" + q;
    ItalicSpanFront(w, q);
    SpanRegroup(p, "*", w, q);
    ItalicPlainPrefix(p, s);
  }

  /** `apply_formatting` on a line with a bold span: the text before it is
      escaped, the span becomes `\textbf{` + the escaped `w` + `}`, and the
      rest of the line is formatted on its own. */
  lemma ApplyFormattingAround(p: string, w: string, q: string)
    requires '*' !in p && '*' !in w && '\n' !in w
    ensures ApplyFormatting(p + "**" + w + "**" + q)
            == EscapeLatex(p) + @"\textbf{" + EscapeLatex(w) + "}" + ApplyFormatting(q)
  {
    var head := EscapeLatex(p) + @"\textbf{" + EscapeLatex(w) + "}";
    var rest := Bold(EscapeLatex(q));
    BoldOfEscapedSpan(p, w, q);
    EscapedHeadFree(p, w);
    ItalicPlainPrefix(head, rest);
  }

  lemma BoldOfEscapedSpan(p: string, w: string, q: string)
    requires '*' !in p && '*' !in w && '\n' !in w
    ensures Bold(EscapeLatex(p + "**" + w + "**" + q))
            == EscapeLatex(p) + @"\textbf{" + EscapeLatex(w) + "}" + Bold(EscapeLatex(q))
  {
    EscapeSpan(p, w, q);
    EscapeLatexContents(p);
    EscapeLatexContents(w);
    BoldAround(EscapeLatex(p), EscapeLatex(w), EscapeLatex(q));
  }

  lemma EscapedHeadFree(p: string, w: string)
    requires '*' !in p && '*' !in w
    ensures '*' !in EscapeLatex(p) + @"\textbf{" + EscapeLatex(w) + "}"
  {
    EscapeLatexContents(p);
    EscapeLatexContents(w);
    BoldMarkupFree(EscapeLatex(p), EscapeLatex(w));
  }

  lemma BoldMarkupFree(a: string, b: string)
    requires '*' !in a && '*' !in b
    ensures '*' !in a + @"\textbf{" + b + "}"
  {
    InConcat(a + @"\textbf{" + b, "}", '*');
    InConcat(a + @"\textbf{", b, '*');
    InConcat(a, @"\textbf{", '*');
  }

  /** Escaping a line around a `**` span escapes each part on its own. */
  lemma EscapeSpan(p: string, w: string, q: string)
    ensures EscapeLatex(p + "**" + w + "**" + q)
            == EscapeLatex(p) + "**" + EscapeLatex(w) + "**" + EscapeLatex(q)
  {
    var d := "**";
    EscapeLatexPlain(d);
    EscapeLatexAppend(p, d);
    EscapeLatexAppend(p + d, w);
    EscapeLatexAppend(p + d + w, d);
    EscapeLatexAppend(p + d + w + d, q);
  }
}
