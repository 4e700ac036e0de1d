/** The small part of Python's `str` behaviour the report exporter relies on:
    `strip()` with Python's whitespace set, `startswith`, `in`, `split`, `join`,
    `replace` of a single character and slicing past the end. */
module Text {

  datatype Option<+T> = None | Some(value: T) {
    function GetOr(default: T): T {
      match this
      case Some(v) => v
      case None => default
    }
  }

  /** Concatenation regroups; stated once so that the proofs below need not
      rediscover it among many string terms. */
  lemma Regroup<T>(a: seq<T>, b: seq<T>, c: seq<T>)
    ensures (a + b) + c == a + (b + c)
  {
  }

  lemma DropDrop<T>(xs: seq<T>, a: nat, b: nat)
    requires a + b <= |xs|
    ensures xs[a..][b..] == xs[a + b..]
  {
  }

  /** A slice of a slice is a slice of the whole. */
  lemma SliceSlice<T>(xs: seq<T>, a: nat, b: nat, c: nat, d: nat)
    requires a <= b <= |xs| && c <= d <= b - a
    ensures xs[a..b][c..d] == xs[a + c..a + d]
  {
    forall k | 0 <= k < d - c
      ensures xs[a..b][c..d][k] == xs[a + c..a + d][k]
    {
      assert xs[a..b][c..d][k] == xs[a..b][c + k];
    }
  }

  /** The first element and the rest of a concatenation with a non-empty front. */
  lemma TailAppend<T>(a: seq<T>, b: seq<T>)
    requires a != []
    ensures (a + b)[0] == a[0] && (a + b)[1..] == a[1..] + b
  {
  }

  /** The characters Python's `str.strip()` removes (`str.isspace()`). */
  predicate IsSpace(c: char) {
    c == ' ' || ('\t' <= c <= '\r') || ('\U{1C}' <= c <= '\U{1F}') ||
    c == '\U{85}' || c == '\U{A0}' || c == '\U{1680}' ||
    ('\U{2000}' <= c <= '\U{200A}') || c == '\U{2028}' || c == '\U{2029}' ||
    c == '\U{202F}' || c == '\U{205F}' || c == '\U{3000}'
  }

  predicate AllSpace(s: string) {
    forall k :: 0 <= k < |s| ==> IsSpace(s[k])
  }

  /** `s.lstrip()`. */
  function TrimStart(s: string): (r: string)
    ensures |r| <= |s|
  {
    if s != [] && IsSpace(s[0]) then TrimStart(s[1..]) else s
  }

  /** `s.rstrip()`. */
  function TrimEnd(s: string): (r: string)
    ensures |r| <= |s|
  {
    if s != [] && IsSpace(s[|s| - 1]) then TrimEnd(s[..|s| - 1]) else s
  }

  /** `s.strip()`. */
  function Strip(s: string): string {
    TrimEnd(TrimStart(s))
  }

  /** Membership in a concatenation. */
  lemma InConcat(a: string, b: string, c: char)
    ensures c in a + b <==> c in a || c in b
  {
    if c in a + b {
      var k :| 0 <= k < |a + b| && (a + b)[k] == c;
      if k >= |a| {
        assert b[k - |a|] == c;
      }
    }
  }

  lemma ConsSplit(s: string)
    requires s != []
    ensures s == [s[0]] + s[1..]
  {
  }

  /** Membership in a non-empty string: its first character or the rest. */
  lemma InCons(s: string, c: char)
    requires s != []
    ensures c in s <==> c == s[0] || c in s[1..]
  {
    assert s == [s[0]] + s[1..];
  }

  /** `lstrip` drops exactly the leading whitespace: what is left is a suffix
      that is empty or starts with a non-space. */
  lemma {:induction false} TrimStartFacts(s: string)
    ensures var r := TrimStart(s);
      r == s[|s| - |r|..] && AllSpace(s[..|s| - |r|]) && (r == [] || !IsSpace(r[0]))
    decreases |s|
  {
    if s != [] && IsSpace(s[0]) {
      TrimStartFacts(s[1..]);
      var r := TrimStart(s[1..]);
      assert s[..|s| - |r|] == [s[0]] + s[1..][..|s| - 1 - |r|];
    }
  }

  /** `rstrip` drops exactly the trailing whitespace. */
  lemma {:induction false} TrimEndFacts(s: string)
    ensures var r := TrimEnd(s);
      r == s[..|r|] && AllSpace(s[|r|..]) && (r == [] || !IsSpace(r[|r| - 1]))
    decreases |s|
  {
    if s != [] && IsSpace(s[|s| - 1]) {
      TrimEndFacts(s[..|s| - 1]);
      var r := TrimEnd(s[..|s| - 1]);
      assert s[|r|..] == s[..|s| - 1][|r|..] + [s[|s| - 1]];
    }
  }

  /** `strip()` keeps a contiguous middle part of `s`, from `start` on, that
      is empty or begins and ends with a non-space, and drops only whitespace. */
  lemma StripFacts(s: string) returns (start: nat)
    ensures var r := Strip(s);
      start + |r| <= |s| && r == s[start..start + |r|]
      && AllSpace(s[..start]) && AllSpace(s[start + |r|..])
      && (r == [] || (!IsSpace(r[0]) && !IsSpace(r[|r| - 1])))
  {
    var t := TrimStart(s);
    TrimStartFacts(s);
    TrimEndFacts(t);
    var r := TrimEnd(t);
    start := |s| - |t|;
    assert s[start + |r|..] == t[|r|..];
    if r != [] {
      assert r[0] == t[0];
    }
  }

  /** Stripping is idempotent. */
  lemma StripIdempotent(s: string)
    ensures Strip(Strip(s)) == Strip(s)
  {
    var r := Strip(s);
    var _ := StripFacts(s);
    if r != [] {
      assert TrimStart(r) == r;
      assert TrimEnd(r) == r;
    }
  }

  /** A string strips to nothing exactly when it is all whitespace. */
  lemma StripEmpty(s: string)
    ensures Strip(s) == [] <==> AllSpace(s)
  {
    var start := StripFacts(s);
    if Strip(s) == [] {
      assert s == s[..start] + s[start..];
    }
  }

  /** Stripping only removes characters. */
  lemma StripFree(s: string, d: char)
    requires d !in s
    ensures d !in Strip(s)
  {
    var start := StripFacts(s);
    var r := Strip(s);
    assert forall k :: 0 <= k < |r| ==> r[k] == s[start + k];
  }

  /** A character that is not whitespace survives stripping. */
  lemma StripKeepsChar(s: string, c: char)
    requires !IsSpace(c)
    ensures c in Strip(s) <==> c in s
  {
    var start := StripFacts(s);
    var r := Strip(s);
    if c in s {
      var k :| 0 <= k < |s| && s[k] == c;
      assert r[k - start] == c;
    } else {
      StripFree(s, c);
    }
  }

  /** `s.startswith(p)`. */
  predicate StartsWith(s: string, p: string) {
    |p| <= |s| && s[..|p|] == p
  }

  /** `t in s` for a substring `t`. */
  predicate Contains(s: string, t: string)
    decreases |s|
  {
    |t| <= |s| && (s[..|t|] == t || Contains(s[1..], t))
  }

  /** An occurrence of `t` at index `i` of `s` is found. */
  lemma {:induction false} ContainsAt(s: string, t: string, i: nat)
    requires i + |t| <= |s| && s[i..i + |t|] == t
    ensures Contains(s, t)
    decreases i
  {
    if i > 0 {
      assert s[1..][i - 1..i - 1 + |t|] == s[i..i + |t|];
      ContainsAt(s[1..], t, i - 1);
    }
  }

  /** When `s` contains `t`, there is an index where it occurs. */
  lemma {:induction false} ContainsIndex(s: string, t: string) returns (i: nat)
    requires Contains(s, t)
    ensures i + |t| <= |s| && s[i..i + |t|] == t
    decreases |s|
  {
    if s[..|t|] == t {
      i := 0;
    } else {
      var j := ContainsIndex(s[1..], t);
      i := j + 1;
      assert s[i..i + |t|] == s[1..][j..j + |t|];
    }
  }

  /** A string without the first character of `t` does not contain `t`. */
  lemma ContainsFirstChar(s: string, t: string)
    requires t != []
    ensures Contains(s, t) ==> t[0] in s
  {
    if Contains(s, t) {
      var i := ContainsIndex(s, t);
      assert s[i] == t[0];
    }
  }

  /** `lstrip` keeps an occurrence of a substring that begins with a non-space. */
  lemma {:induction false} TrimStartKeeps(s: string, t: string, i: nat) returns (j: nat)
    requires t != [] && !IsSpace(t[0])
    requires i + |t| <= |s| && s[i..i + |t|] == t
    ensures j + |t| <= |TrimStart(s)| && TrimStart(s)[j..j + |t|] == t
    decreases |s|
  {
    if s != [] && IsSpace(s[0]) {
      assert s[i] == t[0];
      assert s[1..][i - 1..i - 1 + |t|] == s[i..i + |t|];
      j := TrimStartKeeps(s[1..], t, i - 1);
    } else {
      j := i;
    }
  }

  /** `rstrip` keeps an occurrence of a substring that ends with a non-space. */
  lemma {:induction false} TrimEndKeeps(s: string, t: string, i: nat)
    requires t != [] && !IsSpace(t[|t| - 1])
    requires i + |t| <= |s| && s[i..i + |t|] == t
    ensures i + |t| <= |TrimEnd(s)| && TrimEnd(s)[i..i + |t|] == t
    decreases |s|
  {
    if s != [] && IsSpace(s[|s| - 1]) {
      assert s[i + |t| - 1] == t[|t| - 1];
      assert s[..|s| - 1][i..i + |t|] == s[i..i + |t|];
      TrimEndKeeps(s[..|s| - 1], t, i);
    }
  }

  /** An occurrence of a substring that begins and ends with a non-space
      lies inside the stripped part. */
  lemma StripKeepsOccurrence(s: string, t: string, i: nat)
    requires t != [] && !IsSpace(t[0]) && !IsSpace(t[|t| - 1])
    requires i + |t| <= |s| && s[i..i + |t|] == t
    ensures Contains(Strip(s), t)
  {
    var j := TrimStartKeeps(s, t, i);
    TrimEndKeeps(TrimStart(s), t, j);
    ContainsAt(Strip(s), t, j);
  }

  /** What the stripped string contains, the string contains. */
  lemma StripContains(s: string, t: string)
    requires Contains(Strip(s), t)
    ensures Contains(s, t)
  {
    var start := StripFacts(s);
    var r := Strip(s);
    var j := ContainsIndex(r, t);
    SliceSlice(s, start, start + |r|, j, j + |t|);
    ContainsAt(s, t, start + j);
  }

  /** Stripping neither adds nor removes an occurrence of a substring that
      begins and ends with a non-space. */
  lemma StripKeepsContains(s: string, t: string)
    requires t != [] && !IsSpace(t[0]) && !IsSpace(t[|t| - 1])
    ensures Contains(Strip(s), t) <==> Contains(s, t)
  {
    if Contains(s, t) {
      var i := ContainsIndex(s, t);
      StripKeepsOccurrence(s, t, i);
    }
    if Contains(Strip(s), t) {
      StripContains(s, t);
    }
  }

  /** A string with no space at either end is its own strip. */
  lemma StripTrimmed(s: string)
    requires s != [] && !IsSpace(s[0]) && !IsSpace(s[|s| - 1])
    ensures Strip(s) == s
  {
  }

  /** `s[n:]`: Python slicing never fails, it yields "" past the end. */
  function Slice(s: string, n: nat): (r: string)
    ensures |s| <= n ==> r == []
    ensures n < |s| ==> r == s[n..]
  {
    if n <= |s| then s[n..] else []
  }

  /** `s.split(c)`: the pieces between the occurrences of `c`. */
  function Split(s: string, c: char): (r: seq<string>)
    ensures |r| >= 1
    ensures forall k :: 0 <= k < |r| ==> c !in r[k]
    decreases |s|
  {
    if s == [] then [""]
    else if s[0] == c then [""] + Split(s[1..], c)
    else var rest := Split(s[1..], c); [[s[0]] + rest[0]] + rest[1..]
  }

  /** `sep.join(xs)`. */
  function Join(xs: seq<string>, sep: string): string
    decreases |xs|
  {
    if xs == [] then ""
    else if |xs| == 1 then xs[0]
    else xs[0] + sep + Join(xs[1..], sep)
  }

  /** Joining back what `Split` cut apart gives the original string. */
  lemma {:induction false} JoinSplit(s: string, c: char)
    ensures Join(Split(s, c), [c]) == s
    decreases |s|
  {
    if s == [] {
    } else if s[0] == c {
      JoinSplit(s[1..], c);
      assert s == [c] + s[1..];
    } else {
      var rest := Split(s[1..], c);
      JoinSplit(s[1..], c);
      if |rest| == 1 {
        assert s == [s[0]] + s[1..];
      } else {
        assert Join(rest, [c]) == rest[0] + [c] + Join(rest[1..], [c]);
        assert ([[s[0]] + rest[0]] + rest[1..])[1..] == rest[1..];
        assert s == [s[0]] + s[1..];
      }
    }
  }

  /** A string free of `c` is one piece. */
  lemma {:induction false} SplitFree(s: string, c: char)
    requires c !in s
    ensures Split(s, c) == [s]
    decreases |s|
  {
    if s != [] {
      SplitFree(s[1..], c);
      ConsSplit(s);
    }
  }

  /** Cutting at one occurrence of `c` splits the pieces on either side apart. */
  lemma {:induction false} SplitAround(a: string, b: string, c: char)
    ensures Split(a + [c] + b, c) == Split(a, c) + Split(b, c)
    decreases |a|
  {
    var s := a + [c] + b;
    if a == [] {
      assert s[1..] == b;
    } else {
      assert s[0] == a[0] && s[1..] == a[1..] + [c] + b;
      SplitAround(a[1..], b, c);
      var pa, pb := Split(a[1..], c), Split(b, c);
      if a[0] != c {
        TailAppend(pa, pb);
        Regroup([[a[0]] + pa[0]], pa[1..], pb);
      } else {
        Regroup([""], pa, pb);
      }
    }
  }

  /** Joining two non-empty lists puts one separator between their joins. */
  lemma {:induction false} JoinAppend(xs: seq<string>, ys: seq<string>, sep: string)
    requires xs != [] && ys != []
    ensures Join(xs + ys, sep) == Join(xs, sep) + sep + Join(ys, sep)
    decreases |xs|
  {
    TailAppend(xs, ys);
    if |xs| > 1 {
      JoinAppend(xs[1..], ys, sep);
      Regroup(xs[0] + sep, Join(xs[1..], sep), sep + Join(ys, sep));
      Regroup(Join(xs[1..], sep), sep, Join(ys, sep));
      Regroup(xs[0] + sep + Join(xs[1..], sep), sep, Join(ys, sep));
    }
  }

  /** Splitting undoes joining when no piece holds the separator. */
  lemma {:induction false} SplitJoin(xs: seq<string>, c: char)
    requires xs != []
    requires forall k :: 0 <= k < |xs| ==> c !in xs[k]
    ensures Split(Join(xs, [c]), c) == xs
    decreases |xs|
  {
    SplitFree(xs[0], c);
    if |xs| > 1 {
      var j := Join(xs[1..], [c]);
      assert Join(xs, [c]) == xs[0] + [c] + j;
      assert Split(j, c) == xs[1..] by {
        SplitJoin(xs[1..], c);
      }
      SplitAround(xs[0], j, c);
      assert xs == [xs[0]] + xs[1..];
    }
  }

  /** Lines joined around a middle piece `b` that may itself hold line breaks:
      the outer pieces come back one by one and `b` comes back split. */
  lemma SplitJoinAround(xs: seq<string>, b: string, ys: seq<string>, c: char)
    requires xs != [] && ys != []
    requires forall k :: 0 <= k < |xs| ==> c !in xs[k]
    requires forall k :: 0 <= k < |ys| ==> c !in ys[k]
    ensures Split(Join(xs + [b] + ys, [c]), c) == xs + Split(b, c) + ys
  {
    var jx, jy := Join(xs, [c]), Join(ys, [c]);
    var m := b + [c] + jy;
    assert Join(xs + [b] + ys, [c]) == jx + [c] + m by {
      Regroup(xs, [b], ys);
      JoinAppend(xs, [b] + ys, [c]);
      JoinAppend([b], ys, [c]);
      Regroup(jx, [c], m);
    }
    assert Split(m, c) == Split(b, c) + ys by {
      SplitAround(b, jy, c);
      SplitJoin(ys, c);
    }
    assert Split(jx + [c] + m, c) == xs + Split(m, c) by {
      SplitAround(jx, m, c);
      SplitJoin(xs, c);
    }
    Regroup(xs, Split(b, c), ys);
  }

  /** The number of occurrences of `c` in `s`. */
  function CountChar(s: string, c: char): nat
    decreases |s|
  {
    if s == [] then 0 else (if s[0] == c then 1 else 0) + CountChar(s[1..], c)
  }

  lemma {:induction false} CountCharAppend(a: string, b: string, c: char)
    ensures CountChar(a + b, c) == CountChar(a, c) + CountChar(b, c)
    decreases |a|
  {
    if a == [] {
      assert a + b == b;
    } else {
      TailAppend(a, b);
      CountCharAppend(a[1..], b, c);
    }
  }

  lemma {:induction false} CountCharAbsent(s: string, c: char)
    requires c !in s
    ensures CountChar(s, c) == 0
    decreases |s|
  {
    if s != [] {
      CountCharAbsent(s[1..], c);
    }
  }

  /** Joining `n` pieces free of `c` with the separator `c` puts exactly `n - 1`
      copies of `c` into the result: the result has `n` lines when `c` is a newline. */
  lemma {:induction false} JoinCount(xs: seq<string>, c: char)
    requires xs != []
    requires forall k :: 0 <= k < |xs| ==> c !in xs[k]
    ensures CountChar(Join(xs, [c]), c) == |xs| - 1
    decreases |xs|
  {
    if |xs| == 1 {
      CountCharAbsent(xs[0], c);
    } else {
      JoinCount(xs[1..], c);
      CountCharAbsent(xs[0], c);
      CountCharAppend(xs[0], [c], c);
      CountCharAppend(xs[0] + [c], Join(xs[1..], [c]), c);
    }
  }

  /** `s.replace(c, v)` for a one-character pattern `c`. */
  function ReplaceChar(s: string, c: char, v: string): string
    decreases |s|
  {
    if s == [] then []
    else (if s[0] == c then v else [s[0]]) + ReplaceChar(s[1..], c, v)
  }

  lemma {:induction false} ReplaceCharAppend(a: string, b: string, c: char, v: string)
    ensures ReplaceChar(a + b, c, v) == ReplaceChar(a, c, v) + ReplaceChar(b, c, v)
    decreases |a|
  {
    if a == [] {
      assert a + b == b;
    } else {
      TailAppend(a, b);
      ReplaceCharAppend(a[1..], b, c, v);
      Regroup(if a[0] == c then v else [a[0]], ReplaceChar(a[1..], c, v), ReplaceChar(b, c, v));
    }
  }

  /** Replacing a character that does not occur changes nothing. */
  lemma {:induction false} ReplaceCharAbsent(s: string, c: char, v: string)
    requires c !in s
    ensures ReplaceChar(s, c, v) == s
    decreases |s|
  {
    if s != [] {
      ReplaceCharAbsent(s[1..], c, v);
    }
  }

  /** After `s.replace(c, v)` with a `v` free of `c`, no `c` is left, and a
      character found in neither `s` nor `v` is not introduced. */
  lemma {:induction false} ReplaceCharRemoves(s: string, c: char, v: string, d: char)
    requires c !in v
    requires d == c || (d !in s && d !in v)
    ensures d !in ReplaceChar(s, c, v)
    decreases |s|
  {
    if s != [] {
      ReplaceCharRemoves(s[1..], c, v, d);
    }
  }

  /** `s.replace(c, "")`. */
  function RemoveChar(s: string, c: char): (r: string)
    ensures c !in r
    ensures |r| <= |s|
    decreases |s|
  {
    if s == [] then []
    else (if s[0] == c then [] else [s[0]]) + RemoveChar(s[1..], c)
  }

  /** Removing a character adds none. */
  lemma {:induction false} RemoveCharFree(s: string, c: char, d: char)
    requires d !in s
    ensures d !in RemoveChar(s, c)
    decreases |s|
  {
    if s != [] {
      RemoveCharFree(s[1..], c, d);
    }
  }

  /** `c * n`. */
  function Repeat(c: char, n: nat): (r: string)
    ensures |r| == n
    ensures forall k :: 0 <= k < n ==> r[k] == c
  {
    if n == 0 then [] else [c] + Repeat(c, n - 1)
  }

  /** Python's `str(n)` for a natural number. */
  function NatToString(n: nat): (r: string)
    ensures r != []
    ensures forall k :: 0 <= k < |r| ==> '0' <= r[k] <= '9'
  {
    var d := [(n % 10 + '0' as int) as char];
    if n < 10 then d else NatToString(n / 10) + d
  }
}
