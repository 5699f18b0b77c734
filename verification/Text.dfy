/** Python's text primitives: white space, `strip`, line boundaries. */
module Text {

  datatype Option<+T> = None | Some(value: T)

  /** `str.isspace`, the characters `strip()` removes. */
  predicate IsSpace(c: char) {
    || '\t' <= c <= '\r' || '\U{1C}' <= c <= ' ' || c == '\U{85}' || c == '\U{A0}'
    || c == '\U{1680}' || '\U{2000}' <= c <= '\U{200A}' || c == '\U{2028}' || c == '\U{2029}'
    || c == '\U{202F}' || c == '\U{205F}' || c == '\U{3000}'
  }

  /** The boundaries `str.splitlines` recognises; every one is also white space. */
  predicate IsLineBreak(c: char) {
    || '\n' <= c <= '\r' || '\U{1C}' <= c <= '\U{1E}' || c == '\U{85}'
    || c == '\U{2028}' || c == '\U{2029}'
  }

  // Small facts about concatenation, kept apart from the recursive functions they are used with.

  lemma Assoc<T>(a: seq<T>, b: seq<T>, c: seq<T>)
    ensures a + b + c == a + (b + c)
  {
  }

  lemma Halves<T>(s: seq<T>, n: nat)
    requires n <= |s|
    ensures [] + s[..n] + s[n..] == s && s[..n] + s[n..] == s
  {
  }

  lemma Drop<T>(a: seq<T>, b: seq<T>)
    ensures (a + b)[..|a|] == a && (a + b)[|a|..] == b
  {
  }

  lemma DropInto<T>(a: seq<T>, b: seq<T>, k: nat)
    requires k <= |a|
    ensures (a + b)[k..] == a[k..] + b && (a + b)[..k] == a[..k]
  {
  }

  lemma Empty<T>(s: seq<T>)
    ensures [] + s == s && s + [] == s
  {
  }

  predicate AllSpace(s: string) {
    forall i :: 0 <= i < |s| ==> IsSpace(s[i])
  }

  predicate NoBreaks(s: string) {
    forall i :: 0 <= i < |s| ==> !IsLineBreak(s[i])
  }

  predicate Trimmed(s: string) {
    s == "" || (!IsSpace(s[0]) && !IsSpace(s[|s| - 1]))
  }

  function LStrip(s: string): string {
    if s != "" && IsSpace(s[0]) then LStrip(s[1..]) else s
  }

  function RStrip(s: string): string {
    if s != "" && IsSpace(s[|s| - 1]) then RStrip(s[..|s| - 1]) else s
  }

  function Strip(s: string): string {
    LStrip(RStrip(s))
  }

  lemma {:induction false} LStripSplits(s: string) returns (l: string)
    ensures s == l + LStrip(s) && AllSpace(l)
    ensures LStrip(s) == "" || !IsSpace(LStrip(s)[0])
  {
    l := "";
    if s == "" || !IsSpace(s[0]) {
    } else {
      var l' := LStripSplits(s[1..]);
      l := [s[0]] + l';
      assert s == [s[0]] + s[1..];
    }
  }

  lemma {:induction false} RStripSplits(s: string) returns (r: string)
    ensures s == RStrip(s) + r && AllSpace(r)
    ensures RStrip(s) == "" || !IsSpace(RStrip(s)[|RStrip(s)| - 1])
  {
    r := "";
    if s == "" || !IsSpace(s[|s| - 1]) {
    } else {
      var r' := RStripSplits(s[..|s| - 1]);
      r := r' + [s[|s| - 1]];
      assert s == s[..|s| - 1] + [s[|s| - 1]];
    }
  }

  /** `strip` cuts white space off both ends and nothing else. */
  lemma StripSplits(s: string) returns (l: string, r: string)
    ensures s == l + Strip(s) + r && AllSpace(l) && AllSpace(r) && Trimmed(Strip(s))
  {
    r := RStripSplits(s);
    l := LStripSplits(RStrip(s));
    if Strip(s) != "" {
      assert Strip(s)[|Strip(s)| - 1] == RStrip(s)[|RStrip(s)| - 1];
    }
  }

  lemma {:induction false} LStripSpaces(l: string, m: string)
    requires AllSpace(l) && (m == "" || !IsSpace(m[0]))
    ensures LStrip(l + m) == m
  {
    if l == "" {
      assert l + m == m;
    } else {
      assert (l + m)[1..] == l[1..] + m;
      LStripSpaces(l[1..], m);
    }
  }

  lemma {:induction false} RStripSpaces(m: string, r: string)
    requires AllSpace(r) && (m == "" || !IsSpace(m[|m| - 1]))
    ensures RStrip(m + r) == m
  {
    if r == "" {
      assert m + r == m;
    } else {
      assert (m + r)[..|m + r| - 1] == m + r[..|r| - 1];
      RStripSpaces(m, r[..|r| - 1]);
    }
  }

  /** The converse of StripSplits: any such split names the stripped text. */
  lemma StripUnique(l: string, m: string, r: string)
    requires AllSpace(l) && AllSpace(r) && Trimmed(m)
    ensures Strip(l + m + r) == m
  {
    if m == "" {
      assert l + m + r == "" + (l + r);
      RStripSpaces("", l + r);
    } else {
      RStripSpaces(l + m, r);
      LStripSpaces(l, m);
    }
  }

  lemma StripKeepsHead(s: string)
    requires s != "" && !IsSpace(s[0])
    ensures Strip(s) != "" && Strip(s) <= s
  {
    var r := RStripSplits(s);
    assert RStrip(s) != "" by {
      assert s == RStrip(s) + r;
    }
    assert RStrip(s)[0] == s[0];
  }

  lemma BlankIsAllSpace(s: string)
    ensures Strip(s) == "" <==> AllSpace(s)
  {
    var l, r := StripSplits(s);
    if AllSpace(s) {
      StripUnique(s, "", "");
      assert s + "" + "" == s;
    } else {
      assert Strip(s) == "" ==> s == l + r;
    }
  }

  // ---- splitlines ----

  function FirstBreak(t: string): (n: nat)
    ensures n <= |t| && NoBreaks(t[..n]) && (n < |t| ==> IsLineBreak(t[n]))
  {
    if t == "" || IsLineBreak(t[0]) then 0
    else
      var n := FirstBreak(t[1..]);
      assert t[..1 + n] == [t[0]] + t[1..][..n];
      1 + n
  }

  /** `\r\n` is one boundary; a final boundary opens no further line. */
  function SplitLines(t: string): seq<string> {
    if t == "" then []
    else
      var n := FirstBreak(t);
      if n == |t| then [t]
      else
        var next := if t[n] == '\r' && n + 1 < |t| && t[n + 1] == '\n' then n + 2 else n + 1;
        [t[..n]] + SplitLines(t[next..])
  }

  lemma {:induction false} SplitLinesNoBreaks(t: string)
    ensures forall i :: 0 <= i < |SplitLines(t)| ==> NoBreaks(SplitLines(t)[i])
  {
    if t == "" {
    } else {
      var n := FirstBreak(t);
      if n == |t| {
        assert t[..n] == t;
      } else {
        SplitLinesNoBreaks(t[if t[n] == '\r' && n + 1 < |t| && t[n + 1] == '\n' then n + 2 else n + 1..]);
      }
    }
  }

  /** Each line ended by a line feed. */
  function JoinLines(lines: seq<string>): string {
    if lines == [] then "" else lines[0] + "\n" + JoinLines(lines[1..])
  }

  lemma {:induction false} FirstBreakAt(line: string, tail: string)
    requires NoBreaks(line) && (tail == "" || IsLineBreak(tail[0]))
    ensures FirstBreak(line + tail) == |line|
  {
    var t := line + tail;
    var n := FirstBreak(t);
    assert forall k :: 0 <= k < |line| ==> t[k] == line[k];
    var head := t[..n];
    assert forall k :: 0 <= k < |head| ==> head[k] == t[k];
    assert |line| < |t| ==> t[|line|] == tail[0];
  }

  /** One line boundary: the pair `\r\n`, or a single boundary character that does not start that pair. */
  predicate Boundary(brk: string, rest: string) {
    || brk == "\r\n"
    || (|brk| == 1 && IsLineBreak(brk[0]) && !(brk == "\r" && rest != "" && rest[0] == '\n'))
  }

  /** `splitlines` cuts at every boundary, and a text without one is a single line, or none when empty. */
  lemma {:induction false} SplitLinesLaw(line: string, brk: string, rest: string)
    requires NoBreaks(line)
    ensures Boundary(brk, rest) ==> SplitLines(line + brk + rest) == [line] + SplitLines(rest)
    ensures SplitLines(line) == if line == "" then [] else [line]
  {
    FirstBreakAt(line, "");
    Empty(line);
    if Boundary(brk, rest) {
      Assoc(line, brk, rest);
      FirstBreakAt(line, brk + rest);
      Drop(line, brk + rest);
      CutBoundary(line, brk, rest);
    }
  }

  lemma CutBoundary(line: string, brk: string, rest: string)
    requires Boundary(brk, rest)
    ensures var t := line + (brk + rest);
            var n := |line|;
            var next := if t[n] == '\r' && n + 1 < |t| && t[n + 1] == '\n' then n + 2 else n + 1;
            next == n + |brk| && t[next..] == rest
  {
    var t := line + (brk + rest);
    assert t[|line|] == brk[0];
    assert |line| + 1 < |t| ==> t[|line| + 1] == (brk + rest)[1];
    assert t[|line| + |brk|..] == rest;
  }

  lemma {:induction false} SplitJoin(lines: seq<string>)
    requires forall i :: 0 <= i < |lines| ==> NoBreaks(lines[i])
    ensures SplitLines(JoinLines(lines)) == lines
  {
    if lines == [] {
    } else {
      SplitLinesLaw(lines[0], "\n", JoinLines(lines[1..]));
      SplitJoin(lines[1..]);
    }
  }
}
