/**
 * replaceLink: the document is cut into lines, every (origin, target) entry of
 * the link mapping is applied to each line as a literal replace-all, and the
 * lines are joined again with "\n".
 */
module Rewrite {
  import opened JavaString

  /**
   * The link mapping as the (origin, target) entries in the order forEach
   * visits them. A Java HashMap fixes no order, so the lemmas below hold for
   * every order.
   */
  type Mapping = seq<(string, string)>

  /** copyLine[0] once the entries of `m` have been applied to `line`, in order. */
  function RewriteLine(line: string, m: Mapping): string
    decreases |m|
  {
    if m == [] then line
    else Replace(RewriteLine(line, m[..|m| - 1]), m[|m| - 1].0, m[|m| - 1].1)
  }

  /** The forEach over the mapping that updates copyLine[0] one entry at a time. */
  method ApplyMapping(line: string, m: Mapping) returns (copyLine: string)
    ensures copyLine == RewriteLine(line, m)
  {
    copyLine := line;
    var i := 0;
    while i < |m|
      invariant 0 <= i <= |m|
      invariant copyLine == RewriteLine(line, m[..i])
    {
      var (origin, target) := m[i];
      copyLine := Replace(copyLine, origin, target);
      i := i + 1;
      assert m[..i][..i - 1] == m[..i - 1];
    }
    assert m[..|m|] == m;
  }

  /** A line in which no (non-empty) origin occurs comes back unchanged. */
  lemma {:induction false} RewriteLineUntouched(line: string, m: Mapping)
    requires forall e :: e in m ==> e.0 != [] && !Contains(line, e.0)
    ensures RewriteLine(line, m) == line
    decreases |m|
  {
    if m != [] {
      assert forall e :: e in m[..|m| - 1] ==> e in m;
      RewriteLineUntouched(line, m[..|m| - 1]);
      ReplaceAbsent(line, m[|m| - 1].0, m[|m| - 1].1);
    }
  }

  /** Entries whose target is their own origin (the download fallback) change nothing. */
  lemma {:induction false} RewriteLineFallback(line: string, m: Mapping)
    requires forall e :: e in m ==> e.1 == e.0
    ensures RewriteLine(line, m) == line
    decreases |m|
  {
    if m != [] {
      assert forall e :: e in m[..|m| - 1] ==> e in m;
      RewriteLineFallback(line, m[..|m| - 1]);
      ReplaceBySelf(line, m[|m| - 1].0);
    }
  }

  /** A character in neither the line nor any target is not in the rewritten line. */
  lemma {:induction false} RewriteLineChars(line: string, m: Mapping, c: char)
    requires c !in line
    requires forall e :: e in m ==> c !in e.1
    ensures c !in RewriteLine(line, m)
    decreases |m|
  {
    if m != [] {
      assert forall e :: e in m[..|m| - 1] ==> e in m;
      RewriteLineChars(line, m[..|m| - 1], c);
      ReplaceChars(RewriteLine(line, m[..|m| - 1]), m[|m| - 1].0, m[|m| - 1].1, c);
    }
  }

  /** reduce((acc, item) -> acc + "\n" + item) over a non-empty list of lines. */
  function Join(ls: seq<string>): string
    requires |ls| > 0
    decreases |ls|
  {
    if |ls| == 1 then ls[0] else Join(ls[..|ls| - 1]) + "\n" + ls[|ls| - 1]
  }

  /** The left fold of Join also reads from the front: the first line, "\n", the rest. */
  lemma {:induction false} JoinCons(x: string, ls: seq<string>)
    requires |ls| > 0
    ensures Join([x] + ls) == x + "\n" + Join(ls)
    decreases |ls|
  {
    var xs := [x] + ls;
    if |ls| > 1 {
      var init := ls[..|ls| - 1];
      var last := ls[|ls| - 1];
      assert xs[..|xs| - 1] == [x] + init;
      JoinCons(x, init);
      assert Join(xs) == Join([x] + init) + "\n" + last;
      assert Join(ls) == Join(init) + "\n" + last;
      ConcatAssoc(x + "\n", Join(init), "\n" + last);
      ConcatAssoc(x + "\n", Join(init) + "\n", last);
      ConcatAssoc(Join(init), "\n", last);
    } else {
      assert xs[..1] == [x];
    }
  }

  /**
   * replaceLink(originalContent, originTargetMap). The mapping is applied only
   * when it is not empty, as the source tests; a text without lines is
   * returned as it is.
   */
  function ReplaceLink(content: string, m: Mapping): (r: string)
    ensures content == [] ==> r == content
  {
    var ls := Lines(content);
    if ls == [] then content else Join(RewriteAll(ls, m))
  }

  /** The map step of replaceLink: each line rewritten, or kept when the mapping is empty. */
  function RewriteAll(ls: seq<string>, m: Mapping): (out: seq<string>)
    ensures |out| == |ls|
    ensures forall i :: 0 <= i < |ls| ==> out[i] == RewriteLine(ls[i], m)
  {
    seq(|ls|, i requires 0 <= i < |ls| => if m != [] then RewriteLine(ls[i], m) else ls[i])
  }

  /**
   * The text with each "\r\n" and each other "\r" written as "\n": the breaks
   * lines() recognises, spelled the way the join writes them back.
   */
  function UnixBreaks(s: string): (u: string)
    ensures u == [] <==> s == []
    decreases |s|
  {
    if s == [] then []
    else if s[0] == '\r' && |s| > 1 && s[1] == '\n' then "\n" + UnixBreaks(s[2..])
    else if s[0] == '\r' then "\n" + UnixBreaks(s[1..])
    else [s[0]] + UnixBreaks(s[1..])
  }

  /** `u` without its last character when that is a "\n". */
  function DropFinalBreak(u: string): string
  {
    if u != [] && u[|u| - 1] == '\n' then u[..|u| - 1] else u
  }

  /** A text with its breaks written as "\n" and without a final break. */
  function Reflow(s: string): string
  {
    DropFinalBreak(UnixBreaks(s))
  }

  /** Only the end of a text can lose its final "\n". */
  lemma {:induction false} DropFinalBreakCons(head: string, rest: string)
    requires rest != []
    ensures DropFinalBreak(head + "\n" + rest) == head + "\n" + DropFinalBreak(rest)
  {
    var u := head + "\n" + rest;
    assert u[|u| - 1] == rest[|rest| - 1];
    if rest[|rest| - 1] == '\n' {
      assert u[..|u| - 1] == head + "\n" + rest[..|rest| - 1];
    }
  }

  /** A reflowed text holds no "\r". */
  lemma {:induction false} UnixBreaksHasNoCr(s: string)
    ensures '\r' !in UnixBreaks(s)
    decreases |s|
  {
    if s != [] {
      if s[0] == '\r' && |s| > 1 && s[1] == '\n' {
        UnixBreaksHasNoCr(s[2..]);
      } else {
        UnixBreaksHasNoCr(s[1..]);
      }
    }
  }

  /** A prefix without breaks is copied as it is. */
  lemma {:induction false} UnixBreaksPlain(a: string, b: string)
    requires forall k :: 0 <= k < |a| ==> !IsLineBreak(a[k])
    ensures UnixBreaks(a + b) == a + UnixBreaks(b)
    decreases |a|
  {
    if a == [] {
      assert a + b == b;
    } else {
      var ab := a + b;
      assert ab[0] == a[0] && !IsLineBreak(a[0]);
      assert ab[1..] == a[1..] + b;
      UnixBreaksPlain(a[1..], b);
      assert a == [a[0]] + a[1..];
      ConcatAssoc([a[0]], a[1..], UnixBreaks(b));
    }
  }

  /** The break that ends a line becomes one "\n", and the text goes on at the next line. */
  lemma {:induction false} UnixBreaksAtBreak(s: string, n: nat)
    requires n < |s| && IsLineBreak(s[n])
    ensures UnixBreaks(s[n..]) == "\n" + UnixBreaks(s[NextLineStart(s, n)..])
  {
    var t := s[n..];
    assert t[0] == s[n];
    if s[n] == '\r' && n + 1 < |s| && s[n + 1] == '\n' {
      assert t[1] == '\n' && t[2..] == s[n + 2..];
    } else {
      assert t[1..] == s[n + 1..];
    }
  }

  /** Up to its first break a text is copied; the break becomes one "\n". */
  lemma {:induction false} UnixBreaksFirstLine(s: string)
    requires LineLength(s) < |s|
    ensures UnixBreaks(s) == s[..LineLength(s)] + "\n" + UnixBreaks(s[NextLineStart(s, LineLength(s))..])
  {
    var n := LineLength(s);
    var head, tail := s[..n], s[n..];
    assert s == head + tail;
    UnixBreaksPlain(head, tail);
    UnixBreaksAtBreak(s, n);
    ConcatAssoc(head, "\n", UnixBreaks(s[NextLineStart(s, n)..]));
  }

  /**
   * lines() followed by the "\n" join gives the text back with every break
   * written as "\n" and a final break dropped.
   */
  lemma {:induction false} JoinLinesReflow(s: string)
    requires s != []
    ensures Join(Lines(s)) == Reflow(s)
    decreases |s|
  {
    var n := LineLength(s);
    if n == |s| {
      assert s[..n] == s;
      UnixBreaksPlain(s, []);
      assert s + [] == s;
      assert !IsLineBreak(s[|s| - 1]);
    } else {
      var head := s[..n];
      var rest := s[NextLineStart(s, n)..];
      UnixBreaksFirstLine(s);
      var ur := UnixBreaks(rest);
      assert Lines(s) == [head] + Lines(rest);
      if rest == [] {
        assert Lines(s) == [head];
        assert UnixBreaks(s) == head + "\n";
        assert (head + "\n")[..|head|] == head;
      } else {
        JoinLinesReflow(rest);
        JoinCons(head, Lines(rest));
        DropFinalBreakCons(head, ur);
      }
    }
  }

  /** Index of the first "\n" in `s`, or |s|. */
  function SegmentLength(s: string): (n: nat)
    ensures n <= |s|
    ensures '\n' !in s[..n]
    ensures n < |s| ==> s[n] == '\n'
  {
    if s == [] || s[0] == '\n' then 0 else 1 + SegmentLength(s[1..])
  }

  /** The "\n"-separated segments of `s` (a trailing "\n" ends with an empty one). */
  function Segments(s: string): (parts: seq<string>)
    ensures |parts| > 0
    decreases |s|
  {
    var n := SegmentLength(s);
    if n == |s| then [s] else [s[..n]] + Segments(s[n + 1..])
  }

  /** Joining the lines of a text that uses only "\n" and has no trailing one gives the text back. */
  lemma {:induction false} JoinLines(s: string)
    requires s != [] && '\r' !in s && s[|s| - 1] != '\n'
    ensures Join(Lines(s)) == s
    decreases |s|
  {
    var n := LineLength(s);
    if n < |s| {
      var head := s[..n];
      var rest := s[n + 1..];
      assert s == head + "\n" + rest by {
        assert s[n] == '\n';
        assert s == s[..n] + [s[n]] + s[n + 1..];
      }
      assert NextLineStart(s, n) == n + 1;
      assert rest != [] && rest[|rest| - 1] == s[|s| - 1] && '\r' !in rest;
      var ls := Lines(rest);
      assert Lines(s) == [head] + ls;
      assert Join(ls) == rest by {
        JoinLines(rest);
      }
      JoinCons(head, ls);
    }
  }

  /** LineLength is the index of the first break, or |s| when there is none. */
  lemma {:induction false} LineLengthIs(s: string, n: nat)
    requires n <= |s|
    requires forall k :: 0 <= k < n ==> !IsLineBreak(s[k])
    requires n < |s| ==> IsLineBreak(s[n])
    ensures LineLength(s) == n
  {
  }

  /** A "\n" at the very end of a text adds no line. */
  lemma {:induction false} LinesTrailingNewline(t: string)
    requires t != [] && t[|t| - 1] != '\n'
    ensures Lines(t + "\n") == Lines(t)
    decreases |t|
  {
    var s := t + "\n";
    var n := LineLength(t);
    assert forall k :: 0 <= k < |t| ==> s[k] == t[k];
    LineLengthIs(s, n);
    assert s[..n] == t[..n];
    if n == |t| {
      assert Lines(s) == [t] + Lines(s[|t| + 1..]);
    } else {
      var kt := NextLineStart(t, n);
      if t[n] == '\r' && n + 1 == |t| {
        assert NextLineStart(s, n) == |s|;
        assert Lines(s) == [t[..n]] + Lines(s[|s|..]);
        assert Lines(t) == [t[..n]] + Lines(t[|t|..]);
      } else {
        assert NextLineStart(s, n) == kt;
        assert kt < |t|;
        var rest := t[kt..];
        assert s[kt..] == rest + "\n";
        LinesTrailingNewline(rest);
      }
    }
  }

  /** SegmentLength is the index of the first "\n", or |s| when there is none. */
  lemma {:induction false} SegmentLengthIs(s: string, n: nat)
    requires n <= |s| && '\n' !in s[..n]
    requires n < |s| ==> s[n] == '\n'
    ensures SegmentLength(s) == n
  {
  }

  /** Cutting the "\n"-join of lines without "\n" at its "\n"s gives the lines back. */
  lemma {:induction false} SegmentsOfJoin(ls: seq<string>)
    requires |ls| > 0
    requires forall i :: 0 <= i < |ls| ==> '\n' !in ls[i]
    ensures Segments(Join(ls)) == ls
    decreases |ls|
  {
    var x := ls[0];
    if |ls| == 1 {
      assert x[..|x|] == x;
      SegmentLengthIs(x, |x|);
    } else {
      var rest := ls[1..];
      assert ls == [x] + rest;
      JoinCons(x, rest);
      var j := Join(rest);
      var s := x + "\n" + j;
      assert s[..|x|] == x;
      SegmentLengthIs(s, |x|);
      assert s[..|x|] == x;
      assert s[|x| + 1..] == j;
      SegmentsOfJoin(rest);
    }
  }

  /** With an empty mapping, a text that uses only "\n" and has no trailing "\n" comes back unchanged. */
  lemma {:induction false} ReplaceLinkIdentity(content: string)
    requires '\r' !in content
    requires content == [] || content[|content| - 1] != '\n'
    ensures ReplaceLink(content, []) == content
  {
    if content != [] {
      var ls := Lines(content);
      assert RewriteAll(ls, []) == ls;
      JoinLines(content);
    }
  }

  /** A "\n" at the end of the text is lost, whatever the mapping. */
  lemma {:induction false} ReplaceLinkTrailingNewline(t: string, m: Mapping)
    requires t != [] && t[|t| - 1] != '\n'
    ensures ReplaceLink(t + "\n", m) == ReplaceLink(t, m)
  {
    LinesTrailingNewline(t);
  }

  /** Hence with an empty mapping a text ending in one "\n" comes back without it. */
  lemma {:induction false} ReplaceLinkDropsTrailingNewline(t: string)
    requires t != [] && t[|t| - 1] != '\n' && '\r' !in t
    ensures ReplaceLink(t + "\n", []) == t != t + "\n"
  {
    ReplaceLinkTrailingNewline(t, []);
    ReplaceLinkIdentity(t);
  }

  /** With an empty mapping the text is only reflowed: its breaks become "\n" and a final one is dropped. */
  lemma {:induction false} ReplaceLinkReflows(content: string)
    requires content != []
    ensures ReplaceLink(content, []) == Reflow(content)
  {
    var ls := Lines(content);
    assert RewriteAll(ls, []) == ls;
    JoinLinesReflow(content);
  }

  /**
   * When no target holds a "\n", the result has one "\n"-separated segment
   * per line of the input, and segment i is line i rewritten: nothing else
   * in the text changes.
   */
  lemma {:induction false} ReplaceLinkSegments(content: string, m: Mapping)
    requires content != []
    requires forall e :: e in m ==> '\n' !in e.1
    ensures Segments(ReplaceLink(content, m)) == RewriteAll(Lines(content), m)
  {
    var ls := Lines(content);
    var out := RewriteAll(ls, m);
    forall i | 0 <= i < |out| ensures '\n' !in out[i] {
      assert IsLineBreak('\n');
      RewriteLineChars(ls[i], m, '\n');
    }
    SegmentsOfJoin(out);
  }

  /** When no origin occurs in any line, the mapping has no effect. */
  lemma {:induction false} ReplaceLinkUntouched(content: string, m: Mapping)
    requires forall e, line :: e in m && line in Lines(content) ==> e.0 != [] && !Contains(line, e.0)
    ensures ReplaceLink(content, m) == ReplaceLink(content, [])
  {
    var ls := Lines(content);
    forall i | 0 <= i < |ls| ensures RewriteLine(ls[i], m) == ls[i] {
      assert ls[i] in ls;
      RewriteLineUntouched(ls[i], m);
    }
    assert RewriteAll(ls, m) == RewriteAll(ls, []);
  }

  /** When every target is its own origin (every download failed), the mapping has no effect. */
  lemma {:induction false} ReplaceLinkFallback(content: string, m: Mapping)
    requires forall e :: e in m ==> e.1 == e.0
    ensures ReplaceLink(content, m) == ReplaceLink(content, [])
  {
    var ls := Lines(content);
    forall i | 0 <= i < |ls| ensures RewriteLine(ls[i], m) == ls[i] {
      RewriteLineFallback(ls[i], m);
    }
    assert RewriteAll(ls, m) == RewriteAll(ls, []);
  }
}
