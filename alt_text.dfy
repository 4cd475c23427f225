/**
 * The alt-text pass of handlerOneBlog: line.replaceAll("\\!\\[.*\\]", "![]").
 *
 * Java's `.` matches anything but a line terminator, and `.*` is greedy. So a
 * match cannot cross a terminator, starts at the first "![" of a run of
 * non-terminators that has a ']' somewhere after it, and ends at the last
 * ']' of that run. Everything from there to the end of the run holds no
 * ']', so each run is rewritten at most once. String.lines() already cut the
 * text at "\n" and "\r", but a line may still hold U+0085, U+2028 or U+2029,
 * which end a run as well.
 */
module AltText {
  import opened Wrappers
  import opened JavaString

  /** The characters Java's regex `.` does not match (no DOTALL, no UNIX_LINES). */
  predicate IsRegexLineTerminator(c: char)
  {
    c == '\n' || c == '\r' || c == '\U{0085}' || c == '\U{2028}' || c == '\U{2029}'
  }

  /** No character of `s` ends a run. */
  predicate IsRun(s: string)
  {
    forall k :: 0 <= k < |s| ==> !IsRegexLineTerminator(s[k])
  }

  /** Length of the first run of `s`: the index of its first terminator, or |s|. */
  function RunLength(s: string): (n: nat)
    ensures n <= |s|
    ensures forall k :: 0 <= k < n ==> !IsRegexLineTerminator(s[k])
    ensures n < |s| ==> IsRegexLineTerminator(s[n])
  {
    if s == [] || IsRegexLineTerminator(s[0]) then 0 else 1 + RunLength(s[1..])
  }

  /** Where the alt text of a run starts and ends, if the pattern matches in it. */
  function AltSpan(run: string): Option<(nat, nat)>
  {
    match IndexOf(run, "![")
      case None => None
      case Some(i) =>
        match LastIndexOf(run, ']')
          case None => None
          case Some(j) => if j >= i + 2 then Some((i, j)) else None
  }

  /** The replacement within one run: "![" ... last ']' becomes "![]". */
  function NormaliseRun(run: string): (r: string)
    ensures forall c :: c in r ==> c in run || c in "![]"
  {
    match AltSpan(run)
      case None => run
      case Some((i, j)) => run[..i] + "![]" + run[j + 1..]
  }

  /** line.replaceAll("\\!\\[.*\\]", "![]"), run by run. */
  function Normalise(line: string): string
    decreases |line|
  {
    var n := RunLength(line);
    if n == |line| then NormaliseRun(line)
    else NormaliseRun(line[..n]) + [line[n]] + Normalise(line[n + 1..])
  }

  /** RunLength is the index of the first terminator, or |s| when there is none. */
  lemma {:induction false} RunLengthIs(s: string, n: nat)
    requires n <= |s|
    requires forall k :: 0 <= k < n ==> !IsRegexLineTerminator(s[k])
    requires n < |s| ==> IsRegexLineTerminator(s[n])
    ensures RunLength(s) == n
  {
  }

  /** The output of a run is again a run. */
  lemma {:induction false} NormaliseRunIsRun(run: string)
    requires IsRun(run)
    ensures IsRun(NormaliseRun(run))
  {
    var r := NormaliseRun(run);
    forall k | 0 <= k < |r| ensures !IsRegexLineTerminator(r[k]) {
      assert r[k] in r;
    }
  }

  /** A line without terminators is a single run. */
  lemma {:induction false} NormaliseOneRun(line: string)
    requires IsRun(line)
    ensures Normalise(line) == NormaliseRun(line)
  {
    assert line[..|line|] == line;
    RunLengthIs(line, |line|);
  }

  /**
   * On a line without terminators whose first "![" is at i and whose last ']'
   * is at j >= i + 2, the span from i to j becomes "![]".
   */
  lemma {:induction false} AltTextEmptied(line: string, i: nat, j: nat)
    requires IsRun(line)
    requires OccursAt(line, "![", i) && forall k: nat :: k < i ==> !OccursAt(line, "![", k)
    requires i + 2 <= j < |line| && line[j] == ']' && ']' !in line[j + 1..]
    ensures Normalise(line) == line[..i] + "![]" + line[j + 1..]
  {
    NormaliseOneRun(line);
    AltSpanIs(line, i, j);
  }

  /** The span the pattern covers in a run: first "![" to last ']', at least one apart. */
  lemma {:induction false} AltSpanIs(run: string, i: nat, j: nat)
    requires OccursAt(run, "![", i) && forall k: nat :: k < i ==> !OccursAt(run, "![", k)
    requires i + 2 <= j < |run| && run[j] == ']' && ']' !in run[j + 1..]
    ensures AltSpan(run) == Some((i, j))
  {
    IndexOfIs(run, "![", i);
    LastIndexOfIs(run, ']', j);
  }

  /** A line without terminators in which no "![" has a ']' after it is left alone. */
  lemma {:induction false} AltTextAbsent(line: string)
    requires IsRun(line)
    requires forall i: nat, j :: OccursAt(line, "![", i) && i + 2 <= j < |line| ==> line[j] != ']'
    ensures Normalise(line) == line
  {
    NormaliseOneRun(line);
  }

  /** Greedy matching: of two images on a line, only the last one's link survives. */
  lemma {:induction false} AltTextKeepsLastImage()
    ensures Normalise("![a](x) ![b](y)") == "![](y)"
  {
    var line := "![a](x) ![b](y)";
    var tail := line[12..];
    assert tail == "(y)";
    assert line[..0] + "![]" + tail == "![](y)";
    assert IsRun(line);
    assert OccursAt(line, "![", 0);
    assert line[11] == ']' && ']' !in tail;
    AltTextEmptied(line, 0, 11);
  }

  /** After one pass the alt text of the first image is empty and nothing is left to rewrite. */
  lemma {:induction false} NormaliseRunIdempotent(run: string)
    ensures NormaliseRun(NormaliseRun(run)) == NormaliseRun(run)
  {
    match AltSpan(run)
    case None =>
    case Some((i, j)) =>
      var r := NormaliseRun(run);
      var tail := run[j + 1..];
      assert r == run[..i] + "![]" + tail;
      assert ']' !in tail;
      assert OccursAt(r, "![", i) by {
        assert r[i..i + 2] == "![";
      }
      forall k: nat | k < i ensures !OccursAt(r, "![", k) {
        IndexOfIsFirst(run, "![", k);
        if k + 2 <= i {
          assert r[k..k + 2] == run[k..k + 2];
        } else {
          assert r[k + 1] == '!';
        }
      }
      IndexOfIs(r, "![", i);
      assert r[i + 3..] == tail;
      LastIndexOfIs(r, ']', i + 2);
      assert AltSpan(r) == Some((i, i + 2));
      assert r[..i] == run[..i];
  }

  /** Applying the alt-text pass twice gives the same line as applying it once. */
  lemma {:induction false} NormaliseIdempotent(line: string)
    ensures Normalise(Normalise(line)) == Normalise(line)
    decreases |line|
  {
    var n := RunLength(line);
    var head := NormaliseRun(line[..n]);
    assert IsRun(line[..n]);
    NormaliseRunIdempotent(line[..n]);
    NormaliseRunIsRun(line[..n]);
    if n == |line| {
      assert line[..n] == line;
      NormaliseOneRun(head);
    } else {
      var rest := Normalise(line[n + 1..]);
      var x := head + [line[n]] + rest;
      assert Normalise(line) == x;
      assert x[..|head|] == head;
      RunLengthIs(x, |head|);
      assert x[|head| + 1..] == rest;
      NormaliseIdempotent(line[n + 1..]);
    }
  }
}
