/**
 * The parts of java.lang.String the rewrite pipeline relies on, stated on
 * `seq<char>`: indexOf, contains, lastIndexOf, replace (the literal,
 * non-regex one) and lines().
 */
module JavaString {
  import opened Wrappers

  /** `p` occurs in `s` starting at index `k`. */
  predicate OccursAt(s: string, p: string, k: nat)
  {
    k + |p| <= |s| && s[k..k + |p|] == p
  }

  /** s.indexOf(p, from): the first index at or after `from` where `p` occurs. */
  function IndexOfFrom(s: string, p: string, from: nat): (r: Option<nat>)
    decreases |s| - from
    ensures r.Some? ==> from <= r.value && OccursAt(s, p, r.value)
  {
    if from + |p| > |s| then None
    else if s[from..from + |p|] == p then Some(from)
    else IndexOfFrom(s, p, from + 1)
  }

  /** No occurrence at or after `from` comes before the one indexOf finds. */
  lemma {:induction false} IndexOfFromIsFirst(s: string, p: string, from: nat, k: nat)
    requires from <= k
    requires IndexOfFrom(s, p, from).None? || k < IndexOfFrom(s, p, from).value
    ensures !OccursAt(s, p, k)
    decreases |s| - from
  {
    if from + |p| <= |s| && s[from..from + |p|] != p && from < k {
      IndexOfFromIsFirst(s, p, from + 1, k);
    }
  }

  /** s.indexOf(p): the first index where `p` occurs, or None for Java's -1. */
  function IndexOf(s: string, p: string): (r: Option<nat>)
    ensures r.Some? ==> OccursAt(s, p, r.value)
  {
    IndexOfFrom(s, p, 0)
  }

  /** indexOf finds the first occurrence, and finds none only when there is none. */
  lemma {:induction false} IndexOfIsFirst(s: string, p: string, k: nat)
    requires IndexOf(s, p).None? || k < IndexOf(s, p).value
    ensures !OccursAt(s, p, k)
  {
    IndexOfFromIsFirst(s, p, 0, k);
  }

  /** An occurrence with none before it is the one indexOf finds. */
  lemma {:induction false} IndexOfIs(s: string, p: string, i: nat)
    requires OccursAt(s, p, i)
    requires forall k: nat :: k < i ==> !OccursAt(s, p, k)
    ensures IndexOf(s, p) == Some(i)
  {
    var r := IndexOf(s, p);
    if r.None? || i < r.value {
      IndexOfIsFirst(s, p, i);
    }
  }

  /** s.contains(p). */
  function Contains(s: string, p: string): bool
  {
    IndexOf(s, p).Some?
  }

  /** contains holds exactly when `p` occurs somewhere in `s`. */
  lemma {:induction false} ContainsOccurs(s: string, p: string)
    ensures Contains(s, p) <==> exists k: nat :: OccursAt(s, p, k)
  {
    if !Contains(s, p) {
      forall k: nat ensures !OccursAt(s, p, k) {
        IndexOfIsFirst(s, p, k);
      }
    }
  }

  /** s.lastIndexOf(c): the last index holding `c`, or None for Java's -1. */
  function LastIndexOf(s: string, c: char): (r: Option<nat>)
    ensures r.Some? ==> r.value < |s| && s[r.value] == c && c !in s[r.value + 1..]
    ensures r.None? <==> c !in s
  {
    if s == [] then None
    else if s[|s| - 1] == c then Some(|s| - 1)
    else LastIndexOf(s[..|s| - 1], c)
  }

  /** A `c` with no other `c` after it is the one lastIndexOf finds. */
  lemma {:induction false} LastIndexOfIs(s: string, c: char, i: nat)
    requires i < |s| && s[i] == c && c !in s[i + 1..]
    ensures LastIndexOf(s, c) == Some(i)
  {
  }

  /**
   * s.replace(target, replacement): every occurrence of `target`, found left
   * to right without overlap, is replaced. An empty target matches before
   * every character and at the end, so the replacement is put around each
   * character, as the JDK does.
   */
  function Replace(s: string, target: string, replacement: string): string
    decreases |s|
  {
    if target == [] then Interleave(s, replacement)
    else if |s| < |target| then s
    else if s[..|target|] == target then replacement + Replace(s[|target|..], target, replacement)
    else [s[0]] + Replace(s[1..], target, replacement)
  }

  /** `sep` before every character of `s` and once more at the end. */
  function Interleave(s: string, sep: string): string
  {
    if s == [] then sep else sep + [s[0]] + Interleave(s[1..], sep)
  }

  /** Concatenation is associative; stated on plain variables so that no string inside is unfolded. */
  lemma {:induction false} ConcatAssoc(a: string, b: string, c: string)
    ensures a + (b + c) == a + b + c
  {
  }

  /** Two splits chained into one. */
  lemma {:induction false} ConcatChain(x: string, y: string, a: string, b: string, z: string)
    requires x == a + y && y == b + z
    ensures x == a + b + z
  {
    ConcatAssoc(a, b, z);
  }

  /** Without an occurrence at the front, the first character is copied. */
  lemma {:induction false} ReplaceSkip(s: string, target: string, replacement: string)
    requires target != [] && s != [] && !OccursAt(s, target, 0)
    ensures Replace(s, target, replacement) == [s[0]] + Replace(s[1..], target, replacement)
  {
    if |s| < |target| {
      assert Replace(s[1..], target, replacement) == s[1..];
    }
  }

  /** An occurrence at the front is replaced at once. */
  lemma {:induction false} ReplaceAtFront(s: string, target: string, replacement: string)
    requires target != [] && OccursAt(s, target, 0)
    ensures Replace(s, target, replacement) == replacement + Replace(s[|target|..], target, replacement)
  {
    assert s[..|target|] == target;
  }

  /** An occurrence in a suffix of `s` is an occurrence in `s`, shifted by where the suffix starts. */
  lemma {:induction false} OccursInSuffix(s: string, p: string, d: nat, k: nat)
    requires d <= |s|
    ensures OccursAt(s[d..], p, k) <==> OccursAt(s, p, d + k)
  {
    if d + k + |p| <= |s| {
      assert s[d..][k..k + |p|] == s[d + k..d + k + |p|];
    }
  }

  /** Without an occurrence at j, the character at j is copied. */
  lemma {:induction false} ReplaceSkipAt(s: string, target: string, replacement: string, j: nat)
    requires target != [] && j < |s| && !OccursAt(s, target, j)
    ensures Replace(s[j..], target, replacement) == [s[j]] + Replace(s[j + 1..], target, replacement)
  {
    var u := s[j..];
    OccursInSuffix(s, target, j, 0);
    ReplaceSkip(u, target, replacement);
    assert u[1..] == s[j + 1..];
  }

  /** A prefix in which no occurrence starts is copied unchanged. */
  lemma {:induction false} ReplaceCopiesPrefix(s: string, target: string, replacement: string, i: nat)
    requires target != [] && i <= |s|
    requires forall k: nat :: k < i ==> !OccursAt(s, target, k)
    ensures Replace(s, target, replacement) == s[..i] + Replace(s[i..], target, replacement)
    decreases i
  {
    if i == 0 {
      assert s[i..] == s;
    } else {
      ReplaceCopiesPrefix(s, target, replacement, i - 1);
      ReplaceSkipAt(s, target, replacement, i - 1);
      assert s[..i] == s[..i - 1] + [s[i - 1]];
      ConcatChain(Replace(s, target, replacement), Replace(s[i - 1..], target, replacement),
        s[..i - 1], [s[i - 1]], Replace(s[i..], target, replacement));
    }
  }

  /**
   * Left-to-right replacement: the text before the first occurrence is kept,
   * that occurrence becomes the replacement, and the search resumes after it.
   */
  lemma {:induction false} ReplaceAtFirst(s: string, target: string, replacement: string, i: nat)
    requires target != [] && IndexOf(s, target) == Some(i)
    ensures Replace(s, target, replacement)
         == s[..i] + replacement + Replace(s[i + |target|..], target, replacement)
  {
    var u := s[i..];
    var w := u[|target|..];
    assert w == s[i + |target|..];
    var whole, middle, rest := Replace(s, target, replacement), Replace(u, target, replacement), Replace(w, target, replacement);
    assert whole == s[..i] + middle by {
      forall k: nat | k < i ensures !OccursAt(s, target, k) {
        IndexOfIsFirst(s, target, k);
      }
      ReplaceCopiesPrefix(s, target, replacement, i);
    }
    assert middle == replacement + rest by {
      assert u[..|target|] == s[i..i + |target|];
      ReplaceAtFront(u, target, replacement);
    }
    ConcatChain(whole, middle, s[..i], replacement, rest);
  }

  /** A string that does not contain a non-empty target is left as it is. */
  lemma {:induction false} ReplaceAbsent(s: string, target: string, replacement: string)
    requires target != [] && !Contains(s, target)
    ensures Replace(s, target, replacement) == s
  {
    forall k: nat | k < |s| ensures !OccursAt(s, target, k) {
      IndexOfIsFirst(s, target, k);
    }
    ReplaceCopiesPrefix(s, target, replacement, |s|);
    assert s[|s|..] == [];
  }

  /** A non-empty target that occurs is replaced, so the replacement is in the result. */
  lemma {:induction false} ReplaceInserts(s: string, target: string, replacement: string)
    requires target != [] && Contains(s, target)
    ensures Contains(Replace(s, target, replacement), replacement)
  {
    var i := IndexOf(s, target).value;
    ReplaceAtFirst(s, target, replacement, i);
    var r := Replace(s, target, replacement);
    assert OccursAt(r, replacement, i) by {
      assert r[i..i + |replacement|] == replacement;
    }
    ContainsOccurs(r, replacement);
  }

  /** Replacing a string by itself changes nothing. */
  lemma {:induction false} ReplaceBySelf(s: string, target: string)
    ensures Replace(s, target, target) == s
    decreases |s|
  {
    if target == [] {
      InterleaveEmpty(s);
    } else if |s| >= |target| {
      if s[..|target|] == target {
        ReplaceBySelf(s[|target|..], target);
        assert s == s[..|target|] + s[|target|..];
      } else {
        ReplaceBySelf(s[1..], target);
        assert s == [s[0]] + s[1..];
      }
    }
  }

  /** Inserting nothing between the characters changes nothing. */
  lemma {:induction false} InterleaveEmpty(s: string)
    ensures Interleave(s, []) == s
  {
    if s != [] {
      InterleaveEmpty(s[1..]);
      assert s == [s[0]] + s[1..];
    }
  }

  /** Every character of the result comes from the input or from the replacement. */
  lemma {:induction false} ReplaceChars(s: string, target: string, replacement: string, c: char)
    requires c !in s && c !in replacement
    ensures c !in Replace(s, target, replacement)
    decreases |s|
  {
    if target == [] {
      InterleaveChars(s, replacement, c);
    } else if |s| >= |target| {
      if s[..|target|] == target {
        ReplaceChars(s[|target|..], target, replacement, c);
      } else {
        ReplaceChars(s[1..], target, replacement, c);
      }
    }
  }

  /** Interleaving adds no character that is in neither argument. */
  lemma {:induction false} InterleaveChars(s: string, sep: string, c: char)
    requires c !in s && c !in sep
    ensures c !in Interleave(s, sep)
  {
    if s != [] {
      InterleaveChars(s[1..], sep, c);
    }
  }

  /** The two characters String.lines() splits on ("\r\n" counts as one break). */
  predicate IsLineBreak(c: char)
  {
    c == '\n' || c == '\r'
  }

  /** Length of the first line of `s`: the index of its first break, or |s|. */
  function LineLength(s: string): (n: nat)
    ensures n <= |s|
    ensures forall k :: 0 <= k < n ==> !IsLineBreak(s[k])
    ensures n < |s| ==> IsLineBreak(s[n])
  {
    if s == [] || IsLineBreak(s[0]) then 0 else 1 + LineLength(s[1..])
  }

  /** Index just past the break that ends the first line, which is at `n`. */
  function NextLineStart(s: string, n: nat): (k: nat)
    requires n < |s|
    ensures n < k <= |s|
  {
    if s[n] == '\r' && n + 1 < |s| && s[n + 1] == '\n' then n + 2 else n + 1
  }

  /**
   * s.lines(): the lines of `s`, without their breaks. A break at the very
   * end does not start another line, and the empty string has no lines.
   */
  function Lines(s: string): (ls: seq<string>)
    decreases |s|
    ensures forall i :: 0 <= i < |ls| ==> forall c :: c in ls[i] ==> !IsLineBreak(c)
    ensures ls == [] <==> s == []
  {
    if s == [] then []
    else
      var n := LineLength(s);
      if n == |s| then [s]
      else [s[..n]] + Lines(s[NextLineStart(s, n)..])
  }
}
