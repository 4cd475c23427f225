/**
 * Link extraction in handlerOneBlog. The regular expression itself is not
 * modelled: a match is taken as given, and all the code relies on is that it
 * contains "http", ends with the ')' that closes the markdown image, and has
 * the '.' of the picture extension between its first "http" and that ')'.
 */
module Extraction {
  import opened JavaString

  /**
   * What every match of the image pattern looks like: it ends with ')' and
   * holds an "http", and after its first "http" comes a '.' before that ')'
   * (the pattern's `\.(png|jpe?g|webp|gif|svg)` lies between the URL's "http"
   * and the closing `.*\)`).
   */
  predicate IsPicMatch(m: string)
  {
    && |m| > 0 && m[|m| - 1] == ')' && Contains(m, "http")
    && '.' in m[IndexOf(m, "http").value..|m| - 1]
  }

  /**
   * linkWithMark.substring(linkWithMark.indexOf("http"), linkWithMark.length() - 1):
   * the match from its first "http" up to, not including, its closing ')'.
   */
  function LinkOf(m: string): (link: string)
    requires IsPicMatch(m)
    ensures OccursAt(link, "http", 0) && '.' in link
    ensures |link| < |m| && m == m[..|m| - |link| - 1] + link + ")"
    ensures forall k {:trigger OccursAt(m, "http", k)} :: 0 <= k < |m| - |link| - 1 ==> !OccursAt(m, "http", k)
  {
    var h := IndexOf(m, "http").value;
    var link := m[h..|m| - 1];
    assert link[..4] == m[h..h + 4];
    assert m[..h] + link + ")" == m;
    forall k: nat | k < h ensures !OccursAt(m, "http", k) {
      IndexOfIsFirst(m, "http", k);
    }
    link
  }

  /** The links of one line's matches, in match order. */
  function LinksOfLine(matches: seq<string>): (links: seq<string>)
    requires forall k :: 0 <= k < |matches| ==> IsPicMatch(matches[k])
    ensures |links| == |matches|
    ensures forall k :: 0 <= k < |matches| ==> links[k] == LinkOf(matches[k])
  {
    seq(|matches|, k requires 0 <= k < |matches| => LinkOf(matches[k]))
  }

  /** The while (matcher.find()) loop that fills picLink for one line. */
  method ExtractLinks(matches: seq<string>) returns (picLink: seq<string>)
    requires forall k :: 0 <= k < |matches| ==> IsPicMatch(matches[k])
    ensures picLink == LinksOfLine(matches)
    ensures forall k :: 0 <= k < |picLink| ==> OccursAt(picLink[k], "http", 0)
  {
    picLink := [];
    var i := 0;
    while i < |matches|
      invariant 0 <= i <= |matches|
      invariant picLink == LinksOfLine(matches[..i])
    {
      var linkWithMark := matches[i];
      var httpIndex := IndexOf(linkWithMark, "http").value;
      linkWithMark := linkWithMark[httpIndex..|linkWithMark| - 1];
      picLink := picLink + [linkWithMark];
      i := i + 1;
    }
    assert matches[..i] == matches;
  }

  /** Every match of every line has the shape of a picture match. */
  predicate AllPicMatches(lineMatches: seq<seq<string>>)
  {
    forall i, k :: 0 <= i < |lineMatches| && 0 <= k < |lineMatches[i]| ==> IsPicMatch(lineMatches[i][k])
  }

  /** Every line's links, line by line: the function the flatMap applies. */
  function LinksByLine(lineMatches: seq<seq<string>>): (byLine: seq<seq<string>>)
    requires AllPicMatches(lineMatches)
    ensures |byLine| == |lineMatches|
    ensures forall i :: 0 <= i < |lineMatches| ==> byLine[i] == LinksOfLine(lineMatches[i])
  {
    seq(|lineMatches|, i requires 0 <= i < |lineMatches| => LinksOfLine(lineMatches[i]))
  }

  /** The lists one after the other, as flatMap concatenates the streams it gets. */
  function Flatten(xss: seq<seq<string>>): seq<string>
    decreases |xss|
  {
    if xss == [] then [] else Flatten(xss[..|xss| - 1]) + xss[|xss| - 1]
  }

  /** Every element of every list is in the flattened list. */
  lemma {:induction false} FlattenHas(xss: seq<seq<string>>, i: nat, k: nat)
    requires i < |xss| && k < |xss[i]|
    ensures xss[i][k] in Flatten(xss)
    decreases |xss|
  {
    var n := |xss| - 1;
    var front := xss[..n];
    assert Flatten(xss) == Flatten(front) + xss[n];
    if i < n {
      assert front[i] == xss[i];
      FlattenHas(front, i, k);
    }
  }

  /** Every element of the flattened list comes from one of the lists. */
  lemma {:induction false} FlattenFrom(xss: seq<seq<string>>, x: string) returns (i: nat, k: nat)
    requires x in Flatten(xss)
    ensures i < |xss| && k < |xss[i]| && xss[i][k] == x
    decreases |xss|
  {
    var n := |xss| - 1;
    var front := xss[..n];
    assert Flatten(xss) == Flatten(front) + xss[n];
    if x in Flatten(front) {
      i, k := FlattenFrom(front, x);
      assert front[i] == xss[i];
    } else {
      assert x in xss[n];
      i := n;
      k :| k < |xss[n]| && xss[n][k] == x;
    }
  }

  /** The flatMap over the lines: every line's links, line after line. */
  function AllLinks(lineMatches: seq<seq<string>>): (links: seq<string>)
    requires AllPicMatches(lineMatches)
    ensures forall l {:trigger l in links} :: l in links ==> OccursAt(l, "http", 0) && '.' in l
  {
    var byLine := LinksByLine(lineMatches);
    assert forall l {:trigger l in Flatten(byLine)} :: l in Flatten(byLine) ==> OccursAt(l, "http", 0) && '.' in l by {
      forall l | l in Flatten(byLine) ensures OccursAt(l, "http", 0) && '.' in l {
        var i, k := FlattenFrom(byLine, l);
        assert l == LinkOf(lineMatches[i][k]);
      }
    }
    Flatten(byLine)
  }

  /** `l` is the link of some match on some line. */
  predicate IsLinkOfSomeMatch(lineMatches: seq<seq<string>>, l: string)
    requires AllPicMatches(lineMatches)
  {
    exists i, k {:trigger lineMatches[i][k]} ::
      0 <= i < |lineMatches| && 0 <= k < |lineMatches[i]| && l == LinkOf(lineMatches[i][k])
  }

  /** The flatMap yields exactly the links of all the matches of all the lines. */
  lemma {:induction false} AllLinksMembers(lineMatches: seq<seq<string>>, l: string)
    requires AllPicMatches(lineMatches)
    ensures l in AllLinks(lineMatches) <==> IsLinkOfSomeMatch(lineMatches, l)
  {
    var byLine := LinksByLine(lineMatches);
    if l in AllLinks(lineMatches) {
      var i, k := FlattenFrom(byLine, l);
      assert l == LinkOf(lineMatches[i][k]);
    }
    if IsLinkOfSomeMatch(lineMatches, l) {
      var i, k :| 0 <= i < |lineMatches| && 0 <= k < |lineMatches[i]| && l == LinkOf(lineMatches[i][k]);
      assert byLine[i][k] == l;
      FlattenHas(byLine, i, k);
    }
  }


  /**
   * A markdown image with empty alt text (as the alt-text pass leaves it) and
   * a URL that starts with "http" gives back exactly that URL.
   */
  lemma {:induction false} LinkOfImage(url: string)
    requires OccursAt(url, "http", 0) && '.' in url
    ensures IsPicMatch("![](" + url + ")")
    ensures LinkOf("![](" + url + ")") == url
  {
    var m := "![](" + url + ")";
    assert OccursAt(m, "http", 4) by {
      assert m[4..8] == url[..4];
    }
    forall k: nat | k < 4 ensures !OccursAt(m, "http", k) {
      assert m[k] != 'h';
    }
    IndexOfIs(m, "http", 4);
    ContainsOccurs(m, "http");
    assert m[4..|m| - 1] == url;
  }
}
