/**
 * handlerOneBlog, which turns one blog's text into its rewritten text, and
 * the name under which main writes the result. Reading and writing files,
 * the directory walk and the reactive scheduling are not modelled.
 */
module Application {
  import opened Wrappers
  import opened JavaString
  import opened Rewrite
  import opened AltText
  import opened Extraction
  import opened Publish

  /**
   * The regular-expression engine, which is not modelled: it maps a line to
   * the matches it finds there, each of which has the shape of a picture match.
   */
  ghost predicate IsMatcher(find: string -> seq<string>)
  {
    forall line, k :: 0 <= k < |find(line)| ==> IsPicMatch(find(line)[k])
  }

  /** Every match the engine reports is a piece of the line it searched. */
  ghost predicate MatchesWithin(find: string -> seq<string>)
  {
    forall line, k :: 0 <= k < |find(line)| ==> Contains(line, find(line)[k])
  }

  /** The matches of each line, searched after the alt text was emptied. */
  function LineMatches(content: string, find: string -> seq<string>): (lm: seq<seq<string>>)
    requires IsMatcher(find)
    ensures |lm| == |Lines(content)|
    ensures AllPicMatches(lm)
  {
    var ls := Lines(content);
    var lm := seq(|ls|, i requires 0 <= i < |ls| => find(Normalise(ls[i])));
    assert AllPicMatches(lm) by {
      forall i, k | 0 <= i < |lm| && 0 <= k < |lm[i]| ensures IsPicMatch(lm[i][k]) {
        var found := find(Normalise(ls[i]));
        assert lm[i] == found;
        assert IsPicMatch(found[k]);
      }
    }
    lm
  }

  /** Every match of a line is a piece of that line after its alt text was emptied. */
  lemma {:induction false} LineMatchesFound(content: string, find: string -> seq<string>, i: nat, m: string)
    requires IsMatcher(find)
    requires MatchesWithin(find)
    requires i < |LineMatches(content, find)| && m in LineMatches(content, find)[i]
    ensures Contains(Normalise(Lines(content)[i]), m)
  {
    var found := find(Normalise(Lines(content)[i]));
    var k :| 0 <= k < |found| && found[k] == m;
  }

  /** The links that are downloaded: every extracted link not already on the image domain. */
  function ToTransfer(cfg: Config, content: string, find: string -> seq<string>): (kept: seq<string>)
    requires IsMatcher(find)
    ensures forall l {:trigger l in kept} {:trigger l in AllLinks(LineMatches(content, find))} ::
      l in kept <==> l in AllLinks(LineMatches(content, find)) && !Contains(l, cfg.imgDomain)
  {
    Kept(cfg, AllLinks(LineMatches(content, find)))
  }

  /**
   * handlerOneBlog after the file is read: collect the mapping from the
   * links, then rewrite the text with it, its entries visited in the
   * HashMap's iteration order `order`.
   */
  function HandleOneBlog(cfg: Config, content: string, find: string -> seq<string>, transfers: seq<Transfer>, order: Mapping -> Mapping): (r: Result<string, Error>)
    requires IsMatcher(find)
    requires |transfers| == |ToTransfer(cfg, content, find)|
  {
    Migrate(cfg, content, AllLinks(LineMatches(content, find)), transfers, order)
  }

  /**
   * Every extracted link holds the '.' of its picture extension, so the
   * exception substring(lastIndexOf(".")) could raise never happens here.
   */
  lemma {:induction false} HandleOneBlogSucceeds(cfg: Config, content: string, find: string -> seq<string>, transfers: seq<Transfer>, order: Mapping -> Mapping)
    requires IsMatcher(find)
    requires |transfers| == |ToTransfer(cfg, content, find)|
    ensures HandleOneBlog(cfg, content, find, transfers, order).Success?
  {
    MigrateSucceeds(cfg, content, AllLinks(LineMatches(content, find)), transfers, order);
  }

  /**
   * The text is rewritten with the collected mapping in iteration order: its
   * keys are exactly the extracted links not on the image domain, each once,
   * and each holds downloadAndUpload's result for its link's first occurrence.
   */
  lemma {:induction false} HandleOneBlogRewrites(cfg: Config, content: string, find: string -> seq<string>, transfers: seq<Transfer>, order: Mapping -> Mapping)
    requires IsMatcher(find)
    requires |transfers| == |ToTransfer(cfg, content, find)|
    ensures exists m ::
      && HandleOneBlog(cfg, content, find, transfers, order) == Success(ReplaceLink(content, order(m)))
      && DistinctKeys(m)
      && (forall l {:trigger HasKey(m, l)} {:trigger l in AllLinks(LineMatches(content, find))} ::
            HasKey(m, l) <==> l in AllLinks(LineMatches(content, find)) && !Contains(l, cfg.imgDomain))
      && FirstValues(cfg, ToTransfer(cfg, content, find), transfers, m)
  {
    HandleOneBlogSucceeds(cfg, content, find, transfers, order);
    MigrateRewrites(cfg, content, AllLinks(LineMatches(content, find)), transfers, order);
  }

  /**
   * When no link needs transferring (none found, or all on the image domain
   * already), the blog only has its line endings normalised.
   */
  lemma {:induction false} NothingToTransfer(cfg: Config, content: string, find: string -> seq<string>, order: Mapping -> Mapping)
    requires IsMatcher(find) && IsIterationOrder(order)
    requires forall l {:trigger l in AllLinks(LineMatches(content, find))} ::
      l in AllLinks(LineMatches(content, find)) ==> Contains(l, cfg.imgDomain)
    ensures ToTransfer(cfg, content, find) == []
    ensures HandleOneBlog(cfg, content, find, [], order) == Success(ReplaceLink(content, []))
  {
    KeptNone(cfg, AllLinks(LineMatches(content, find)));
    assert |multiset(order([]))| == 0;
  }

  /** With the shipped configuration every blog comes out with its lines merely rejoined. */
  lemma {:induction false} ShippedConfigRewritesNothing(content: string, find: string -> seq<string>, order: Mapping -> Mapping)
    requires IsMatcher(find) && IsIterationOrder(order)
    ensures ToTransfer(ShippedConfig, content, find) == []
    ensures HandleOneBlog(ShippedConfig, content, find, [], order) == Success(ReplaceLink(content, []))
  {
    EmptyDomainKeepsNothing(AllLinks(LineMatches(content, find)));
    assert |multiset(order([]))| == 0;
  }

  /** An empty blog is written back empty. */
  lemma {:induction false} EmptyBlog(cfg: Config, find: string -> seq<string>, order: Mapping -> Mapping)
    requires IsMatcher(find)
    ensures ToTransfer(cfg, "", find) == []
    ensures HandleOneBlog(cfg, "", find, [], order) == Success("")
  {
  }

  /** parentPath + File.separator + "re-" + fileName. */
  function OutputPath(parentPath: string, separator: char, fileName: string): (out: string)
    ensures |out| == |parentPath| + |fileName| + 4
  {
    parentPath + [separator] + "re-" + fileName
  }

  /**
   * The output sits in the same directory as the input, under the input's
   * name with "re-" in front.
   */
  lemma {:induction false} OutputPathParts(parentPath: string, separator: char, fileName: string)
    requires separator !in "re-" + fileName
    ensures LastIndexOf(OutputPath(parentPath, separator, fileName), separator) == Some(|parentPath|)
    ensures OutputPath(parentPath, separator, fileName)[..|parentPath|] == parentPath
    ensures OutputPath(parentPath, separator, fileName)[|parentPath| + 1..] == "re-" + fileName
  {
    var out := OutputPath(parentPath, separator, fileName);
    assert out[|parentPath| + 1..] == "re-" + fileName;
    LastIndexOfIs(out, separator, |parentPath|);
  }

  /** The output never overwrites the blog it was made from. */
  lemma {:induction false} OutputPathIsNew(parentPath: string, separator: char, fileName: string)
    ensures OutputPath(parentPath, separator, fileName) != parentPath + [separator] + fileName
  {
  }

  /** Different blogs in one directory get different outputs. */
  lemma {:induction false} OutputPathInjective(parentPath: string, separator: char, a: string, b: string)
    requires OutputPath(parentPath, separator, a) == OutputPath(parentPath, separator, b)
    ensures a == b
  {
    var k := |parentPath| + 4;
    assert a == OutputPath(parentPath, separator, a)[k..];
    assert b == OutputPath(parentPath, separator, b)[k..];
  }
}
