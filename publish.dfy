/**
 * downloadAndUpload and the collection of the origin-to-target mapping.
 * The download, the upload to object storage and the random UUID are not
 * modelled as effects: each call receives a Transfer that says which UUID
 * it drew and whether both network steps went through.
 */
module Publish {
  import opened Wrappers
  import opened JavaString
  import opened Rewrite

  /** The two configuration constants the rewriting depends on. */
  datatype Config = Config(dirName: string, imgDomain: string)

  /** The values the program ships with: both constants empty. */
  const ShippedConfig := Config("", "")

  /** The outcome of one download-and-upload attempt. */
  datatype Transfer = Transfer(uuid: string, uploaded: bool)

  /** The only exception that escapes downloadAndUpload. */
  datatype Error = IndexOutOfBounds

  /**
   * link.substring(link.lastIndexOf(".")): the suffix from the last '.',
   * or the exception a missing '.' raises (index -1).
   */
  function Extension(link: string): (r: Result<string, Error>)
    ensures r.Failure? <==> '.' !in link
    ensures r.Success? ==> |r.value| > 0 && r.value[0] == '.' && '.' !in r.value[1..]
    ensures r.Success? ==> |r.value| <= |link| && link == link[..|link| - |r.value|] + r.value
  {
    match LastIndexOf(link, '.')
    case None => Failure(IndexOutOfBounds)
    case Some(d) =>
      assert link == link[..d] + link[d..];
      Success(link[d..])
  }

  /** The object key under which the picture is stored. */
  function Identifier(cfg: Config, uuid: string, extension: string): string
  {
    cfg.dirName + "/" + uuid + extension
  }

  /**
   * downloadAndUpload: the public link of the uploaded copy, or the
   * original link when the download or the upload failed.
   */
  function DownloadAndUpload(cfg: Config, link: string, t: Transfer): (r: Result<string, Error>)
    ensures r.Failure? <==> '.' !in link
    ensures r.Success? && !t.uploaded ==> r.value == link
    ensures r.Success? && t.uploaded ==>
      exists ext :: Extension(link) == Success(ext) && r.value == cfg.imgDomain + Identifier(cfg, t.uuid, ext)
  {
    match Extension(link)
    case Failure(e) => Failure(e)
    case Success(extension) =>
      var identifier := Identifier(cfg, t.uuid, extension);
      if t.uploaded then Success(cfg.imgDomain + identifier) else Success(link)
  }

  /** A successful upload keeps the picture's extension: both end in the same suffix from their last '.'. */
  lemma {:induction false} UploadKeepsExtension(cfg: Config, link: string, t: Transfer)
    requires '.' in link && t.uploaded
    ensures Extension(DownloadAndUpload(cfg, link, t).value) == Extension(link)
  {
    var ext := Extension(link).value;
    var prefix := cfg.imgDomain + Identifier(cfg, t.uuid, "");
    var r := DownloadAndUpload(cfg, link, t).value;
    assert r == prefix + ext;
    var d := |prefix|;
    assert r[d..] == ext;
    assert r[d + 1..] == ext[1..];
    LastIndexOfIs(r, '.', d);
  }

  /** A successful upload yields a link on the image domain, so a later run filters it out. */
  lemma {:induction false} UploadedLinkIsOnDomain(cfg: Config, link: string, t: Transfer)
    requires '.' in link && t.uploaded
    ensures Contains(DownloadAndUpload(cfg, link, t).value, cfg.imgDomain)
  {
    var r := DownloadAndUpload(cfg, link, t).value;
    assert OccursAt(r, cfg.imgDomain, 0);
    ContainsOccurs(r, cfg.imgDomain);
  }

  /** filter(it -> !it.contains(IMG_DOMAIN)), order kept. */
  function Kept(cfg: Config, links: seq<string>): (kept: seq<string>)
    ensures forall l {:trigger l in kept} {:trigger l in links} :: l in kept <==> l in links && !Contains(l, cfg.imgDomain)
    ensures |kept| <= |links|
  {
    if links == [] then []
    else
      var n := |links| - 1;
      var front := Kept(cfg, links[..n]);
      assert links == links[..n] + [links[n]];
      if Contains(links[n], cfg.imgDomain) then front else front + [links[n]]
  }

  /** Links that are all on the image domain are all filtered out. */
  lemma {:induction false} KeptNone(cfg: Config, links: seq<string>)
    requires forall l {:trigger l in links} :: l in links ==> Contains(l, cfg.imgDomain)
    ensures Kept(cfg, links) == []
  {
    if links != [] {
      var n := |links| - 1;
      assert forall l :: l in links[..n] ==> l in links;
      KeptNone(cfg, links[..n]);
      assert links[n] in links;
    }
  }

  /** Every string contains the empty string, so an empty image domain keeps nothing. */
  lemma {:induction false} EmptyDomainKeepsNothing(links: seq<string>)
    ensures Kept(ShippedConfig, links) == []
  {
    forall l | l in links ensures Contains(l, ShippedConfig.imgDomain) {
      assert OccursAt(l, "", 0);
      ContainsOccurs(l, "");
    }
    KeptNone(ShippedConfig, links);
  }

  predicate HasKey(m: Mapping, key: string)
  {
    exists i :: 0 <= i < |m| && m[i].0 == key
  }

  /** No key appears twice. */
  predicate DistinctKeys(m: Mapping)
  {
    forall i, j :: 0 <= i < j < |m| ==> m[i].0 != m[j].0
  }

  /** HashMap.merge with (e, u) -> e: a key already present keeps its value. */
  function Insert(m: Mapping, key: string, value: string): (r: Mapping)
  {
    if HasKey(m, key) then m else m + [(key, value)]
  }

  /** Insert keeps keys distinct and adds exactly the new key. */
  lemma {:induction false} InsertKeys(m: Mapping, key: string, value: string)
    requires DistinctKeys(m)
    ensures DistinctKeys(Insert(m, key, value))
    ensures forall l :: HasKey(Insert(m, key, value), l) <==> HasKey(m, l) || l == key
  {
    var r := Insert(m, key, value);
    if !HasKey(m, key) {
      forall l ensures HasKey(r, l) <==> HasKey(m, l) || l == key {
        if HasKey(m, l) {
          var i :| 0 <= i < |m| && m[i].0 == l;
          assert r[i] == m[i];
        }
        if HasKey(r, l) && l != key {
          var i :| 0 <= i < |r| && r[i].0 == l;
          assert m[i] == r[i];
        }
        assert r[|m|].0 == key;
      }
    }
  }

  /** downloadAndUpload applied to every kept link, duplicates included. */
  function Outcomes(cfg: Config, kept: seq<string>, transfers: seq<Transfer>): (r: seq<Result<string, Error>>)
    requires |transfers| == |kept|
    ensures |r| == |kept|
    ensures forall i :: 0 <= i < |kept| ==> r[i] == DownloadAndUpload(cfg, kept[i], transfers[i])
  {
    seq(|kept|, i requires 0 <= i < |kept| => DownloadAndUpload(cfg, kept[i], transfers[i]))
  }

  /**
   * The accumulation of toMap with the merge function (e, u) -> e: keys in
   * order of first appearance, the first value stays, and the first failed
   * value aborts the whole.
   */
  function Merge(keys: seq<string>, values: seq<Result<string, Error>>): (r: Result<Mapping, Error>)
    requires |values| == |keys|
  {
    if keys == [] then Success([])
    else
      var n := |keys| - 1;
      var front := Merge(keys[..n], values[..n]);
      if front.Failure? then front
      else if values[n].Failure? then Failure(values[n].error)
      else Success(Insert(front.value, keys[n], values[n].value))
  }

  /**
   * Collectors.toMap(it -> it, downloadAndUpload, (e, u) -> e) over the kept
   * links.
   */
  function Collect(cfg: Config, kept: seq<string>, transfers: seq<Transfer>): (r: Result<Mapping, Error>)
    requires |transfers| == |kept|
  {
    Merge(kept, Outcomes(cfg, kept, transfers))
  }

  /** Each entry of `m` holds what downloadAndUpload gave the first occurrence of its key among `kept`. */
  predicate FirstValues(cfg: Config, kept: seq<string>, transfers: seq<Transfer>, m: Mapping)
    requires |transfers| == |kept|
  {
    forall i, j :: 0 <= i < |m| && 0 <= j < |kept| && kept[j] == m[i].0 && kept[j] !in kept[..j] ==>
      DownloadAndUpload(cfg, kept[j], transfers[j]) == Success(m[i].1)
  }

  /**
   * The order in which HashMap.forEach visits the entries, as a function of
   * the entries in the order toMap inserted them: any rearrangement of them.
   */
  ghost predicate IsIterationOrder(order: Mapping -> Mapping)
  {
    forall m :: multiset(order(m)) == multiset(m)
  }

  /** The merge fails exactly when some value is a failure. */
  lemma {:induction false} MergeFails(keys: seq<string>, values: seq<Result<string, Error>>)
    requires |values| == |keys|
    ensures Merge(keys, values).Failure? <==> exists i :: 0 <= i < |values| && values[i].Failure?
  {
    if keys != [] {
      var n := |keys| - 1;
      var kprefix, vprefix := keys[..n], values[..n];
      MergeFails(kprefix, vprefix);
      assert forall i :: 0 <= i < n ==> vprefix[i] == values[i];
    }
  }

  /** On success the merged mapping has one entry per distinct key. */
  lemma {:induction false} MergeKeys(keys: seq<string>, values: seq<Result<string, Error>>, m: Mapping)
    requires |values| == |keys|
    requires Merge(keys, values) == Success(m)
    ensures DistinctKeys(m)
    ensures forall l :: HasKey(m, l) <==> l in keys
  {
    if keys != [] {
      var n := |keys| - 1;
      var front := Merge(keys[..n], values[..n]).value;
      MergeKeys(keys[..n], values[..n], front);
      InsertKeys(front, keys[n], values[n].value);
      assert keys == keys[..n] + [keys[n]];
    }
  }

  /** Entries already present are untouched; a new entry goes at the end. */
  lemma {:induction false} InsertEntries(m: Mapping, key: string, value: string, i: nat)
    requires i < |Insert(m, key, value)|
    ensures i < |m| ==> Insert(m, key, value)[i] == m[i]
    ensures i >= |m| ==> Insert(m, key, value)[i] == (key, value) && !HasKey(m, key)
  {
  }

  /** Each entry holds the value of its key's first occurrence. */
  lemma {:induction false} MergeFirstValue(keys: seq<string>, values: seq<Result<string, Error>>, m: Mapping, i: nat, j: nat)
    requires |values| == |keys|
    requires Merge(keys, values) == Success(m)
    requires i < |m| && j < |keys| && keys[j] == m[i].0 && keys[j] !in keys[..j]
    ensures values[j] == Success(m[i].1)
  {
    var n := |keys| - 1;
    var kprefix, vprefix := keys[..n], values[..n];
    var front := Merge(kprefix, vprefix).value;
    assert m == Insert(front, keys[n], values[n].value);
    MergeKeys(kprefix, vprefix, front);
    InsertEntries(front, keys[n], values[n].value, i);
    if j < n {
      assert kprefix[..j] == keys[..j];
      assert kprefix[j] == keys[j] && vprefix[j] == values[j];
      if i < |front| {
        MergeFirstValue(kprefix, vprefix, front, i, j);
        assert m[i] == front[i];
      } else {
        assert false;
      }
    } else if i < |front| {
      assert HasKey(front, keys[j]) by {
        assert front[i].0 == keys[j];
      }
      assert false;
    } else {
      assert m[i] == (keys[n], values[n].value);
    }
  }

  /** The collection fails exactly when some kept link has no '.'. */
  lemma {:induction false} CollectFails(cfg: Config, kept: seq<string>, transfers: seq<Transfer>)
    requires |transfers| == |kept|
    ensures Collect(cfg, kept, transfers).Failure? <==> exists i :: 0 <= i < |kept| && '.' !in kept[i]
  {
    MergeFails(kept, Outcomes(cfg, kept, transfers));
  }

  /**
   * On success the mapping has one entry per distinct kept link, holding the
   * value downloadAndUpload gave that link's first occurrence.
   */
  lemma {:induction false} CollectMapping(cfg: Config, kept: seq<string>, transfers: seq<Transfer>, m: Mapping)
    requires |transfers| == |kept|
    requires Collect(cfg, kept, transfers) == Success(m)
    ensures DistinctKeys(m)
    ensures forall l :: HasKey(m, l) <==> l in kept
    ensures FirstValues(cfg, kept, transfers, m)
  {
    var values := Outcomes(cfg, kept, transfers);
    MergeKeys(kept, values, m);
    forall i, j | 0 <= i < |m| && 0 <= j < |kept| && kept[j] == m[i].0 && kept[j] !in kept[..j]
      ensures DownloadAndUpload(cfg, kept[j], transfers[j]) == Success(m[i].1)
    {
      MergeFirstValue(kept, values, m, i, j);
    }
  }

  /** Filtering then collecting fails exactly when a kept link has no '.'. */
  lemma {:induction false} KeptCollectFails(cfg: Config, links: seq<string>, transfers: seq<Transfer>)
    requires |transfers| == |Kept(cfg, links)|
    ensures Collect(cfg, Kept(cfg, links), transfers).Failure? <==>
      exists l {:trigger l in links} :: l in links && !Contains(l, cfg.imgDomain) && '.' !in l
  {
    var kept := Kept(cfg, links);
    CollectFails(cfg, kept, transfers);
    if Collect(cfg, kept, transfers).Failure? {
      var i :| 0 <= i < |kept| && '.' !in kept[i];
      assert kept[i] in kept;
      assert kept[i] in links;
    }
    if exists l {:trigger l in links} :: l in links && !Contains(l, cfg.imgDomain) && '.' !in l {
      var l :| l in links && !Contains(l, cfg.imgDomain) && '.' !in l;
      assert l in kept;
      var i :| 0 <= i < |kept| && kept[i] == l;
    }
  }

  /**
   * The part of handlerOneBlog after link extraction: filter the links,
   * collect the mapping, rewrite the text with its entries in the order
   * `order` gives them.
   */
  function Migrate(cfg: Config, content: string, links: seq<string>, transfers: seq<Transfer>, order: Mapping -> Mapping): (r: Result<string, Error>)
    requires |transfers| == |Kept(cfg, links)|
  {
    var mapping := Collect(cfg, Kept(cfg, links), transfers);
    if mapping.Failure? then Failure(mapping.error) else Success(ReplaceLink(content, order(mapping.value)))
  }

  /** Migration fails exactly when a link to transfer has no '.'. */
  lemma {:induction false} MigrateFails(cfg: Config, content: string, links: seq<string>, transfers: seq<Transfer>, order: Mapping -> Mapping)
    requires |transfers| == |Kept(cfg, links)|
    ensures Migrate(cfg, content, links, transfers, order).Failure? <==>
      exists l {:trigger l in links} :: l in links && !Contains(l, cfg.imgDomain) && '.' !in l
  {
    KeptCollectFails(cfg, links, transfers);
  }

  /** Links that all hold a '.' never make the migration fail. */
  lemma {:induction false} MigrateSucceeds(cfg: Config, content: string, links: seq<string>, transfers: seq<Transfer>, order: Mapping -> Mapping)
    requires |transfers| == |Kept(cfg, links)|
    requires forall l {:trigger l in links} :: l in links ==> '.' in l
    ensures Migrate(cfg, content, links, transfers, order).Success?
  {
    var kept := Kept(cfg, links);
    forall i | 0 <= i < |kept| ensures '.' in kept[i] {
      assert kept[i] in kept;
    }
    CollectFails(cfg, kept, transfers);
  }

  /**
   * On success the text is rewritten with the collected mapping, in iteration
   * order: its keys are exactly the links not on the image domain, each once,
   * and each holds downloadAndUpload's result for the first occurrence of its link.
   */
  lemma {:induction false} MigrateRewrites(cfg: Config, content: string, links: seq<string>, transfers: seq<Transfer>, order: Mapping -> Mapping)
    requires |transfers| == |Kept(cfg, links)|
    requires Migrate(cfg, content, links, transfers, order).Success?
    ensures exists m ::
      && Migrate(cfg, content, links, transfers, order).value == ReplaceLink(content, order(m))
      && DistinctKeys(m)
      && (forall l {:trigger HasKey(m, l)} {:trigger l in links} :: HasKey(m, l) <==> l in links && !Contains(l, cfg.imgDomain))
      && FirstValues(cfg, Kept(cfg, links), transfers, m)
  {
    var kept := Kept(cfg, links);
    var m := Collect(cfg, kept, transfers).value;
    CollectMapping(cfg, kept, transfers, m);
  }

  /** With the shipped configuration nothing is downloaded and the mapping is empty. */
  lemma {:induction false} ShippedConfigCollectsNothing(links: seq<string>, transfers: seq<Transfer>)
    requires |transfers| == |Kept(ShippedConfig, links)|
    ensures Collect(ShippedConfig, Kept(ShippedConfig, links), transfers) == Success([])
  {
    EmptyDomainKeepsNothing(links);
  }
}
