# upload-blog-pic, modelled in Dafny

upload-blog-pic migrates the pictures of markdown blog posts to an object
store. For every post it:

1. reads the text and cuts it into lines;
2. empties the alt text of image references (`![...]` becomes `![]`);
3. finds the image links with a regular expression;
4. drops links that are already on the image domain;
5. downloads each remaining picture and uploads it under a fresh UUID,
   keeping the original link when either step fails;
6. builds a mapping from old link to new link, where the first value for a
   link wins;
7. replaces every old link with its new one, line by line;
8. writes the result next to the post, under the post's name prefixed with
   `re-`.

The model covers steps 2 to 8 as far as they are computation, in six modules:

- `JavaString` (`java_string.dfy`) gives the `java.lang.String` behaviour the
  program relies on: `indexOf`, `contains`, `lastIndexOf`, the literal
  replace-all `replace` (an empty target included) and `lines()`, which breaks
  at `\n`, `\r` and `\r\n`.
- `AltText` (`alt_text.dfy`) models the alt-text pass. That pass is a greedy
  regular expression, so each run of characters between regex line
  terminators is rewritten at most once, from its first `![` to its last `]`.
- `Extraction` (`extraction.dfy`) cuts each link out of a match. The
  `while (matcher.find())` loop is modelled as a method.
- `Rewrite` (`rewrite.dfy`) models `replaceLink`. The `forEach` that keeps
  updating `copyLine[0]` is a method proved against a left fold. The rest
  covers the split into lines, the rewriting and the `reduce` that joins the
  lines with `"\n"`.
- `Publish` (`publish.dfy`) models `downloadAndUpload`, the filter on the
  image domain and `Collectors.toMap` with its keep-the-first merge function.
- `Application` (`application.dfy`) models `handlerOneBlog` once the file is
  read, plus the output file name that `main` builds.

The mapping is a sequence of (origin, target) pairs in the order `toMap`
inserted them. The source keeps it in a `HashMap`, and `forEach` visits the
entries in the map's iteration order, which the model takes as a parameter
`order` (`Publish.IsIterationOrder`: any rearrangement of the entries). The
order matters when one link is a prefix of another, so the rewritten text is
stated for the order given, and every lemma about `replaceLink` holds for
every order. `DIR_NAME` and `IMG_DOMAIN` are a `Config` parameter.
`ShippedConfig` holds the values the source ships with: both are empty
strings.

Some behaviours of the code worth knowing:

- With an empty mapping the text is still split and rejoined, so `\r\n` and
  `\r` become `\n` and a final break is dropped (`Rewrite.ReplaceLinkReflows`,
  `Rewrite.ReplaceLinkDropsTrailingNewline`). Only a text that uses `\n`
  alone and does not end in one comes back as it was
  (`Rewrite.ReplaceLinkIdentity`). The final `\n` is lost whatever the
  mapping (`Rewrite.ReplaceLinkTrailingNewline`).
- The picture pattern has no case-insensitive flag, so only lower-case
  extensions match. The stored name keeps everything from the link's last
  `.` exactly as written (`Publish.Extension`).
- Two images on one line merge into one reference in the alt-text pass, and
  only the last image's link is kept (`AltText.AltTextKeepsLastImage`).
- Every match of the picture pattern holds the `.` of its extension after
  its first `http`, so every extracted link holds a `.` and the exception
  `substring(lastIndexOf("."))` would raise on a link without one never
  happens (`Application.HandleOneBlogSucceeds`). `Publish` still models that
  exception for links in general.

## Model

| member | source | states |
|---|---|---|
| JavaString.IndexOfIs | src/main/java/run/runnable/uploadblogpic/UploadBlogPicApplication.java:89 | `indexOf` returns i exactly when the pattern occurs at i and at no earlier index |
| JavaString.IndexOfIsFirst | src/main/java/run/runnable/uploadblogpic/UploadBlogPicApplication.java:89 | no occurrence of the pattern comes before the index `indexOf` returns; when it returns none, there is no occurrence at all |
| JavaString.IndexOf | src/main/java/run/runnable/uploadblogpic/UploadBlogPicApplication.java:89 | `indexOf` finds an occurrence of the pattern; `IndexOfIsFirst` and `IndexOfIs` say it is the first |
| JavaString.ContainsOccurs | src/main/java/run/runnable/uploadblogpic/UploadBlogPicApplication.java:95 | `contains` holds if and only if the pattern occurs at some index |
| JavaString.Contains | src/main/java/run/runnable/uploadblogpic/UploadBlogPicApplication.java:95 | `contains`; `ContainsOccurs` states it holds exactly when the pattern occurs somewhere |
| JavaString.LastIndexOf | src/main/java/run/runnable/uploadblogpic/UploadBlogPicApplication.java:137 | the index found holds the character and none follows it; there is no result exactly when the character is absent |
| JavaString.LastIndexOfIs | src/main/java/run/runnable/uploadblogpic/UploadBlogPicApplication.java:137 | an index that holds the character, with no copy of it after, is the one `lastIndexOf` returns |
| JavaString.Replace | src/main/java/run/runnable/uploadblogpic/UploadBlogPicApplication.java:119 | `replace`, left to right without overlap, the empty target included; its behaviour is stated by the `Replace*` lemmas below |
| JavaString.ReplaceAtFirst | src/main/java/run/runnable/uploadblogpic/UploadBlogPicApplication.java:119 | `replace` copies the text before the first occurrence, puts the replacement in its place and goes on after it |
| JavaString.ReplaceCopiesPrefix | src/main/java/run/runnable/uploadblogpic/UploadBlogPicApplication.java:119 | a prefix in which no occurrence starts is copied unchanged |
| JavaString.ReplaceSkipAt | src/main/java/run/runnable/uploadblogpic/UploadBlogPicApplication.java:119 | where no occurrence starts, `replace` copies that character and goes on with the rest |
| JavaString.ReplaceAbsent | src/main/java/run/runnable/uploadblogpic/UploadBlogPicApplication.java:119 | a text that does not contain the target is returned unchanged |
| JavaString.ReplaceInserts | src/main/java/run/runnable/uploadblogpic/UploadBlogPicApplication.java:119 | a text that contains the target contains the replacement afterwards |
| JavaString.ReplaceBySelf | src/main/java/run/runnable/uploadblogpic/UploadBlogPicApplication.java:119 | replacing a target by itself changes nothing, the empty target included |
| JavaString.ReplaceChars | src/main/java/run/runnable/uploadblogpic/UploadBlogPicApplication.java:119 | `replace` introduces no character that was in neither the text nor the replacement |
| JavaString.Lines | src/main/java/run/runnable/uploadblogpic/UploadBlogPicApplication.java:114 | `lines()` gives lines free of `\n` and `\r`, and gives none exactly for the empty text; `Rewrite.JoinLinesReflow` ties the lines back to the text |
| Rewrite.ApplyMapping | src/main/java/run/runnable/uploadblogpic/UploadBlogPicApplication.java:117-121 | the `forEach` over the entries leaves in `copyLine[0]` the line with every entry applied in iteration order |
| Rewrite.RewriteLine | src/main/java/run/runnable/uploadblogpic/UploadBlogPicApplication.java:117-121 | every entry applied to the line in iteration order; `ApplyMapping` is proved equal to it and the `RewriteLine*` lemmas state its effect |
| Rewrite.RewriteLineUntouched | src/main/java/run/runnable/uploadblogpic/UploadBlogPicApplication.java:117-121 | a line in which no origin occurs comes out unchanged |
| Rewrite.RewriteLineFallback | src/main/java/run/runnable/uploadblogpic/UploadBlogPicApplication.java:117-121 | entries that map a link to itself, as a failed transfer leaves them, change no line |
| Rewrite.RewriteLineChars | src/main/java/run/runnable/uploadblogpic/UploadBlogPicApplication.java:117-121 | rewriting adds no character found in neither the line nor any target |
| Rewrite.RewriteAll | src/main/java/run/runnable/uploadblogpic/UploadBlogPicApplication.java:115-123 | the output has one line per input line, and line i is input line i with the whole mapping applied |
| Rewrite.Join | src/main/java/run/runnable/uploadblogpic/UploadBlogPicApplication.java:125 | the `reduce` join with `"\n"`; `JoinCons`, `JoinLinesReflow` and `SegmentsOfJoin` state what it builds |
| Rewrite.JoinCons | src/main/java/run/runnable/uploadblogpic/UploadBlogPicApplication.java:125 | the left-fold `reduce` join is the first line, `"\n"`, then the join of the rest |
| Rewrite.UnixBreaks | src/main/java/run/runnable/uploadblogpic/UploadBlogPicApplication.java:114 | the text with every break `lines()` recognises (`\r\n`, `\r`, `\n`) written as `\n`; empty exactly for the empty text |
| Rewrite.UnixBreaksHasNoCr | src/main/java/run/runnable/uploadblogpic/UploadBlogPicApplication.java:114 | no `\r` survives |
| Rewrite.JoinLines | src/main/java/run/runnable/uploadblogpic/UploadBlogPicApplication.java:114-125 | joining the lines of a non-empty text with only `\n` breaks and no final `\n` gives the text back |
| Rewrite.JoinLinesReflow | src/main/java/run/runnable/uploadblogpic/UploadBlogPicApplication.java:114-125 | for every non-empty text, joining its lines with `"\n"` gives the text with every break written as `\n` and a final break dropped |
| Rewrite.LinesTrailingNewline | src/main/java/run/runnable/uploadblogpic/UploadBlogPicApplication.java:114 | a final `\n` adds no line |
| Rewrite.SegmentsOfJoin | src/main/java/run/runnable/uploadblogpic/UploadBlogPicApplication.java:125 | cutting a join at its `"\n"`s gives back the joined lines when none holds a `\n` |
| Rewrite.ReplaceLink | src/main/java/run/runnable/uploadblogpic/UploadBlogPicApplication.java:126 | a text without lines, i.e. the empty text, is returned as it is (`orElse`) |
| Rewrite.ReplaceLinkIdentity | src/main/java/run/runnable/uploadblogpic/UploadBlogPicApplication.java:113-127 | with an empty mapping, a text with only `\n` breaks and no final `\n` comes back unchanged |
| Rewrite.ReplaceLinkTrailingNewline | src/main/java/run/runnable/uploadblogpic/UploadBlogPicApplication.java:113-127 | a final `\n` is lost whatever the mapping |
| Rewrite.ReplaceLinkDropsTrailingNewline | src/main/java/run/runnable/uploadblogpic/UploadBlogPicApplication.java:113-127 | with an empty mapping, a text ending in one `\n` comes back without it, so it is not returned unchanged |
| Rewrite.ReplaceLinkReflows | src/main/java/run/runnable/uploadblogpic/UploadBlogPicApplication.java:113-127 | with an empty mapping a non-empty text comes back reflowed: `\r\n` and `\r` become `\n` and a final break is dropped |
| Rewrite.ReplaceLinkSegments | src/main/java/run/runnable/uploadblogpic/UploadBlogPicApplication.java:113-127 | when no target holds a `\n`, segment i of the result is line i of the input rewritten, and there are as many segments as lines |
| Rewrite.ReplaceLinkUntouched | src/main/java/run/runnable/uploadblogpic/UploadBlogPicApplication.java:113-127 | when no origin occurs in any line, the result is the one an empty mapping gives |
| Rewrite.ReplaceLinkFallback | src/main/java/run/runnable/uploadblogpic/UploadBlogPicApplication.java:113-127 | when every target is its own origin, the result is the one an empty mapping gives |
| AltText.RunLength | src/main/java/run/runnable/uploadblogpic/UploadBlogPicApplication.java:81 | the first run ends at the first regex line terminator, or at the end of the line |
| AltText.NormaliseRun | src/main/java/run/runnable/uploadblogpic/UploadBlogPicApplication.java:81 | the pass adds no character other than `!`, `[` and `]` |
| AltText.Normalise | src/main/java/run/runnable/uploadblogpic/UploadBlogPicApplication.java:81 | `replaceAll` applied run by run; `NormaliseOneRun`, `AltTextEmptied`, `AltTextAbsent` and `NormaliseIdempotent` state its effect |
| AltText.NormaliseOneRun | src/main/java/run/runnable/uploadblogpic/UploadBlogPicApplication.java:81 | a line without regex line terminators is rewritten as a single run |
| AltText.AltTextEmptied | src/main/java/run/runnable/uploadblogpic/UploadBlogPicApplication.java:81 | on such a line, the span from the first `![` to the last `]` after it becomes `![]`, and the rest is kept |
| AltText.AltSpanIs | src/main/java/run/runnable/uploadblogpic/UploadBlogPicApplication.java:81 | the pattern covers exactly the first `![` to the last `]` of a run, when the two are at least two apart |
| AltText.AltTextAbsent | src/main/java/run/runnable/uploadblogpic/UploadBlogPicApplication.java:81 | a line where no `]` follows a `![` is left alone |
| AltText.AltTextKeepsLastImage | src/main/java/run/runnable/uploadblogpic/UploadBlogPicApplication.java:81 | `![a](x) ![b](y)` becomes `![](y)`: the greedy pattern merges two images into one |
| AltText.NormaliseRunIsRun | src/main/java/run/runnable/uploadblogpic/UploadBlogPicApplication.java:81 | rewriting a run adds no regex line terminator |
| AltText.NormaliseRunIdempotent | src/main/java/run/runnable/uploadblogpic/UploadBlogPicApplication.java:81 | rewriting a run twice gives the same as once |
| AltText.NormaliseIdempotent | src/main/java/run/runnable/uploadblogpic/UploadBlogPicApplication.java:81 | the alt-text pass is idempotent on every line |
| Extraction.LinkOf | src/main/java/run/runnable/uploadblogpic/UploadBlogPicApplication.java:89-90 | the link starts with `http` and holds a `.`; the match is the text before the first `http`, then the link, then `)`, and no `http` starts earlier |
| Extraction.LinksOfLine | src/main/java/run/runnable/uploadblogpic/UploadBlogPicApplication.java:86-92 | one link per match, in match order |
| Extraction.ExtractLinks | src/main/java/run/runnable/uploadblogpic/UploadBlogPicApplication.java:86-92 | the `while (matcher.find())` loop fills `picLink` with the links of the matches in order, each starting with `http` |
| Extraction.AllLinks | src/main/java/run/runnable/uploadblogpic/UploadBlogPicApplication.java:82-94 | every link the `flatMap` yields starts with `http` and holds a `.`; it is the flattening of `LinksByLine`, and `AllLinksMembers` says which links it holds |
| Extraction.LinksByLine | src/main/java/run/runnable/uploadblogpic/UploadBlogPicApplication.java:82-93 | the lambda of the `flatMap`: line i gives the links of line i's matches |
| Extraction.FlattenHas | src/main/java/run/runnable/uploadblogpic/UploadBlogPicApplication.java:82-94 | every link of every line is in what the `flatMap` yields |
| Extraction.FlattenFrom | src/main/java/run/runnable/uploadblogpic/UploadBlogPicApplication.java:82-94 | every link the `flatMap` yields comes from some line |
| Extraction.AllLinksMembers | src/main/java/run/runnable/uploadblogpic/UploadBlogPicApplication.java:82-94 | a link is yielded exactly when it is `LinkOf` some match on some line |
| Extraction.LinkOfImage | src/main/java/run/runnable/uploadblogpic/UploadBlogPicApplication.java:83-91 | for `![](url)` with a URL that starts with `http` and holds a `.`, the extracted link is exactly the URL |
| Publish.Extension | src/main/java/run/runnable/uploadblogpic/UploadBlogPicApplication.java:137 | the suffix starts at the link's last `.` and holds no other `.`; a link without `.` raises the exception |
| Publish.DownloadAndUpload | src/main/java/run/runnable/uploadblogpic/UploadBlogPicApplication.java:136-150 | failure exactly for a link without `.`; a failed transfer returns the link; a successful one returns `IMG_DOMAIN + DIR_NAME + "/" + uuid + extension` |
| Publish.UploadKeepsExtension | src/main/java/run/runnable/uploadblogpic/UploadBlogPicApplication.java:137-144 | the new link has the same extension as the old one |
| Publish.UploadedLinkIsOnDomain | src/main/java/run/runnable/uploadblogpic/UploadBlogPicApplication.java:144 | the new link contains `IMG_DOMAIN`, so the filter skips it on a later run |
| Publish.Kept | src/main/java/run/runnable/uploadblogpic/UploadBlogPicApplication.java:95 | a link survives the filter if and only if it does not contain `IMG_DOMAIN` |
| Publish.KeptNone | src/main/java/run/runnable/uploadblogpic/UploadBlogPicApplication.java:95 | links that are all on the image domain are all dropped |
| Publish.EmptyDomainKeepsNothing | src/main/java/run/runnable/uploadblogpic/UploadBlogPicApplication.java:95 | with the shipped empty `IMG_DOMAIN` the filter drops every link |
| Publish.InsertKeys | src/main/java/run/runnable/uploadblogpic/UploadBlogPicApplication.java:99 | a merge keeps keys distinct and adds exactly the new key |
| Publish.InsertEntries | src/main/java/run/runnable/uploadblogpic/UploadBlogPicApplication.java:99 | a merge leaves existing entries alone and appends a new key's entry |
| Publish.Outcomes | src/main/java/run/runnable/uploadblogpic/UploadBlogPicApplication.java:98 | the value function is applied to every kept link, duplicates included |
| Publish.Merge | src/main/java/run/runnable/uploadblogpic/UploadBlogPicApplication.java:96-100 | the accumulation of `toMap` with `(e, u) -> e`; `MergeFails`, `MergeKeys` and `MergeFirstValue` state what it yields |
| Publish.MergeFails | src/main/java/run/runnable/uploadblogpic/UploadBlogPicApplication.java:96-100 | the collection fails exactly when some value raised |
| Publish.MergeKeys | src/main/java/run/runnable/uploadblogpic/UploadBlogPicApplication.java:96-100 | the collected map has distinct keys, and they are exactly the collected links |
| Publish.MergeFirstValue | src/main/java/run/runnable/uploadblogpic/UploadBlogPicApplication.java:96-100 | each key keeps the value of its first occurrence |
| Publish.Collect | src/main/java/run/runnable/uploadblogpic/UploadBlogPicApplication.java:96-100 | `toMap(it -> it, downloadAndUpload, (e, u) -> e)`; `CollectFails` and `CollectMapping` state its result |
| Publish.CollectFails | src/main/java/run/runnable/uploadblogpic/UploadBlogPicApplication.java:96-100 | `toMap` fails exactly when some kept link has no `.` |
| Publish.CollectMapping | src/main/java/run/runnable/uploadblogpic/UploadBlogPicApplication.java:96-100 | on success: distinct keys, exactly the kept links, each mapped to `downloadAndUpload` of its first occurrence |
| Publish.KeptCollectFails | src/main/java/run/runnable/uploadblogpic/UploadBlogPicApplication.java:95-100 | filter then collect fails exactly when a link off the image domain has no `.` |
| Publish.Migrate | src/main/java/run/runnable/uploadblogpic/UploadBlogPicApplication.java:95-103 | filter, collect, then `replaceLink` in iteration order; `MigrateFails`, `MigrateSucceeds` and `MigrateRewrites` state its result |
| Publish.MigrateFails | src/main/java/run/runnable/uploadblogpic/UploadBlogPicApplication.java:95-103 | a post fails exactly when a link off the image domain has no `.` |
| Publish.MigrateSucceeds | src/main/java/run/runnable/uploadblogpic/UploadBlogPicApplication.java:95-103 | links that all hold a `.` never raise the exception of line 137 |
| Publish.MigrateRewrites | src/main/java/run/runnable/uploadblogpic/UploadBlogPicApplication.java:95-103 | on success the text is `replaceLink` with the collected map visited in iteration order: its keys are exactly the links off the image domain, each once, and each holds `downloadAndUpload` of its first occurrence (`FirstValues`) |
| Publish.ShippedConfigCollectsNothing | src/main/java/run/runnable/uploadblogpic/UploadBlogPicApplication.java:35-36 | with the shipped configuration the map is empty |
| Application.LineMatches | src/main/java/run/runnable/uploadblogpic/UploadBlogPicApplication.java:80-84 | one list of matches per line, each of them a picture match |
| Application.LineMatchesFound | src/main/java/run/runnable/uploadblogpic/UploadBlogPicApplication.java:80-84 | every match of a line lies in that line after its alt text was emptied |
| Application.ToTransfer | src/main/java/run/runnable/uploadblogpic/UploadBlogPicApplication.java:80-95 | the links to transfer are exactly the extracted links not on the image domain |
| Application.HandleOneBlog | src/main/java/run/runnable/uploadblogpic/UploadBlogPicApplication.java:76-103 | `handlerOneBlog` once the text is read; `HandleOneBlogSucceeds` and `HandleOneBlogRewrites` state its result |
| Application.HandleOneBlogSucceeds | src/main/java/run/runnable/uploadblogpic/UploadBlogPicApplication.java:95-100 | every post is processed without the exception of line 137, because every extracted link holds a `.` |
| Application.HandleOneBlogRewrites | src/main/java/run/runnable/uploadblogpic/UploadBlogPicApplication.java:76-103 | the post is rewritten with the collected map visited in iteration order: keyed exactly by the extracted links off the image domain, each once, each holding `downloadAndUpload` of its first occurrence |
| Application.NothingToTransfer | src/main/java/run/runnable/uploadblogpic/UploadBlogPicApplication.java:95-103 | a post whose links are all on the image domain transfers nothing, and only its line breaks are normalised |
| Application.ShippedConfigRewritesNothing | src/main/java/run/runnable/uploadblogpic/UploadBlogPicApplication.java:35-36 | with the shipped configuration no post transfers anything, and each is merely split and rejoined |
| Application.EmptyBlog | src/main/java/run/runnable/uploadblogpic/UploadBlogPicApplication.java:76-103 | an empty post transfers nothing and comes back empty |
| Application.OutputPath | src/main/java/run/runnable/uploadblogpic/UploadBlogPicApplication.java:54-55 | the output name is four characters longer than parent and file name together: the separator and `re-` |
| Application.OutputPathParts | src/main/java/run/runnable/uploadblogpic/UploadBlogPicApplication.java:54-55 | the output's last separator comes right after the parent directory, and the file name after it is `re-` plus the post's name |
| Application.OutputPathIsNew | src/main/java/run/runnable/uploadblogpic/UploadBlogPicApplication.java:54-55 | the output never overwrites the post it was made from |
| Application.OutputPathInjective | src/main/java/run/runnable/uploadblogpic/UploadBlogPicApplication.java:54-55 | different posts in one directory get different outputs |

## Left out

- Reading posts (`Files.readString`) and writing results (`Files.writeString`) are file I/O and are not modelled. `Application.HandleOneBlog` starts from the text, and `Application.OutputPath` gives only the name.
- `listFilesInDirectory` and the `md` filter in `main` walk the file system and are not modelled.
- `main`'s reactive pipeline is left out: `flatMap` with concurrency 2, the scheduler hops and `blockLast`. The model treats each post on its own. In the program an exception in one post, from reading it or from writing its result, ends the whole run, and posts finish in no fixed order.
- `download` and the R2 upload are network I/O. Each call is reduced to a `Transfer`, which holds the UUID drawn and whether both steps succeeded.
- `UUID.randomUUID()` is randomness. Its value comes in through `Transfer.uuid`.
- Logging is not modelled.
- The regular expression at line 83 is not modelled. The engine is the `find` parameter. `IsMatcher` asks only that each match it returns end in `)`, hold an `http`, and hold a `.` after its first `http`. `MatchesWithin` asks that each match lie in its line, and only `Application.LineMatchesFound` needs it. The real engine, with its greedy trailing `(.*\))`, finds at most one match per run of characters between regex line terminators (`\n`, `\r`, U+0085, U+2028, U+2029). Since `lines()` already cut at `\n` and `\r`, a line holding U+0085, U+2028 or U+2029 can give more than one.
- `HashMap`'s iteration order is not computed from the keys' hashes. It is the `order` parameter, and `Publish.IsIterationOrder` asks only that it rearrange the entries.
- Publish.Outcomes: computes the value of every kept link even after an earlier one raised. The result is the same, but the model does not track that Java stops transferring at the first exception.
- Java strings are UTF-16 code units and Dafny `char`s are Unicode scalar values. Surrogate pairs are not modelled.
