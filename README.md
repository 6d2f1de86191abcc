# scrape.py path mapping and reference rewriting, in Dafny

`scrape.py` mirrors part of the Cangjie documentation site into a local folder. It works in these steps:

1. It fetches a start page and reads the links of its `<nav id="sidebar">`.
2. It keeps the first four links.
3. For each link it works out a local HTML path: `scraped_site/` followed by the link's path relative to `/docs/0.53.13`. For a link outside that prefix, the path climbs out of `scraped_site/` through `..`.
4. It downloads every stylesheet into `scraped_site/css/` and every script into `scraped_site/js/`.
5. It points each rewritten `href`/`src` at the saved copy, as a path relative to the page's directory.
6. It writes the page.

This project models those steps and proves what the paths and references come out as.

Modules, one per file:

- `Options` (`options.dfy`): `Option` and `Result`.
- `PosixPath` (`posix_path.dfy`): the parts of Python's `posixpath` that the program relies on.
  - Covered: `split('/')`, `'/'.join`, `join`, `basename`, `dirname`, `normpath`, `abspath` and `relpath`.
  - Paths are strings.
  - The working directory is a parameter `cwd`, given as its list of components.
  - `relpath` on an empty path is the `ValueError` it raises (a `Failure`).
- `Config` (`config.dfy`): the constants at the top of the script and the four-link cap.
- `Html` (`html.dfy`): what the program sees of a parsed page.
  - The sidebar's anchors, each with its `href` when it has one.
  - Its elements (tag name, `rel` values, attributes) in document order.
- `Fetch` (`fetch.dfy`): the outside world, given as a value `Web`.
  - The response `requests.get` returns for each URL. A missing URL means the call raises.
  - The set of file paths whose write raises.
  - `urljoin` as a function, returning the resolved URL with its path component.
- `Assets` (`assets.dfy`): `download_resource` and the reference string a rewritten tag receives.
- `PageMap` (`page_map.dfy`):
  - the page path `join(output_dir, relpath(url.path, "/docs/0.53.13"))`;
  - the root offset `relpath(output_dir, dirname(html_file_path))`.
- `Rewrite` (`rewrite.dfy`): the two tag-rewrite loops.
  - They are methods over an `array<Tag>` that update each tag in place.
  - Each is proved against a function on the tag sequence.
- `Driver` (`driver.dfy`): the whole run.
  - Link extraction and the cap.
  - One iteration of the page loop as a method, with `ScrapePage` as its specification.
  - The page loop as a method, proved equal to the function `RunSpec`.
  - The run's outcome is a `Log`: how the run ended (completed, `exit()`, or an uncaught exception), the HTML pages written in order, and the asset files written in order.

The main results:

- A page at `/docs/0.53.13/r` is saved at `scraped_site/r`.
- A path outside that prefix gives a relative path beginning with `..`.
- The root offset is one `..` per directory level below `scraped_site`, or `.` directly under it.
- Following the offset from the page's directory leads back to `scraped_site`.
- Take a page saved below `scraped_site` (every page under `/docs/0.53.13`). Joining the page's directory with a rewritten reference and applying `normpath` gives exactly the path the asset was saved to, unless the basename contains a backslash. This is a statement about path strings. How a browser reads the reference as a URL is not part of it (see "## Left out").
- Only tags whose download succeeded change, and only in the one attribute.
- A run writes at most four pages, and every asset lands directly in `css/` or `js/`.
- The page loop ends by an exception exactly when one iteration raises.

## Model

| member | source | states |
|---|---|---|
| PosixPath.RelPath | scrape.py:76 | `relpath` fails exactly on an empty path and otherwise gives a value |
| PosixPath.RelPathShape | scrape.py:76 | relpath's result is never empty and never absolute; it is `.` when no steps are left, and otherwise the `..` steps followed by the rest of the target, joined by `/` |
| PosixPath.RelPathRoundTrip | scrape.py:76 | joining `relpath(path, start)` onto start and resolving gives the same location as path |
| PosixPath.RelPathDescendant | scrape.py:76 | a path below start by the components rs is named from start by `'/'.join(rs)` |
| PosixPath.RelPathAncestor | scrape.py:81 | a path k levels above start is named from start by k `..` steps, or by `.` when k is 0 |
| PosixPath.RelPathNotBelow | scrape.py:76 | a path that is neither start nor below it is named from start by a path whose first component is `..` |
| PosixPath.ResolvedIsNormal | scrape.py:76 | abspath's components are the cwd-rooted path after normpath's folding, and they are all ordinary names (never empty, `.` or `..`) |
| PosixPath.ResolvedOfRelative | scrape.py:81 | a relative path made of ordinary names resolves to those names under the working directory |
| PosixPath.ResolvedOfAbsolute | scrape.py:76 | an absolute path made of ordinary names resolves to those names |
| PosixPath.SegmentsJoin | scrape.py:77 | joining a relative b onto a gives a's components followed by b's |
| PosixPath.AbsInputJoin | scrape.py:81 | resolving `join(start, rel)` continues from start's components with rel's |
| PosixPath.CommonPrefixLen | scrape.py:76 | the length of the longest common prefix: both lists agree up to it and differ right after it |
| PosixPath.NormCompsUp | scrape.py:81 | during normpath's folding, k `..` components remove the last k ordinary components kept so far |
| PosixPath.SplitJoinWithRoundTrip | scrape.py:76 | `'/'.join(s.split('/')) == s` |
| PosixPath.JoinWithConcat | scrape.py:76-77 | the `'/'`-join of two non-empty lists is the join of the first, then `/`, then the join of the second |
| PosixPath.BasenameFacts | scrape.py:24 | basename has no `/`, is a suffix of the path, and is preceded by `/` unless it is the whole path |
| PosixPath.BasenameOfJoin | scrape.py:89 | the basename of `join(folder, name)` is name, for a name without `/` |
| PosixPath.DirnameBasenameOfSepConcat | scrape.py:78 | for `a/b` with b a single component and a not ending in `/`: dirname is a and basename is b |
| PosixPath.Dirname | scrape.py:81 | dirname is a prefix of its argument |
| PosixPath.UpsSplit | scrape.py:81 | the root offset `../..` splits back into its k `..` steps, or into `.` for k = 0 |
| Assets.DownloadResource | scrape.py:19-33 | returns a path exactly when all three hold: the fetch returns status 200, the URL path's basename names a file (not `""`, `.` or `..`), and the file is writable. The path is then `join(output_folder, basename(url.path))`; None otherwise |
| Assets.DownloadedName | scrape.py:24-25 | the saved file's basename is the URL path's basename, and that basename is an ordinary name |
| Assets.SameBasenameCollides | scrape.py:24-25 | two downloaded URLs whose paths share a basename are saved to the same local path, so the later overwrites the earlier |
| Assets.DownloadedIntoFolder | scrape.py:25 | the saved file lies directly in the output folder: its dirname is the folder and its path is `folder/basename` |
| Assets.ReplaceBackslashes | scrape.py:89 | `.replace("\\", "/")` leaves no backslash, keeps the length, and changes nothing in a backslash-free string |
| Assets.ReplaceBackslashesConcat | scrape.py:89 | the replacement works character by character: it distributes over concatenation |
| Assets.AssetRefShape | scrape.py:89 | the rewritten reference is `offset/dir/name` with every backslash made `/`, contains no backslash, and is exactly `offset/dir/name` when no part has a backslash |
| Assets.AssetRefIsJoin | scrape.py:97 | without backslashes, the rewritten reference is the `/`-join of offset, dir and name |
| Assets.BackslashNameIsRewritten | scrape.py:89 | an asset saved as `x\y` is referenced as `offset/dir/x/y`, which differs from the saved file's `offset/dir/x\y` |
| PageMap.PagePath | scrape.py:75-77 | the page path fails (relpath's `ValueError`) exactly when the URL path is empty |
| PageMap.PagePathUnderDocs | scrape.py:76-77 | a URL path that resolves to `docs/0.53.13/rs` with rs non-empty is saved at `scraped_site/rs`; the prefix is stripped and rs are ordinary names |
| PageMap.PagePathOfDocsPage | scrape.py:76-77 | in string form, `/docs/0.53.13/r` is saved at `scraped_site/r` |
| PageMap.RelCompsOfSame | scrape.py:76 | relpath between two paths that resolve to the same directory has no components left |
| PageMap.PagePathOfDocsRoot | scrape.py:76-77 | a URL path that resolves to `/docs/0.53.13` itself has relpath `.`, so the page path is `scraped_site/.` |
| PageMap.PagePathOfDocsRootString | scrape.py:76-77 | `/docs/0.53.13` itself is mapped to `scraped_site/.` |
| PageMap.PagePathOutsideDocs | scrape.py:76 | a URL path that does not resolve below `/docs/0.53.13` is saved at `scraped_site/..…`, where the relative part begins with a `..` component |
| PageMap.ResolvedDocsRoot | scrape.py:76 | `/docs/0.53.13` resolves to the components `docs`, `0.53.13`, whatever the working directory |
| PageMap.PageDirname | scrape.py:78 | the page's directory is output_dir followed by all but the last of rs |
| PageMap.PageDirResolved | scrape.py:81 | the page's directory resolves to output_dir's components followed by all but the last of rs |
| PageMap.RootOffsetShape | scrape.py:81 | `relative_to_root` is one `..` per directory level the page sits below `scraped_site`, and `.` for a page directly under it |
| PageMap.FromPageDirectory | scrape.py:81 | from the page's directory, the offset followed by ordinary names normalizes to `scraped_site` followed by those names |
| PageMap.OffsetLeadsToRoot | scrape.py:81 | joining the offset onto the page's directory and normalizing gives back `scraped_site` |
| Rewrite.LocalAsset | scrape.py:84-86 | only a selected tag is downloaded: a stylesheet `<link>`, or a `<script>`, that carries the attribute |
| Rewrite.LocalAssetInFolder | scrape.py:86 | a downloaded asset lies directly in `css/` or `js/`, under an ordinary name |
| Rewrite.SetAttr | scrape.py:89 | `tag[a] = v` sets a to v and keeps the tag's name, rel and every other attribute |
| Rewrite.LocalizeOne | scrape.py:85-89 | one loop iteration returns download_resource's result for the tag, and the tag as the rewrite specifies |
| Rewrite.LocalizeTag | scrape.py:87-89 | a tag whose download failed or was not attempted is unchanged. Otherwise only the kind's attribute changes, to the reference of the saved file. Name, rel and the other attributes stay the same |
| Rewrite.LocalizeAssets | scrape.py:84-97 | the rewrite loop updates the array in place, so each tag becomes its rewritten form in document order; it returns the files it saved, in order |
| Rewrite.RewritePage | scrape.py:84-97 | the stylesheet loop then the script loop turn the page's tags into their rewritten forms; the saved files are the stylesheets' then the scripts' |
| Rewrite.SavedAssetsInFolder | scrape.py:86 | every file a loop saves lies directly in its kind's folder, under an ordinary name |
| Rewrite.RewriteSavedInFolders | scrape.py:86 | every file the two loops of a page save lies directly in css/ or js/ |
| Rewrite.SavedAssetsCount | scrape.py:84-97 | a loop saves at most one file per selected tag, and exactly one per selected tag when no download fails |
| Rewrite.SavedAssetsHas | scrape.py:86 | a file downloaded for one of the tags is among the files the loop reports |
| Rewrite.RewrittenTagNamesSavedAsset | scrape.py:87-89 | a tag whose download failed keeps its original value. A tag whose download succeeded now references a file the loop saved |
| Rewrite.AllDownloadsSucceed | scrape.py:84-97 | when no download fails, a tag changes exactly when it is selected and its attribute differed from the new reference. It saves one file per selected tag |
| Rewrite.RewriteAllByKind | scrape.py:84-97 | after both loops each tag has been through the loop of its own kind only, and the script loop saves the same files as it would on the original tags |
| Rewrite.ScriptPassUnaffected | scrape.py:92-97 | the stylesheet loop does not change which scripts the script loop downloads |
| Rewrite.RefReachesFile | scrape.py:81 | from the page's directory, `offset/dir/name` normalizes to `scraped_site/dir/name` |
| Rewrite.RewrittenRefReachesAsset | scrape.py:81-97 | given a backslash-free basename, the rewritten `href`/`src`, followed from the page's directory, names exactly the file the asset was saved to |
| Driver.NavLinks | scrape.py:54 | the link list is no longer than the sidebar's anchor list |
| Driver.NavLinksConcat | scrape.py:54 | the comprehension distributes over concatenated anchor lists |
| Driver.NavLinksOfHrefs | scrape.py:54 | anchors that all carry an href give one link each, resolved against the start URL, in order |
| Driver.NavLinksSkipsBare | scrape.py:54 | an anchor without an href contributes no link |
| Driver.Capped | scrape.py:57 | `links[:4]` is the first min(4, n) links, in their original order |
| Driver.Results | scrape.py:60-101 | the loop has one iteration result per link |
| Driver.ScrapeOne | scrape.py:63-101 | one page iteration, with the tags rewritten in an array, gives the iteration result `ScrapePage` specifies. A missing response raises; a non-200 status continues; an empty path raises; an unopenable HTML path raises after the page's assets are saved |
| Driver.RewriteParsed | scrape.py:72-97 | parsing into a fresh array and running both loops gives the rewritten tags and the saved files |
| Driver.Run | scrape.py:36-103 | the run is the start fetch, the two `exit()` checks, and the capped page loop, equal to `RunSpec` |
| Driver.CrawlExtendsPages | scrape.py:60-103 | the loop only appends pages to those written before, at most one per iteration |
| Driver.CrawlExtendsAssets | scrape.py:60-97 | the loop only appends asset files to those written before |
| Driver.RunWritesAtMostFourPages | scrape.py:57-103 | a run writes at most four HTML pages |
| Driver.DocsRootPageRaises | scrape.py:63-100 | for a 200 response whose URL path resolves to `/docs/0.53.13`, the iteration saves its assets and then raises, because the page path `scraped_site/.` names a directory that `open` cannot write |
| Driver.ScrapePageInFolders | scrape.py:84-97 | every file one page iteration saves lies directly in css/ or js/ |
| Driver.CrawlInFolders | scrape.py:60-97 | when every iteration keeps its files in css/ and js/, so does the whole loop |
| Driver.RunAssetsInFolders | scrape.py:36-103 | every asset file a run writes lies directly in `scraped_site/css` or `scraped_site/js` |
| Driver.CrawlCrashesIff | scrape.py:60-103 | the loop never ends by `exit()`, and it ends by an exception exactly when one of its iterations raises |
| Driver.RunExitsIff | scrape.py:41-51 | a run ends by `exit()` exactly when the start page is fetched but its status is not 200, or when it has no sidebar; such a run has written no page and no asset |
| Driver.CrawlWritesAll | scrape.py:60-103 | when no iteration raises, the loop completes and writes the pages of the written iterations, in link order |
| Driver.WrittenPagesAll | scrape.py:60-103 | when every iteration writes its page, the written pages are those pages, one per link, in order |

## Left out

- HTTP: `requests.get`, its headers and the encoding detection (scrape.py:21, 36, 39, 63, 66) are replaced by the `Web.responses` map. A URL without an entry is one where `requests.get` raises. Response bodies are the parsed pages; bytes and encodings are not modelled.
- BeautifulSoup: parsing, `find`, `find_all` and `prettify` (scrape.py:45-54, 72, 101) are not modelled. A page is given as its sidebar anchors and its tag records. Tag selection is modelled as the predicate `Rewrite.Selected`.
- `urljoin` and `urlparse` (scrape.py:54, 75, 85, 93): resolution is the function `Web.resolve`, and each URL carries its path component. RFC 3986 resolution itself is not modelled. `Web.resolve` always succeeds, so the `ValueError` these calls raise on a malformed reference (such as "Invalid IPv6 URL" for `http://[::1/x`) is not modelled. In the program, that error crashes the run: at scrape.py:54 before the page loop, and at scrape.py:75, 85 or 93 inside an iteration, where it is uncaught.
- Directories: `os.makedirs` (scrape.py:15-16, 78) is taken to succeed, so the output, css and js directories and every page directory exist.
  - Writing to a name that is a directory (`""`, `.` or `..`) is modelled as a failure.
  - Any other failing write is a member of `Web.unwritable`. That set is fixed for the whole run, so the model cannot express a write that fails only because of directories `os.makedirs` creates during the run (scrape.py:78), such as a later page path running into a directory made for an earlier page.
  - Concurrent changes to the file system are not modelled.
- File contents: the bytes written (scrape.py:26-27, 100-101) are not modelled. The log records only which paths are written, in order, and the rewritten tags of each page.
- How a browser interprets the emitted `href`/`src` is not modelled (URL parsing and percent-decoding, RFC 3986 section 2.1). `urlparse(url).path` does not decode escapes (scrape.py:24), so an asset whose URL path ends in `a%20b.css` is saved as the file `a%20b.css`. The reference `../css/a%20b.css` that a browser decodes to `a b.css` is then broken, just as a basename with a backslash is.
- Console output (scrape.py:30, 32, 42, 50, 61, 69, 103, 105) is left out. `exit()` is modelled only as the `Exited` ending of a run.
- `scraped_site/js/iframe_post_message.js` is a downloaded browser asset with no logic the scraper relies on. It is not part of this model.
- `PosixPath`: only the POSIX flavour of `os.path` is modelled. On Windows the separator is `\`, and the `.replace("\\", "/")` in scrape.py:89 and 97 is written for it.
- PosixPath.Split and PosixPath.NonEmpty: their contracts state only lengths. What the pieces are is stated by the lemmas SplitNoSeps, NonEmptyNames and SplitJoinWithRoundTrip.
- PageMap.RootOffsetShape, PageMap.OffsetLeadsToRoot and Rewrite.RewrittenRefReachesAsset are stated for a page given by its components rs below `scraped_site`. Both rs and the working directory must be ordinary names. PageMap.PagePathUnderDocs proves that this holds for every page below `/docs/0.53.13`.
