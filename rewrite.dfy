/**
  The two tag-rewrite loops of scrape.py:84-97: every stylesheet `<link>` with an `href`, then
  every `<script>` with a `src`, has its asset downloaded, and on success the attribute is
  replaced by the asset's path relative to the page.
*/
module Rewrite {
  import opened Options
  import opened PosixPath
  import opened Html
  import opened Fetch
  import opened Config
  import opened Assets
  import PageMap

  /** The two loops: stylesheets (scrape.py:84-89) and scripts (scrape.py:92-97). */
  datatype AssetKind = Stylesheet | Script

  function TagName(k: AssetKind): string {
    match k
    case Stylesheet => "link"
    case Script => "script"
  }

  /** The attribute that holds the asset's reference. */
  function AttrName(k: AssetKind): string {
    match k
    case Stylesheet => "href"
    case Script => "src"
  }

  /** The directory name written into the rewritten reference. */
  function DirName(k: AssetKind): string {
    match k
    case Stylesheet => "css"
    case Script => "js"
  }

  /** The folder the asset is downloaded into. */
  function Folder(k: AssetKind): string {
    match k
    case Stylesheet => CssDir
    case Script => JsDir
  }

  /**
    `find_all("link", rel="stylesheet", href=True)` and `find_all("script", src=True)`:
    the tag has the kind's name and carries the attribute; a link must list "stylesheet" in rel.
  */
  predicate Selected(t: Tag, k: AssetKind) {
    && t.name == TagName(k)
    && AttrName(k) in t.attrs
    && (k == Stylesheet ==> "stylesheet" in t.rel)
  }

  /**
    What the download of a tag's asset returns: `download_resource(urljoin(link, tag[attr]),
    folder)` for a selected tag; an unselected tag is not visited (None).
  */
  function LocalAsset(web: Web, page: string, t: Tag, k: AssetKind): (r: Option<string>)
    ensures r.Some? ==> Selected(t, k)
  {
    if !Selected(t, k) then None
    else DownloadResource(web, web.resolve(page, t.attrs[AttrName(k)]), Folder(k))
  }

  /** p lies directly in the kind's folder, under an ordinary name. */
  predicate InFolder(p: string, k: AssetKind) {
    Dirname(p) == Folder(k) && p == Folder(k) + [Sep] + Basename(p) && IsOrdinary(Basename(p))
  }

  /** A tag's asset is saved directly in the kind's folder, under an ordinary name. */
  lemma LocalAssetInFolder(web: Web, page: string, t: Tag, k: AssetKind)
    requires LocalAsset(web, page, t, k).Some?
    ensures InFolder(LocalAsset(web, page, t, k).value, k)
  {
    var url := web.resolve(page, t.attrs[AttrName(k)]);
    FolderShape(k);
    DownloadedIntoFolder(web, url, Folder(k));
    DownloadedName(web, url, Folder(k));
  }

  lemma FolderShape(k: AssetKind)
    ensures Folder(k) != [] && Folder(k)[|Folder(k)| - 1] != Sep
    ensures Folder(k) == OutputDir + [Sep] + DirName(k)
  {
    SharedDirsShape();
  }

  /** The new value of a tag's attribute: `join(offset, dir, basename(local)).replace("\\", "/")`. */
  function RewrittenRef(offset: string, k: AssetKind, local: string): string {
    AssetRef(offset, DirName(k), Basename(local))
  }

  /** `tag[a] = v`: the attribute is set and nothing else about the tag changes. */
  function SetAttr(t: Tag, a: string, v: string): (r: Tag)
    ensures r.name == t.name && r.rel == t.rel
    ensures a in r.attrs && r.attrs[a] == v
    ensures r.attrs.Keys == t.attrs.Keys + {a}
    ensures forall b :: b in t.attrs && b != a ==> r.attrs[b] == t.attrs[b]
  {
    t.(attrs := t.attrs[a := v])
  }

  /**
    The body of a rewrite loop: resolve the tag's reference against the page URL, download it
    into the kind's folder, and on success point the attribute at the saved copy.
  */
  method LocalizeOne(t: Tag, web: Web, page: string, offset: string, k: AssetKind) returns (r: Tag, local: Option<string>)
    ensures local == LocalAsset(web, page, t, k)
    ensures r == LocalizeTag(web, page, offset, t, k)
  {
    r, local := t, None;
    if Selected(t, k) {
      var url := web.resolve(page, t.attrs[AttrName(k)]);
      local := DownloadResource(web, url, Folder(k));
      if local.Some? {
        r := SetAttr(t, AttrName(k), RewrittenRef(offset, k, local.value));
      }
    }
  }

  /** What one iteration of a rewrite loop leaves in its tag. */
  function LocalizeTag(web: Web, page: string, offset: string, t: Tag, k: AssetKind): (r: Tag)
    ensures r.name == t.name && r.rel == t.rel && r.attrs.Keys == t.attrs.Keys
    ensures forall a :: a in t.attrs && a != AttrName(k) ==> r.attrs[a] == t.attrs[a]
    ensures LocalAsset(web, page, t, k).None? ==> r == t
    ensures LocalAsset(web, page, t, k).Some? ==>
      r.attrs[AttrName(k)] == RewrittenRef(offset, k, LocalAsset(web, page, t, k).value)
  {
    var d := LocalAsset(web, page, t, k);
    if d.None? then t else SetAttr(t, AttrName(k), RewrittenRef(offset, k, d.value))
  }

  /** A whole rewrite loop over the page's tags, in document order. */
  function LocalizeAll(web: Web, page: string, offset: string, ts: seq<Tag>, k: AssetKind): (r: seq<Tag>)
    ensures |r| == |ts|
  {
    seq(|ts|, i requires 0 <= i < |ts| => LocalizeTag(web, page, offset, ts[i], k))
  }

  /** The files the loop writes, in the order it writes them. */
  function SavedAssets(web: Web, page: string, ts: seq<Tag>, k: AssetKind): seq<string>
    decreases |ts|
  {
    if ts == [] then []
    else
      var rest := SavedAssets(web, page, ts[..|ts| - 1], k);
      match LocalAsset(web, page, ts[|ts| - 1], k)
      case None => rest
      case Some(p) => rest + [p]
  }

  /** How many tags the loop visits. */
  function SelectedCount(ts: seq<Tag>, k: AssetKind): nat
    decreases |ts|
  {
    if ts == [] then 0
    else SelectedCount(ts[..|ts| - 1], k) + if Selected(ts[|ts| - 1], k) then 1 else 0
  }

  /**
    The loop of scrape.py:84-89 (k = Stylesheet) or 92-97 (k = Script), updating the page's
    tags in place and returning the files it saved.
  */
  method LocalizeAssets(tags: array<Tag>, web: Web, page: string, offset: string, k: AssetKind)
    returns (saved: seq<string>)
    modifies tags
    ensures tags[..] == LocalizeAll(web, page, offset, old(tags[..]), k)
    ensures saved == SavedAssets(web, page, old(tags[..]), k)
  {
    ghost var before := tags[..];
    saved := [];
    for i := 0 to tags.Length
      invariant forall j :: 0 <= j < i ==> tags[j] == LocalizeTag(web, page, offset, before[j], k)
      invariant forall j :: i <= j < tags.Length ==> tags[j] == before[j]
      invariant saved == SavedAssets(web, page, before[..i], k)
    {
      assert before[..i + 1][..i] == before[..i];
      var t, local := LocalizeOne(tags[i], web, page, offset, k);
      tags[i] := t;
      if local.Some? {
        saved := saved + [local.value];
      }
    }
    assert before[..tags.Length] == before;
  }

  /** Both loops, stylesheets first. */
  function RewriteAll(web: Web, page: string, offset: string, ts: seq<Tag>): (r: seq<Tag>)
    ensures |r| == |ts|
  {
    LocalizeAll(web, page, offset, LocalizeAll(web, page, offset, ts, Stylesheet), Script)
  }

  /** The files both loops write: the stylesheets, then the scripts. */
  function RewriteSaved(web: Web, page: string, offset: string, ts: seq<Tag>): seq<string> {
    SavedAssets(web, page, ts, Stylesheet)
      + SavedAssets(web, page, LocalizeAll(web, page, offset, ts, Stylesheet), Script)
  }

  /** scrape.py:84-97 on a page's tags. */
  method RewritePage(tags: array<Tag>, web: Web, page: string, offset: string) returns (saved: seq<string>)
    modifies tags
    ensures tags[..] == RewriteAll(web, page, offset, old(tags[..]))
    ensures saved == RewriteSaved(web, page, offset, old(tags[..]))
  {
    var css := LocalizeAssets(tags, web, page, offset, Stylesheet);
    var js := LocalizeAssets(tags, web, page, offset, Script);
    saved := css + js;
  }

  /** Every file a loop saves lies directly in the kind's folder, under an ordinary name. */
  lemma {:induction false} SavedAssetsInFolder(web: Web, page: string, ts: seq<Tag>, k: AssetKind)
    ensures forall p :: p in SavedAssets(web, page, ts, k) ==> InFolder(p, k)
  {
    if ts != [] {
      SavedAssetsInFolder(web, page, ts[..|ts| - 1], k);
      if LocalAsset(web, page, ts[|ts| - 1], k).Some? {
        LocalAssetInFolder(web, page, ts[|ts| - 1], k);
      }
    }
  }

  /** Every file the two loops of a page save lies in css/ or js/. */
  lemma RewriteSavedInFolders(web: Web, page: string, offset: string, ts: seq<Tag>)
    ensures forall p :: p in RewriteSaved(web, page, offset, ts) ==> InFolder(p, Stylesheet) || InFolder(p, Script)
  {
    SavedAssetsInFolder(web, page, ts, Stylesheet);
    SavedAssetsInFolder(web, page, LocalizeAll(web, page, offset, ts, Stylesheet), Script);
  }

  /** A loop saves at most one file per visited tag, and exactly one when no download fails. */
  lemma {:induction false} SavedAssetsCount(web: Web, page: string, ts: seq<Tag>, k: AssetKind)
    ensures |SavedAssets(web, page, ts, k)| <= SelectedCount(ts, k)
    ensures (forall i :: 0 <= i < |ts| && Selected(ts[i], k) ==> LocalAsset(web, page, ts[i], k).Some?) ==>
      |SavedAssets(web, page, ts, k)| == SelectedCount(ts, k)
  {
    if ts != [] {
      var init := ts[..|ts| - 1];
      SavedAssetsCount(web, page, init, k);
      if forall i :: 0 <= i < |ts| && Selected(ts[i], k) ==> LocalAsset(web, page, ts[i], k).Some? {
        forall i | 0 <= i < |init| && Selected(init[i], k) ensures LocalAsset(web, page, init[i], k).Some? {
          assert init[i] == ts[i];
        }
      }
    }
  }

  /** A file the loop saves for one of the tags is among the files it returns. */
  lemma {:induction false} SavedAssetsHas(web: Web, page: string, ts: seq<Tag>, k: AssetKind, i: nat)
    requires i < |ts| && LocalAsset(web, page, ts[i], k).Some?
    ensures LocalAsset(web, page, ts[i], k).value in SavedAssets(web, page, ts, k)
  {
    if i < |ts| - 1 {
      var init := ts[..|ts| - 1];
      assert init[i] == ts[i];
      SavedAssetsHas(web, page, init, k, i);
    }
  }

  /**
    A tag whose download succeeded has its attribute set to the reference of a file the loop
    saved; every other tag is the same as before.
  */
  lemma RewrittenTagNamesSavedAsset(web: Web, page: string, offset: string, ts: seq<Tag>, k: AssetKind, i: nat)
    requires i < |ts|
    ensures LocalAsset(web, page, ts[i], k).None? ==> LocalizeAll(web, page, offset, ts, k)[i] == ts[i]
    ensures LocalAsset(web, page, ts[i], k).Some? ==>
      var p := LocalAsset(web, page, ts[i], k).value;
      p in SavedAssets(web, page, ts, k) && LocalizeAll(web, page, offset, ts, k)[i].attrs[AttrName(k)] == RewrittenRef(offset, k, p)
  {
    if LocalAsset(web, page, ts[i], k).Some? {
      SavedAssetsHas(web, page, ts, k, i);
    }
  }

  /** When no download fails, every visited tag's attribute is rewritten, and only those change. */
  lemma AllDownloadsSucceed(web: Web, page: string, offset: string, ts: seq<Tag>, k: AssetKind)
    requires forall i :: 0 <= i < |ts| && Selected(ts[i], k) ==> LocalAsset(web, page, ts[i], k).Some?
    ensures forall i :: 0 <= i < |ts| ==>
      (LocalizeAll(web, page, offset, ts, k)[i] != ts[i] <==>
        Selected(ts[i], k) && ts[i].attrs[AttrName(k)] != RewrittenRef(offset, k, LocalAsset(web, page, ts[i], k).value))
    ensures |SavedAssets(web, page, ts, k)| == SelectedCount(ts, k)
  {
    SavedAssetsCount(web, page, ts, k);
    forall i | 0 <= i < |ts| && LocalAsset(web, page, ts[i], k).Some?
      ensures LocalizeAll(web, page, offset, ts, k)[i] != ts[i] <==>
        ts[i].attrs[AttrName(k)] != RewrittenRef(offset, k, LocalAsset(web, page, ts[i], k).value)
    {
      var t, r := ts[i], LocalizeAll(web, page, offset, ts, k)[i];
      if r.attrs[AttrName(k)] == t.attrs[AttrName(k)] {
        assert r.attrs == t.attrs;
      }
    }
  }

  /** The tag after the loop of its own kind. */
  function ByKind(web: Web, page: string, offset: string, t: Tag): Tag {
    if t.name == TagName(Stylesheet) then LocalizeTag(web, page, offset, t, Stylesheet)
    else LocalizeTag(web, page, offset, t, Script)
  }

  /**
    The script loop does not see what the stylesheet loop changed: after both loops each tag
    has been through the loop of its own kind only.
  */
  lemma RewriteAllByKind(web: Web, page: string, offset: string, ts: seq<Tag>)
    ensures forall i :: 0 <= i < |ts| ==>
      RewriteAll(web, page, offset, ts)[i] == ByKind(web, page, offset, ts[i])
    ensures SavedAssets(web, page, LocalizeAll(web, page, offset, ts, Stylesheet), Script) == SavedAssets(web, page, ts, Script)
  {
    ScriptPassUnaffected(web, page, offset, ts);
  }

  /** The script loop downloads the same files whether or not the stylesheet loop ran first. */
  lemma {:induction false} ScriptPassUnaffected(web: Web, page: string, offset: string, ts: seq<Tag>)
    ensures SavedAssets(web, page, LocalizeAll(web, page, offset, ts, Stylesheet), Script) == SavedAssets(web, page, ts, Script)
  {
    if ts != [] {
      var init := ts[..|ts| - 1];
      var css := LocalizeAll(web, page, offset, ts, Stylesheet);
      assert css[..|css| - 1] == LocalizeAll(web, page, offset, init, Stylesheet);
      ScriptPassUnaffected(web, page, offset, init);
      var t := ts[|ts| - 1];
      assert LocalAsset(web, page, css[|css| - 1], Script) == LocalAsset(web, page, t, Script) by {
        if t.name == TagName(Stylesheet) {
          assert !Selected(css[|css| - 1], Script);
        }
      }
    }
  }

  /** The folder names are ordinary path components without backslashes. */
  lemma DirNameOrdinary(k: AssetKind)
    ensures IsOrdinary(DirName(k)) && '\\' !in DirName(k)
  {
  }

  /**
    From the directory of a page at output_dir/rs, the reference offset/dir/name, with the
    page's root offset, normalizes to output_dir/dir/name.
  */
  lemma RefReachesFile(rs: seq<string>, cwd: seq<string>, dir: string, name: string)
    requires |rs| >= 1 && AllOrdinary(rs) && AllOrdinary(cwd)
    requires IsOrdinary(dir) && IsOrdinary(name) && '\\' !in dir && '\\' !in name
    ensures var page := PageMap.LocalPage(rs);
      NormPath(Join(Dirname(page), AssetRef(PageMap.RootOffset(page, cwd), dir, name))) == JoinWith([OutputDir] + [dir, name])
  {
    var offset := PageMap.RootOffset(PageMap.LocalPage(rs), cwd);
    PageMap.RootOffsetShape(rs, cwd);
    AssetRefIsJoin(offset, dir, name);
    PageMap.FromPageDirectory(rs, cwd, [dir, name]);
  }

  /**
    A rewritten reference, followed from the directory of a page at output_dir/rs whose offset
    is `relpath(output_dir, dirname(page))`, names the file the asset was saved to, provided
    its basename has no backslash.
  */
  lemma RewrittenRefReachesAsset(rs: seq<string>, cwd: seq<string>, k: AssetKind, local: string)
    requires |rs| >= 1 && AllOrdinary(rs) && AllOrdinary(cwd)
    requires local == Folder(k) + [Sep] + Basename(local) && IsOrdinary(Basename(local))
    requires '\\' !in Basename(local)
    ensures var page := PageMap.LocalPage(rs);
      NormPath(Join(Dirname(page), RewrittenRef(PageMap.RootOffset(page, cwd), k, local))) == local
  {
    DirNameOrdinary(k);
    RefReachesFile(rs, cwd, DirName(k), Basename(local));
    FolderShape(k);
    JoinWithThree(OutputDir, DirName(k), Basename(local));
    assert [OutputDir] + [DirName(k), Basename(local)] == [OutputDir, DirName(k), Basename(local)];
  }
}
