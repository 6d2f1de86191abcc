/**
  Where a page is saved (scrape.py:75-77) and the relative path from its directory back to
  the output root (scrape.py:81).
*/
module PageMap {
  import opened Options
  import opened PosixPath
  import opened Config

  /** `os.path.join(output_dir, os.path.relpath(url_path, "/docs/0.53.13"))`; relpath raises on an empty path. */
  function PagePath(urlPath: string, cwd: seq<string>): (r: Result<string, PathError>)
    ensures r.Failure? <==> urlPath == ""
  {
    match RelPath(urlPath, DocsRoot, cwd)
    case Failure(e) => Failure(e)
    case Success(rel) => Success(Join(OutputDir, rel))
  }

  /** `os.path.relpath(output_dir, os.path.dirname(html_file_path))`; output_dir is not empty, so it never raises. */
  function RootOffset(htmlPath: string, cwd: seq<string>): string {
    RelPath(OutputDir, Dirname(htmlPath), cwd).value
  }

  /** The local path of a page whose remaining components below the docs root are rs. */
  function LocalPage(rs: seq<string>): string {
    JoinWith([OutputDir] + rs)
  }

  lemma OutputDirIsOrdinary()
    ensures IsOrdinary(OutputDir)
  {
  }

  lemma JoinOntoRelative(a: string, b: string)
    requires a != [] && a[|a| - 1] != Sep && !IsAbs(b)
    ensures Join(a, b) == a + [Sep] + b
  {
  }

  lemma DocsRootString()
    ensures DocsRoot == "/docs/0.53.13"
  {
    assert JoinWith(DocsRootComps) == "docs" + [Sep] + JoinWith(["0.53.13"]);
  }

  lemma ResolvedDocsRoot(cwd: seq<string>)
    ensures Resolved(DocsRoot, cwd) == DocsRootComps
  {
    ResolvedOfAbsolute(DocsRootComps, cwd);
  }

  /** The components of the directory a page at output_dir/rs sits in. */
  function PageDirComps(rs: seq<string>): seq<string>
    requires |rs| >= 1
  {
    [OutputDir] + rs[..|rs| - 1]
  }

  lemma PageCompsOrdinary(rs: seq<string>)
    requires |rs| >= 1 && AllOrdinary(rs)
    ensures AllOrdinary([OutputDir] + rs) && AllOrdinary(PageDirComps(rs))
  {
    var xs := [OutputDir] + rs;
    forall j | 0 <= j < |xs| ensures IsOrdinary(xs[j]) {
      if j >= 1 {
        assert xs[j] == rs[j - 1];
      }
    }
    assert PageDirComps(rs) == xs[..|xs| - 1];
  }

  lemma LocalPageString(rs: seq<string>)
    requires |rs| >= 1 && AllOrdinary(rs)
    ensures LocalPage(rs) == OutputDir + [Sep] + JoinWith(rs)
  {
    JoinWithConcat([OutputDir], rs);
  }

  lemma PageDirname(rs: seq<string>)
    requires |rs| >= 1 && AllOrdinary(rs)
    ensures Dirname(LocalPage(rs)) == JoinWith(PageDirComps(rs))
  {
    var xs := [OutputDir] + rs;
    PageCompsOrdinary(rs);
    DirnameOfJoinWith(xs);
    assert xs[..|xs| - 1] == PageDirComps(rs);
  }

  lemma DocsRelPath(urlPath: string, cwd: seq<string>)
    requires urlPath != ""
    ensures PagePath(urlPath, cwd) == Success(Join(OutputDir, RelPath(urlPath, DocsRoot, cwd).value))
  {
  }

  /**
    A page path /docs/0.53.13/r resolving below the docs root to components rs is saved at
    output_dir/rs: the versioned prefix is stripped and the rest mirrored under the output root.
  */
  lemma PagePathUnderDocs(urlPath: string, cwd: seq<string>, rs: seq<string>)
    requires urlPath != ""
    requires Resolved(urlPath, cwd) == DocsRootComps + rs && |rs| >= 1
    ensures AllOrdinary(rs)
    ensures PagePath(urlPath, cwd) == Success(LocalPage(rs))
  {
    ResolvedDocsRoot(cwd);
    RelPathDescendant(urlPath, DocsRoot, cwd, rs);
    DocsRelPath(urlPath, cwd);
    JoinWithEnds(rs);
    JoinOntoRelative(OutputDir, JoinWith(rs));
    LocalPageString(rs);
  }

  lemma DocsPageComps(rs: seq<string>)
    requires AllOrdinary(rs)
    ensures AllOrdinary(DocsRootComps + rs)
  {
    forall j | 0 <= j < |DocsRootComps + rs| ensures IsOrdinary((DocsRootComps + rs)[j]) {
      if j >= 2 {
        assert (DocsRootComps + rs)[j] == rs[j - 2];
      }
    }
  }

  lemma RootedJoinWithConcat(xs: seq<string>, ys: seq<string>)
    requires |xs| >= 1 && |ys| >= 1
    ensures [Sep] + JoinWith(xs) + [Sep] + JoinWith(ys) == [Sep] + JoinWith(xs + ys)
  {
    JoinWithConcat(xs, ys);
  }

  lemma DocsPageString(rs: seq<string>)
    requires |rs| >= 1
    ensures DocsRoot + [Sep] + JoinWith(rs) == [Sep] + JoinWith(DocsRootComps + rs)
  {
    RootedJoinWithConcat(DocsRootComps, rs);
  }

  lemma DocsPageResolved(rs: seq<string>, cwd: seq<string>)
    requires |rs| >= 1 && AllOrdinary(rs)
    ensures Resolved(DocsRoot + [Sep] + JoinWith(rs), cwd) == DocsRootComps + rs
  {
    DocsPageString(rs);
    DocsPageComps(rs);
    ResolvedOfAbsolute(DocsRootComps + rs, cwd);
  }

  /** The string form: `/docs/0.53.13/r` is saved at `scraped_site/r`. */
  lemma PagePathOfDocsPage(rs: seq<string>, cwd: seq<string>)
    requires |rs| >= 1 && AllOrdinary(rs)
    ensures PagePath(DocsRoot + [Sep] + JoinWith(rs), cwd) == Success(OutputDir + [Sep] + JoinWith(rs))
  {
    DocsPageResolved(rs, cwd);
    PagePathUnderDocs(DocsRoot + [Sep] + JoinWith(rs), cwd, rs);
    LocalPageString(rs);
  }

  /** Relpath between two paths that resolve to the same components has no components. */
  lemma RelCompsOfSame(path: string, start: string, cwd: seq<string>)
    requires Resolved(path, cwd) == Resolved(start, cwd)
    ensures RelComps(path, start, cwd) == []
  {
    var s := Resolved(start, cwd);
    assert CommonPrefixLen(s, s) == |s|;
    assert Repeat(ParDir, 0) == [];
  }

  /**
    A page path that resolves to the docs root itself has relpath ".": the page is to be
    written at `scraped_site/.`, which names the output directory rather than a file.
  */
  lemma PagePathOfDocsRoot(urlPath: string, cwd: seq<string>)
    requires urlPath != "" && Resolved(urlPath, cwd) == DocsRootComps
    ensures PagePath(urlPath, cwd) == Success(OutputDir + [Sep] + CurDir)
  {
    ResolvedDocsRoot(cwd);
    RelCompsOfSame(urlPath, DocsRoot, cwd);
    RelPathShape(urlPath, DocsRoot, cwd);
    DocsRelPath(urlPath, cwd);
    JoinOntoRelative(OutputDir, CurDir);
  }

  /** `/docs/0.53.13` itself is mapped to `scraped_site/.`. */
  lemma PagePathOfDocsRootString(cwd: seq<string>)
    ensures PagePath(DocsRoot, cwd) == Success(OutputDir + [Sep] + CurDir)
  {
    DocsRootString();
    ResolvedDocsRoot(cwd);
    PagePathOfDocsRoot(DocsRoot, cwd);
  }

  lemma DocsRelPathNotBelow(urlPath: string, cwd: seq<string>)
    requires urlPath != ""
    requires !(|Resolved(urlPath, cwd)| >= 2 && Resolved(urlPath, cwd)[..2] == DocsRootComps)
    ensures var rel := RelPath(urlPath, DocsRoot, cwd).value;
      |rel| >= 2 && rel[..2] == ParDir && (|rel| == 2 || rel[2] == Sep)
  {
    ResolvedDocsRoot(cwd);
    RelPathNotBelow(urlPath, DocsRoot, cwd);
  }

  lemma ParDirFirstIsRelative(rel: string)
    requires |rel| >= 2 && rel[..2] == ParDir
    ensures !IsAbs(rel)
  {
    assert rel[0] == rel[..2][0];
  }

  /**
    A page path that does not resolve below /docs/0.53.13 gives a relative path starting with
    "..": the page is saved at scraped_site/.., possibly outside the output root.
  */
  lemma PagePathOutsideDocs(urlPath: string, cwd: seq<string>)
    requires urlPath != ""
    requires !(|Resolved(urlPath, cwd)| >= 2 && Resolved(urlPath, cwd)[..2] == DocsRootComps)
    ensures var rel := RelPath(urlPath, DocsRoot, cwd).value;
      && PagePath(urlPath, cwd) == Success(OutputDir + [Sep] + rel)
      && |rel| >= 2 && rel[..2] == ParDir && (|rel| == 2 || rel[2] == Sep)
  {
    var rel := RelPath(urlPath, DocsRoot, cwd).value;
    DocsRelPathNotBelow(urlPath, cwd);
    ParDirFirstIsRelative(rel);
    DocsRelPath(urlPath, cwd);
    JoinOntoRelative(OutputDir, rel);
  }

  lemma ResolvedOutputDir(cwd: seq<string>)
    requires AllOrdinary(cwd)
    ensures Resolved(OutputDir, cwd) == cwd + [OutputDir]
  {
    OutputDirIsOrdinary();
    assert JoinWith([OutputDir]) == OutputDir;
    ResolvedOfRelative([OutputDir], cwd);
  }

  lemma PageDirUnderCwd(rs: seq<string>, cwd: seq<string>)
    requires |rs| >= 1 && AllOrdinary(rs) && AllOrdinary(cwd)
    ensures Resolved(Dirname(LocalPage(rs)), cwd) == cwd + PageDirComps(rs)
  {
    PageCompsOrdinary(rs);
    PageDirname(rs);
    ResolvedOfRelative(PageDirComps(rs), cwd);
  }

  lemma PageDirBelowRoot(rs: seq<string>, cwd: seq<string>)
    requires |rs| >= 1 && AllOrdinary(cwd)
    ensures cwd + PageDirComps(rs) == Resolved(OutputDir, cwd) + rs[..|rs| - 1]
  {
    ResolvedOutputDir(cwd);
  }

  lemma PageDirResolved(rs: seq<string>, cwd: seq<string>)
    requires |rs| >= 1 && AllOrdinary(rs) && AllOrdinary(cwd)
    ensures Resolved(Dirname(LocalPage(rs)), cwd) == Resolved(OutputDir, cwd) + rs[..|rs| - 1]
  {
    PageDirUnderCwd(rs, cwd);
    PageDirBelowRoot(rs, cwd);
  }

  /** The offset of a page at output_dir/rs is one ".." per directory level below the root, or ".". */
  lemma RootOffsetShape(rs: seq<string>, cwd: seq<string>)
    requires |rs| >= 1 && AllOrdinary(rs) && AllOrdinary(cwd)
    ensures RootOffset(LocalPage(rs), cwd) == Ups(|rs| - 1)
  {
    PageDirResolved(rs, cwd);
    RelPathAncestor(OutputDir, Dirname(LocalPage(rs)), cwd, rs[..|rs| - 1]);
  }

  lemma SplitOfRef(off: string, tail: seq<string>)
    requires off != [] && AllOrdinary(tail)
    ensures Split(JoinWith([off] + tail)) == Split(off) + tail
  {
    if tail == [] {
      assert [off] + tail == [off];
    } else {
      JoinWithConcat([off], tail);
      SplitSepConcat(off, JoinWith(tail));
      SplitJoinWith(tail);
    }
  }

  lemma RefIsRelative(off: string, tail: seq<string>)
    requires off != [] && !IsAbs(off)
    ensures !IsAbs(JoinWith([off] + tail))
  {
    if tail != [] {
      assert JoinWith([off] + tail) == off + [Sep] + JoinWith(tail);
    }
  }

  /** normpath's loop on a page directory's components, the offset's, and then ordinary components. */
  lemma NormCompsFromPageDir(rs: seq<string>, tail: seq<string>)
    requires |rs| >= 1 && AllOrdinary(rs) && AllOrdinary(tail)
    ensures NormComps(false, [], PageDirComps(rs) + (Split(Ups(|rs| - 1)) + tail)) == [OutputDir] + tail
  {
    var k := |rs| - 1;
    var d := PageDirComps(rs);
    PageCompsOrdinary(rs);
    UpsSplit(k);
    NormCompsConcat(false, [], d, Split(Ups(k)) + tail);
    NormCompsOrdinary(false, [], d);
    assert [] + d == d;
    NormCompsConcat(false, d, Split(Ups(k)), tail);
    if k == 0 {
      assert NormComps(false, d, [CurDir]) == d;
      assert d == [OutputDir];
    } else {
      NormCompsUp(false, d, k);
      assert d[..|d| - k] == [OutputDir];
    }
    NormCompsOrdinary(false, [OutputDir], tail);
  }

  lemma NormPathOfRelative(p: string, c: seq<string>)
    requires !IsAbs(p) && NormComps(false, [], Split(p)) == c && |c| >= 1 && AllNames(c)
    ensures NormPath(p) == JoinWith(c)
  {
    JoinWithEnds(c);
  }

  lemma PageDirString(rs: seq<string>)
    requires |rs| >= 1 && AllOrdinary(rs)
    ensures var dir := JoinWith(PageDirComps(rs));
      dir != [] && dir[|dir| - 1] != Sep && !IsAbs(dir) && Split(dir) == PageDirComps(rs)
  {
    PageCompsOrdinary(rs);
    var d := PageDirComps(rs);
    assert AllNames(d);
    assert NoSeps(d);
    JoinWithEnds(d);
    SplitJoinWith(d);
  }

  /** The path `dir/ref` normpath sees, with ref the offset followed by names. */
  lemma OffsetPathSplit(rs: seq<string>, tail: seq<string>)
    requires |rs| >= 1 && AllOrdinary(rs) && AllOrdinary(tail)
    ensures var dir := JoinWith(PageDirComps(rs));
      var ref := JoinWith([Ups(|rs| - 1)] + tail);
      && Join(dir, ref) == dir + [Sep] + ref
      && !IsAbs(dir + [Sep] + ref)
      && Split(dir + [Sep] + ref) == PageDirComps(rs) + (Split(Ups(|rs| - 1)) + tail)
  {
    var off := Ups(|rs| - 1);
    var dir := JoinWith(PageDirComps(rs));
    var ref := JoinWith([off] + tail);
    PageDirString(rs);
    UpsSplit(|rs| - 1);
    SplitOfRef(off, tail);
    RefIsRelative(off, tail);
    JoinOntoRelative(dir, ref);
    SplitSepConcat(dir, ref);
    assert (dir + [Sep] + ref)[0] == dir[0];
  }

  /** output_dir followed by ordinary names is a list of names. */
  lemma RootThenNames(tail: seq<string>)
    requires AllOrdinary(tail)
    ensures AllNames([OutputDir] + tail) && |[OutputDir] + tail| >= 1
  {
    OutputDirIsOrdinary();
    forall j | 0 <= j < |[OutputDir] + tail| ensures IsName(([OutputDir] + tail)[j]) {
      if j >= 1 {
        assert ([OutputDir] + tail)[j] == tail[j - 1];
      }
    }
  }

  /** normpath of the page directory, '/', and the offset followed by tail. */
  lemma NormPathFromPageDir(rs: seq<string>, tail: seq<string>)
    requires |rs| >= 1 && AllOrdinary(rs) && AllOrdinary(tail)
    ensures var dir := JoinWith(PageDirComps(rs));
      var ref := JoinWith([Ups(|rs| - 1)] + tail);
      NormPath(dir + [Sep] + ref) == JoinWith([OutputDir] + tail)
  {
    var dir := JoinWith(PageDirComps(rs));
    var ref := JoinWith([Ups(|rs| - 1)] + tail);
    OffsetPathSplit(rs, tail);
    NormCompsFromPageDir(rs, tail);
    RootThenNames(tail);
    NormPathOfRelative(dir + [Sep] + ref, [OutputDir] + tail);
  }

  /**
    From the directory of a page at output_dir/rs, the offset followed by tail leads to
    output_dir/tail: references built on the offset resolve from the output root.
  */
  lemma FromPageDirectory(rs: seq<string>, cwd: seq<string>, tail: seq<string>)
    requires |rs| >= 1 && AllOrdinary(rs) && AllOrdinary(cwd) && AllOrdinary(tail)
    ensures var ref := JoinWith([RootOffset(LocalPage(rs), cwd)] + tail);
      NormPath(Join(Dirname(LocalPage(rs)), ref)) == JoinWith([OutputDir] + tail)
  {
    RootOffsetShape(rs, cwd);
    PageDirname(rs);
    OffsetPathSplit(rs, tail);
    NormPathFromPageDir(rs, tail);
  }

  /** Joining the offset onto the page's directory and normalizing gives back output_dir. */
  lemma OffsetLeadsToRoot(rs: seq<string>, cwd: seq<string>)
    requires |rs| >= 1 && AllOrdinary(rs) && AllOrdinary(cwd)
    ensures NormPath(Join(Dirname(LocalPage(rs)), RootOffset(LocalPage(rs), cwd))) == OutputDir
  {
    FromPageDirectory(rs, cwd, []);
    assert [RootOffset(LocalPage(rs), cwd)] + [] == [RootOffset(LocalPage(rs), cwd)];
  }
}
