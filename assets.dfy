/** Asset localization: `download_resource` and the reference written into a rewritten tag. */
module Assets {
  import opened Options
  import opened PosixPath
  import opened Fetch
  import opened Config

  /**
    A file name that, joined onto an existing directory, names a directory: opening it for
    writing raises, so the download fails. The css/ and js/ directories and the output root
    exist, since the program creates them before downloading anything.
  */
  predicate NamesDirectory(name: string) {
    name == "" || name == CurDir || name == ParDir
  }

  /**
    `download_resource(url, output_folder)`: fetch the URL; on status 200 write the body to
    the folder under the URL path's basename and return that path. A non-200 status, an
    exception from `requests.get`, or a failing write give None.
  */
  function DownloadResource(web: Web, url: Url, folder: string): (r: Option<string>)
    ensures r.Some? <==>
      && Fetched(web, url.text)
      && !NamesDirectory(Basename(url.path))
      && Join(folder, Basename(url.path)) !in web.unwritable
    ensures r.Some? ==> r.value == Join(folder, Basename(url.path))
  {
    if !Fetched(web, url.text) then None
    else
      var fileName := Basename(url.path);
      var filePath := Join(folder, fileName);
      if NamesDirectory(fileName) || filePath in web.unwritable then None
      else Some(filePath)
  }

  /** The saved file keeps the URL path's basename, which names a file and not a directory. */
  lemma DownloadedName(web: Web, url: Url, folder: string)
    requires DownloadResource(web, url, folder).Some?
    ensures Basename(DownloadResource(web, url, folder).value) == Basename(url.path)
    ensures IsOrdinary(Basename(url.path))
  {
    BasenameFacts(url.path);
    BasenameOfJoin(folder, Basename(url.path));
  }

  /** Two assets whose URL paths share a basename are saved to the same file: the later overwrites. */
  lemma SameBasenameCollides(web: Web, u1: Url, u2: Url, folder: string)
    requires Basename(u1.path) == Basename(u2.path)
    requires DownloadResource(web, u1, folder).Some? && DownloadResource(web, u2, folder).Some?
    ensures DownloadResource(web, u1, folder) == DownloadResource(web, u2, folder)
  {
  }

  lemma SharedDirsShape()
    ensures CssDir == OutputDir + "/css" && JsDir == OutputDir + "/js"
    ensures CssDir[|CssDir| - 1] != Sep && JsDir[|JsDir| - 1] != Sep
  {
  }

  /** A downloaded asset lands directly in the folder it was downloaded into, under its own basename. */
  lemma DownloadedIntoFolder(web: Web, url: Url, folder: string)
    requires folder != [] && folder[|folder| - 1] != Sep
    requires DownloadResource(web, url, folder).Some?
    ensures Dirname(DownloadResource(web, url, folder).value) == folder
    ensures DownloadResource(web, url, folder).value == folder + [Sep] + Basename(url.path)
  {
    BasenameFacts(url.path);
    DirnameBasenameOfSepConcat(folder, Basename(url.path));
  }

  /** `s.replace("\\", "/")` */
  function ReplaceBackslashes(s: string): (r: string)
    ensures '\\' !in r
    ensures '\\' !in s ==> r == s
    ensures |r| == |s|
  {
    if s == [] then []
    else [if s[0] == '\\' then Sep else s[0]] + ReplaceBackslashes(s[1..])
  }

  lemma {:induction false} ReplaceBackslashesConcat(a: string, b: string)
    ensures ReplaceBackslashes(a + b) == ReplaceBackslashes(a) + ReplaceBackslashes(b)
  {
    if a != [] {
      assert (a + b)[1..] == a[1..] + b;
      ReplaceBackslashesConcat(a[1..], b);
    } else {
      assert a + b == b;
    }
  }

  /** `os.path.join(relative_to_root, dir, name).replace("\\", "/")`, the rewritten reference. */
  function AssetRef(offset: string, dir: string, name: string): string {
    ReplaceBackslashes(Join(Join(offset, dir), name))
  }

  /** The rewritten reference is offset/dir/name with '/' for every backslash. */
  lemma AssetRefShape(offset: string, dir: string, name: string)
    requires offset != [] && offset[|offset| - 1] != Sep
    requires IsName(dir) && IsName(name)
    ensures AssetRef(offset, dir, name) == ReplaceBackslashes(offset + [Sep] + dir + [Sep] + name)
    ensures '\\' !in AssetRef(offset, dir, name)
    ensures '\\' !in offset + dir + name ==> AssetRef(offset, dir, name) == offset + [Sep] + dir + [Sep] + name
  {
    var od := offset + [Sep] + dir;
    assert Join(offset, dir) == od;
    assert od[|od| - 1] == dir[|dir| - 1];
    assert Join(od, name) == od + [Sep] + name;
    if '\\' !in offset + dir + name {
      var s := od + [Sep] + name;
      forall i | 0 <= i < |s| ensures s[i] != '\\' {
        if i < |offset| {
          assert s[i] == (offset + dir + name)[i];
        } else if |offset| < i < |offset| + 1 + |dir| {
          assert s[i] == (offset + dir + name)[i - 1];
        } else if i > |offset| + 1 + |dir| {
          assert s[i] == (offset + dir + name)[i - 2];
        }
      }
    }
  }
  /** Without backslashes the rewritten reference is the three parts joined by '/'. */
  lemma AssetRefIsJoin(offset: string, dir: string, name: string)
    requires offset != [] && offset[|offset| - 1] != Sep && '\\' !in offset
    requires IsName(dir) && IsName(name) && '\\' !in dir && '\\' !in name
    ensures AssetRef(offset, dir, name) == JoinWith([offset] + [dir, name])
  {
    assert '\\' !in offset + dir + name by {
      forall c | c in offset + dir + name ensures c != '\\' {
        assert c in offset || c in dir || c in name;
      }
    }
    AssetRefShape(offset, dir, name);
    JoinWithThree(offset, dir, name);
    assert [offset] + [dir, name] == [offset, dir, name];
  }


  /** A single backslash between two backslash-free strings becomes '/'. */
  lemma ReplaceOneBackslash(head: string, tail: string)
    requires '\\' !in head && '\\' !in tail
    ensures ReplaceBackslashes(head + ['\\'] + tail) == head + [Sep] + tail
  {
    assert head + ['\\'] + tail == head + (['\\'] + tail);
    ReplaceBackslashesConcat(head, ['\\'] + tail);
    ReplaceBackslashesConcat(['\\'], tail);
  }

  lemma NoBackslashInRef(offset: string, dir: string, x: string)
    requires '\\' !in offset && '\\' !in dir && '\\' !in x
    ensures '\\' !in offset + [Sep] + dir + [Sep] + x
  {
    forall c | c in offset + [Sep] + dir + [Sep] + x ensures c != '\\' {
      assert c in offset || c == Sep || c in dir || c in x;
    }
  }

  lemma BackslashNameIsName(x: string, y: string)
    requires Sep !in x && Sep !in y
    ensures IsName(x + ['\\'] + y)
  {
    forall c | c in x + ['\\'] + y ensures c != Sep {
      assert c in x || c == '\\' || c in y;
    }
  }

  /**
    On POSIX a backslash is an ordinary file-name character: an asset saved under the name
    `x\y` is referenced as `offset/dir/x/y`, which is not the saved file `offset/dir/x\y`.
  */
  lemma BackslashNameIsRewritten(offset: string, dir: string, x: string, y: string)
    requires offset != [] && offset[|offset| - 1] != Sep && IsName(dir) && Sep !in x && Sep !in y
    requires '\\' !in offset && '\\' !in dir && '\\' !in x && '\\' !in y
    ensures var head := offset + [Sep] + dir + [Sep] + x;
      && AssetRef(offset, dir, x + ['\\'] + y) == head + [Sep] + y
      && AssetRef(offset, dir, x + ['\\'] + y) != offset + [Sep] + dir + [Sep] + (x + ['\\'] + y)
  {
    var head := offset + [Sep] + dir + [Sep] + x;
    BackslashNameIsName(x, y);
    AssetRefShape(offset, dir, x + ['\\'] + y);
    assert offset + [Sep] + dir + [Sep] + (x + ['\\'] + y) == head + ['\\'] + y;
    NoBackslashInRef(offset, dir, x);
    ReplaceOneBackslash(head, y);
    assert (head + [Sep] + y)[|head|] != (head + ['\\'] + y)[|head|];
  }

}
