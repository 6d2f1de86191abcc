/**
  The parts of Python's `posixpath` module that the scraper relies on: `split('/')`,
  `'/'.join`, `join`, `basename`, `dirname`, `normpath`, `abspath` and `relpath`.
  Paths are strings; the process's working directory, which `abspath` consults, is a
  parameter `cwd` given as the list of its components.
*/
module PosixPath {
  import opened Options

  /** The error `relpath` raises (`ValueError("no path specified")`). */
  datatype PathError = NoPathSpecified

  const Sep: char := '/'
  const CurDir: string := "."
  const ParDir: string := ".."

  /** A component as it appears between separators: non-empty and free of '/'. */
  predicate IsName(s: string) {
    s != "" && Sep !in s
  }

  /** A component that names an entry, not "." or "..". */
  predicate IsOrdinary(s: string) {
    IsName(s) && s != CurDir && s != ParDir
  }

  predicate NoSeps(xs: seq<string>) {
    forall i :: 0 <= i < |xs| ==> Sep !in xs[i]
  }

  predicate AllNames(xs: seq<string>) {
    forall i :: 0 <= i < |xs| ==> IsName(xs[i])
  }

  predicate AllOrdinary(xs: seq<string>) {
    forall i :: 0 <= i < |xs| ==> IsOrdinary(xs[i])
  }

  /** `[s] * n` */
  function Repeat(s: string, n: nat): (r: seq<string>)
    ensures |r| == n
    ensures forall i :: 0 <= i < n ==> r[i] == s
  {
    if n == 0 then [] else Repeat(s, n - 1) + [s]
  }

  // ---------------------------------------------------------------------------
  // str.split('/') and '/'.join

  /** `s.split('/')`: the pieces between separators, empty pieces included. */
  function Split(s: string): (parts: seq<string>)
    ensures |parts| >= 1
  {
    if s == [] then [[]]
    else
      var rest := Split(s[1..]);
      if s[0] == Sep then [[]] + rest
      else [[s[0]] + rest[0]] + rest[1..]
  }

  /** `'/'.join(parts)` */
  function JoinWith(parts: seq<string>): string {
    if parts == [] then ""
    else if |parts| == 1 then parts[0]
    else parts[0] + [Sep] + JoinWith(parts[1..])
  }

  /** Joining three parts puts one separator between neighbours. */
  lemma JoinWithThree(a: string, b: string, c: string)
    ensures JoinWith([a, b, c]) == a + [Sep] + b + [Sep] + c
  {
    assert [a, b, c][1..] == [b, c];
    assert [b, c][1..] == [c];
    assert JoinWith([b, c]) == b + [Sep] + c;
    assert JoinWith([a, b, c]) == a + [Sep] + (b + [Sep] + c);
  }

  /** The non-empty pieces, in order: `[x for x in parts if x]`. */
  function NonEmpty(parts: seq<string>): (r: seq<string>)
    ensures |r| <= |parts|
  {
    if parts == [] then []
    else (if parts[0] == "" then [] else [parts[0]]) + NonEmpty(parts[1..])
  }

  /** The components of a path, as `relpath` lists them: `[x for x in p.split('/') if x]`. */
  function Segments(p: string): seq<string> {
    NonEmpty(Split(p))
  }

  /** No piece of a split contains the separator. */
  lemma {:induction false} SplitNoSeps(s: string)
    ensures NoSeps(Split(s))
  {
    if s != [] {
      var rest := Split(s[1..]);
      SplitNoSeps(s[1..]);
      if s[0] != Sep {
        assert Sep !in [s[0]] + rest[0];
        assert forall i :: 1 <= i < |Split(s)| ==> Split(s)[i] == rest[i];
      } else {
        assert forall i :: 1 <= i < |Split(s)| ==> Split(s)[i] == rest[i - 1];
      }
    }
  }

  /** Keeping the non-empty pieces of separator-free pieces leaves names. */
  lemma {:induction false} NonEmptyNames(parts: seq<string>)
    requires NoSeps(parts)
    ensures AllNames(NonEmpty(parts))
  {
    if parts != [] {
      NonEmptyNames(parts[1..]);
      var r := NonEmpty(parts[1..]);
      if parts[0] != "" {
        assert forall i :: 1 <= i < |NonEmpty(parts)| ==> NonEmpty(parts)[i] == r[i - 1];
      }
    }
  }

  /** The '/'-join of two non-empty lists puts one '/' between their joins. */
  lemma {:induction false} JoinWithConcat(xs: seq<string>, ys: seq<string>)
    requires |xs| >= 1 && |ys| >= 1
    ensures JoinWith(xs + ys) == JoinWith(xs) + [Sep] + JoinWith(ys)
  {
    if |xs| == 1 {
      assert (xs + ys)[1..] == ys;
    } else {
      assert (xs + ys)[1..] == xs[1..] + ys;
      JoinWithConcat(xs[1..], ys);
    }
  }

  /** Joining what split cut up gives back the string. */
  lemma {:induction false} SplitJoinWithRoundTrip(s: string)
    ensures JoinWith(Split(s)) == s
  {
    if s != [] {
      var rest := Split(s[1..]);
      SplitJoinWithRoundTrip(s[1..]);
      if s[0] == Sep {
        JoinWithConcat([[]], rest);
        assert s == [s[0]] + s[1..];
      } else if |rest| == 1 {
        assert s == [s[0]] + s[1..];
      } else {
        JoinWithConcat([rest[0]], rest[1..]);
        JoinWithConcat([[s[0]] + rest[0]], rest[1..]);
        assert rest == [rest[0]] + rest[1..];
        assert s == [s[0]] + s[1..];
      }
    }
  }

  lemma {:induction false} SplitSepConcat(a: string, b: string)
    ensures Split(a + [Sep] + b) == Split(a) + Split(b)
  {
    if a == [] {
      assert a + [Sep] + b == [Sep] + b;
      assert ([Sep] + b)[1..] == b;
    } else {
      var r, rb := Split(a[1..]), Split(b);
      assert (a + [Sep] + b)[0] == a[0];
      assert (a + [Sep] + b)[1..] == a[1..] + [Sep] + b;
      SplitSepConcat(a[1..], b);
      if a[0] == Sep {
        AppendAssoc([[]], r, rb);
      } else {
        assert (r + rb)[0] == r[0];
        assert (r + rb)[1..] == r[1..] + rb;
        AppendAssoc([[a[0]] + r[0]], r[1..], rb);
      }
    }
  }

  lemma {:induction false} SplitOfNoSep(x: string)
    requires Sep !in x
    ensures Split(x) == [x]
  {
    if x != [] {
      assert Sep !in x[1..] by {
        forall i | 0 <= i < |x[1..]| ensures x[1..][i] != Sep {
          assert x[1..][i] == x[i + 1];
        }
      }
      SplitOfNoSep(x[1..]);
      assert x == [x[0]] + x[1..];
    }
  }

  /** Splitting what '/'.join built from names without '/' gives back its parts. */
  lemma {:induction false} SplitJoinWith(xs: seq<string>)
    requires |xs| >= 1 && NoSeps(xs)
    ensures Split(JoinWith(xs)) == xs
  {
    if |xs| == 1 {
      SplitOfNoSep(xs[0]);
    } else {
      SplitOfNoSep(xs[0]);
      SplitJoinWith(xs[1..]);
      SplitSepConcat(xs[0], JoinWith(xs[1..]));
      assert xs == [xs[0]] + xs[1..];
    }
  }

  lemma {:induction false} NonEmptyConcat(a: seq<string>, b: seq<string>)
    ensures NonEmpty(a + b) == NonEmpty(a) + NonEmpty(b)
  {
    if a != [] {
      assert (a + b)[0] == a[0];
      assert (a + b)[1..] == a[1..] + b;
      NonEmptyConcat(a[1..], b);
    } else {
      assert a + b == b;
    }
  }

  lemma {:induction false} NonEmptyOfNames(xs: seq<string>)
    requires AllNames(xs)
    ensures NonEmpty(xs) == xs
  {
    if xs != [] {
      NonEmptyOfNames(xs[1..]);
      assert xs == [xs[0]] + xs[1..];
    }
  }

  /** The components of '/'.join(xs) are xs, when the xs are names. */
  lemma SegmentsJoinWith(xs: seq<string>)
    requires AllNames(xs)
    ensures Segments(JoinWith(xs)) == xs
  {
    if xs != [] {
      SplitJoinWith(xs);
      NonEmptyOfNames(xs);
    }
  }

  lemma SegmentsLeadingSep(x: string)
    ensures Segments([Sep] + x) == Segments(x)
  {
    assert [] + [Sep] + x == [Sep] + x;
    SplitSepConcat([], x);
    NonEmptyConcat([[]], Split(x));
  }

  lemma SegmentsSepConcat(a: string, b: string)
    ensures Segments(a + [Sep] + b) == Segments(a) + Segments(b)
  {
    SplitSepConcat(a, b);
    NonEmptyConcat(Split(a), Split(b));
  }

  // ---------------------------------------------------------------------------
  // join, basename, dirname

  /** `posixpath.join(a, b)` */
  function Join(a: string, b: string): string {
    if |b| > 0 && b[0] == Sep then b
    else if a == [] || a[|a| - 1] == Sep then a + b
    else a + [Sep] + b
  }

  /** `posixpath.join(*parts)`: the parts joined from left to right. */
  function JoinAll(parts: seq<string>): string
    requires |parts| >= 1
  {
    if |parts| == 1 then parts[0]
    else Join(JoinAll(parts[..|parts| - 1]), parts[|parts| - 1])
  }

  /** Joining b onto a adds b's components after a's, unless b is absolute. */
  lemma SegmentsJoin(a: string, b: string)
    requires !IsAbs(b)
    ensures Segments(Join(a, b)) == Segments(a) + Segments(b)
  {
    if a == [] {
      assert Join(a, b) == b;
      assert Segments(a) == [] by { assert Split(a) == [[]]; }
    } else if a[|a| - 1] == Sep {
      var a0 := a[..|a| - 1];
      assert a == a0 + [Sep] + [];
      assert a + b == a0 + [Sep] + b;
      SegmentsSepConcat(a0, []);
      SegmentsSepConcat(a0, b);
      assert Segments([]) == [] by { assert Split([]) == [[]]; }
    } else {
      SegmentsSepConcat(a, b);
    }
  }

  lemma {:induction false} JoinWithEnds(xs: seq<string>)
    requires |xs| >= 1 && AllNames(xs)
    ensures JoinWith(xs) != [] && JoinWith(xs)[0] == xs[0][0]
    ensures JoinWith(xs)[|JoinWith(xs)| - 1] == xs[|xs| - 1][|xs[|xs| - 1]| - 1]
  {
    if |xs| > 1 {
      JoinWithEnds(xs[1..]);
    }
  }

  /** `join(*parts)` of names is `'/'.join(parts)`. */
  lemma {:induction false} JoinAllOfNames(parts: seq<string>)
    requires |parts| >= 1 && AllNames(parts)
    ensures JoinAll(parts) == JoinWith(parts)
  {
    if |parts| > 1 {
      var init, last := parts[..|parts| - 1], parts[|parts| - 1];
      JoinAllOfNames(init);
      JoinWithEnds(init);
      JoinWithConcat(init, [last]);
      assert init + [last] == parts;
    }
  }

  /** `p.rfind('/') + 1` */
  function AfterLastSep(p: string): (k: nat)
    ensures k <= |p|
    ensures k > 0 ==> p[k - 1] == Sep
    ensures Sep !in p[k..]
  {
    if p == [] then 0
    else if p[|p| - 1] == Sep then |p|
    else
      var k := AfterLastSep(p[..|p| - 1]);
      assert p[k..] == p[..|p| - 1][k..] + [p[|p| - 1]];
      k
  }

  predicate AllSeps(s: string) {
    forall i :: 0 <= i < |s| ==> s[i] == Sep
  }

  /** `s.rstrip('/')` */
  function RStripSeps(s: string): (r: string)
    ensures |r| <= |s| && r == s[..|r|]
    ensures r == [] || r[|r| - 1] != Sep
  {
    if s != [] && s[|s| - 1] == Sep then RStripSeps(s[..|s| - 1]) else s
  }

  /** `posixpath.basename(p)`: what follows the last '/'. */
  function Basename(p: string): string {
    p[AfterLastSep(p)..]
  }

  /** The basename has no '/', ends p, and is preceded in p by '/' unless it is all of p. */
  lemma BasenameFacts(p: string)
    ensures var r := Basename(p);
      && Sep !in r
      && |r| <= |p| && p == p[..|p| - |r|] + r
      && (|r| < |p| ==> p[|p| - |r| - 1] == Sep)
  {
    var k := AfterLastSep(p);
    assert p == p[..k] + p[k..];
  }

  /** `posixpath.dirname(p)`: what precedes the last '/', trailing separators stripped unless all are. */
  function Dirname(p: string): (r: string)
    ensures |r| <= |p| && r == p[..|r|]
  {
    var head := p[..AfterLastSep(p)];
    if head != [] && !AllSeps(head) then RStripSeps(head) else head
  }

  lemma AfterLastSepOfSepConcat(a: string, b: string)
    requires Sep !in b
    ensures AfterLastSep(a + [Sep] + b) == |a| + 1
  {
    var p := a + [Sep] + b;
    var k := AfterLastSep(p);
    assert p[|a|] == Sep;
    assert p[|a| + 1..] == b;
  }

  /** For `a/b` with b a single component: dirname is a, basename is b. */
  lemma DirnameBasenameOfSepConcat(a: string, b: string)
    requires a != [] && a[|a| - 1] != Sep && Sep !in b
    ensures Dirname(a + [Sep] + b) == a
    ensures Basename(a + [Sep] + b) == b
  {
    var p := a + [Sep] + b;
    AfterLastSepOfSepConcat(a, b);
    assert p[..|a| + 1] == a + [Sep];
    assert !AllSeps(a + [Sep]) by {
      assert (a + [Sep])[|a| - 1] != Sep;
    }
    assert (a + [Sep])[..|a|] == a;
    assert RStripSeps(a + [Sep]) == RStripSeps(a) == a;
    assert p[|a| + 1..] == b;
  }

  lemma BasenameOfNoSep(b: string)
    requires Sep !in b
    ensures Basename(b) == b
  {
  }

  lemma BasenameAfterSep(a: string, b: string)
    requires Sep !in b
    ensures Basename(a + [Sep] + b) == b
  {
    AfterLastSepOfSepConcat(a, b);
    assert (a + [Sep] + b)[|a| + 1..] == b;
  }

  /** The name part of `join(folder, name)` is name. */
  lemma BasenameOfJoin(folder: string, name: string)
    requires Sep !in name
    ensures Basename(Join(folder, name)) == name
  {
    if folder == [] {
      assert Join(folder, name) == name;
      BasenameOfNoSep(name);
    } else if folder[|folder| - 1] == Sep {
      var a := folder[..|folder| - 1];
      assert folder == a + [Sep];
      assert Join(folder, name) == a + [Sep] + name;
      BasenameAfterSep(a, name);
    } else {
      BasenameAfterSep(folder, name);
    }
  }

  // ---------------------------------------------------------------------------
  // normpath, abspath

  /** One step of `normpath`'s loop over the components; `rooted` says the path had initial slashes. */
  function NormStep(rooted: bool, acc: seq<string>, c: string): seq<string> {
    if c == "" || c == CurDir then acc
    else if c != ParDir || (!rooted && acc == []) || (acc != [] && acc[|acc| - 1] == ParDir) then acc + [c]
    else if acc != [] then acc[..|acc| - 1]
    else acc
  }

  /** `normpath`'s loop, continuing from the components kept so far. */
  function NormComps(rooted: bool, acc: seq<string>, comps: seq<string>): seq<string>
    decreases |comps|
  {
    if comps == [] then acc
    else NormComps(rooted, NormStep(rooted, acc, comps[0]), comps[1..])
  }

  /** How many initial slashes `normpath` keeps: two exactly when there are exactly two. */
  function InitialSeps(p: string): nat {
    if !IsAbs(p) then 0
    else if |p| >= 2 && p[1] == Sep && !(|p| >= 3 && p[2] == Sep) then 2
    else 1
  }

  /** `posixpath.normpath(p)` */
  function NormPath(p: string): (r: string)
    ensures r != []
  {
    var n := InitialSeps(p);
    var prefix := if n == 2 then "//" else if n == 1 then "/" else "";
    var q := prefix + JoinWith(NormComps(n > 0, [], Split(p)));
    if q == [] then CurDir else q
  }

  /** `posixpath.isabs(p)` */
  predicate IsAbs(p: string) {
    |p| > 0 && p[0] == Sep
  }

  /** The `os.getcwd()` string for a working directory with components cwd. */
  function CwdPath(cwd: seq<string>): string {
    [Sep] + JoinWith(cwd)
  }

  /** The string that `abspath` hands to `normpath`. */
  function AbsInput(p: string, cwd: seq<string>): string {
    if IsAbs(p) then p else Join(CwdPath(cwd), p)
  }

  /** `posixpath.abspath(p)` */
  function AbsPath(p: string, cwd: seq<string>): string {
    NormPath(AbsInput(p, cwd))
  }

  /** The component list `relpath` computes for p: `[x for x in abspath(p).split('/') if x]`. */
  function Resolved(p: string, cwd: seq<string>): seq<string> {
    Segments(AbsPath(p, cwd))
  }

  lemma {:induction false} NormCompsConcat(rooted: bool, acc: seq<string>, x: seq<string>, y: seq<string>)
    decreases x
    ensures NormComps(rooted, acc, x + y) == NormComps(rooted, NormComps(rooted, acc, x), y)
  {
    if x == [] {
      assert x + y == y;
    } else {
      assert (x + y)[0] == x[0];
      assert (x + y)[1..] == x[1..] + y;
      NormCompsConcat(rooted, NormStep(rooted, acc, x[0]), x[1..], y);
    }
  }

  lemma {:induction false} NormCompsSkipsEmpty(rooted: bool, acc: seq<string>, xs: seq<string>)
    decreases xs
    ensures NormComps(rooted, acc, xs) == NormComps(rooted, acc, NonEmpty(xs))
  {
    if xs != [] {
      NormCompsSkipsEmpty(rooted, NormStep(rooted, acc, xs[0]), xs[1..]);
      if xs[0] == "" {
        assert NonEmpty(xs) == NonEmpty(xs[1..]);
      } else {
        assert NonEmpty(xs) == [xs[0]] + NonEmpty(xs[1..]);
        assert ([xs[0]] + NonEmpty(xs[1..]))[1..] == NonEmpty(xs[1..]);
      }
    }
  }

  /** Ordinary components are kept as they are. */
  lemma {:induction false} NormCompsOrdinary(rooted: bool, acc: seq<string>, xs: seq<string>)
    decreases xs
    requires AllOrdinary(xs)
    ensures NormComps(rooted, acc, xs) == acc + xs
  {
    if xs != [] {
      NormCompsOrdinary(rooted, acc + [xs[0]], xs[1..]);
      assert acc + [xs[0]] + xs[1..] == acc + xs;
    }
  }

  /** k ".." components drop the last k ordinary components kept so far. */
  lemma {:induction false} NormCompsUp(rooted: bool, acc: seq<string>, k: nat)
    requires AllOrdinary(acc) && k <= |acc|
    ensures NormComps(rooted, acc, Repeat(ParDir, k)) == acc[..|acc| - k]
  {
    if k == 0 {
      assert acc[..|acc|] == acc;
    } else {
      NormCompsUp(rooted, acc, k - 1);
      NormCompsConcat(rooted, acc, Repeat(ParDir, k - 1), [ParDir]);
      var kept := acc[..|acc| - (k - 1)];
      assert kept[|kept| - 1] == acc[|acc| - k];
      assert kept[..|kept| - 1] == acc[..|acc| - k];
    }
  }

  /** Normalizing a rooted path keeps only ordinary components. */
  lemma {:induction false} NormCompsRootedOrdinary(acc: seq<string>, xs: seq<string>)
    decreases xs
    requires AllOrdinary(acc) && NoSeps(xs)
    ensures AllOrdinary(NormComps(true, acc, xs))
  {
    if xs != [] {
      var next := NormStep(true, acc, xs[0]);
      assert AllOrdinary(next) by {
        if next == acc + [xs[0]] && next != acc {
          assert xs[0] != "" && xs[0] != CurDir && xs[0] != ParDir;
        }
      }
      NormCompsRootedOrdinary(next, xs[1..]);
    }
  }

  /** abspath's components are the normalized components of the cwd-rooted path, all ordinary. */
  lemma ResolvedIsNormal(p: string, cwd: seq<string>)
    ensures Resolved(p, cwd) == NormComps(true, [], Segments(AbsInput(p, cwd)))
    ensures AllOrdinary(Resolved(p, cwd))
  {
    var q := AbsInput(p, cwd);
    assert IsAbs(q);
    var n := InitialSeps(q);
    var c := NormComps(true, [], Split(q));
    SplitNoSeps(q);
    NormCompsRootedOrdinary([], Split(q));
    NormCompsSkipsEmpty(true, [], Split(q));
    SegmentsJoinWith(c);
    SegmentsLeadingSep(JoinWith(c));
    if n == 2 {
      assert "//" + JoinWith(c) == [Sep] + ([Sep] + JoinWith(c));
      SegmentsLeadingSep([Sep] + JoinWith(c));
    } else {
      assert "/" + JoinWith(c) == [Sep] + JoinWith(c);
    }
  }

  lemma JoinRelativeIsRelative(start: string, rel: string)
    requires start != [] && !IsAbs(start) && !IsAbs(rel)
    ensures !IsAbs(Join(start, rel))
  {
    if start[|start| - 1] == Sep {
      assert (start + rel)[0] == start[0];
    } else {
      assert (start + [Sep] + rel)[0] == start[0];
    }
  }

  lemma SegmentsOfEmpty()
    ensures Segments([]) == []
  {
    assert Split([]) == [[]];
  }

  lemma AbsInputJoinRelative(start: string, rel: string, cwd: seq<string>)
    requires rel != [] && !IsAbs(rel) && start != [] && !IsAbs(start)
    ensures Segments(AbsInput(Join(start, rel), cwd)) == Segments(AbsInput(start, cwd)) + Segments(rel)
  {
    var j := Join(start, rel);
    var c := CwdPath(cwd);
    JoinRelativeIsRelative(start, rel);
    assert AbsInput(j, cwd) == Join(c, j);
    assert AbsInput(start, cwd) == Join(c, start);
    SegmentsJoinTwice(c, start, rel);
  }

  /** Joining start and then rel onto c adds rel's components after those of join(c, start). */
  lemma SegmentsJoinTwice(c: string, start: string, rel: string)
    requires !IsAbs(start) && !IsAbs(rel) && !IsAbs(Join(start, rel))
    ensures Segments(Join(c, Join(start, rel))) == Segments(Join(c, start)) + Segments(rel)
  {
    var j := Join(start, rel);
    SegmentsJoin(c, j);
    SegmentsJoin(start, rel);
    SegmentsJoin(c, start);
    AppendAssoc(Segments(c), Segments(start), Segments(rel));
  }

  /** Concatenation is associative. */
  lemma AppendAssoc<T>(a: seq<T>, b: seq<T>, c: seq<T>)
    ensures a + b + c == a + (b + c)
  {
  }

  /** Resolving `join(start, rel)` continues from start's components with rel's. */
  lemma AbsInputJoin(start: string, rel: string, cwd: seq<string>)
    requires rel != [] && !IsAbs(rel)
    ensures Segments(AbsInput(Join(start, rel), cwd)) == Segments(AbsInput(start, cwd)) + Segments(rel)
  {
    if IsAbs(start) {
      AbsInputJoinAbsolute(start, rel, cwd);
    } else if start == [] {
      AbsInputJoinEmpty(rel, cwd);
    } else {
      AbsInputJoinRelative(start, rel, cwd);
    }
  }

  /** AbsInputJoin for an absolute start: the working directory plays no part. */
  lemma AbsInputJoinAbsolute(start: string, rel: string, cwd: seq<string>)
    requires rel != [] && !IsAbs(rel) && IsAbs(start)
    ensures Segments(AbsInput(Join(start, rel), cwd)) == Segments(AbsInput(start, cwd)) + Segments(rel)
  {
    assert IsAbs(Join(start, rel));
    SegmentsJoin(start, rel);
  }

  /** AbsInputJoin for an empty start: join([], rel) is rel, resolved from the working directory. */
  lemma AbsInputJoinEmpty(rel: string, cwd: seq<string>)
    requires rel != [] && !IsAbs(rel)
    ensures Segments(AbsInput(Join([], rel), cwd)) == Segments(AbsInput([], cwd)) + Segments(rel)
  {
    var c := CwdPath(cwd);
    assert AbsInput(Join([], rel), cwd) == Join(c, rel);
    assert AbsInput([], cwd) == Join(c, []);
    SegmentsJoin(c, rel);
    SegmentsJoin(c, []);
    SegmentsOfEmpty();
    assert Segments(c) + [] == Segments(c);
  }

  lemma SegmentsCwd(cwd: seq<string>)
    requires AllNames(cwd)
    ensures Segments(CwdPath(cwd)) == cwd
  {
    SegmentsLeadingSep(JoinWith(cwd));
    SegmentsJoinWith(cwd);
  }

  // ---------------------------------------------------------------------------
  // relpath

  /** Length of the longest common prefix (`commonprefix` of two lists). */
  function CommonPrefixLen(a: seq<string>, b: seq<string>): (n: nat)
    ensures n <= |a| && n <= |b|
    ensures a[..n] == b[..n]
    ensures n < |a| && n < |b| ==> a[n] != b[n]
  {
    if a == [] || b == [] || a[0] != b[0] then 0
    else
      var n := 1 + CommonPrefixLen(a[1..], b[1..]);
      assert a[..n] == [a[0]] + a[1..][..n - 1];
      assert b[..n] == [b[0]] + b[1..][..n - 1];
      n
  }

  /** The ".." steps and remaining components relpath emits, before joining. */
  function RelComps(path: string, start: string, cwd: seq<string>): seq<string> {
    var startList := Resolved(start, cwd);
    var pathList := Resolved(path, cwd);
    var i := CommonPrefixLen(startList, pathList);
    Repeat(ParDir, |startList| - i) + pathList[i..]
  }

  /** `posixpath.relpath(path, start)` */
  function RelPath(path: string, start: string, cwd: seq<string>): (r: Result<string, PathError>)
    ensures r.Failure? <==> path == ""
  {
    if path == "" then Failure(NoPathSpecified)
    else
      var relList := RelComps(path, start, cwd);
      if relList == [] then Success(CurDir) else Success(JoinAll(relList))
  }

  /** relpath's result is '/'.join of its ".." steps and the rest of the target, or "." when both are empty. */
  lemma RelPathShape(path: string, start: string, cwd: seq<string>)
    requires path != ""
    ensures var rel := RelPath(path, start, cwd).value;
      && rel != [] && !IsAbs(rel)
      && (RelComps(path, start, cwd) == [] ==> rel == CurDir)
      && (RelComps(path, start, cwd) != [] ==> rel == JoinWith(RelComps(path, start, cwd)))
      && (RelComps(path, start, cwd) != [] ==> Segments(rel) == RelComps(path, start, cwd))
  {
    var relList := RelComps(path, start, cwd);
    ResolvedIsNormal(path, cwd);
    if relList != [] {
      assert AllNames(relList) by {
        var pathList := Resolved(path, cwd);
        var i := CommonPrefixLen(Resolved(start, cwd), pathList);
        forall j | 0 <= j < |relList| ensures IsName(relList[j]) {
          var k := |Resolved(start, cwd)| - i;
          if j >= k {
            assert relList[j] == pathList[i + (j - k)];
          }
        }
      }
      JoinAllOfNames(relList);
      JoinWithEnds(relList);
      SegmentsJoinWith(relList);
    }
  }

  lemma DropOrdinary(xs: seq<string>, i: nat)
    requires AllOrdinary(xs) && i <= |xs|
    ensures AllOrdinary(xs[i..])
  {
    forall j | 0 <= j < |xs[i..]| ensures IsOrdinary(xs[i..][j]) {
      assert xs[i..][j] == xs[i + j];
    }
  }

  /** With the first i components of p kept, normalizing the rest of p gives p. */
  lemma KeptThenRest(kept: seq<string>, p: seq<string>, i: nat)
    requires AllOrdinary(p) && i <= |p| && kept == p[..i]
    ensures NormComps(true, kept, p[i..]) == p
  {
    DropOrdinary(p, i);
    NormCompsOrdinary(true, kept, p[i..]);
    assert p[..i] + p[i..] == p;
  }

  /** From start's components, relpath's ".." steps and the rest of the target lead to the target. */
  lemma NormCompsRelComps(startList: seq<string>, pathList: seq<string>)
    requires AllOrdinary(startList) && AllOrdinary(pathList)
    ensures var i := CommonPrefixLen(startList, pathList);
      NormComps(true, startList, Repeat(ParDir, |startList| - i) + pathList[i..]) == pathList
  {
    var i := CommonPrefixLen(startList, pathList);
    NormCompsConcat(true, startList, Repeat(ParDir, |startList| - i), pathList[i..]);
    NormCompsUp(true, startList, |startList| - i);
    KeptThenRest(startList[..i], pathList, i);
  }

  /** Resolving `join(start, rel)` continues the normalization of start's components with rel's. */
  lemma ResolvedJoin(start: string, rel: string, cwd: seq<string>)
    requires rel != [] && !IsAbs(rel)
    ensures Resolved(Join(start, rel), cwd) == NormComps(true, Resolved(start, cwd), Segments(rel))
  {
    ResolvedIsNormal(start, cwd);
    ResolvedIsNormal(Join(start, rel), cwd);
    AbsInputJoin(start, rel, cwd);
    NormCompsConcat(true, [], Segments(AbsInput(start, cwd)), Segments(rel));
  }

  /** Equal resolved lists with no ".." steps and nothing left over are the same list. */
  lemma SamePrefixBoth(startList: seq<string>, pathList: seq<string>)
    requires Repeat(ParDir, |startList| - CommonPrefixLen(startList, pathList))
      + pathList[CommonPrefixLen(startList, pathList)..] == []
    ensures NormComps(true, startList, [CurDir]) == pathList
  {
    var i := CommonPrefixLen(startList, pathList);
    assert |Repeat(ParDir, |startList| - i)| == 0;
    assert i == |startList| && i == |pathList|;
    assert startList == startList[..i] && pathList == pathList[..i];
  }

  /** Resolved component lists are ordinary. */
  lemma ResolvedOrdinary(p: string, cwd: seq<string>)
    ensures AllOrdinary(Resolved(p, cwd))
  {
    ResolvedIsNormal(p, cwd);
  }

  lemma RelPathSameLead(path: string, start: string, cwd: seq<string>)
    requires path != "" && RelComps(path, start, cwd) == []
    ensures NormComps(true, Resolved(start, cwd), Segments(RelPath(path, start, cwd).value)) == Resolved(path, cwd)
  {
    assert RelPath(path, start, cwd).value == CurDir;
    SplitOfNoSep(CurDir);
    SamePrefixBoth(Resolved(start, cwd), Resolved(path, cwd));
  }

  lemma RelPathStepsLead(path: string, start: string, cwd: seq<string>)
    requires path != "" && RelComps(path, start, cwd) != []
    ensures NormComps(true, Resolved(start, cwd), Segments(RelPath(path, start, cwd).value)) == Resolved(path, cwd)
  {
    RelPathShape(path, start, cwd);
    ResolvedOrdinary(start, cwd);
    ResolvedOrdinary(path, cwd);
    NormCompsRelComps(Resolved(start, cwd), Resolved(path, cwd));
  }

  /** From start's components, the components of relpath's result lead to path's. */
  lemma RelPathSegmentsLead(path: string, start: string, cwd: seq<string>)
    requires path != ""
    ensures NormComps(true, Resolved(start, cwd), Segments(RelPath(path, start, cwd).value)) == Resolved(path, cwd)
  {
    if RelComps(path, start, cwd) == [] {
      RelPathSameLead(path, start, cwd);
    } else {
      RelPathStepsLead(path, start, cwd);
    }
  }

  /**
    Joining relpath's result onto start and resolving gives back path: relpath(path, start)
    names path from start.
  */
  lemma RelPathRoundTrip(path: string, start: string, cwd: seq<string>)
    requires path != ""
    ensures Resolved(Join(start, RelPath(path, start, cwd).value), cwd) == Resolved(path, cwd)
  {
    RelPathShape(path, start, cwd);
    ResolvedJoin(start, RelPath(path, start, cwd).value, cwd);
    RelPathSegmentsLead(path, start, cwd);
  }
  // ---------------------------------------------------------------------------
  // Facts used by the page mapping

  /** A list extending a is resolved past all of a's components. */
  lemma CommonPrefixOfExtension(a: seq<string>, b: seq<string>)
    ensures CommonPrefixLen(a, a + b) == |a|
    ensures CommonPrefixLen(a + b, a) == |a|
  {
  }

  /** Components free of a character c other than '/' join to a string free of c. */
  lemma {:induction false} JoinWithAvoids(xs: seq<string>, c: char)
    requires c != Sep && forall i :: 0 <= i < |xs| ==> c !in xs[i]
    ensures c !in JoinWith(xs)
  {
    if |xs| > 1 {
      JoinWithAvoids(xs[1..], c);
    }
  }

  /** A non-empty list is its initial part followed by its last element. */
  lemma InitThenLast<T>(xs: seq<T>)
    requires |xs| >= 1
    ensures xs[..|xs| - 1] + [xs[|xs| - 1]] == xs
  {
  }

  /** The dirname of a joined list of names is the join of all but the last. */
  lemma DirnameOfJoinWith(xs: seq<string>)
    requires |xs| >= 2 && AllNames(xs)
    ensures Dirname(JoinWith(xs)) == JoinWith(xs[..|xs| - 1])
    ensures Basename(JoinWith(xs)) == xs[|xs| - 1]
  {
    var init, last := xs[..|xs| - 1], xs[|xs| - 1];
    InitThenLast(xs);
    JoinWithConcat(init, [last]);
    JoinWithEnds(init);
    DirnameBasenameOfSepConcat(JoinWith(init), last);
  }

  /** A relative path of ordinary names resolves to them, under the working directory. */
  lemma ResolvedOfRelative(comps: seq<string>, cwd: seq<string>)
    requires |comps| >= 1 && AllOrdinary(comps) && AllOrdinary(cwd)
    ensures Resolved(JoinWith(comps), cwd) == cwd + comps
  {
    var p := JoinWith(comps);
    JoinWithEnds(comps);
    assert !IsAbs(p);
    ResolvedIsNormal(p, cwd);
    SegmentsJoin(CwdPath(cwd), p);
    SegmentsCwd(cwd);
    SegmentsJoinWith(comps);
    AllOrdinaryConcat(cwd, comps);
    NormCompsOrdinary(true, [], cwd + comps);
  }

  /** Two lists of ordinary names concatenate to one. */
  lemma AllOrdinaryConcat(xs: seq<string>, ys: seq<string>)
    requires AllOrdinary(xs) && AllOrdinary(ys)
    ensures AllOrdinary(xs + ys)
  {
    forall j | 0 <= j < |xs + ys| ensures IsOrdinary((xs + ys)[j]) {
      if j >= |xs| {
        assert (xs + ys)[j] == ys[j - |xs|];
      }
    }
  }

  /** An absolute path of ordinary names resolves to them. */
  lemma ResolvedOfAbsolute(comps: seq<string>, cwd: seq<string>)
    requires AllOrdinary(comps)
    ensures Resolved([Sep] + JoinWith(comps), cwd) == comps
  {
    var p := [Sep] + JoinWith(comps);
    ResolvedIsNormal(p, cwd);
    SegmentsLeadingSep(JoinWith(comps));
    SegmentsJoinWith(comps);
    NormCompsOrdinary(true, [], comps);
  }
  /** k parent steps joined by '/', or "." for none: what relpath returns for an ancestor k levels up. */
  function Ups(k: nat): (r: string)
    ensures r != [] && !IsAbs(r) && r[|r| - 1] != Sep && '\\' !in r
  {
    if k == 0 then CurDir
    else
      JoinWithEnds(Repeat(ParDir, k));
      JoinWithAvoids(Repeat(ParDir, k), '\\');
      JoinWith(Repeat(ParDir, k))
  }

  /** Splitting Ups(k) gives back its steps. */
  lemma UpsSplit(k: nat)
    ensures Split(Ups(k)) == if k == 0 then [CurDir] else Repeat(ParDir, k)
  {
    if k == 0 {
      SplitOfNoSep(CurDir);
    } else {
      SplitJoinWith(Repeat(ParDir, k));
    }
  }

  /** The components after an ordinary prefix are ordinary when the whole list is. */
  lemma SuffixOrdinary(s: seq<string>, rs: seq<string>)
    requires AllOrdinary(s + rs)
    ensures AllOrdinary(rs)
  {
    forall j | 0 <= j < |rs| ensures IsOrdinary(rs[j]) {
      assert rs[j] == (s + rs)[|s| + j];
    }
  }

  lemma RelCompsDescendant(path: string, start: string, cwd: seq<string>, rs: seq<string>)
    requires Resolved(path, cwd) == Resolved(start, cwd) + rs
    ensures RelComps(path, start, cwd) == rs
  {
    var s := Resolved(start, cwd);
    CommonPrefixOfExtension(s, rs);
    assert (s + rs)[|s|..] == rs;
  }

  /** A path below start, by the components rs, is named from start by '/'.join(rs). */
  lemma RelPathDescendant(path: string, start: string, cwd: seq<string>, rs: seq<string>)
    requires path != ""
    requires Resolved(path, cwd) == Resolved(start, cwd) + rs && |rs| >= 1
    ensures AllOrdinary(rs)
    ensures RelPath(path, start, cwd) == Success(JoinWith(rs))
  {
    ResolvedIsNormal(path, cwd);
    SuffixOrdinary(Resolved(start, cwd), rs);
    RelCompsDescendant(path, start, cwd, rs);
    RelPathShape(path, start, cwd);
  }

  /** A path k levels above start is named from start by k ".." steps, or "." when k is 0. */
  lemma RelPathAncestor(path: string, start: string, cwd: seq<string>, ups: seq<string>)
    requires path != ""
    requires Resolved(start, cwd) == Resolved(path, cwd) + ups
    ensures RelPath(path, start, cwd) == Success(Ups(|ups|))
  {
    var p := Resolved(path, cwd);
    CommonPrefixOfExtension(p, ups);
    assert p[|p|..] == [];
    assert RelComps(path, start, cwd) == Repeat(ParDir, |ups|);
    RelPathShape(path, start, cwd);
  }

  lemma JoinWithFromParDir(xs: seq<string>)
    requires |xs| >= 1 && xs[0] == ParDir
    ensures var r := JoinWith(xs); |r| >= 2 && r[..2] == ParDir && (|r| == 2 || r[2] == Sep)
  {
    if |xs| > 1 {
      var r := JoinWith(xs);
      assert r == ParDir + [Sep] + JoinWith(xs[1..]);
      assert r[..2] == ParDir;
    }
  }

  lemma RelCompsNotBelow(path: string, start: string, cwd: seq<string>)
    requires var s, p := Resolved(start, cwd), Resolved(path, cwd); !(|s| <= |p| && p[..|s|] == s)
    ensures |RelComps(path, start, cwd)| >= 1 && RelComps(path, start, cwd)[0] == ParDir
  {
    var s, p := Resolved(start, cwd), Resolved(path, cwd);
    var i := CommonPrefixLen(s, p);
    assert s[..|s|] == s;
    assert i < |s|;
    var ups := Repeat(ParDir, |s| - i);
    assert (ups + p[i..])[0] == ups[0];
  }

  /** A path that is not at or below start is named from start by a path that begins with "..". */
  lemma RelPathNotBelow(path: string, start: string, cwd: seq<string>)
    requires path != ""
    requires var s, p := Resolved(start, cwd), Resolved(path, cwd); !(|s| <= |p| && p[..|s|] == s)
    ensures var rel := RelPath(path, start, cwd).value;
      |rel| >= 2 && rel[..2] == ParDir && (|rel| == 2 || rel[2] == Sep)
  {
    RelCompsNotBelow(path, start, cwd);
    RelPathShape(path, start, cwd);
    JoinWithFromParDir(RelComps(path, start, cwd));
  }
}
