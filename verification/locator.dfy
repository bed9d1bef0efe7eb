/**
 * The repository locator, `find_git_repos(base_dir)`: a top-down `os.walk`
 * of the base directory that records every directory holding a `.git`
 * sub-directory (and prunes that sub-directory from the walk) or, failing
 * that, a `.git` file whose stripped text starts with `gitdir:` (a submodule
 * or linked work tree). A `.git` file that cannot be read as text is skipped.
 */
module Locator {
  import opened Wrappers
  import opened PyText
  import opened FileTree

  const GitEntry := ".git"
  const LinkMarker := "gitdir:"

  /**
   * Whether reading a `.git` file marks its directory as a repository: the
   * stripped text starts with the link marker. A read that raises `IOError`
   * or `UnicodeDecodeError` is swallowed and marks nothing.
   */
  predicate LinksToGitDir(c: Content) {
    match c
    case Text(t) => HasPrefix(Strip(t), LinkMarker)
    case Unreadable => false
  }

  /** `p` lies at or below `at`. */
  predicate Below(at: Path, p: Path) {
    |at| <= |p| && p[..|at|] == at
  }

  lemma BelowChild(at: Path, n: string, p: Path)
    requires Below(at + [n], p)
    ensures Below(at, p) && p[|at|..] == [n] + p[|at| + 1..]
  {
    assert p[..|at| + 1] == at + [n];
    assert p[..|at|] == p[..|at| + 1][..|at|];
  }

  /** `dirs.remove(name)`: the list without the entry at position `k`. */
  function RemoveAt(ds: seq<Dir>, k: nat): seq<Dir>
    requires k < |ds|
  {
    ds[..k] + ds[k + 1..]
  }

  /** The entry `.git` among the non-directory entries of `d`, as `open` would find it. */
  function GitFile(d: Dir): (f: Option<File>)
    ensures f.Some? <==> GitEntry in FileNames(d.files)
    ensures f.Some? ==> f.value in d.files && f.value.name == GitEntry
  {
    var names := FileNames(d.files);
    if GitEntry in names then Some(d.files[IndexOf(names, GitEntry)]) else None
  }

  /** The sub-directories the walk descends into once the loop body has run on `d`. */
  function WalkedSubdirs(d: Dir): (kids: seq<Dir>)
    ensures forall i :: 0 <= i < |kids| ==> kids[i] in d.subdirs
  {
    var names := DirNames(d.subdirs);
    if GitEntry in names then RemoveAt(d.subdirs, IndexOf(names, GitEntry)) else d.subdirs
  }

  /**
   * The repositories recorded while the walk visits `d`, found at path `at`,
   * and everything below it, in visiting order. Every entry lies at or below
   * `at`, and only the first can be `at` itself, so a directory is appended
   * at most once.
   */
  function Walk(d: Dir, at: Path): (found: seq<Path>)
    ensures forall i :: 0 <= i < |found| ==> Below(at, found[i])
    ensures forall i :: 0 < i < |found| ==> |found[i]| > |at|
    decreases d, 1
  {
    (if RecordsItself(d) then [at] else []) + WalkEach(d, WalkedSubdirs(d), at)
  }

  /**
   * The loop body's test: a `.git` sub-directory, or else a `.git` file that
   * links to a git directory.
   */
  predicate RecordsItself(d: Dir) {
    if GitEntry in DirNames(d.subdirs) then true
    else GitFile(d).Some? && LinksToGitDir(GitFile(d).value.content)
  }

  /** The walks of the sub-directories `ds` of `parent`, one after the other. */
  function WalkEach(parent: Dir, ds: seq<Dir>, at: Path): (found: seq<Path>)
    requires forall i :: 0 <= i < |ds| ==> ds[i] in parent.subdirs
    ensures forall i :: 0 <= i < |found| ==> Below(at, found[i]) && |found[i]| > |at|
    decreases parent, 0, |ds|
  {
    if ds == [] then []
    else
      assert ds[0] in parent.subdirs;
      var first := Walk(ds[0], at + [ds[0].name]);
      BelowChildAll(first, at, ds[0].name);
      first + WalkEach(parent, ds[1..], at)
  }

  lemma BelowChildAll(ps: seq<Path>, at: Path, n: string)
    requires forall i :: 0 <= i < |ps| ==> Below(at + [n], ps[i])
    ensures forall i :: 0 <= i < |ps| ==> Below(at, ps[i]) && |ps[i]| > |at| && ps[i][|at|] == n
  {
    forall i | 0 <= i < |ps| {
      BelowChild(at, n, ps[i]);
    }
  }

  /** `find_git_repos(base_dir)`, given what is found at `base_dir` (nothing if it cannot be listed). */
  function FindGitRepos(base: string, top: Option<Dir>): (repos: seq<string>)
    ensures top.None? ==> repos == []
    ensures top.Some? ==> |repos| == |Walk(top.value, [])|
    ensures forall i :: 0 <= i < |repos| ==> HasPrefix(repos[i], base)
  {
    match top
    case None => []
    case Some(t) =>
      var found := Walk(t, []);
      RenderAllUnderBase(base, found);
      seq(|found|, i requires 0 <= i < |found| => Render(base, found[i]))
  }

  lemma RenderAllUnderBase(base: string, found: seq<Path>)
    ensures forall i :: 0 <= i < |found| ==> HasPrefix(Render(base, found[i]), base)
  {
    forall i | 0 <= i < |found| {
      RenderUnderBase(base, found[i]);
    }
  }

  // ----- Repositories, defined independently of the walk -----

  ghost predicate HasGitDir(d: Dir) {
    exists i :: 0 <= i < |d.subdirs| && d.subdirs[i].name == GitEntry
  }

  /** A `.git` file whose text, stripped of surrounding whitespace, starts with `gitdir:`. */
  ghost predicate HasLinkFile(d: Dir) {
    exists j :: 0 <= j < |d.files| && d.files[j].name == GitEntry
                && d.files[j].content.Text? && HasPrefix(Strip(d.files[j].content.text), LinkMarker)
  }

  ghost predicate IsRepository(d: Dir) {
    HasGitDir(d) || HasLinkFile(d)
  }

  /**
   * The directory at path `p` below the top is a repository the walk reaches:
   * it exists, no directory on the way is a `.git` directory, and it is a
   * repository.
   */
  ghost predicate RepositoryAt(top: Dir, p: Path) {
    && GitEntry !in p
    && Lookup(top, p).Some?
    && IsRepository(Lookup(top, p).value)
  }

  /** `p` is a repository below the directory `d` that the walk finds at `at`. */
  ghost predicate FoundBelow(d: Dir, at: Path, p: Path) {
    Below(at, p) && RepositoryAt(d, p[|at|..])
  }

  // ----- Properties of the walk -----

  /** A later entry is never at or above an earlier one: no repeats, ancestors first. */
  ghost predicate PreOrdered(xs: seq<Path>) {
    forall i, j :: 0 <= i < j < |xs| ==> !Below(xs[j], xs[i])
  }

  /** Where the entries of `ds` sit once the one at `k` is removed. */
  lemma RemoveAtIndex(ds: seq<Dir>, k: nat)
    requires k < |ds|
    ensures |RemoveAt(ds, k)| == |ds| - 1
    ensures forall i :: 0 <= i < k ==> RemoveAt(ds, k)[i] == ds[i]
    ensures forall i :: k <= i < |ds| - 1 ==> RemoveAt(ds, k)[i] == ds[i + 1]
  {
  }

  /** Removing one entry from a list of uniquely named directories removes its name. */
  lemma RemoveAtNames(ds: seq<Dir>, k: nat)
    requires k < |ds| && UniqueDirNames(ds)
    ensures forall i :: 0 <= i < |RemoveAt(ds, k)| ==> RemoveAt(ds, k)[i].name != ds[k].name
    ensures UniqueDirNames(RemoveAt(ds, k))
  {
    RemoveAtIndex(ds, k);
    var r := RemoveAt(ds, k);
    forall i | 0 <= i < |r| ensures r[i].name != ds[k].name {
      if i < k {
        assert r[i] == ds[i];
      } else {
        assert r[i] == ds[i + 1];
      }
    }
    forall i, j | 0 <= i < j < |r| ensures r[i].name != r[j].name {
      var i' := if i < k then i else i + 1;
      var j' := if j < k then j else j + 1;
      assert r[i] == ds[i'] && r[j] == ds[j'];
    }
  }

  /** Removing the entry at `k` keeps every other entry. */
  lemma RemoveAtKeeps(ds: seq<Dir>, k: nat, i: nat)
    requires k < |ds| && i < |ds| && i != k
    ensures ds[i] in RemoveAt(ds, k)
  {
    RemoveAtIndex(ds, k);
    if i < k {
      assert RemoveAt(ds, k)[i] == ds[i];
    } else {
      assert RemoveAt(ds, k)[i - 1] == ds[i];
    }
  }

  /** With unique names the walk descends into exactly the sub-directories not called `.git`. */
  lemma WalkedSubdirsAreNonGit(d: Dir)
    requires UniqueDirNames(d.subdirs)
    ensures forall i :: 0 <= i < |WalkedSubdirs(d)| ==> WalkedSubdirs(d)[i].name != GitEntry
    ensures forall i :: 0 <= i < |d.subdirs| && d.subdirs[i].name != GitEntry ==> d.subdirs[i] in WalkedSubdirs(d)
    ensures UniqueDirNames(WalkedSubdirs(d))
  {
    var ds := d.subdirs;
    var names := DirNames(ds);
    if GitEntry in names {
      var k := IndexOf(names, GitEntry);
      assert ds[k].name == GitEntry;
      RemoveAtNames(ds, k);
      forall i | 0 <= i < |ds| && ds[i].name != GitEntry
        ensures ds[i] in WalkedSubdirs(d)
      {
        RemoveAtKeeps(ds, k, i);
      }
    } else {
      assert forall i :: 0 <= i < |ds| ==> names[i] == ds[i].name;
    }
  }

  /** With unique names each sub-directory is the one its name looks up. */
  lemma ChildByName(d: Dir, i: nat)
    requires UniqueDirNames(d.subdirs) && i < |d.subdirs|
    ensures Child(d, d.subdirs[i].name) == Some(d.subdirs[i])
  {
    var names := DirNames(d.subdirs);
    assert names[i] == d.subdirs[i].name;
    var k := IndexOf(names, d.subdirs[i].name);
    assert names[k] == d.subdirs[k].name;
  }

  /** Membership in the walks of a list of sub-directories. */
  lemma {:induction false} WalkEachMember(parent: Dir, ds: seq<Dir>, at: Path, p: Path)
    requires forall i :: 0 <= i < |ds| ==> ds[i] in parent.subdirs
    ensures p in WalkEach(parent, ds, at) <==>
            exists i :: 0 <= i < |ds| && p in Walk(ds[i], at + [ds[i].name])
    decreases |ds|
  {
    if ds != [] {
      WalkEachMember(parent, ds[1..], at, p);
      if p in WalkEach(parent, ds[1..], at) {
        var i :| 0 <= i < |ds[1..]| && p in Walk(ds[1..][i], at + [ds[1..][i].name]);
        assert ds[1..][i] == ds[i + 1];
      }
      if exists i :: 0 <= i < |ds| && p in Walk(ds[i], at + [ds[i].name]) {
        var i :| 0 <= i < |ds| && p in Walk(ds[i], at + [ds[i].name]);
        if i > 0 {
          assert ds[1..][i - 1] == ds[i];
        }
      }
    }
  }

  /** The walks of a list of sub-directories do not depend on whose list it is. */
  lemma {:induction false} WalkEachParent(p1: Dir, p2: Dir, ds: seq<Dir>, at: Path)
    requires forall i :: 0 <= i < |ds| ==> ds[i] in p1.subdirs && ds[i] in p2.subdirs
    ensures WalkEach(p1, ds, at) == WalkEach(p2, ds, at)
    decreases |ds|
  {
    if ds != [] {
      WalkEachParent(p1, p2, ds[1..], at);
    }
  }

  /** A valid directory is recorded exactly when it is a repository. */
  lemma RecordedIffRepository(d: Dir, at: Path)
    requires Valid(d)
    ensures at in Walk(d, at) <==> IsRepository(d)
  {
    var names := DirNames(d.subdirs);
    assert HasGitDir(d) <==> GitEntry in names by {
      if GitEntry in names {
        var k := IndexOf(names, GitEntry);
        assert d.subdirs[k].name == GitEntry;
      }
      if HasGitDir(d) {
        var i :| 0 <= i < |d.subdirs| && d.subdirs[i].name == GitEntry;
        assert names[i] == GitEntry;
      }
    }
    var fileNames := FileNames(d.files);
    if HasLinkFile(d) {
      var j :| 0 <= j < |d.files| && d.files[j].name == GitEntry
               && d.files[j].content.Text? && HasPrefix(Strip(d.files[j].content.text), LinkMarker);
      assert fileNames[j] == GitEntry;
      var k := IndexOf(fileNames, GitEntry);
      assert fileNames[k] == d.files[k].name;
      assert k == j;
    }
    if GitFile(d).Some? && LinksToGitDir(GitFile(d).value.content) {
      var k := IndexOf(fileNames, GitEntry);
      assert d.files[k].name == fileNames[k];
    }
  }

  /** An entry of a valid directory's walk other than its own path comes from a walked sub-directory. */
  lemma {:induction false} EnterChild(d: Dir, at: Path, p: Path) returns (k: nat)
    requires UniqueDirNames(d.subdirs)
    requires p in Walk(d, at) && p != at
    ensures k < |d.subdirs| && d.subdirs[k].name != GitEntry
    ensures p in Walk(d.subdirs[k], at + [d.subdirs[k].name])
  {
    var kids := WalkedSubdirs(d);
    OtherEntries(d, at, p);
    WalkEachMember(d, kids, at, p);
    var i :| 0 <= i < |kids| && p in Walk(kids[i], at + [kids[i].name]);
    WalkedSubdirsAreNonGit(d);
    k :| 0 <= k < |d.subdirs| && d.subdirs[k] == kids[i];
  }

  /** Entries other than the directory's own path come from the walks of its sub-directories. */
  lemma OtherEntries(d: Dir, at: Path, p: Path)
    requires p in Walk(d, at) && p != at
    ensures p in WalkEach(d, WalkedSubdirs(d), at)
  {
  }

  lemma ValidSubdir(d: Dir, k: nat)
    requires Valid(d) && k < |d.subdirs|
    ensures Valid(d.subdirs[k])
  {
  }

  /** What the walk of a sub-directory not called `.git` records, the walk of its parent records. */
  lemma LeaveChild(d: Dir, at: Path, k: nat, p: Path)
    requires UniqueDirNames(d.subdirs)
    requires k < |d.subdirs| && d.subdirs[k].name != GitEntry
    requires p in Walk(d.subdirs[k], at + [d.subdirs[k].name])
    ensures p in Walk(d, at)
  {
    WalkedSubdirsAreNonGit(d);
    var kids := WalkedSubdirs(d);
    var i :| 0 <= i < |kids| && kids[i] == d.subdirs[k];
    WalkEachMember(d, kids, at, p);
    FromSubdirs(d, at, p);
  }

  lemma FromSubdirs(d: Dir, at: Path, p: Path)
    requires p in WalkEach(d, WalkedSubdirs(d), at)
    ensures p in Walk(d, at)
  {
  }

  lemma AppendAssoc(at: Path, n: string, rest: Path)
    ensures at + [n] + rest == at + ([n] + rest)
  {
  }

  /** Below a sub-directory not called `.git`, repositories are those of the sub-directory. */
  lemma {:induction false} StepDown(d: Dir, k: nat, rest: Path)
    requires Valid(d)
    requires k < |d.subdirs| && d.subdirs[k].name != GitEntry
    ensures Valid(d.subdirs[k])
    ensures RepositoryAt(d, [d.subdirs[k].name] + rest) <==> RepositoryAt(d.subdirs[k], rest)
  {
    var q := [d.subdirs[k].name] + rest;
    ChildByName(d, k);
    assert q[1..] == rest;
    assert Lookup(d, q) == Lookup(d.subdirs[k], rest);
    assert GitEntry in q <==> GitEntry in rest;
  }

  /** Everything the walk records is a repository reachable without entering a `.git` directory. */
  lemma {:induction false} WalkSound(d: Dir, at: Path, p: Path)
    requires Valid(d)
    requires p in Walk(d, at)
    ensures FoundBelow(d, at, p)
    decreases d
  {
    if p == at {
      SoundSelf(d, at);
    } else {
      var k := EnterChild(d, at, p);
      ValidSubdir(d, k);
      WalkSound(d.subdirs[k], at + [d.subdirs[k].name], p);
      ClimbUp(d, at, k, p);
    }
  }

  /** A valid directory records itself only as a repository. */
  lemma SoundSelf(d: Dir, at: Path)
    requires Valid(d)
    requires at in Walk(d, at)
    ensures FoundBelow(d, at, at)
  {
    RecordedIffRepository(d, at);
    assert at[|at|..] == [];
  }

  /** A repository found below a sub-directory not called `.git` is one of its parent. */
  lemma ClimbUp(d: Dir, at: Path, k: nat, p: Path)
    requires Valid(d)
    requires k < |d.subdirs| && d.subdirs[k].name != GitEntry
    requires FoundBelow(d.subdirs[k], at + [d.subdirs[k].name], p)
    ensures FoundBelow(d, at, p)
  {
    BelowChild(at, d.subdirs[k].name, p);
    StepDown(d, k, p[|at| + 1..]);
  }

  /** The sub-directory a repository path of a valid directory starts with. */
  lemma FirstStep(d: Dir, q: Path) returns (k: nat)
    requires q != [] && RepositoryAt(d, q)
    ensures k < |d.subdirs| && d.subdirs[k].name == q[0] && q[0] != GitEntry
    ensures q == [d.subdirs[k].name] + q[1..]
  {
    assert Child(d, q[0]).Some?;
    k := IndexOf(DirNames(d.subdirs), q[0]);
    assert d.subdirs[k].name == DirNames(d.subdirs)[k];
    assert q[0] in q;
  }

  /** Every repository reachable without entering a `.git` directory is recorded. */
  lemma {:induction false} WalkComplete(d: Dir, at: Path, q: Path)
    requires Valid(d)
    requires RepositoryAt(d, q)
    ensures at + q in Walk(d, at)
    decreases |q|
  {
    if q == [] {
      RecordedIffRepository(d, at);
      assert at + q == at;
    } else {
      var k := FirstStep(d, q);
      StepDown(d, k, q[1..]);
      WalkComplete(d.subdirs[k], at + [q[0]], q[1..]);
      AppendAssoc(at, q[0], q[1..]);
      LeaveChild(d, at, k, at + q);
    }
  }

  /**
   * The walk of a valid tree from its top records exactly the repositories
   * reachable without entering a `.git` directory.
   */
  lemma WalkFindsExactlyTheRepositories(top: Dir, p: Path)
    requires Valid(top)
    ensures p in Walk(top, []) <==> RepositoryAt(top, p)
  {
    if p in Walk(top, []) {
      WalkSound(top, [], p);
      assert p[0..] == p;
    }
    if RepositoryAt(top, p) {
      WalkComplete(top, [], p);
      assert [] + p == p;
    }
  }

  // ----- Order -----

  lemma PreOrderedConcat(a: seq<Path>, b: seq<Path>)
    requires PreOrdered(a) && PreOrdered(b)
    requires forall i, j :: 0 <= i < |a| && 0 <= j < |b| ==> !Below(b[j], a[i])
    ensures PreOrdered(a + b)
  {
    var c := a + b;
    forall i, j | 0 <= i < j < |c| ensures !Below(c[j], c[i]) {
      if j < |a| {
        assert c[i] == a[i] && c[j] == a[j];
      } else if i >= |a| {
        assert c[i] == b[i - |a|] && c[j] == b[j - |a|];
      } else {
        assert c[i] == a[i] && c[j] == b[j - |a|];
      }
    }
  }

  /** Entries found below a list of sub-directories step down through one of their names. */
  lemma {:induction false} WalkEachAvoids(parent: Dir, ds: seq<Dir>, at: Path, n: string)
    requires forall i :: 0 <= i < |ds| ==> ds[i] in parent.subdirs
    requires forall i :: 0 <= i < |ds| ==> ds[i].name != n
    ensures forall j :: 0 <= j < |WalkEach(parent, ds, at)| ==> WalkEach(parent, ds, at)[j][|at|] != n
    decreases |ds|
  {
    if ds != [] {
      BelowChildAll(Walk(ds[0], at + [ds[0].name]), at, ds[0].name);
      WalkEachAvoids(parent, ds[1..], at, n);
    }
  }

  /** Later entries of a walk never lie at or above earlier ones. */
  lemma {:induction false} WalkPreOrdered(d: Dir, at: Path)
    requires Valid(d)
    ensures PreOrdered(Walk(d, at))
    decreases d, 1
  {
    var kids := WalkedSubdirs(d);
    WalkedSubdirsAreNonGit(d);
    ValidKids(d);
    WalkEachPreOrdered(d, kids, at);
    var here: seq<Path> := if RecordsItself(d) then [at] else [];
    PreOrderedConcat(here, WalkEach(d, kids, at));
  }

  lemma ValidKids(d: Dir)
    requires Valid(d)
    ensures forall i :: 0 <= i < |WalkedSubdirs(d)| ==> Valid(WalkedSubdirs(d)[i])
  {
  }

  lemma {:induction false} WalkEachPreOrdered(parent: Dir, ds: seq<Dir>, at: Path)
    requires forall i :: 0 <= i < |ds| ==> ds[i] in parent.subdirs && Valid(ds[i])
    requires UniqueDirNames(ds)
    ensures PreOrdered(WalkEach(parent, ds, at))
    decreases parent, 0, |ds|
  {
    if ds != [] {
      assert ds[0] in parent.subdirs;
      var n := ds[0].name;
      var first := Walk(ds[0], at + [n]);
      var rest := WalkEach(parent, ds[1..], at);
      WalkPreOrdered(ds[0], at + [n]);
      WalkEachPreOrdered(parent, ds[1..], at);
      BelowChildAll(first, at, n);
      WalkEachAvoids(parent, ds[1..], at, n);
      forall i, j | 0 <= i < |first| && 0 <= j < |rest| ensures !Below(rest[j], first[i]) {
        assert |rest[j]| <= |first[i]| ==> first[i][..|rest[j]|][|at|] != rest[j][|at|];
      }
      PreOrderedConcat(first, rest);
    }
  }

  // ----- The rules of the loop body -----

  /**
   * A `.git` sub-directory settles the matter: the directory is recorded, and
   * whatever files it holds (a `.git` file included) change nothing.
   */
  lemma GitDirTakesPrecedence(d: Dir, at: Path, files: seq<File>)
    requires HasGitDir(d)
    ensures at in Walk(d, at)
    ensures Walk(d.(files := files), at) == Walk(d, at)
  {
    var i :| 0 <= i < |d.subdirs| && d.subdirs[i].name == GitEntry;
    assert DirNames(d.subdirs)[i] == GitEntry;
    var e := d.(files := files);
    assert WalkedSubdirs(e) == WalkedSubdirs(d);
    WalkEachParent(e, d, WalkedSubdirs(d), at);
  }

  /**
   * Without a `.git` sub-directory, a `.git` file that cannot be read, or
   * whose text does not start with the marker, adds no entry: the walk goes
   * on exactly as if the directory held no files at all.
   */
  lemma UnusableGitFileIsSkipped(d: Dir, at: Path)
    requires !HasGitDir(d)
    requires GitFile(d).Some? && !LinksToGitDir(GitFile(d).value.content)
    ensures at !in Walk(d, at)
    ensures Walk(d, at) == Walk(d.(files := []), at)
  {
    var e := d.(files := []);
    NoGitDirName(d);
    assert !RecordsItself(d) && !RecordsItself(e);
    assert WalkedSubdirs(e) == WalkedSubdirs(d) == d.subdirs;
    WalkEachParent(e, d, d.subdirs, at);
  }

  lemma NoGitDirName(d: Dir)
    requires !HasGitDir(d)
    ensures GitEntry !in DirNames(d.subdirs)
  {
    assert forall k :: 0 <= k < |d.subdirs| ==> DirNames(d.subdirs)[k] != GitEntry;
  }

  /** Reading a `.git` file that raises an error never marks a repository. */
  lemma UnreadableNeverLinks(d: Dir, at: Path)
    requires !HasGitDir(d)
    requires GitFile(d) == Some(File(GitEntry, Unreadable))
    ensures at !in Walk(d, at)
  {
    UnusableGitFileIsSkipped(d, at);
  }

  /** Whitespace around the marker file's text never changes the verdict. */
  lemma {:induction false} MarkerIgnoresSurroundingSpace(lead: string, t: string, trail: string)
    requires AllSpace(lead) && AllSpace(trail)
    ensures LinksToGitDir(Text(lead + t + trail)) == LinksToGitDir(Text(t))
  {
    StripIgnoresPadding(lead, t, trail);
  }

  // ----- The list `find_git_repos` returns -----

  /** The names along a path that leads somewhere in a valid tree are proper names. */
  lemma {:induction false} LookupNamesValid(d: Dir, p: Path)
    requires Valid(d) && Lookup(d, p).Some?
    ensures forall i :: 0 <= i < |p| ==> ValidName(p[i])
    decreases |p|
  {
    if p != [] {
      var c := Child(d, p[0]).value;
      var k :| 0 <= k < |d.subdirs| && d.subdirs[k] == c;
      ValidSubdir(d, k);
      LookupNamesValid(c, p[1..]);
      assert forall i :: 1 <= i < |p| ==> p[i] == p[1..][i - 1];
    }
  }

  /**
   * For a valid tree at `base`, the returned texts are exactly the renderings
   * of the repository paths reachable without entering a `.git` directory.
   */
  lemma FindGitReposFindsExactlyTheRepositories(base: string, top: Dir)
    requires Valid(top)
    ensures forall p :: RepositoryAt(top, p) ==> Render(base, p) in FindGitRepos(base, Some(top))
    ensures forall r :: r in FindGitRepos(base, Some(top)) ==>
              exists p :: RepositoryAt(top, p) && r == Render(base, p)
  {
    var found := Walk(top, []);
    var repos := FindGitRepos(base, Some(top));
    forall p | RepositoryAt(top, p) ensures Render(base, p) in repos {
      WalkFindsExactlyTheRepositories(top, p);
      var i :| 0 <= i < |found| && found[i] == p;
      assert repos[i] == Render(base, p);
    }
    forall r | r in repos ensures exists p :: RepositoryAt(top, p) && r == Render(base, p) {
      var i :| 0 <= i < |repos| && repos[i] == r;
      WalkFindsExactlyTheRepositories(top, found[i]);
    }
  }

  /** No directory is listed twice, and a directory comes before everything found below it. */
  lemma FindGitReposDistinct(base: string, top: Dir)
    requires Valid(top)
    ensures forall i, j :: 0 <= i < j < |FindGitRepos(base, Some(top))| ==>
              FindGitRepos(base, Some(top))[i] != FindGitRepos(base, Some(top))[j]
    ensures forall i, j :: 0 <= i < j < |Walk(top, [])| ==> !Below(Walk(top, [])[j], Walk(top, [])[i])
  {
    var found := Walk(top, []);
    var repos := FindGitRepos(base, Some(top));
    WalkPreOrdered(top, []);
    forall i, j | 0 <= i < j < |repos| ensures repos[i] != repos[j] {
      assert found[j][..|found[j]|] == found[j];
      ProperNamesFound(top, found[i]);
      ProperNamesFound(top, found[j]);
      if repos[i] == repos[j] {
        RenderInjective(base, found[i], found[j]);
      }
    }
  }

  lemma ProperNamesFound(top: Dir, p: Path)
    requires Valid(top) && p in Walk(top, [])
    ensures forall i :: 0 <= i < |p| ==> ValidName(p[i])
  {
    WalkFindsExactlyTheRepositories(top, p);
    LookupNamesValid(top, p);
  }

  /** The base directory is listed, and listed first, exactly when it is a repository itself. */
  lemma BaseListedFirstIffRepository(base: string, top: Dir)
    requires Valid(top)
    ensures IsRepository(top) <==>
            (|FindGitRepos(base, Some(top))| > 0 && FindGitRepos(base, Some(top))[0] == base)
  {
    var found := Walk(top, []);
    RecordedIffRepository(top, []);
    assert IsRepository(top) <==> RecordsItself(top);
    if |found| > 0 {
      ProperNamesFound(top, found[0]);
      if Render(base, found[0]) == base {
        assert Render(base, []) == base;
        RenderInjective(base, found[0], []);
      }
    }
  }
}
