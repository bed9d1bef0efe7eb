/**
 * The part of the filesystem a directory walk sees: a tree of directories,
 * each listing its sub-directories and its other entries ("files") in the
 * order the operating system returns them. A path is the sequence of entry
 * names leading down from the base directory; `[]` is the base itself.
 * Rendering a path as text follows POSIX `os.path.join`.
 */
module FileTree {
  import opened Wrappers
  import PyText

  /**
   * What reading a file in text mode yields: its decoded text, or an error
   * (`IOError` when it cannot be opened or read, `UnicodeDecodeError` when
   * its bytes are not valid text).
   */
  datatype Content = Text(text: string) | Unreadable

  datatype File = File(name: string, content: Content)

  datatype Dir = Dir(name: string, subdirs: seq<Dir>, files: seq<File>)

  type Path = seq<string>

  function DirNames(ds: seq<Dir>): seq<string> {
    seq(|ds|, i requires 0 <= i < |ds| => ds[i].name)
  }

  function FileNames(fs: seq<File>): seq<string> {
    seq(|fs|, i requires 0 <= i < |fs| => fs[i].name)
  }

  /** A name a directory listing can return. */
  predicate ValidName(n: string) {
    n != "" && n != "." && n != ".." && '/' !in n
  }

  /**
   * What every real directory satisfies: listed names are proper names, and
   * no two entries of one directory share a name.
   */
  ghost predicate Valid(d: Dir) {
    && (forall i :: 0 <= i < |d.subdirs| ==> ValidName(d.subdirs[i].name))
    && (forall j :: 0 <= j < |d.files| ==> ValidName(d.files[j].name))
    && UniqueDirNames(d.subdirs)
    && (forall j, j' :: 0 <= j < j' < |d.files| ==> d.files[j].name != d.files[j'].name)
    && (forall i, j :: 0 <= i < |d.subdirs| && 0 <= j < |d.files| ==> d.subdirs[i].name != d.files[j].name)
    && (forall i :: 0 <= i < |d.subdirs| ==> Valid(d.subdirs[i]))
  }

  ghost predicate UniqueDirNames(ds: seq<Dir>) {
    forall i, i' :: 0 <= i < i' < |ds| ==> ds[i].name != ds[i'].name
  }

  /** The position of the first `x` in `xs`. */
  function IndexOf(xs: seq<string>, x: string): (k: nat)
    requires x in xs
    ensures k < |xs| && xs[k] == x
    ensures forall i :: 0 <= i < k ==> xs[i] != x
  {
    if xs[0] == x then 0 else 1 + IndexOf(xs[1..], x)
  }

  /** The sub-directory of `d` called `n`, if there is one. */
  function Child(d: Dir, n: string): (c: Option<Dir>)
    ensures c.Some? <==> n in DirNames(d.subdirs)
    ensures c.Some? ==> c.value in d.subdirs && c.value.name == n
  {
    var names := DirNames(d.subdirs);
    if n in names then Some(d.subdirs[IndexOf(names, n)]) else None
  }

  /** The directory reached from `d` by following the names of `p`. */
  function Lookup(d: Dir, p: Path): Option<Dir>
    decreases |p|
  {
    if p == [] then Some(d)
    else match Child(d, p[0])
      case None => None
      case Some(c) => Lookup(c, p[1..])
  }

  /** POSIX `os.path.join(a, b)` for a relative `b`. */
  function PathJoin(a: string, b: string): string {
    if a == "" || a[|a| - 1] == '/' then a + b else a + "/" + b
  }

  /** The text `os.walk(base)` gives for the directory at path `p` below `base`. */
  function Render(base: string, p: Path): string
    decreases |p|
  {
    if p == [] then base else PathJoin(Render(base, p[..|p| - 1]), p[|p| - 1])
  }

  /** `base` as the stem every rendered descendant starts with. */
  function Stem(base: string): string {
    if base == "" || base[|base| - 1] == '/' then base else base + "/"
  }

  /**
   * A descendant of `base` renders as `base`, a separator unless `base`
   * already ends in one, and the names of the path joined by `/`.
   */
  lemma {:induction false} RenderShape(base: string, p: Path)
    requires forall i :: 0 <= i < |p| ==> ValidName(p[i])
    ensures Render(base, p) == if p == [] then base else Stem(base) + PyText.Join(p, '/')
    decreases |p|
  {
    if |p| == 1 {
      assert p[..0] == [];
    } else if |p| > 1 {
      var init, last := p[..|p| - 1], p[|p| - 1];
      assert forall i :: 0 <= i < |init| ==> init[i] == p[i];
      RenderShape(base, init);
      EndsWithName(Stem(base), init);
      assert p == init + [last];
      RenderStep(base, init, last);
    }
  }

  /** One more name below a rendered descendant joins onto it with a separator. */
  lemma RenderStep(base: string, init: Path, last: string)
    requires |init| >= 1
    requires Render(base, init) == Stem(base) + PyText.Join(init, '/')
    requires var r := Stem(base) + PyText.Join(init, '/'); r != "" && r[|r| - 1] != '/'
    ensures Render(base, init + [last]) == Stem(base) + PyText.Join(init + [last], '/')
  {
    var p := init + [last];
    assert p[..|p| - 1] == init;
    assert Render(base, p) == PathJoin(Render(base, init), last);
    JoinUnderStem(Stem(base), init, last);
  }

  /** Joining one more name onto a stem-plus-names text adds a separator and the name. */
  lemma JoinUnderStem(stem: string, init: seq<string>, last: string)
    requires |init| >= 1
    requires var r := stem + PyText.Join(init, '/'); r != "" && r[|r| - 1] != '/'
    ensures PathJoin(stem + PyText.Join(init, '/'), last) == stem + PyText.Join(init + [last], '/')
  {
    var j := PyText.Join(init, '/');
    var r := stem + j;
    assert PathJoin(r, last) == r + "/" + last;
    JoinSnoc(init, last, '/');
    Reassociate(stem, j, "/", last);
  }

  lemma Reassociate(a: string, b: string, c: string, d: string)
    ensures a + b + c + d == a + (b + c + d)
  {
  }

  /** A stem followed by joined proper names does not end in a separator. */
  lemma EndsWithName(stem: string, names: seq<string>)
    requires |names| >= 1
    requires forall i :: 0 <= i < |names| ==> ValidName(names[i])
    ensures var r := stem + PyText.Join(names, '/'); r != "" && r[|r| - 1] != '/'
  {
    var tail := names[|names| - 1];
    PyText.JoinLastChar(names, '/');
    assert tail[|tail| - 1] in tail;
  }

  lemma {:induction false} JoinSnoc(parts: seq<string>, last: string, sep: char)
    requires |parts| >= 1
    ensures PyText.Join(parts + [last], sep) == PyText.Join(parts, sep) + [sep] + last
    decreases |parts|
  {
    if |parts| > 1 {
      assert (parts + [last])[1..] == parts[1..] + [last];
      JoinSnoc(parts[1..], last, sep);
    }
  }

  /** Every rendered path starts with the base directory's own text. */
  lemma {:induction false} RenderUnderBase(base: string, p: Path)
    ensures PyText.HasPrefix(Render(base, p), base)
    decreases |p|
  {
    if p != [] {
      RenderUnderBase(base, p[..|p| - 1]);
    }
  }

  /** Distinct paths of proper names render as distinct texts. */
  lemma {:induction false} RenderInjective(base: string, p: Path, q: Path)
    requires forall i :: 0 <= i < |p| ==> ValidName(p[i])
    requires forall i :: 0 <= i < |q| ==> ValidName(q[i])
    requires Render(base, p) == Render(base, q)
    ensures p == q
  {
    if p != [] && q != [] {
      RenderShape(base, p);
      RenderShape(base, q);
      var stem := Stem(base);
      assert stem + PyText.Join(p, '/') == stem + PyText.Join(q, '/');
      assert PyText.Join(p, '/') == (stem + PyText.Join(p, '/'))[|stem|..];
      assert PyText.Join(q, '/') == (stem + PyText.Join(q, '/'))[|stem|..];
      PyText.JoinInjective(p, q, '/');
    } else if p != [] {
      RenderLonger(base, p);
    } else if q != [] {
      RenderLonger(base, q);
    }
  }

  /** A proper descendant renders as a longer text than the base. */
  lemma RenderLonger(base: string, p: Path)
    requires p != []
    requires forall i :: 0 <= i < |p| ==> ValidName(p[i])
    ensures |Render(base, p)| > |base|
  {
    RenderShape(base, p);
    JoinNonEmpty(p, '/');
  }

  lemma JoinNonEmpty(p: seq<string>, sep: char)
    requires |p| >= 1 && p[0] != ""
    ensures |PyText.Join(p, sep)| >= 1
  {
  }
}
