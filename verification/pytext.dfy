/**
 * The few Python `str` operations the report script relies on, with the
 * semantics of CPython 3: `str.isspace`, `str.strip()` without arguments,
 * `str.startswith` and `str.split(sep)` with a one-character separator.
 * `Join` is the inverse of `Split` (Python's `sep.join(parts)`).
 */
module PyText {

  /** `c.isspace()`: the characters CPython treats as whitespace. */
  predicate IsSpace(c: char) {
    || c == ' '
    || ('\t' <= c <= '\r')              // \t \n \v \f \r
    || ('\U{1C}' <= c <= '\U{1F}')      // file, group, record and unit separators
    || c == '\U{85}' || c == '\U{A0}' || c == '\U{1680}'
    || ('\U{2000}' <= c <= '\U{200A}')
    || c == '\U{2028}' || c == '\U{2029}' || c == '\U{202F}' || c == '\U{205F}' || c == '\U{3000}'
  }

  predicate AllSpace(s: string) {
    forall i :: 0 <= i < |s| ==> IsSpace(s[i])
  }

  /** The end of the run of whitespace that starts at `i`. */
  function SpaceRunEnd(s: string, i: nat): (n: nat)
    requires i <= |s|
    ensures i <= n <= |s|
    ensures forall k :: i <= k < n ==> IsSpace(s[k])
    ensures n == |s| || !IsSpace(s[n])
    decreases |s| - i
  {
    if i < |s| && IsSpace(s[i]) then SpaceRunEnd(s, i + 1) else i
  }

  /** The start of the run of whitespace that ends at `j`, not going below `lo`. */
  function SpaceRunStart(s: string, lo: nat, j: nat): (n: nat)
    requires lo <= j <= |s|
    ensures lo <= n <= j
    ensures forall k :: n <= k < j ==> IsSpace(s[k])
    ensures n == lo || !IsSpace(s[n - 1])
    decreases j
  {
    if lo < j && IsSpace(s[j - 1]) then SpaceRunStart(s, lo, j - 1) else j
  }

  /**
   * `s.strip()`: the infix of `s` left once the whitespace on both ends is
   * removed; the result neither starts nor ends with whitespace.
   */
  function Strip(s: string): (r: string)
    ensures |r| <= |s|
    ensures exists lead :: 0 <= lead <= |s| - |r| && s[lead..lead + |r|] == r
                           && AllSpace(s[..lead]) && AllSpace(s[lead + |r|..])
    ensures r == [] || (!IsSpace(r[0]) && !IsSpace(r[|r| - 1]))
  {
    var lo := SpaceRunEnd(s, 0);
    var hi := SpaceRunStart(s, lo, |s|);
    StripBounds(s, lo, hi);
    s[lo..hi]
  }

  /** The slice between the two whitespace runs is what `Strip` promises. */
  lemma StripBounds(s: string, lo: nat, hi: nat)
    requires lo == SpaceRunEnd(s, 0) && hi == SpaceRunStart(s, lo, |s|)
    ensures var r := s[lo..hi];
            && lo + |r| == hi
            && s[lo..lo + |r|] == r
            && AllSpace(s[..lo]) && AllSpace(s[lo + |r|..])
            && (r == [] || (!IsSpace(r[0]) && !IsSpace(r[|r| - 1])))
  {
    SpaceSlice(s, 0, lo);
    SpaceSlice(s, hi, |s|);
    assert s[..lo] == s[0..lo];
    assert s[hi..] == s[hi..|s|];
  }

  lemma SpaceSlice(s: string, i: nat, j: nat)
    requires i <= j <= |s|
    requires forall k :: i <= k < j ==> IsSpace(s[k])
    ensures AllSpace(s[i..j])
  {
    forall k | 0 <= k < j - i
      ensures IsSpace(s[i..j][k])
    {
      assert s[i..j][k] == s[i + k];
    }
  }

  /** `s.startswith(prefix)`. */
  predicate HasPrefix(s: string, prefix: string) {
    |prefix| <= |s| && s[..|prefix|] == prefix
  }

  /** `sep.join(parts)`. */
  function Join(parts: seq<string>, sep: char): string
  {
    if |parts| == 0 then ""
    else if |parts| == 1 then parts[0]
    else parts[0] + [sep] + Join(parts[1..], sep)
  }

  /** A join ends with the last character of its last piece, when that piece is not empty. */
  lemma {:induction false} JoinLastChar(parts: seq<string>, sep: char)
    requires |parts| >= 1 && parts[|parts| - 1] != ""
    ensures var j, tail := Join(parts, sep), parts[|parts| - 1];
            j != "" && j[|j| - 1] == tail[|tail| - 1]
    decreases |parts|
  {
    if |parts| > 1 {
      JoinLastChar(parts[1..], sep);
    }
  }

  /** A join starts with the first character of its first piece, when that piece is not empty. */
  lemma JoinFirstChar(parts: seq<string>, sep: char)
    requires |parts| >= 1 && parts[0] != ""
    ensures Join(parts, sep) != "" && Join(parts, sep)[0] == parts[0][0]
  {
  }

  /** The position of the first `c` in `s`. */
  function FirstIndex(s: string, c: char): (k: nat)
    requires c in s
    ensures k < |s| && s[k] == c && c !in s[..k]
  {
    if s[0] == c then 0 else 1 + FirstIndex(s[1..], c)
  }

  /**
   * `s.split(sep)`: the pieces between occurrences of `sep`, empty pieces
   * included. Joining them back with `sep` gives `s` again, so together with
   * the absence of `sep` inside the pieces this fixes the result.
   */
  function Split(s: string, sep: char): (parts: seq<string>)
    ensures |parts| >= 1
    ensures forall i :: 0 <= i < |parts| ==> sep !in parts[i]
    ensures Join(parts, sep) == s
    decreases |s|
  {
    if sep in s then
      var k := FirstIndex(s, sep);
      var rest := Split(s[k + 1..], sep);
      assert s == s[..k] + [sep] + s[k + 1..];
      [s[..k]] + rest
    else
      [s]
  }

  /**
   * The converse of `Strip`'s contract: whatever whitespace surrounds a core
   * that neither starts nor ends with whitespace, stripping returns the core.
   */
  lemma StripPadded(lead: string, core: string, trail: string)
    requires AllSpace(lead) && AllSpace(trail)
    requires core == [] || (!IsSpace(core[0]) && !IsSpace(core[|core| - 1]))
    ensures Strip(lead + core + trail) == core
  {
    var s := lead + core + trail;
    var lo := SpaceRunEnd(s, 0);
    var hi := SpaceRunStart(s, lo, |s|);
    if core == [] {
      assert forall k :: 0 <= k < |s| ==> IsSpace(s[k]);
      assert lo == |s|;
    } else {
      assert s[|lead|] == core[0];
      assert lo == |lead|;
      assert s[|lead| + |core| - 1] == core[|core| - 1];
      assert hi == |lead| + |core|;
      assert s[lo..hi] == core;
    }
  }

  /** Extra whitespace around a string does not change what it strips to. */
  lemma StripIgnoresPadding(lead: string, t: string, trail: string)
    requires AllSpace(lead) && AllSpace(trail)
    ensures Strip(lead + t + trail) == Strip(t)
  {
    var core := Strip(t);
    var a, b := StripSplit(t);
    AllSpaceConcat(lead, a);
    AllSpaceConcat(b, trail);
    Regroup(lead, a, core, b, trail);
    StripPadded(lead + a, core, b + trail);
  }

  /** Trailing whitespace makes no difference to the stripped text. */
  lemma StripTrailingSpace(s: string, trail: string)
    requires AllSpace(trail)
    ensures Strip(s + trail) == Strip(s)
  {
    assert AllSpace([]);
    assert [] + s + trail == s + trail;
    StripIgnoresPadding([], s, trail);
  }

  /** Leading whitespace makes no difference to the stripped text. */
  lemma StripLeadingSpace(lead: string, s: string)
    requires AllSpace(lead)
    ensures Strip(lead + s) == Strip(s)
  {
    assert AllSpace([]);
    assert lead + s + [] == lead + s;
    StripIgnoresPadding(lead, s, []);
  }

  /** The whitespace `Strip` removes from either end. */
  lemma StripSplit(t: string) returns (a: string, b: string)
    ensures t == a + Strip(t) + b && AllSpace(a) && AllSpace(b)
  {
    var lo := SpaceRunEnd(t, 0);
    var hi := SpaceRunStart(t, lo, |t|);
    StripBounds(t, lo, hi);
    a, b := t[..lo], t[hi..];
    ThreeSlices(t, lo, hi);
  }

  lemma ThreeSlices(t: string, lo: nat, hi: nat)
    requires lo <= hi <= |t|
    ensures t == t[..lo] + t[lo..hi] + t[hi..]
  {
  }

  lemma Regroup(lead: string, a: string, core: string, b: string, trail: string)
    ensures lead + (a + core + b) + trail == (lead + a) + core + (b + trail)
  {
  }

  lemma AllSpaceConcat(a: string, b: string)
    requires AllSpace(a) && AllSpace(b)
    ensures AllSpace(a + b)
  {
    forall i | 0 <= i < |a + b| ensures IsSpace((a + b)[i]) {
      if i < |a| {
        assert (a + b)[i] == a[i];
      } else {
        assert (a + b)[i] == b[i - |a|];
      }
    }
  }

  /** `s.strip().strip() == s.strip()`. */
  lemma StripIdempotent(s: string)
    ensures Strip(Strip(s)) == Strip(s)
  {
    var r := Strip(s);
    assert [] + r + [] == r;
    StripPadded([], r, []);
  }

  /** A string strips to nothing exactly when it is all whitespace. */
  lemma StripEmpty(s: string)
    ensures Strip(s) == [] <==> AllSpace(s)
  {
    if AllSpace(s) {
      assert s + [] + [] == s;
      StripPadded(s, [], []);
    }
  }

  /** Two piece lists without the separator that join to the same text are equal. */
  lemma {:induction false} JoinInjective(a: seq<string>, b: seq<string>, sep: char)
    requires |a| >= 1 && |b| >= 1
    requires forall i :: 0 <= i < |a| ==> sep !in a[i]
    requires forall i :: 0 <= i < |b| ==> sep !in b[i]
    requires Join(a, sep) == Join(b, sep)
    ensures a == b
    decreases |a|
  {
    if |a| >= 2 {
      JoinHead(a, sep);
    }
    if |b| >= 2 {
      JoinHead(b, sep);
    }
    if |a| >= 2 && |b| >= 2 {
      JoinInjective(a[1..], b[1..], sep);
      assert a == [a[0]] + a[1..];
      assert b == [b[0]] + b[1..];
    }
  }

  /** The first piece of a join of two or more is everything before the first separator. */
  lemma JoinHead(a: seq<string>, sep: char)
    requires |a| >= 2
    requires sep !in a[0]
    ensures sep in Join(a, sep)
    ensures FirstIndex(Join(a, sep), sep) == |a[0]|
    ensures Join(a, sep)[..|a[0]|] == a[0]
    ensures Join(a, sep)[|a[0]| + 1..] == Join(a[1..], sep)
  {
    var s := Join(a, sep);
    assert s[|a[0]|] == sep;
    assert s[..|a[0]|] == a[0];
    FirstIndexAt(s, sep, |a[0]|);
  }

  /** The first occurrence is the one with no earlier occurrence before it. */
  lemma {:induction false} FirstIndexAt(s: string, c: char, m: nat)
    requires m < |s| && s[m] == c && c !in s[..m]
    ensures FirstIndex(s, c) == m
  {
    if m > 0 {
      assert s[0] == s[..m][0];
      assert s[1..][..m - 1] == s[1..m];
      assert forall x :: x in s[1..m] ==> x in s[..m];
      FirstIndexAt(s[1..], c, m - 1);
    }
  }

  /** `sep.join(parts).split(sep) == parts` when no piece holds the separator. */
  lemma {:induction false} SplitJoin(parts: seq<string>, sep: char)
    requires |parts| >= 1
    requires forall i :: 0 <= i < |parts| ==> sep !in parts[i]
    ensures Split(Join(parts, sep), sep) == parts
  {
    JoinInjective(Split(Join(parts, sep), sep), parts, sep);
  }
}
