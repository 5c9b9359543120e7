/**
  The parts of Python's `posixpath` module that the output-path naming uses:
  `str.rfind`, `str.rstrip`, `os.path.split`, `os.path.splitext` and
  `os.path.join`, each with the POSIX separator `/` and extension separator `.`.
 */
module PosixPath {

  type Path = string

  const Sep: char := '/'
  const ExtSep: char := '.'

  /** Every character of `s` is `c` (true of the empty string). */
  predicate AllOf(s: string, c: char) {
    forall i :: 0 <= i < |s| ==> s[i] == c
  }

  /** `s.rfind(c)`: the index of the last `c` in `s`, or -1 when there is none. */
  function RFind(s: string, c: char): (i: int)
    ensures -1 <= i < |s|
    ensures 0 <= i ==> s[i] == c
    ensures forall j :: i < j < |s| ==> s[j] != c
  {
    if |s| == 0 then -1
    else if s[|s| - 1] == c then |s| - 1
    else RFind(s[..|s| - 1], c)
  }

  /** `s.rstrip(c)`: `s` without its trailing run of `c`. */
  function RStrip(s: string, c: char): (r: string)
    ensures |r| <= |s| && r == s[..|r|]
    ensures forall i :: |r| <= i < |s| ==> s[i] == c
    ensures r == [] || r[|r| - 1] != c
  {
    if |s| > 0 && s[|s| - 1] == c then RStrip(s[..|s| - 1], c) else s
  }

  /** The shape of every directory part `Split` returns: only slashes, or not ending in one. */
  predicate IsHead(d: Path) {
    AllOf(d, Sep) || d[|d| - 1] != Sep
  }

  /** An extension as `splitext` returns it: empty, or one dot followed by neither a dot nor a `/`. */
  predicate IsExtension(ext: string) {
    ext == [] || (ext[0] == ExtSep && forall k :: 1 <= k < |ext| ==> ext[k] != ExtSep && ext[k] != Sep)
  }

  /**
    `os.path.split(p)`: `(head, tail)` where `tail` is everything after the
    last `/`; `head` is everything up to and including it, with its trailing
    slashes removed unless it consists of slashes only.
   */
  function Split(p: Path): (r: (Path, string))
    ensures var (head, tail) := r;
      && Sep !in tail
      && |tail| <= |p| && tail == p[|p| - |tail|..]
      && (|tail| < |p| ==> p[|p| - |tail| - 1] == Sep)
      && |head| <= |p| - |tail| && head == p[..|head|]
      && IsHead(head)
      && AllOf(p[|head|..|p| - |tail|], Sep)
      && (|head| + |tail| < |p| <==> head != [] && !AllOf(head, Sep))
  {
    var i := RFind(p, Sep) + 1;
    var head, tail := p[..i], p[i..];
    if head != [] && !AllOf(head, Sep) then
      var stripped := RStrip(head, Sep);
      assert stripped == p[..|stripped|];
      assert stripped != [] && !AllOf(stripped, Sep) by {
        var k :| 0 <= k < |head| && head[k] != Sep;
        assert k < |stripped|;
      }
      assert AllOf(p[|stripped|..i], Sep) by {
        forall k | 0 <= k < i - |stripped| ensures p[|stripped|..i][k] == Sep {
          assert p[|stripped|..i][k] == head[|stripped| + k];
        }
      }
      (stripped, tail)
    else (head, tail)
  }

  /**
    After index `from` of `p` some character other than a dot is followed,
    later on, by a dot: the condition under which a file name starting after
    `from` has an extension.
   */
  predicate DotAfterOther(p: Path, from: int)
    requires -1 <= from
  {
    exists i, j :: from < i < j < |p| && p[i] != ExtSep && p[j] == ExtSep
  }

  /**
    `DotAfterOther` holds exactly when the last dot lies after `from` and is
    preceded, after `from`, by something other than a dot.
   */
  lemma DotAfterOtherAtLastDot(p: Path, from: int)
    requires -1 <= from < |p|
    ensures var d := RFind(p, ExtSep);
      DotAfterOther(p, from) <==> d > from && !AllOf(p[from + 1..d], ExtSep)
  {
    var d := RFind(p, ExtSep);
    if DotAfterOther(p, from) {
      var i, j :| from < i < j < |p| && p[i] != ExtSep && p[j] == ExtSep;
      OtherBeforeLastDot(p, from, d, i, j);
    }
    if d > from && !AllOf(p[from + 1..d], ExtSep) {
      var seg := p[from + 1..d];
      var k :| 0 <= k < |seg| && seg[k] != ExtSep;
      assert seg[k] == p[from + 1 + k];
      assert p[d] == ExtSep;
    }
  }

  /** A non-dot at `i` followed by a dot at `j` lies before the last dot `d`. */
  lemma OtherBeforeLastDot(p: Path, from: int, d: int, i: int, j: int)
    requires -1 <= from < i < j < |p| && p[i] != ExtSep && p[j] == ExtSep
    requires d == RFind(p, ExtSep)
    ensures d > from && !AllOf(p[from + 1..d], ExtSep)
  {
    assert j <= d;
    var seg := p[from + 1..d];
    assert seg[i - from - 1] == p[i];
  }

  /**
    `os.path.splitext(p)`: splits at the last `.` after the last `/`, unless
    every character between that `/` and that dot is itself a dot (a name
    made of leading dots, such as `.bashrc`, has no extension).
   */
  function SplitExt(p: Path): (r: (Path, string))
    ensures r.0 + r.1 == p
    ensures IsExtension(r.1)
    ensures r.1 != [] <==> DotAfterOther(p, RFind(p, Sep))
  {
    var sepIndex := RFind(p, Sep);
    var dotIndex := RFind(p, ExtSep);
    DotAfterOtherAtLastDot(p, sepIndex);
    if dotIndex > sepIndex && !AllOf(p[sepIndex + 1..dotIndex], ExtSep) then
      ExtensionAfter(p, dotIndex);
      (p[..dotIndex], p[dotIndex..])
    else
      (p, [])
  }

  /** The text from the last dot of `p` on, when no `/` follows that dot, is an extension. */
  lemma ExtensionAfter(p: Path, dotIndex: int)
    requires 0 <= dotIndex < |p| && p[dotIndex] == ExtSep
    requires forall j :: dotIndex < j < |p| ==> p[j] != ExtSep && p[j] != Sep
    ensures p[..dotIndex] + p[dotIndex..] == p
    ensures IsExtension(p[dotIndex..])
  {
    var ext := p[dotIndex..];
    forall k | 1 <= k < |ext| ensures ext[k] != ExtSep && ext[k] != Sep {
      assert ext[k] == p[dotIndex + k];
    }
  }

  /** `os.path.join(a, b)` for two components. */
  function Join(a: Path, b: Path): Path {
    if |b| > 0 && b[0] == Sep then b
    else if a == [] || a[|a| - 1] == Sep then a + b
    else a + [Sep] + b
  }

  /** When `c` does not occur in `b`, the last `c` of `a + b` is the last `c` of `a`. */
  lemma RFindAppend(a: string, b: string, c: char)
    requires c !in b
    ensures RFind(a + b, c) == RFind(a, c)
  {
    var s := a + b;
    var i, k := RFind(s, c), RFind(a, c);
    if 0 <= k {
      assert s[k] == c;
    }
    if 0 <= i {
      assert s[i] == c;
      assert i < |a|;
      assert a[i] == c;
    }
  }

  /** The `c` placed right before a `c`-free tail is the last one. */
  lemma RFindBefore(a: string, c: char, b: string)
    requires c !in b
    ensures RFind(a + [c] + b, c) == |a|
  {
    RFindAppend(a + [c], b, c);
  }

  /** Joining onto a directory made of slashes only (or none) concatenates, and `split` undoes it. */
  lemma SplitJoinSlashes(d: Path, b: string)
    requires AllOf(d, Sep) && Sep !in b && b != []
    ensures Join(d, b) == d + b
    ensures Split(d + b) == (d, b)
  {
    var p := d + b;
    RFindAppend(d, b, Sep);
    if d != [] {
      assert RFind(d, Sep) == |d| - 1;
    }
    assert p[..|d|] == d;
    assert p[|d|..] == b;
  }

  /** Joining onto a directory that does not end in `/` inserts one, and `split` undoes it. */
  lemma SplitJoinNamed(d: Path, b: string)
    requires d != [] && d[|d| - 1] != Sep && Sep !in b && b != []
    ensures Join(d, b) == d + [Sep] + b
    ensures Split(d + [Sep] + b) == (d, b)
  {
    var d' := d + [Sep];
    var p := d' + b;
    RFindBefore(d, Sep, b);
    assert p[..|d| + 1] == d';
    assert p[|d| + 1..] == b;
    assert !AllOf(d', Sep) by {
      assert d'[|d| - 1] != Sep;
    }
    assert RStrip(d', Sep) == RStrip(d, Sep) by {
      assert d'[..|d'| - 1] == d;
    }
  }

  /**
    `split` undoes `join`: joining a directory part `d` (of the shape `split`
    produces) and a slash-free non-empty name `b`, then splitting, gives back
    `(d, b)`.
   */
  lemma SplitJoin(d: Path, b: string)
    requires IsHead(d) && Sep !in b && b != []
    ensures Split(Join(d, b)) == (d, b)
  {
    if AllOf(d, Sep) {
      SplitJoinSlashes(d, b);
    } else {
      SplitJoinNamed(d, b);
    }
  }
}
