/**
  `getOutputPath`: the path the compressed copy of an image is written to,
  formed by inserting the literal `-s` between the stem and the extension of
  the file name and keeping the directory.
 */
module OutputPath {
  import opened PosixPath

  /** The literal inserted before the extension. */
  const Suffix: string := "-s"

  /** The directory part of `p`, as `os.path.split` gives it. */
  function Directory(p: Path): Path { Split(p).0 }

  /** The file-name part of `p`, as `os.path.split` gives it. */
  function FileName(p: Path): string { Split(p).1 }

  /** The file name without its extension, as `os.path.splitext` gives it. */
  function Stem(p: Path): string { SplitExt(FileName(p)).0 }

  /** The extension of the file name (with its dot, or empty). */
  function Extension(p: Path): string { SplitExt(FileName(p)).1 }

  /** `getOutputPath(input_path)`. */
  function GetOutputPath(p: Path): (out: Path)
  {
    var (directory, filename) := Split(p);
    var (name, ext) := SplitExt(filename);
    Join(directory, name + Suffix + ext)
  }

  /** `getOutputPath` in terms of what `split` and `splitext` return. */
  lemma OutputPathOfParts(p: Path, directory: Path, filename: string, name: string, ext: string)
    requires Split(p) == (directory, filename) && SplitExt(filename) == (name, ext)
    ensures GetOutputPath(p) == Join(directory, name + Suffix + ext)
  {
  }

  /** With an extension, the suffix lands before its dot, which stays the last one. */
  lemma SplitExtInsertBeforeDot(name: string, ext: string)
    requires Sep !in name && ext != [] && IsExtension(ext)
    ensures SplitExt(name + Suffix + ext) == (name + Suffix, ext)
  {
    var g := name + Suffix + ext;
    assert Sep !in g by {
      assert forall k :: 0 <= k < |ext| ==> ext[k] != Sep;
    }
    assert ExtSep !in ext[1..] by {
      assert forall k :: 0 <= k < |ext[1..]| ==> ext[1..][k] == ext[k + 1];
    }
    assert RFind(g, Sep) == -1;
    var front := name + Suffix + [ExtSep];
    assert g == front + ext[1..];
    RFindAppend(front, ext[1..], ExtSep);
    assert RFind(front, ExtSep) == |name| + 2;
    assert g[0..|name| + 2] == name + Suffix;
    assert !AllOf(g[0..|name| + 2], ExtSep) by {
      assert g[0..|name| + 2][|name|] == '-';
    }
    assert g[..|name| + 2] == name + Suffix;
    assert g[|name| + 2..] == ext;
  }

  /** Without an extension, appending the suffix adds no dot, so there is still none. */
  lemma SplitExtAppend(f: string)
    requires Sep !in f && SplitExt(f) == (f, [])
    ensures SplitExt(f + Suffix) == (f + Suffix, [])
  {
    var g := f + Suffix;
    assert RFind(f, Sep) == -1;
    assert RFind(g, Sep) == -1 by {
      assert Sep !in g;
    }
    NoDotAfterOtherAppend(f);
  }

  /** The suffix holds no dot, so it adds no dot after a character other than a dot. */
  lemma NoDotAfterOtherAppend(f: string)
    requires !DotAfterOther(f, -1)
    ensures !DotAfterOther(f + Suffix, -1)
  {
    var g := f + Suffix;
    forall i, j | -1 < i < j < |g| && g[i] != ExtSep ensures g[j] != ExtSep {
      if j < |f| {
        assert f[i] == g[i] && f[j] == g[j];
      } else {
        assert g[|f|] == '-' && g[|f| + 1] == 's';
      }
    }
  }

  /**
    Inserting the suffix into a slash-free file name does not move the
    extension: `splitext` of the new name gives the old stem with the suffix,
    and the old extension.
   */
  lemma SplitExtInsert(f: string)
    requires Sep !in f
    ensures var (name, ext) := SplitExt(f);
      SplitExt(name + Suffix + ext) == (name + Suffix, ext)
  {
    var (name, ext) := SplitExt(f);
    if ext != [] {
      assert Sep !in name by {
        assert forall k :: 0 <= k < |name| ==> name[k] == f[k];
      }
      SplitExtInsertBeforeDot(name, ext);
    } else {
      assert name == f && name + Suffix + ext == f + Suffix;
      SplitExtAppend(f);
    }
  }

  /**
    The output path keeps the directory and the extension of the input and
    extends its stem by exactly the suffix.
   */
  lemma OutputPathParts(p: Path)
    ensures Directory(GetOutputPath(p)) == Directory(p)
    ensures FileName(GetOutputPath(p)) == Stem(p) + Suffix + Extension(p)
    ensures Stem(GetOutputPath(p)) == Stem(p) + Suffix
    ensures Extension(GetOutputPath(p)) == Extension(p)
  {
    var directory, filename := Directory(p), FileName(p);
    var newName := Stem(p) + Suffix + Extension(p);
    assert GetOutputPath(p) == Join(directory, newName);
    NewNameHasNoSep(filename);
    SplitJoin(directory, newName);
    SplitExtInsert(filename);
  }

  /** The new file name, like the old one, holds no `/`. */
  lemma NewNameHasNoSep(f: string)
    requires Sep !in f
    ensures Sep !in SplitExt(f).0 + Suffix + SplitExt(f).1
  {
    var (name, ext) := SplitExt(f);
    assert forall k :: 0 <= k < |name| ==> name[k] == f[k];
  }

  /**
    The output path is never the input path, so the write of the compressed
    copy and its later removal never touch the file being compressed.
   */
  lemma OutputPathDiffers(p: Path)
    ensures GetOutputPath(p) != p
  {
    var out := GetOutputPath(p);
    OutputPathParts(p);
    assert |FileName(out)| == |FileName(p)| + |Suffix|;
  }

  /** A path without a directory yields an output path without one. */
  lemma NoDirectoryStaysBare(p: Path)
    requires Sep !in p
    ensures Sep !in GetOutputPath(p)
    ensures GetOutputPath(p) == Stem(p) + Suffix + Extension(p)
  {
    assert RFind(p, Sep) == -1;
    assert Split(p) == ([], p);
    var newName := Stem(p) + Suffix + Extension(p);
    NewNameHasNoSep(p);
    assert GetOutputPath(p) == Join([], newName);
  }

  /**
    `splitext` of a slash-free `a + "." + b` whose first character is not a
    dot and whose `b` holds no dot: the stem is `a`, the extension `"." + b`.
   */
  lemma SplitExtSimple(a: string, b: string)
    requires a != [] && a[0] != ExtSep
    requires Sep !in a && Sep !in b && ExtSep !in b
    ensures Split(a + [ExtSep] + b) == ([], a + [ExtSep] + b)
    ensures SplitExt(a + [ExtSep] + b) == (a, [ExtSep] + b)
  {
    var f := a + [ExtSep] + b;
    assert Sep !in f;
    assert RFind(f, Sep) == -1;
    RFindBefore(a, ExtSep, b);
    assert !AllOf(f[0..|a|], ExtSep) by { assert f[0..|a|][0] == a[0]; }
    assert f[..|a|] == a && f[|a|..] == [ExtSep] + b;
  }

  /** The output path of a bare `a + "." + b` shaped as in `SplitExtSimple`. */
  lemma BareNameWithExtension(a: string, b: string)
    requires a != [] && a[0] != ExtSep
    requires Sep !in a && Sep !in b && ExtSep !in b
    ensures GetOutputPath(a + [ExtSep] + b) == a + Suffix + [ExtSep] + b
  {
    SplitExtSimple(a, b);
  }

  /** Splitting `d + "/" + f` for a slash-free non-empty `d` and slash-free `f`. */
  lemma SplitInDirectory(d: string, f: string)
    requires d != [] && Sep !in d && Sep !in f
    ensures Split(d + [Sep] + f) == (d, f)
  {
    RFindBefore(d, Sep, f);
    var p := d + [Sep] + f;
    assert p[..|d| + 1] == d + [Sep] && p[|d| + 1..] == f;
    assert RStrip(d + [Sep], Sep) == d by { assert (d + [Sep])[..|d|] == d; }
    assert !AllOf(d + [Sep], Sep) by { assert (d + [Sep])[|d| - 1] != Sep; }
  }

  /** The output path of `d + "/" + f` for a slash-free directory `d` and file name `f` as in `SplitExtSimple`. */
  lemma NameInDirectory(d: string, a: string, b: string)
    requires d != [] && Sep !in d
    requires a != [] && a[0] != ExtSep
    requires Sep !in a && Sep !in b && ExtSep !in b
    ensures GetOutputPath(d + [Sep] + (a + [ExtSep] + b)) == d + [Sep] + (a + Suffix + ([ExtSep] + b))
  {
    var f := a + [ExtSep] + b;
    SplitInDirectory(d, f);
    SplitExtSimple(a, b);
    var newName := a + Suffix + ([ExtSep] + b);
    OutputPathOfParts(d + [Sep] + f, d, f, a, [ExtSep] + b);
    assert Join(d, newName) == d + [Sep] + newName by {
      assert d[|d| - 1] != Sep;
    }
  }

  /** The example with a directory: the directory is kept. */
  lemma ExampleDirectory()
    ensures GetOutputPath("a/b.jpg") == "a/b-s.jpg"
  {
    var d, a, b := "a", "b", "jpg";
    assert d + [Sep] + (a + [ExtSep] + b) == "a/b.jpg";
    assert d + [Sep] + (a + Suffix + ([ExtSep] + b)) == "a/b-s.jpg";
    NameInDirectory(d, a, b);
  }

  /** The example without a directory: none is added. */
  lemma ExampleBareName()
    ensures GetOutputPath("b.png") == "b-s.png"
  {
    var a, b := "b", "png";
    assert a + [ExtSep] + b == "b.png";
    assert a + Suffix + [ExtSep] + b == "b-s.png";
    BareNameWithExtension(a, b);
  }

  /** Only the last dot starts the extension. */
  lemma ExampleLastDot()
    ensures GetOutputPath("a.tar.gz") == "a.tar-s.gz"
  {
    var a, b := "a.tar", "gz";
    assert a + [ExtSep] + b == "a.tar.gz";
    assert a + Suffix + [ExtSep] + b == "a.tar-s.gz";
    BareNameWithExtension(a, b);
  }

  /** A leading dot does not start the extension, but a later dot does. */
  lemma ExampleLeadingDotThenExtension()
    ensures GetOutputPath(".a.b") == ".a-s.b"
  {
    var f := ".a.b";
    assert Sep !in f;
    assert RFind(f, Sep) == -1;
    assert Split(f) == ([], f);
    RFindBefore(".a", ExtSep, "b");
    assert ".a" + [ExtSep] + "b" == f;
    assert !AllOf(f[0..2], ExtSep) by { assert f[0..2][1] == 'a'; }
    assert f[..2] == ".a" && f[2..] == ".b";
    assert SplitExt(f) == (".a", ".b");
    assert ".a" + Suffix + ".b" == ".a-s.b";
  }

  /** A name made of a leading dot and no other dot has no extension. */
  lemma ExampleLeadingDot()
    ensures GetOutputPath(".bashrc") == ".bashrc-s"
  {
    var f := ".bashrc";
    assert Sep !in f;
    assert RFind(f, Sep) == -1;
    assert Split(f) == ([], f);
    RFindBefore("", ExtSep, "bashrc");
    assert "" + [ExtSep] + "bashrc" == f;
    assert SplitExt(f) == (f, []);
  }
}
