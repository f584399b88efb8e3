/**
 * Object names: the normalisation a handle applies to the name it is opened with, and
 * the directory test. Their Go definitions (`Fs.normFileName`, `Fs.isDir`) live in the
 * filesystem facade, which is not part of this model. These are stand-ins that agree
 * with the constructor tests (file_test.go:63-82): leading separators are stripped, and
 * a trailing separator marks a directory.
 */
module Names {

  const Separator := '/'

  predicate NoLeadingSeparator(s: string)
  {
    |s| == 0 || s[0] != Separator
  }

  /** A directory name is a stem followed by the separator. */
  predicate IsDirName(s: string): (d: bool)
    ensures d <==> exists stem: string :: s == stem + [Separator]
  {
    if |s| > 0 && s[|s| - 1] == Separator then
      assert s == s[..|s| - 1] + [Separator];
      true
    else
      false
  }

  /** The object key for a file name: the name with its leading separators removed. */
  function NormFileName(s: string): (r: string)
    ensures NoLeadingSeparator(r)
    ensures |r| <= |s| && r == s[|s| - |r|..]
    ensures forall i :: 0 <= i < |s| - |r| ==> s[i] == Separator
    decreases |s|
  {
    if |s| > 0 && s[0] == Separator then NormFileName(s[1..]) else s
  }

  /** Normalisation keeps the directory marker of every name it does not empty. */
  lemma NormFileNameKeepsDirMarker(s: string)
    requires NormFileName(s) != []
    ensures IsDirName(NormFileName(s)) == IsDirName(s)
  {
    var r := NormFileName(s);
    assert r[|r| - 1] == s[|s| - 1];
  }

  /** The names of the constructor's tests. */
  lemma NameCases()
    ensures NormFileName("/path/testfile") == "path/testfile"
    ensures NormFileName("testfile") == "testfile" && !IsDirName("testfile")
    ensures NormFileName("testdir/") == "testdir/" && IsDirName("testdir/")
  {
    RootedNameCase();
    PlainNameCase();
    DirNameCase();
  }

  lemma RootedNameCase()
    ensures NormFileName("/path/testfile") == "path/testfile"
  {
    var rooted: string := "/path/testfile";
    assert rooted[0] == Separator && rooted[1..] == "path/testfile";
    assert NormFileName(rooted) == NormFileName("path/testfile");
    assert "path/testfile"[0] == 'p';
  }

  lemma PlainNameCase()
    ensures NormFileName("testfile") == "testfile" && !IsDirName("testfile")
  {
    assert "testfile"[0] == 't' && "testfile"[7] == 'e';
  }

  lemma DirNameCase()
    ensures NormFileName("testdir/") == "testdir/" && IsDirName("testdir/")
  {
    assert "testdir/"[0] == 't' && "testdir/"[7] == Separator;
  }
}
