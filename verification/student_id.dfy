/** The student identifier of a sheet: its file name without directory and
    without extension, following the POSIX rules of os.path.basename and
    os.path.splitext. */
module StudentId {

  /** The index of the last occurrence of `c` in `s`, or -1 (str.rfind). */
  function LastIndexOf(s: string, c: char): (r: int)
    ensures -1 <= r < |s|
    ensures r >= 0 ==> s[r] == c && c !in s[r + 1..]
    ensures r == -1 ==> c !in s
    decreases |s|
  {
    if |s| == 0 then -1
    else if s[|s| - 1] == c then |s| - 1
    else
      assert s == s[..|s| - 1] + [s[|s| - 1]];
      LastIndexOf(s[..|s| - 1], c)
  }

  /** What follows the last '/' of a path. */
  function Basename(path: string): (name: string)
    ensures '/' !in name
    ensures |name| <= |path| && name == path[|path| - |name|..]
    ensures |name| < |path| ==> path[|path| - |name| - 1] == '/'
  {
    path[LastIndexOf(path, '/') + 1..]
  }

  predicate AllDots(s: string)
  {
    forall k :: 0 <= k < |s| ==> s[k] == '.'
  }

  /** An index holding `c` with no `c` after it is the last occurrence. */
  lemma LastOccurrenceUnique(s: string, c: char, k: int)
    requires 0 <= k < |s| && s[k] == c && c !in s[k + 1..]
    ensures LastIndexOf(s, c) == k
  {
  }

  /** Without a '/', a name is left whole by splitext exactly when its last
      dot, if any, is preceded by dots only. */
  lemma WholeNameHasNoExtension(p: string)
    requires '/' !in p
    requires var d := LastIndexOf(p, '.'); d == -1 || AllDots(p[..d])
    ensures forall k :: 0 <= k < |p| && p[k] == '.' && '.' !in p[k + 1..] ==> AllDots(p[..k])
  {
    forall k | 0 <= k < |p| && p[k] == '.' && '.' !in p[k + 1..]
      ensures AllDots(p[..k])
    {
      LastOccurrenceUnique(p, '.', k);
    }
  }

  /** The root part of splitext: the path up to its last '.', provided that
      dot comes after the last '/' and something other than a dot precedes
      it within the final component (so ".profile" has no extension). */
  function SplitExtRoot(p: string): (root: string)
    ensures root <= p
    ensures '/' !in p && |root| < |p| ==>
              p[|root|] == '.' && '.' !in p[|root| + 1..] && !AllDots(root)
    ensures '/' !in p && |root| == |p| ==>
              forall k :: 0 <= k < |p| && p[k] == '.' && '.' !in p[k + 1..] ==> AllDots(p[..k])
  {
    var sepIndex := LastIndexOf(p, '/');
    var dotIndex := LastIndexOf(p, '.');
    if dotIndex > sepIndex && !AllDots(p[sepIndex + 1..dotIndex]) then
      p[..dotIndex]
    else
      if '/' in p then p
      else
        WholeNameHasNoExtension(p);
        p
  }

  /** The student identifier of an image path: the file name with its
      extension, if any, removed. When something is removed it is a final
      '.' followed by no other dot, and what remains is not all dots; when
      nothing is removed, the name has no dot that could start an extension. */
  function ExtractStudentId(path: string): (id: string)
    ensures '/' !in id
    ensures id <= Basename(path)
    ensures |id| < |Basename(path)| ==>
              && Basename(path)[|id|] == '.'
              && '.' !in Basename(path)[|id| + 1..]
              && !AllDots(id)
    ensures |id| == |Basename(path)| ==>
              forall k :: 0 <= k < |id| && id[k] == '.' && '.' !in id[k + 1..] ==> AllDots(id[..k])
  {
    SplitExtRoot(Basename(path))
  }

  predicate AllDigits(s: string)
  {
    forall k :: 0 <= k < |s| ==> '0' <= s[k] <= '9'
  }

  /** The recogniser's variant first tries a purely numeric name, and returns
      the same name either way. */
  function RecogniserExtractStudentId(path: string): (id: string)
    ensures id == ExtractStudentId(path)
  {
    var name := ExtractStudentId(path);
    if AllDigits(name) then name else name
  }

  /** The last occurrence in a concatenation lies in the second part when the
      second part has one, and in the first part otherwise. */
  lemma {:induction false} LastIndexOfAppend(a: string, b: string, c: char)
    ensures c in b ==> LastIndexOf(a + b, c) == |a| + LastIndexOf(b, c)
    ensures c !in b ==> LastIndexOf(a + b, c) == LastIndexOf(a, c)
    decreases |b|
  {
    if |b| > 0 {
      var b' := b[..|b| - 1];
      assert (a + b)[..|a + b| - 1] == a + b';
      assert b == b' + [b[|b| - 1]];
      LastIndexOfAppend(a, b', c);
    } else {
      assert a + b == a;
    }
  }

  /** Below a directory prefix, the base name is the file name. */
  lemma BasenameBelowDirectory(dir: string, file: string)
    requires dir == [] || dir[|dir| - 1] == '/'
    requires '/' !in file
    ensures Basename(dir + file) == file
  {
    LastIndexOfAppend(dir, file, '/');
    if dir != [] {
      LastIndexOfAppend(dir[..|dir| - 1], ['/'], '/');
      assert dir == dir[..|dir| - 1] + ['/'];
    }
    assert (dir + file)[|dir|..] == file;
  }

  /** splitext cuts `stem.ext` at the dot before the extension. */
  lemma SplitExtRootOfStemExt(stem: string, ext: string)
    requires '/' !in stem && !AllDots(stem)
    requires '/' !in ext && '.' !in ext
    ensures SplitExtRoot(stem + "." + ext) == stem
  {
    var file := stem + "." + ext;
    assert file == (stem + ".") + ext;
    LastIndexOfAppend(stem + ".", ext, '.');
    LastIndexOfAppend(stem, ".", '.');
    assert LastIndexOf(file, '.') == |stem|;
    assert '/' !in file;
    assert file[0..|stem|] == stem;
  }

  /** A file `stem.ext` in any directory yields `stem`, provided the stem is
      not all dots and the extension has no dot. */
  lemma StudentIdOfFileName(dir: string, stem: string, ext: string)
    requires dir == [] || dir[|dir| - 1] == '/'
    requires '/' !in stem && !AllDots(stem)
    requires '/' !in ext && '.' !in ext
    ensures ExtractStudentId(dir + stem + "." + ext) == stem
  {
    var file := stem + "." + ext;
    assert dir + stem + "." + ext == dir + file;
    BasenameBelowDirectory(dir, file);
    SplitExtRootOfStemExt(stem, ext);
  }

  /** A file name without any dot is its own identifier. */
  lemma StudentIdWithoutExtension(dir: string, name: string)
    requires dir == [] || dir[|dir| - 1] == '/'
    requires '/' !in name && '.' !in name
    ensures ExtractStudentId(dir + name) == name
  {
    BasenameBelowDirectory(dir, name);
  }

  /** splitext leaves a name whose only dot is the leading one whole. */
  lemma SplitExtRootOfHiddenName(name: string)
    requires |name| > 0 && name[0] == '.'
    requires '/' !in name && '.' !in name[1..]
    ensures SplitExtRoot(name) == name
  {
    LastOccurrenceUnique(name, '.', 0);
    assert AllDots(name[..0]);
  }

  /** A hidden file keeps its leading dot: ".profile" has no extension. */
  lemma HiddenFileKeepsName(dir: string, rest: string)
    requires dir == [] || dir[|dir| - 1] == '/'
    requires '/' !in rest && '.' !in rest
    ensures ExtractStudentId(dir + "." + rest) == "." + rest
  {
    var name := "." + rest;
    assert dir + "." + rest == dir + name;
    assert name[1..] == rest;
    BasenameBelowDirectory(dir, name);
    SplitExtRootOfHiddenName(name);
  }
}
