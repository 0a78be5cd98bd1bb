/** `Files.suffix`: the extension of a file name, from its last '.' on. A
    `java.io.File` is modelled by its path with '/' as the separator;
    `getName` is the part after the last separator. */
module Files {
  import opened Outcomes

  /** `lastIndexOf(c)`: the index of the last occurrence of `c`, or -1. */
  function LastIndexOf(s: string, c: char): (r: int)
    ensures -1 <= r < |s|
    ensures r >= 0 ==> s[r] == c
    ensures forall i :: r < i < |s| ==> s[i] != c
  {
    if |s| == 0 then -1
    else if s[|s| - 1] == c then |s| - 1
    else LastIndexOf(s[..|s| - 1], c)
  }

  /** `suffix(String)`: `fileName.substring(fileName.lastIndexOf("."))`; with
      no '.' the index is -1 and `substring` throws. */
  function Suffix(fileName: string): (r: Result<string>)
    ensures r.Err? <==> forall i :: 0 <= i < |fileName| ==> fileName[i] != '.'
    ensures r.Err? ==> r.error == StringIndexOutOfBounds
    ensures r.Ok? ==>
      && 1 <= |r.value| <= |fileName| && r.value[0] == '.'
      && fileName[|fileName| - |r.value|..] == r.value
      && forall i :: 0 < i < |r.value| ==> r.value[i] != '.'
  {
    var pos := LastIndexOf(fileName, '.');
    if pos < 0 then Err(StringIndexOutOfBounds) else Ok(fileName[pos..])
  }

  /** `File.getName` of a normalized path, i.e. one without the trailing
      separator that `new File` would strip: the last component. */
  function Name(path: string): (r: string)
    ensures |r| <= |path|
    ensures forall i :: 0 <= i < |r| ==> r[i] != '/'
    ensures path[|path| - |r|..] == r
  {
    path[LastIndexOf(path, '/') + 1..]
  }

  /** The name starts right after the path's last '/', or is the whole path
      when it has none: no longer '/'-free tail exists. */
  lemma NameIsLongestTail(path: string)
    ensures |Name(path)| == |path| || path[|path| - |Name(path)| - 1] == '/'
  {
  }

  /** `suffix(File)`: the suffix of the file's name; it throws exactly when
      the name, the part after the last '/', has no '.'. */
  function SuffixOfFile(path: string): (r: Result<string>)
    ensures r.Err? <==> forall i :: LastIndexOf(path, '/') < i < |path| ==> path[i] != '.'
    ensures r.Err? ==> r.error == StringIndexOutOfBounds
  {
    NameDots(path);
    Suffix(Name(path))
  }

  /** The name has no '.' exactly when the path has none after its last '/'. */
  lemma {:induction false} NameDots(path: string)
    ensures (forall i :: 0 <= i < |Name(path)| ==> Name(path)[i] != '.')
        <==> (forall i :: LastIndexOf(path, '/') < i < |path| ==> path[i] != '.')
  {
    var k, n := LastIndexOf(path, '/'), Name(path);
    assert n == path[k + 1..];
    if forall i :: 0 <= i < |n| ==> n[i] != '.' {
      forall i | k < i < |path| ensures path[i] != '.' {
        assert path[i] == n[i - k - 1];
      }
    }
    if forall i :: k < i < |path| ==> path[i] != '.' {
      forall i | 0 <= i < |n| ensures n[i] != '.' {
        assert n[i] == path[k + 1 + i];
      }
    }
  }

  /** A plain name without a directory has the same suffix as a file as it has as a string. */
  lemma SuffixOfPlainName(name: string)
    requires forall i :: 0 <= i < |name| ==> name[i] != '/'
    ensures SuffixOfFile(name) == Suffix(name)
  {
    assert LastIndexOf(name, '/') == -1;
    assert name[0..] == name;
  }

  /** The suffix of a name is determined by the name alone: any directory
      prefix is ignored. */
  lemma SuffixIgnoresDirectory(dir: string, name: string)
    requires forall i :: 0 <= i < |name| ==> name[i] != '/'
    ensures SuffixOfFile(dir + "/" + name) == Suffix(name)
  {
    NameAfterSeparator(dir, name);
  }

  lemma {:induction false} NameAfterSeparator(dir: string, name: string)
    requires forall i :: 0 <= i < |name| ==> name[i] != '/'
    ensures Name(dir + "/" + name) == name
  {
    var p := dir + "/" + name;
    LastIndexAfter(p, '/', |dir|);
    assert p[|dir| + 1..] == name;
  }

  /** If `s[k] == c` and no later character is `c`, the last index is `k`. */
  lemma LastIndexAfter(s: string, c: char, k: nat)
    requires k < |s| && s[k] == c && forall i :: k < i < |s| ==> s[i] != c
    ensures LastIndexOf(s, c) == k
  {
  }

  /** A suffix found in a path's name is a suffix of the path itself, starting
      after its last '/'. */
  lemma {:induction false} SuffixOfFileIsPathSuffix(path: string)
    ensures var r := SuffixOfFile(path);
      r.Ok? ==> path[|path| - |r.value|..] == r.value && forall i :: 0 <= i < |r.value| ==> r.value[i] != '/'
  {
    var n := Name(path);
    assert SuffixOfFile(path) == Suffix(n);
    if Suffix(n).Ok? {
      NameTail(path, n, Suffix(n).value);
    }
  }

  /** A tail of the name is a '/'-free tail of the path. */
  lemma {:induction false} NameTail(path: string, n: string, v: string)
    requires |n| <= |path| && path[|path| - |n|..] == n && forall i :: 0 <= i < |n| ==> n[i] != '/'
    requires |v| <= |n| && n[|n| - |v|..] == v
    ensures path[|path| - |v|..] == v && forall i :: 0 <= i < |v| ==> v[i] != '/'
  {
    TailOfTail(path, n, v);
    forall i | 0 <= i < |v| ensures v[i] != '/' {
      assert n[|n| - |v|..][i] == n[|n| - |v| + i];
    }
  }

  lemma {:induction false} TailOfTail(s: string, t: string, u: string)
    requires |u| <= |t| <= |s| && s[|s| - |t|..] == t && t[|t| - |u|..] == u
    ensures s[|s| - |u|..] == u
  {
    forall j | 0 <= j < |u| ensures s[|s| - |u|..][j] == u[j] {
      assert s[|s| - |t|..][|t| - |u| + j] == t[|t| - |u| + j];
    }
  }
}
