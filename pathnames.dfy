/** POSIX path helpers the script relies on: `str.rfind`, `os.path.splitext`
    (only the extension it returns) and `os.path.join` with two arguments. */
module PathNames {

  type Path = string

  /** Index of the last occurrence of `c` in `s`, or -1 when there is none. */
  function RFind(s: string, c: char): (r: int)
    ensures -1 <= r < |s|
    ensures r >= 0 ==> s[r] == c
    ensures forall k :: r < k < |s| ==> s[k] != c
    decreases |s|
  {
    if s == [] then -1
    else if s[|s| - 1] == c then |s| - 1
    else RFind(s[..|s| - 1], c)
  }

  /** The three properties of RFind's contract single out one index. */
  lemma RFindUnique(s: string, c: char, r: int)
    requires -1 <= r < |s|
    requires r >= 0 ==> s[r] == c
    requires forall k :: r < k < |s| ==> s[k] != c
    ensures RFind(s, c) == r
  {
  }

  /** Searching a concatenation from the right looks in the tail first. */
  lemma RFindAppend(a: string, b: string, c: char)
    ensures RFind(a + b, c) == if RFind(b, c) >= 0 then |a| + RFind(b, c) else RFind(a, c)
  {
    var s := a + b;
    var rb := RFind(b, c);
    var ra := RFind(a, c);
    if rb >= 0 {
      forall k | |a| + rb < k < |s| ensures s[k] != c {
        assert s[k] == b[k - |a|];
      }
      RFindUnique(s, c, |a| + rb);
    } else {
      forall k | ra < k < |s| ensures s[k] != c {
        if k >= |a| {
          assert s[k] == b[k - |a|];
        }
      }
      RFindUnique(s, c, ra);
    }
  }

  /** The final component of `stem` holds a character other than '.': the file
      name is not made of leading dots only, so a dot after it can start an
      extension. */
  ghost predicate NamedStem(stem: string)
  {
    exists k :: 0 <= k < |stem| && stem[k] != '.' && stem[k] != '/' && NoSlashAfter(stem, k)
  }

  ghost predicate NoSlashAfter(s: string, k: nat)
  {
    forall j :: k < j < |s| ==> s[j] != '/'
  }

  /** `e` is a non-empty extension of `p`: `p` is a named stem followed by a dot
      and characters that are neither dots nor separators. */
  ghost predicate ExtensionShape(p: Path, e: string)
  {
    && 1 <= |e| <= |p|
    && p[|p| - |e|..] == e
    && e[0] == '.'
    && (forall k :: 1 <= k < |e| ==> e[k] != '.' && e[k] != '/')
    && NamedStem(p[..|p| - |e|])
  }

  /** The extension that `os.path.splitext` returns on POSIX: the part from the
      last dot, when that dot comes after the last '/' and some character
      between that '/' and the dot is not a dot; otherwise "". */
  function Extension(p: Path): (e: string)
  {
    var sep := RFind(p, '/');
    var dot := RFind(p, '.');
    if dot > sep && NameCharBetween(p, sep + 1, dot) then p[dot..] else ""
  }

  /** Some character of s[lo..hi] is not a dot. */
  predicate NameCharBetween(s: string, lo: int, hi: int)
    requires 0 <= lo && hi <= |s|
  {
    exists k :: lo <= k < hi && s[k] != '.'
  }

  /** A non-empty extension is exactly what ExtensionShape describes. */
  lemma ExtensionIff(p: Path, e: string)
    requires e != []
    ensures Extension(p) == e <==> ExtensionShape(p, e)
  {
    if Extension(p) == e {
      ExtensionHasShape(p);
    }
    if ExtensionShape(p, e) {
      ShapeIsExtension(p, e);
    }
  }

  lemma ExtensionHasShape(p: Path)
    requires Extension(p) != []
    ensures ExtensionShape(p, Extension(p))
  {
    var e := Extension(p);
    var sep := RFind(p, '/');
    var dot := RFind(p, '.');
    assert dot > sep && NameCharBetween(p, sep + 1, dot);
    var k :| sep + 1 <= k < dot && p[k] != '.';
    var stem := p[..|p| - |e|];
    assert |stem| == dot;
    assert stem[k] == p[k];
    assert NoSlashAfter(stem, k);
  }

  lemma ShapeIsExtension(p: Path, e: string)
    requires ExtensionShape(p, e)
    ensures Extension(p) == e
  {
    var d := |p| - |e|;
    var stem := p[..d];
    assert p == stem + e;
    forall j | d < j < |p| ensures p[j] != '.' && p[j] != '/' {
      assert p[j] == e[j - d];
    }
    RFindUnique(p, '.', d);
    var k :| 0 <= k < |stem| && stem[k] != '.' && stem[k] != '/' && NoSlashAfter(stem, k);
    assert p[k] == stem[k];
    var sep := RFind(p, '/');
    assert sep < k;
    assert NameCharBetween(p, sep + 1, d);
  }

  /** `os.path.join(dir, name)` for two arguments: an absolute `name` replaces
      `dir`; otherwise a '/' is put between them unless `dir` is empty or
      already ends with one. */
  function Join(dir: Path, name: string): (r: Path)
    ensures |name| <= |r| && r[|r| - |name|..] == name
    ensures (name == [] || name[0] != '/') ==> |dir| + |name| <= |r| && r[..|dir|] == dir
    ensures (name == [] || name[0] != '/') && |r| > |name| ==> r[|r| - |name| - 1] == '/'
    // an absolute name replaces the directory
    ensures |name| > 0 && name[0] == '/' ==> r == name
    // a relative name gets exactly one '/' in front unless the directory is
    // empty or already ends in one
    ensures (name == [] || name[0] != '/') ==>
              r == (if dir == [] || dir[|dir| - 1] == '/' then dir + name else dir + "/" + name)
  {
    if |name| > 0 && name[0] == '/' then name
    else if dir == [] || dir[|dir| - 1] == '/' then dir + name
    else dir + "/" + name
  }

  /** Behind a prefix that is empty or ends in '/', a plain file name keeps
      its extension. */
  lemma ExtensionBehindSeparator(prefix: string, name: string)
    requires prefix == [] || prefix[|prefix| - 1] == '/'
    requires '/' !in name
    ensures Extension(prefix + name) == Extension(name)
  {
    var p := prefix + name;
    LastSeparatorIsPrefixEnd(prefix, name);
    RFindAppend(prefix, name, '.');
    assert p[|prefix|..] == name;
    ExtensionOfLastComponent(p, name);
  }

  /** When `name` is the whole last component of `p`, both have the same
      extension. */
  lemma ExtensionOfLastComponent(p: Path, name: string)
    requires |name| <= |p| && p[|p| - |name|..] == name
    requires RFind(p, '/') == |p| - |name| - 1 && RFind(name, '/') == -1
    requires RFind(p, '.') == if RFind(name, '.') >= 0 then |p| - |name| + RFind(name, '.')
                             else RFind(p[..|p| - |name|], '.')
    ensures Extension(p) == Extension(name)
  {
    var d := |p| - |name|;
    var nd := RFind(name, '.');
    if nd >= 0 {
      assert p[d + nd..] == name[nd..];
      NamedSpanShifts(p, name, nd);
      assert Extension(p) == if NameCharBetween(p, d, d + nd) then p[d + nd..] else "";
      assert Extension(name) == if NameCharBetween(name, 0, nd) then name[nd..] else "";
    } else {
      assert RFind(p, '.') < d;
    }
  }

  lemma LastSeparatorIsPrefixEnd(prefix: string, name: string)
    requires prefix == [] || prefix[|prefix| - 1] == '/'
    requires '/' !in name
    ensures RFind(prefix + name, '/') == |prefix| - 1
  {
    RFindAppend(prefix, name, '/');
    assert RFind(name, '/') == -1;
    if prefix != [] {
      RFindUnique(prefix, '/', |prefix| - 1);
    }
  }

  /** A non-dot character before position `nd` of `name` is one before
      position |p| - |name| + nd of a path `p` that ends with `name`. */
  lemma NamedSpanShifts(p: Path, name: string, nd: nat)
    requires |name| <= |p| && p[|p| - |name|..] == name && nd <= |name|
    ensures NameCharBetween(p, |p| - |name|, |p| - |name| + nd) <==> NameCharBetween(name, 0, nd)
  {
    var d := |p| - |name|;
    if NameCharBetween(p, d, d + nd) {
      var k :| d <= k < d + nd && p[k] != '.';
      assert name[k - d] == p[k];
    }
    if NameCharBetween(name, 0, nd) {
      var k :| 0 <= k < nd && name[k] != '.';
      assert p[d + k] == name[k];
    }
  }

  /** For a plain file name (no '/'), the extension of the joined path is the
      extension of the name alone: the directory part never contributes. */
  lemma ExtensionOfJoin(dir: Path, name: string)
    requires '/' !in name
    ensures Extension(Join(dir, name)) == Extension(name)
  {
    var p := Join(dir, name);
    var prefix := p[..|p| - |name|];
    assert p == prefix + name;
    ExtensionBehindSeparator(prefix, name);
  }
}
