/** The archive-part test `is_rar`: the extension that `os.path.splitext`
    gives is matched, from its first character and ignoring case, against
    the regular expression `\.rar|\.r\d{2,3}$`.  Only the second alternative
    carries the end anchor, so any extension that begins with ".rar" passes. */
module RarPattern {
  import opened PathNames

  /** `\d`, restricted to ASCII digits. */
  predicate IsDigit(c: char)
  {
    '0' <= c <= '9'
  }

  predicate IsR(c: char)
  {
    c == 'r' || c == 'R'
  }

  predicate IsA(c: char)
  {
    c == 'a' || c == 'A'
  }

  /** The first alternative `\.rar`: four characters at the start, nothing
      demanded after them. */
  predicate MatchesRarLiteral(e: string)
  {
    |e| >= 4 && e[0] == '.' && IsR(e[1]) && IsA(e[2]) && IsR(e[3])
  }

  /** Python's `$` without MULTILINE: the end of the string, or the position
      just before a newline that ends it. */
  predicate AtEnd(e: string, i: nat)
  {
    i == |e| || (i + 1 == |e| && e[i] == '\n')
  }

  /** How many digits the greedy `\d{2,3}` consumes from position `from`:
      the length of the run of digits there, capped at `max`. */
  function DigitRun(e: string, from: nat, max: nat): (n: nat)
    requires from <= |e|
    ensures n <= max && from + n <= |e|
    ensures forall k :: from <= k < from + n ==> IsDigit(e[k])
    ensures n < max && from + n < |e| ==> !IsDigit(e[from + n])
    decreases max
  {
    if max == 0 || from == |e| || !IsDigit(e[from]) then 0
    else 1 + DigitRun(e, from + 1, max - 1)
  }

  /** Backtracking over the repetition count: with `n` digits consumed after
      ".r", try the end anchor, then give one digit back, down to two. */
  predicate VolumeTail(e: string, n: nat)
    decreases n
  {
    n >= 2 && (AtEnd(e, 2 + n) || VolumeTail(e, n - 1))
  }

  /** The second alternative `\.r\d{2,3}$`. */
  predicate MatchesVolume(e: string)
  {
    |e| >= 2 && e[0] == '.' && IsR(e[1]) && VolumeTail(e, DigitRun(e, 2, 3))
  }

  /** `re.match(r"\.rar|\.r\d{2,3}$", e, re.IGNORECASE) is not None`. */
  predicate MatchesPattern(e: string)
  {
    MatchesRarLiteral(e) || MatchesVolume(e)
  }

  /** `is_rar(path)`. */
  predicate IsRar(path: Path)
  {
    MatchesPattern(Extension(path))
  }

  /** `e` without the one newline `$` tolerates at its very end. */
  function Core(e: string): (c: string)
    ensures c == e || (e == c + "\n")
  {
    if |e| > 0 && e[|e| - 1] == '\n' then e[..|e| - 1] else e
  }

  /** Declarative reading of the second alternative: ".r" or ".R" followed by
      exactly two or three digits and nothing else (but a final newline). */
  predicate VolumeShape(e: string)
  {
    var c := Core(e);
    (|c| == 4 || |c| == 5) && c[0] == '.' && IsR(c[1])
    && forall k :: 2 <= k < |c| ==> IsDigit(c[k])
  }

  /** The backtracking matcher for `\.r\d{2,3}$` accepts exactly the shapes
      VolumeShape describes. */
  lemma {:induction false} MatchesVolumeIff(e: string)
    ensures MatchesVolume(e) <==> VolumeShape(e)
  {
    if |e| >= 2 && e[0] == '.' && IsR(e[1]) {
      var n := DigitRun(e, 2, 3);
      var c := Core(e);
      if MatchesVolume(e) {
        var m := TailCount(e, n);
        assert 2 + m == |c| by {
          if 2 + m + 1 == |e| {
            assert e[2 + m] == '\n';
          }
        }
        forall k | 2 <= k < |c| ensures IsDigit(c[k]) {
          assert c[k] == e[k];
        }
      }
      if VolumeShape(e) {
        assert n == |c| - 2 by {
          forall k | 2 <= k < |c| ensures IsDigit(e[k]) {
            assert c[k] == e[k];
          }
        }
        assert AtEnd(e, 2 + n);
        assert VolumeTail(e, n);
      }
    }
  }

  /** The digit count at which a successful VolumeTail(e, n) found the end. */
  lemma {:induction false} TailCount(e: string, n: nat) returns (m: nat)
    requires VolumeTail(e, n)
    ensures 2 <= m <= n && AtEnd(e, 2 + m)
    decreases n
  {
    if AtEnd(e, 2 + n) {
      m := n;
    } else {
      m := TailCount(e, n - 1);
    }
  }

  /** The classifier, stated without the matcher: the extension starts with
      ".rar" in any letter case, or it is ".r" followed by two or three digits
      and nothing more (a trailing newline aside). */
  lemma PatternIff(e: string)
    ensures MatchesPattern(e) <==> MatchesRarLiteral(e) || VolumeShape(e)
  {
    MatchesVolumeIff(e);
  }

  /** A file found by the directory walk is classified by its own name: the
      directory that `get_full_path` puts in front never matters. */
  lemma IsRarOfJoin(dir: Path, name: string)
    requires '/' !in name
    ensures IsRar(Join(dir, name)) == IsRar(name)
  {
    ExtensionOfJoin(dir, name);
  }

  /** Worked cases: ".RAR", ".r00", ".r123" and ".rarx" qualify; ".r1",
      ".r0000" and ".zip" do not. */
  lemma ExtensionExamples()
    ensures MatchesPattern(".RAR") && MatchesPattern(".r00") && MatchesPattern(".r123")
    ensures MatchesPattern(".rarx")
    ensures !MatchesPattern(".r1") && !MatchesPattern(".r0000") && !MatchesPattern(".zip")
  {
    PatternIff(".r00");
    PatternIff(".r123");
    PatternIff(".r1");
    PatternIff(".r0000");
    PatternIff(".zip");
  }

  /** A path whose name ends in ".rar" after a character that is neither a
      dot nor a separator is an archive part. */
  lemma RarSuffixIsRar(p: Path)
    requires |p| >= 5 && p[|p| - 4..] == ".rar" && p[|p| - 5] != '.' && p[|p| - 5] != '/'
    ensures IsRar(p)
  {
    var stem := p[..|p| - 4];
    assert stem[|stem| - 1] == p[|p| - 5];
    assert NoSlashAfter(stem, |stem| - 1);
    ShapeIsExtension(p, ".rar");
  }

  /** Whole paths: the extension is taken after the last '/'. */
  lemma PathExamples()
    ensures IsRar("/dl/movie.part01.rar") && IsRar("/dl/movie.r07")
  {
    var p1, p2 := "/dl/movie.part01.rar", "/dl/movie.r07";
    assert p1[..|p1| - 4] == "/dl/movie.part01";
    assert NoSlashAfter("/dl/movie.part01", 4);
    ShapeIsExtension(p1, ".rar");
    assert p2[..|p2| - 4] == "/dl/movie";
    assert NoSlashAfter("/dl/movie", 4);
    ShapeIsExtension(p2, ".r07");
    PatternIff(".r07");
  }

  /** A name made only of a leading dot and "rar" has no extension at all,
      and a dot in a directory name does not make an extension. */
  lemma NonArchivePathExamples()
    ensures !IsRar("/dl/.rar") && !IsRar("/dl/x.rar/readme")
  {
    RFindUnique("/dl/.rar", '/', 3);
    RFindUnique("/dl/.rar", '.', 4);
    RFindUnique("/dl/x.rar/readme", '/', 9);
    RFindUnique("/dl/x.rar/readme", '.', 5);
  }
}
