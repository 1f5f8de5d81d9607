/** The version-pragma script: every `.sol` file under the tree has each
    occurrence of the literal `pragma solidity =0.8.15;` replaced by
    `pragma solidity ^0.8.20;`, and files whose text changed are written
    back and reported. The pattern's dots are escaped, so it matches only
    that exact text. */
module FixSolidityVersion {
  import opened TreeRewrite

  const Pattern := "pragma solidity =0.8.15;"
  const Replacement := "pragma solidity ^0.8.20;"

  /** The pattern occurs in `s` starting at index `i`. */
  ghost predicate OccursAt(s: string, i: int) {
    0 <= i && i + |Pattern| <= |s| && s[i..i + |Pattern|] == Pattern
  }

  /** The pattern occurs somewhere in `s`. */
  ghost predicate Contains(s: string) {
    exists i :: OccursAt(s, i)
  }

  /** Index `i` lies inside an occurrence of the pattern in `s`. */
  ghost predicate Covered(s: string, i: int) {
    exists j :: OccursAt(s, j) && j <= i < j + |Pattern|
  }

  /** The substitution, scanning left to right: at each position either the
      pattern starts there and is replaced, scanning resuming after it, or
      one character is copied. Pattern and replacement are both 24
      characters long, so the length is kept. */
  function FixPragma(s: string): (r: string)
    ensures |r| == |s|
    decreases |s|
  {
    if |Pattern| <= |s| && s[..|Pattern|] == Pattern then
      Replacement + FixPragma(s[|Pattern|..])
    else if s == [] then
      []
    else
      [s[0]] + FixPragma(s[1..])
  }

  /** `p` is the first character of the pattern and of the replacement, and
      occurs nowhere else in either. */
  lemma PatternLettersAfterFirst(k: int)
    requires 1 <= k < |Pattern|
    ensures Pattern[0] == Replacement[0] == 'p'
    ensures Pattern[k] != 'p' && Replacement[k] != 'p'
  {
  }

  /** Two occurrences of the pattern never overlap. */
  lemma OccurrencesApart(s: string, i: int, j: int)
    requires OccursAt(s, i) && OccursAt(s, j) && i < j
    ensures i + |Pattern| <= j
  {
    if j < i + |Pattern| {
      assert s[j] == s[i..i + |Pattern|][j - i] == Pattern[j - i];
      assert s[j] == s[j..j + |Pattern|][0] == Pattern[0];
      PatternLettersAfterFirst(j - i);
    }
  }

  /** At an occurrence the scan emits the replacement and resumes after it. */
  lemma FixPragmaAtOccurrence(s: string)
    requires OccursAt(s, 0)
    ensures FixPragma(s) == Replacement + FixPragma(s[|Pattern|..])
  {
  }

  /** Elsewhere the scan copies one character and moves on. */
  lemma FixPragmaElsewhere(s: string)
    requires s != [] && !OccursAt(s, 0)
    ensures FixPragma(s) == [s[0]] + FixPragma(s[1..])
  {
  }

  /** A slice of `out == a + w` that lies past `a` is a slice of `w`. */
  lemma SliceOfSuffix(out: string, a: string, w: string, i: int, j: int)
    requires out == a + w && |a| <= i <= j <= |out|
    ensures out[i..j] == w[i - |a|..j - |a|]
  {
  }

  /** A text `x` held in `w` past `|a|` characters is held in `out == a + w`
      at the shifted place. */
  lemma SliceShifted(out: string, a: string, w: string, i: int, x: string)
    requires out == a + w && |a| <= i && i + |x| <= |out|
    requires w[i - |a|..i - |a| + |x|] == x
    ensures out[i..i + |x|] == x
  {
    SliceOfSuffix(out, a, w, i, i + |x|);
  }

  /** An occurrence at index `i` is one at index `i - d` of the text with
      its first `d` characters dropped. */
  lemma OccursAfterDrop(s: string, d: int, i: int)
    requires OccursAt(s, i) && 0 <= d <= i
    ensures OccursAt(s[d..], i - d)
  {
    assert s[d..][i - d..i - d + |Pattern|] == s[i..i + |Pattern|];
  }

  /** An index outside every occurrence stays outside every occurrence
      once the first `d` characters are dropped. */
  lemma UncoveredAfterDrop(s: string, d: int, i: int)
    requires 0 <= d <= i < |s| && !Covered(s, i)
    ensures !Covered(s[d..], i - d)
  {
    var t := s[d..];
    forall j | OccursAt(t, j)
      ensures !(j <= i - d < j + |Pattern|)
    {
      assert t[j..j + |Pattern|] == s[j + d..j + d + |Pattern|];
      assert OccursAt(s, j + d);
    }
  }

  /** Every occurrence of the pattern in the input is replaced, not only the
      first: the output holds the replacement at the same place. */
  lemma {:induction false} OccurrenceReplaced(s: string, i: int)
    requires OccursAt(s, i)
    ensures FixPragma(s)[i..i + |Pattern|] == Replacement
    decreases |s|
  {
    var n := |Pattern|;
    if OccursAt(s, 0) {
      if i == 0 {
        ReplacedFirst(s);
      } else {
        OccurrencesApart(s, 0, i);
        OccursAfterDrop(s, n, i);
        OccurrenceReplaced(s[n..], i - n);
        FixPragmaAtOccurrence(s);
        SliceShifted(FixPragma(s), Replacement, FixPragma(s[n..]), i, Replacement);
      }
    } else {
      OccursAfterDrop(s, 1, i);
      OccurrenceReplaced(s[1..], i - 1);
      ReplacedAfterCopy(s, i);
    }
  }

  /** An occurrence at the start is replaced in place. */
  lemma ReplacedFirst(s: string)
    requires OccursAt(s, 0)
    ensures FixPragma(s)[0..|Pattern|] == Replacement
  {
    FixPragmaAtOccurrence(s);
    SliceOfPrefix(FixPragma(s), Replacement, FixPragma(s[|Pattern|..]));
  }

  /** A replacement in the rest after a copied character is one in the
      output. */
  lemma ReplacedAfterCopy(s: string, i: int)
    requires !OccursAt(s, 0) && 1 <= i && i + |Pattern| <= |s|
    requires FixPragma(s[1..])[i - 1..i - 1 + |Pattern|] == Replacement
    ensures FixPragma(s)[i..i + |Pattern|] == Replacement
  {
    FixPragmaElsewhere(s);
    SliceShifted(FixPragma(s), [s[0]], FixPragma(s[1..]), i, Replacement);
  }

  /** A character of `out == a + w` past `a` is one of `w`. */
  lemma IndexOfSuffix(out: string, a: string, w: string, i: int)
    requires out == a + w && |a| <= i < |out|
    ensures out[i] == w[i - |a|]
  {
  }

  /** `out == a + w` starts with `a`. */
  lemma SliceOfPrefix(out: string, a: string, w: string)
    requires out == a + w
    ensures out[0..|a|] == a
  {
  }

  /** A character outside every occurrence of the pattern is copied
      unchanged to the same place. */
  lemma {:induction false} UncoveredCopied(s: string, i: int)
    requires 0 <= i < |s| && !Covered(s, i)
    ensures FixPragma(s)[i] == s[i]
    decreases |s|
  {
    var n := |Pattern|;
    if OccursAt(s, 0) {
      FixPragmaAtOccurrence(s);
      assert i >= n;
      UncoveredAfterDrop(s, n, i);
      UncoveredCopied(s[n..], i - n);
      IndexOfSuffix(FixPragma(s), Replacement, FixPragma(s[n..]), i);
    } else {
      FixPragmaElsewhere(s);
      if i != 0 {
        UncoveredAfterDrop(s, 1, i);
        UncoveredCopied(s[1..], i - 1);
        IndexOfSuffix(FixPragma(s), [s[0]], FixPragma(s[1..]), i);
      }
    }
  }

  /** No occurrence in the output starts inside a replaced occurrence. */
  lemma NoOccurrenceInsideReplacement(s: string, i: int, j: int)
    requires OccursAt(s, j) && j <= i < j + |Pattern|
    ensures !OccursAt(FixPragma(s), i)
  {
    OccurrenceReplaced(s, j);
    NoOccurrenceInReplacement(FixPragma(s), i, j);
  }

  /** An occurrence cannot start inside a replacement except at its own
      start, and the replacement is not the pattern. */
  lemma NoOccurrenceInReplacement(r: string, i: int, j: int)
    requires 0 <= j <= i < j + |Pattern| <= |r| && r[j..j + |Pattern|] == Replacement
    ensures !OccursAt(r, i)
  {
    var n := |Pattern|;
    if OccursAt(r, i) {
      if i == j {
        assert r[i..i + n][16] == Pattern[16];
        PatternReplacementDiffer();
      } else {
        assert r[i] == r[i..i + n][0] == Pattern[0];
        assert r[i] == r[j..j + n][i - j] == Replacement[i - j];
        PatternLettersAfterFirst(i - j);
      }
    }
  }

  /** The pattern and the replacement differ at the operator. */
  lemma PatternReplacementDiffer()
    ensures Pattern[16] == '=' && Replacement[16] == '^'
  {
  }

  /** An occurrence in the output that starts at a copied character would
      have to consist of copied characters only, and would then be an
      occurrence of the input that the scan did not replace. */
  lemma NoOccurrenceAtCopied(s: string, i: int)
    requires 0 <= i && !Covered(s, i)
    ensures !OccursAt(FixPragma(s), i)
  {
    var r, n := FixPragma(s), |Pattern|;
    if OccursAt(r, i) {
      CopiedSpan(s, r, i);
      SameSpanOccurs(s, r, i);
    }
  }

  /** Two texts that agree under an occurrence in one both hold it. */
  lemma SameSpanOccurs(s: string, r: string, i: int)
    requires OccursAt(r, i) && i + |Pattern| <= |s|
    requires forall k :: i <= k < i + |Pattern| ==> r[k] == s[k]
    ensures OccursAt(s, i)
  {
    assert s[i..i + |Pattern|] == r[i..i + |Pattern|];
  }

  /** Under an occurrence of the output that starts at a copied character,
      every character is a copied one. */
  lemma CopiedSpan(s: string, r: string, i: int)
    requires r == FixPragma(s) && OccursAt(r, i) && !Covered(s, i)
    ensures forall k :: i <= k < i + |Pattern| ==> r[k] == s[k]
  {
    var n := |Pattern|;
    forall j | i < j < i + n
      ensures !OccursAt(s, j)
    {
      NoReplacedInside(s, r, i, j);
    }
    forall k | i <= k < i + n
      ensures r[k] == s[k]
    {
      assert !Covered(s, k);
      UncoveredCopied(s, k);
    }
  }

  /** No occurrence of the input starts strictly inside an occurrence of
      the output: it would have been replaced, and `p` begins the
      replacement but does not occur in the pattern after its start. */
  lemma NoReplacedInside(s: string, r: string, i: int, j: int)
    requires r == FixPragma(s) && OccursAt(r, i) && i < j < i + |Pattern|
    ensures !OccursAt(s, j)
  {
    var n := |Pattern|;
    if OccursAt(s, j) {
      OccurrenceReplaced(s, j);
      assert r[j] == r[j..j + n][0] == Replacement[0];
      assert r[j] == r[i..i + n][j - i] == Pattern[j - i];
      PatternLettersAfterFirst(j - i);
    }
  }

  /** The substituted text contains no occurrence of the pattern. */
  lemma NoOccurrenceAfterFix(s: string)
    ensures !Contains(FixPragma(s))
  {
    forall i | 0 <= i
      ensures !OccursAt(FixPragma(s), i)
    {
      if Covered(s, i) {
        var j :| OccursAt(s, j) && j <= i < j + |Pattern|;
        NoOccurrenceInsideReplacement(s, i, j);
      } else {
        NoOccurrenceAtCopied(s, i);
      }
    }
  }

  /** The text is changed exactly when it contains the pattern. */
  lemma ChangedIffContains(s: string)
    ensures FixPragma(s) != s <==> Contains(s)
  {
    if i :| OccursAt(s, i) {
      OccurrenceReplaced(s, i);
      ReplacedDiffers(s, FixPragma(s), i);
    } else {
      UnchangedWithout(s, FixPragma(s));
    }
  }

  /** A text holding the pattern where its rewrite holds the replacement
      differs from it. */
  lemma ReplacedDiffers(s: string, r: string, i: int)
    requires OccursAt(s, i) && i + |Pattern| <= |r| && r[i..i + |Pattern|] == Replacement
    ensures r != s
  {
    PatternReplacementDiffer();
    assert r[i..i + |Pattern|][16] != s[i..i + |Pattern|][16];
  }

  /** Without any occurrence every character is copied in place. */
  lemma UnchangedWithout(s: string, r: string)
    requires r == FixPragma(s) && !Contains(s)
    ensures r == s
  {
    forall i | 0 <= i < |s|
      ensures r[i] == s[i]
    {
      UncoveredCopied(s, i);
    }
  }

  /** A second run changes nothing (unconditional idempotence). */
  lemma FixPragmaIdempotent(s: string)
    ensures FixPragma(FixPragma(s)) == FixPragma(s)
  {
    NoOccurrenceAfterFix(s);
    ChangedIffContains(FixPragma(s));
  }

  /** A text shorter than the pattern is left as it is. */
  lemma {:induction false} ShortTextUnchanged(s: string)
    requires |s| < |Pattern|
    ensures FixPragma(s) == s
    decreases |s|
  {
    if s != [] {
      ShortTextUnchanged(s[1..]);
    }
  }

  /** A text that does not start with the pattern and whose tail the scan
      leaves alone is left alone. */
  lemma UnchangedAfterFirst(s: string)
    requires s != [] && !OccursAt(s, 0) && FixPragma(s[1..]) == s[1..]
    ensures FixPragma(s) == s
  {
    FixPragmaElsewhere(s);
    assert s == [s[0]] + s[1..];
  }

  /** A text as long as the pattern but different from it is left as it
      is. */
  lemma NearMissUnchanged(s: string)
    requires |s| == |Pattern| && s != Pattern
    ensures FixPragma(s) == s
  {
    NotPatternNoOccurrence(s);
    ShortTextUnchanged(s[1..]);
    UnchangedAfterFirst(s);
  }

  /** A text as long as the pattern but different from it does not start
      with it. */
  lemma NotPatternNoOccurrence(s: string)
    requires |s| == |Pattern| && s != Pattern
    ensures !OccursAt(s, 0)
  {
    assert s[0..|Pattern|] == s;
  }

  /** A text that starts with the pattern starts, once rewritten, with the
      replacement. */
  lemma FixPragmaAfterPattern(t: string)
    ensures FixPragma(Pattern + t) == Replacement + FixPragma(t)
  {
    var s := Pattern + t;
    assert s[..|Pattern|] == Pattern && s[|Pattern|..] == t;
    FixPragmaAtOccurrence(s);
  }

  /** The pinned pragma is rewritten, and near misses are not: another
      version, another operator, or other characters where the dots are. */
  lemma PragmaExamples()
    ensures FixPragma("pragma solidity =0.8.15;") == "pragma solidity ^0.8.20;"
    ensures FixPragma("pragma solidity ^0.8.19;") == "pragma solidity ^0.8.19;"
    ensures FixPragma("pragma solidity =0.8.16;") == "pragma solidity =0.8.16;"
    ensures FixPragma("pragma solidity =0x8y15;") == "pragma solidity =0x8y15;"
  {
    FixPragmaAfterPattern([]);
    assert Pattern + [] == Pattern && Replacement + [] == Replacement;
    NearMissUnchanged("pragma solidity ^0.8.19;");
    NearMissUnchanged("pragma solidity =0.8.16;");
    NearMissUnchanged("pragma solidity =0x8y15;");
  }

  /** A character other than `p` is copied, whatever follows it. */
  lemma OtherCharCopied(c: char, t: string)
    requires c != 'p'
    ensures FixPragma([c] + t) == [c] + FixPragma(t)
  {
    var s := [c] + t;
    assert s[0] == c;
    PatternLettersAfterFirst(1);
    assert s[1..] == t;
    FixPragmaElsewhere(s);
  }

  /** Two occurrences separated by a line break are both replaced in a
      single pass, whatever text follows. */
  lemma TwoPragmasExample(tail: string)
    ensures FixPragma(Pattern + "\n" + Pattern + tail) == Replacement + "\n" + Replacement + FixPragma(tail)
  {
    var inner := Pattern + tail;
    var t := "\n" + inner;
    calc {
      FixPragma(Pattern + "\n" + Pattern + tail);
      { assert Pattern + "\n" + Pattern + tail == Pattern + t; }
      FixPragma(Pattern + t);
      { FixPragmaAfterPattern(t); }
      Replacement + FixPragma(t);
      { OtherCharCopied('\n', inner); }
      Replacement + ("\n" + FixPragma(inner));
      { FixPragmaAfterPattern(tail); }
      Replacement + ("\n" + (Replacement + FixPragma(tail)));
      Replacement + "\n" + Replacement + FixPragma(tail);
    }
  }

  /** The script: walk the tree, rewrite every `.sol` file, write back and
      report exactly those that contain the pattern. */
  method FixPragmaInTree(files: map<string, string>, walk: seq<string>)
    returns (written: map<string, string>, reported: seq<string>)
    requires InTree(files, walk) && Distinct(walk)
    ensures written.Keys == files.Keys
    ensures forall p :: p in files ==>
      written[p] == if p in walk && IsSolidity(p) then FixPragma(files[p]) else files[p]
    ensures reported == ChangedPaths(files, walk, FixPragma)
    ensures forall p :: p in reported <==> p in walk && IsSolidity(p) && Contains(files[p])
    ensures Distinct(reported)
  {
    written, reported := RewriteTree(files, walk, FixPragma);
    RunEffect(files, walk, FixPragma);
    ChangedPathsMembers(files, walk, FixPragma);
    forall p | p in walk
      ensures Changes(files, p, FixPragma) <==> IsSolidity(p) && Contains(files[p])
    {
      ChangedIffContains(files[p]);
    }
  }

  /** Running the script twice in a row: the second run writes and reports
      nothing. */
  lemma RerunFixesNothing(files: map<string, string>, walk: seq<string>)
    requires InTree(files, walk) && Distinct(walk)
    ensures InTree(Run(files, walk, FixPragma).files, walk)
    ensures var once := Run(files, walk, FixPragma).files;
      Run(once, walk, FixPragma) == Outcome(once, [])
  {
    forall i | 0 <= i < |walk| && IsSolidity(walk[i])
      ensures FixPragma(FixPragma(files[walk[i]])) == FixPragma(files[walk[i]])
    {
      FixPragmaIdempotent(files[walk[i]]);
    }
    RerunIsNoOp(files, walk, FixPragma);
  }
}
