/** The revert-spacing script: in every `.sol` file under the tree, each
    custom-error revert written without a space, `revert` + an identifier
    that starts with an upper-case letter + `();`, gets a space after
    `revert`; files whose text changed are written back and reported.

    The substitution follows the regular expression
    `revert([A-Z][a-zA-Z0-9]*)\(\);` with replacement `revert \1();`,
    applied to all leftmost, non-overlapping matches in one left-to-right
    pass. The walk and write-back loop are in the FixRevertScript module. */
module FixRevert {

  datatype Option<T> = None | Some(value: T)

  const Keyword := "revert"
  const Call := "();"

  /** The character classes of the pattern, ASCII only: `[A-Z]` and
      `[a-zA-Z0-9]`. */
  predicate IsUpper(c: char) {
    'A' <= c <= 'Z'
  }

  predicate IsAlnum(c: char) {
    'a' <= c <= 'z' || 'A' <= c <= 'Z' || '0' <= c <= '9'
  }

  /** A text the capturing group `[A-Z][a-zA-Z0-9]*` can capture. */
  predicate IsIdentifier(id: string) {
    1 <= |id| && IsUpper(id[0]) && forall j :: 0 <= j < |id| ==> IsAlnum(id[j])
  }

  /** The pattern matches at the start of `s` and captures an identifier of
      length `k`: `revert`, then `k` letters or digits of which the first is
      upper-case, then `();`. This is what the regular expression accepts at
      one position, for any split the backtracking engine could try. */
  ghost predicate MatchOf(s: string, k: int) {
    && 1 <= k && |Keyword| + k + |Call| <= |s|
    && s[..|Keyword|] == Keyword
    && IsUpper(s[|Keyword|])
    && (forall j :: |Keyword| <= j < |Keyword| + k ==> IsAlnum(s[j]))
    && s[|Keyword| + k..|Keyword| + k + |Call|] == Call
  }

  /** The pattern matches somewhere in `s`. */
  ghost predicate HasMatch(s: string) {
    exists i, k :: 0 <= i <= |s| && MatchOf(s[i..], k)
  }

  /** `revert` immediately followed by an upper-case letter starts at index
      `i` of `s`. */
  ghost predicate KeywordAt(s: string, i: int) {
    0 <= i && i + |Keyword| + 1 <= |s| && s[i..i + |Keyword|] == Keyword && IsUpper(s[i + |Keyword|])
  }

  /** `s` holds `revert` immediately followed by an upper-case letter. */
  ghost predicate NestsKeyword(s: string) {
    exists i :: KeywordAt(s, i)
  }

  /** The length of the longest run of letters and digits that starts `s`. */
  function RunLength(s: string): (n: nat)
    ensures n <= |s|
    ensures forall j :: 0 <= j < n ==> IsAlnum(s[j])
    ensures n == |s| || !IsAlnum(s[n])
  {
    if s == [] || !IsAlnum(s[0]) then 0 else 1 + RunLength(s[1..])
  }

  /** The identifier length of the match at the start of `s`, if there is
      one: the whole run of letters and digits after `revert`, provided
      `();` follows it. */
  function MatchAt(s: string): (r: Option<nat>)
    ensures r.Some? ==> 1 <= r.value && |Keyword| + r.value + |Call| <= |s|
  {
    if |Keyword| + 1 <= |s| && s[..|Keyword|] == Keyword && IsUpper(s[|Keyword|]) then
      var k := RunLength(s[|Keyword|..]);
      if |Keyword| + k + |Call| <= |s| && s[|Keyword| + k..|Keyword| + k + |Call|] == Call then
        Some(k)
      else
        None
    else
      None
  }

  /** The scanner's test agrees with the pattern: it reports a match exactly
      when the regular expression matches at the start of `s`, with the
      identifier the regular expression captures. That identifier is unique:
      `(` cannot extend the run of letters and digits, so no shorter run can
      be followed by `();`, and backtracking finds no other match. */
  lemma MatchAtIsMatchOf(s: string)
    ensures forall k :: MatchOf(s, k) <==> MatchAt(s) == Some(k)
  {
    if |Keyword| + 1 <= |s| && s[..|Keyword|] == Keyword && IsUpper(s[|Keyword|]) {
      var t := s[|Keyword|..];
      var k := RunLength(t);
      assert forall j :: 0 <= j < |t| ==> t[j] == s[|Keyword| + j];
      forall m | MatchOf(s, m)
        ensures m == k
      {
        assert s[|Keyword| + m] == s[|Keyword| + m..|Keyword| + m + |Call|][0];
      }
    }
  }

  /** The replacement text for a captured identifier: `revert \1();`. */
  function Spaced(id: string): string {
    Keyword + " " + id + Call
  }

  /** The substitution: at each position either a match starts there and
      is replaced by `revert `, the same identifier and `();`, scanning
      resuming after the `;`, or one character is copied. Each replacement
      is one character longer than its match. */
  function FixReverts(s: string): (r: string)
    decreases |s|
  {
    if s == [] then
      []
    else
      match MatchAt(s)
      case Some(k) =>
        Spaced(s[|Keyword|..|Keyword| + k]) + FixReverts(s[|Keyword| + k + |Call|..])
      case None =>
        [s[0]] + FixReverts(s[1..])
  }

  /** The identifiers the substitution captures, in order. Each fits the
      pattern's group. */
  function Captures(s: string): (ids: seq<string>)
    decreases |s|
  {
    if s == [] then
      []
    else
      match MatchAt(s)
      case Some(k) =>
        [s[|Keyword|..|Keyword| + k]] + Captures(s[|Keyword| + k + |Call|..])
      case None =>
        Captures(s[1..])
  }

  /** A match captures an identifier the pattern's group accepts. */
  lemma MatchedIdentifier(s: string)
    requires MatchAt(s).Some?
    ensures IsIdentifier(s[|Keyword|..|Keyword| + MatchAt(s).value])
  {
    var k := MatchAt(s).value;
    var id := s[|Keyword|..|Keyword| + k];
    assert forall j :: 0 <= j < k ==> id[j] == s[|Keyword|..][j];
  }

  /** Every captured text is an identifier the pattern's group accepts. */
  lemma {:induction false} CapturesAreIdentifiers(s: string)
    ensures forall j :: 0 <= j < |Captures(s)| ==> IsIdentifier(Captures(s)[j])
    decreases |s|
  {
    if s != [] {
      match MatchAt(s)
      case Some(k) =>
        MatchedIdentifier(s);
        CapturesAreIdentifiers(s[9 + k..]);
      case None =>
        CapturesAreIdentifiers(s[1..]);
    }
  }

  /** The output is one character longer than the input for each capture:
      the space inserted after `revert`. */
  lemma {:induction false} FixRevertsLength(s: string)
    ensures |FixReverts(s)| == |s| + |Captures(s)|
    decreases |s|
  {
    if s != [] {
      match MatchAt(s)
      case Some(k) =>
        FixRevertsAtSome(s, k);
        CapturesAtSome(s, k);
        FixRevertsLength(s[9 + k..]);
      case None =>
        FixRevertsAtNone(s);
        CapturesAtNone(s);
        FixRevertsLength(s[1..]);
    }
  }

  /** Where the scanner finds a match, the definitions' first case. */
  lemma FixRevertsAtSome(s: string, k: int)
    requires MatchAt(s) == Some(k)
    ensures FixReverts(s) == Spaced(s[6..6 + k]) + FixReverts(s[9 + k..])
  {
  }

  lemma CapturesAtSome(s: string, k: int)
    requires MatchAt(s) == Some(k)
    ensures Captures(s) == [s[6..6 + k]] + Captures(s[9 + k..])
  {
  }

  /** Where the scanner finds no match, the definitions' second case. */
  lemma FixRevertsAtNone(s: string)
    requires s != [] && MatchAt(s).None?
    ensures FixReverts(s) == [s[0]] + FixReverts(s[1..])
  {
  }

  lemma CapturesAtNone(s: string)
    requires s != [] && MatchAt(s).None?
    ensures Captures(s) == Captures(s[1..])
  {
  }

  /** At a match, the output starts with `revert `, the identifier character
      for character, and `();`, and scanning resumes right after the match. */
  lemma FixRevertsAtMatch(s: string, k: int)
    requires MatchOf(s, k)
    ensures FixReverts(s) == Spaced(s[6..6 + k]) + FixReverts(s[9 + k..])
    ensures Captures(s) == [s[6..6 + k]] + Captures(s[9 + k..])
  {
    MatchOfIsSome(s, k);
    FixRevertsAtSome(s, k);
    CapturesAtSome(s, k);
  }

  /** A match the pattern accepts is the one the scanner finds. */
  lemma MatchOfIsSome(s: string, k: int)
    requires MatchOf(s, k)
    ensures MatchAt(s) == Some(k)
  {
    MatchAtIsMatchOf(s);
  }

  /** Where no match starts, one character is copied. */
  lemma FixRevertsElsewhere(s: string)
    requires s != [] && forall k :: !MatchOf(s, k)
    ensures FixReverts(s) == [s[0]] + FixReverts(s[1..])
    ensures Captures(s) == Captures(s[1..])
  {
    assert MatchAt(s).None? by {
      MatchAtIsMatchOf(s);
    }
    FixRevertsAtNone(s);
    CapturesAtNone(s);
  }

  /** The four parts of a concatenation are its slices. */
  lemma Parts(a: string, b: string, c: string, d: string)
    ensures (a + b + c + d)[..|a|] == a
    ensures (a + b + c + d)[|a|..|a| + |b|] == b
    ensures (a + b + c + d)[|a| + |b|..|a| + |b| + |c|] == c
    ensures (a + b + c + d)[|a| + |b| + |c|..] == d
    ensures forall j :: |a| <= j < |a| + |b| ==> (a + b + c + d)[j] == b[j - |a|]
  {
  }

  /** A call with the identifier glued to `revert` is rewritten with the
      space. */
  lemma FixRevertsOfCall(id: string, tail: string)
    requires IsIdentifier(id)
    ensures FixReverts(Keyword + id + Call + tail) == Keyword + " " + id + Call + FixReverts(tail)
    ensures Captures(Keyword + id + Call + tail) == [id] + Captures(tail)
  {
    var s := Keyword + id + Call + tail;
    var k := |id|;
    assert s[6..6 + k] == id && s[9 + k..] == tail by {
      Parts(Keyword, id, Call, tail);
    }
    CallMatches(id, tail);
    FixRevertsAtMatch(s, k);
  }

  /** `revert`, an identifier and `();` match, whatever follows. */
  lemma CallMatches(id: string, tail: string)
    requires IsIdentifier(id)
    ensures MatchOf(Keyword + id + Call + tail, |id|)
  {
    Parts(Keyword, id, Call, tail);
  }

  /** Concatenation is associative. */
  lemma Associative(a: string, b: string, c: string)
    ensures a + (b + c) == (a + b) + c
  {
  }

  /** No match starts at index `i` of `s`. */
  predicate Unmatched(s: string, i: int)
    requires 0 <= i <= |s|
  {
    MatchAt(s[i..]).None?
  }

  /** Scanning copies every character before the first match. */
  lemma {:induction false} CopyPrefix(s: string, n: int)
    requires 0 <= n <= |s|
    requires forall i :: 0 <= i < n ==> Unmatched(s, i)
    ensures FixReverts(s) == s[..n] + FixReverts(s[n..])
    ensures Captures(s) == Captures(s[n..])
    decreases n
  {
    if n > 0 {
      CopyPrefix(s, n - 1);
      CopyOne(s, n, FixReverts(s), Captures(s));
    }
  }

  /** One more character before the first match is copied. */
  lemma CopyOne(s: string, n: int, out: string, ids: seq<string>)
    requires 0 < n <= |s| && Unmatched(s, n - 1)
    requires out == s[..n - 1] + FixReverts(s[n - 1..])
    requires ids == Captures(s[n - 1..])
    ensures out == s[..n] + FixReverts(s[n..])
    ensures ids == Captures(s[n..])
  {
    var v := s[n - 1..];
    var w := FixReverts(s[n..]);
    assert v[1..] == s[n..];
    FixRevertsAtNone(v);
    CapturesAtNone(v);
    Associative(s[..n - 1], [s[n - 1]], w);
    assert s[..n - 1] + [s[n - 1]] == s[..n];
  }

  /** The first index before `n` at which a match starts, or `n`. */
  lemma FirstMatch(s: string, n: int) returns (j: int)
    requires 0 <= n <= |s|
    ensures 0 <= j <= n
    ensures forall i :: 0 <= i < j ==> Unmatched(s, i)
    ensures j < n ==> !Unmatched(s, j)
  {
    j := 0;
    while j < n && Unmatched(s, j)
      invariant 0 <= j <= n
      invariant forall i :: 0 <= i < j ==> Unmatched(s, i)
    {
      j := j + 1;
    }
  }

  /** Whether a match starts at the beginning of a text depends only on the
      characters the match would span. */
  lemma MatchOfPrefix(s: string, t: string, k: int)
    requires 1 <= k && 9 + k <= |s| && 9 + k <= |t| && s[..9 + k] == t[..9 + k]
    ensures MatchOf(s, k) <==> MatchOf(t, k)
  {
    assert forall j :: 0 <= j < 9 + k ==> s[j] == s[..9 + k][j] && t[j] == t[..9 + k][j];
    assert s[..6] == s[..9 + k][..6] && t[..6] == t[..9 + k][..6];
    assert s[6 + k..9 + k] == s[..9 + k][6 + k..] && t[6 + k..9 + k] == t[..9 + k][6 + k..];
  }

  /** A match cannot span the start of `revert ` (with its space): the
      space, or the `(` of the match's `();` falling on a letter, or a
      letter falling on `();`, breaks it. */
  lemma ReplacementBreaksMatch(u: string, m: int, q: int)
    requires 0 <= q < 9 + m && q + 7 <= |u| && u[q..q + 7] == Keyword + " "
    ensures !MatchOf(u, m)
  {
    if 1 <= m && 9 + m <= |u| {
      var w := u[q..q + 7];
      var call := u[6 + m..9 + m];
      if q + 6 < 6 + m {
        // The space falls inside the identifier.
        assert u[q + 6] == w[6] == ' ';
        assert !IsAlnum(u[q + 6]);
      } else if q < 6 + m {
        // A letter of `revert ` or its space falls on the `(`.
        assert call[0] == u[6 + m] == w[6 + m - q];
      } else {
        // The `r` falls on `);` or `;`.
        assert call[q - (6 + m)] == u[q] == w[0];
      }
    }
  }

  /** Before its first match a text is copied to the output unchanged. */
  lemma CopiedUpTo(t: string, n: int)
    requires 0 <= n <= |t| && forall i :: 0 <= i < n ==> Unmatched(t, i)
    ensures n <= |FixReverts(t)| && FixReverts(t)[..n] == t[..n]
  {
    CopyPrefix(t, n);
  }

  /** The first match of a text becomes `revert ` and so on at the same
      index of the output. */
  lemma ReplacementAtFirstMatch(t: string, j: int)
    requires 0 <= j < |t| && forall i :: 0 <= i < j ==> Unmatched(t, i)
    requires !Unmatched(t, j)
    ensures j + 7 <= |FixReverts(t)| && FixReverts(t)[j..j + 7] == Keyword + " "
  {
    var v := t[j..];
    CopyPrefix(t, j);
    ReplacementFirst(v);
    SliceAfter(t[..j], FixReverts(v), 0, 7);
  }

  /** A text with a match at its start is rewritten to a text that starts
      with `revert ` (with its space). */
  lemma ReplacementFirst(v: string)
    requires MatchAt(v).Some?
    ensures 7 <= |FixReverts(v)| && FixReverts(v)[..7] == Keyword + " "
  {
    var k := MatchAt(v).value;
    FixRevertsAtSome(v, k);
    SpacedStart(v[6..6 + k], FixReverts(v[9 + k..]));
  }

  /** A replacement starts with `revert ` (with its space). */
  lemma SpacedStart(id: string, w: string)
    ensures 7 <= |Spaced(id) + w| && (Spaced(id) + w)[..7] == Keyword + " "
  {
  }

  /** A slice of `b` is the same slice of `a + b`, shifted by `|a|`. */
  lemma SliceAfter(a: string, b: string, i: int, j: int)
    requires 0 <= i <= j <= |b|
    ensures (a + b)[|a| + i..|a| + j] == b[i..j]
  {
  }

  /** A text without any match is copied whole. */
  lemma CopyAll(t: string)
    requires forall i :: 0 <= i < |t| ==> Unmatched(t, i)
    ensures FixReverts(t) == t
  {
    CopyPrefix(t, |t|);
    assert t[|t|..] == [] && t[..|t|] == t;
  }

  /** Putting a character in front of two texts that agree on their first
      `8 + m` characters: a match with an identifier of length `m` at the
      start of one is a match at the start of the other. */
  lemma CopiedWindow(c: char, w: string, t: string, m: int)
    requires 1 <= m && 8 + m <= |t| && 8 + m <= |w| && w[..8 + m] == t[..8 + m]
    ensures MatchOf([c] + w, m) ==> MatchOf([c] + t, m)
  {
    var n := 8 + m;
    assert ([c] + w)[..n + 1] == [c] + w[..n];
    assert ([c] + t)[..n + 1] == [c] + t[..n];
    MatchOfPrefix([c] + w, [c] + t, m);
  }

  /** A character in front of `revert ` (with its space) at index `j`
      breaks any match at the start that would span it. */
  lemma ShiftedReplacement(c: char, w: string, j: int, m: int)
    requires 0 <= j < 8 + m && j + 7 <= |w| && w[j..j + 7] == Keyword + " "
    ensures !MatchOf([c] + w, m)
  {
    SliceAfter([c], w, j, j + 7);
    ReplacementBreaksMatch([c] + w, m, 1 + j);
  }

  /** Copying the first character of a text that has no match at its start
      does not create a match at the start of the output. */
  lemma NoMatchAtCopiedStart(s: string, m: int)
    requires s != [] && forall k :: !MatchOf(s, k)
    ensures !MatchOf([s[0]] + FixReverts(s[1..]), m)
  {
    var t := s[1..];
    assert [s[0]] + t == s;
    if 1 <= m && 9 + m <= 1 + |FixReverts(t)| {
      var n := if 8 + m < |t| then 8 + m else |t|;
      var j := FirstMatch(t, n);
      if j < n {
        // The first match of the rest becomes `revert ` inside the window.
        ReplacementAtFirstMatch(t, j);
        ShiftedReplacement(s[0], FixReverts(t), j, m);
      } else if n == |t| {
        // No match at all in the rest: the output is the input.
        CopyAll(t);
      } else {
        // The window is copied, so it matches no more than the input does.
        CopiedUpTo(t, 8 + m);
        CopiedWindow(s[0], FixReverts(t), t, m);
      }
    }
  }

  /** A text that does not start with `r` has no match at its start. */
  lemma FirstCharBreaksMatch(v: string, m: int)
    requires v != [] && v[0] != 'r'
    ensures !MatchOf(v, m)
  {
    if 7 <= |v| {
      assert v[..6][0] == v[0];
    }
  }

  /** A `(` among the first seven characters breaks a match at the start:
      they must be `revert` and an upper-case letter. */
  lemma ParenBreaksMatch(v: string, d: int, m: int)
    requires 0 <= d < 7 && d < |v| && v[d] == '('
    ensures !MatchOf(v, m)
  {
    if 7 <= |v| && d < 6 {
      assert v[..6][d] == v[d];
    }
  }

  /** No match starts inside `revert ` (with its space). */
  lemma NoMatchInSpacedKeyword(u: string, i: int, m: int)
    requires 0 <= i < 7 && 7 <= |u| && u[..7] == Keyword + " "
    ensures !MatchOf(u[i..], m)
  {
    var v := u[i..];
    assert forall j :: 0 <= j < 7 ==> u[j] == u[..7][j];
    if i == 0 {
      assert v[6] == ' ';
    } else if i == 4 {
      if 7 <= |v| {
        assert v[..6][1] == u[5];
      }
    } else {
      FirstCharBreaksMatch(v, m);
    }
  }

  /** A match starting inside an identifier, with `revert` and the letter
      after it inside it too, would put `revert` and an upper-case letter
      into the identifier. */
  lemma NoMatchInsideIdentifier(u: string, id: string, i: int, m: int)
    requires 7 + |id| <= |u| && u[7..7 + |id|] == id
    requires 7 <= i && i + 7 <= 7 + |id| && !KeywordAt(id, i - 7)
    ensures !MatchOf(u[i..], m)
  {
    var v := u[i..];
    var j := i - 7;
    if 7 <= |v| {
      assert forall t :: 0 <= t < 7 ==> v[t] == id[j + t];
      assert v[..6] == id[j..j + 6];
    }
  }

  /** In `revert `, identifier, `();` followed by anything, no match starts
      before the end of `();`, unless the identifier itself holds `revert`
      followed by an upper-case letter. */
  lemma NoMatchInReplacement(id: string, tail: string, i: int, m: int)
    requires IsIdentifier(id) && !NestsKeyword(id)
    requires 0 <= i < 10 + |id|
    ensures !MatchOf((Keyword + " " + id + Call + tail)[i..], m)
  {
    var u := Keyword + " " + id + Call + tail;
    var n := |id|;
    assert u[..7] == Keyword + " " && u[7..7 + n] == id && u[7 + n..10 + n] == Call by {
      Parts(Keyword + " ", id, Call, tail);
    }
    if i < 7 {
      NoMatchInSpacedKeyword(u, i, m);
    } else if i + 7 <= 7 + n {
      NoMatchInsideIdentifier(u, id, i, m);
    } else if i < 7 + n {
      // The `(` after the identifier falls on `revert` or on the letter.
      assert u[7 + n] == u[7 + n..10 + n][0];
      assert u[i..][7 + n - i] == '(';
      ParenBreaksMatch(u[i..], 7 + n - i, m);
    } else {
      assert u[i] == u[7 + n..10 + n][i - (7 + n)];
      assert u[i..][0] == u[i];
      FirstCharBreaksMatch(u[i..], m);
    }
  }

  /** Every captured identifier of `s` is free of `revert` followed by an
      upper-case letter. */
  ghost predicate CleanCaptures(s: string) {
    Clean(Captures(s))
  }

  /** No identifier of the list holds `revert` followed by an upper-case
      letter. */
  ghost predicate Clean(ids: seq<string>) {
    forall j :: 0 <= j < |ids| ==> !NestsKeyword(ids[j])
  }

  /** The head and the tail of a clean list are clean. */
  lemma CleanParts(id: string, ids: seq<string>)
    requires Clean([id] + ids)
    ensures !NestsKeyword(id) && Clean(ids)
  {
    assert ([id] + ids)[0] == id;
    assert forall j :: 0 <= j < |ids| ==> ids[j] == ([id] + ids)[j + 1];
  }

  /** A replacement whose identifier does not nest `revert` and an upper-case
      letter, followed by a text without a match, has no match. */
  lemma NoMatchAfterReplacement(id: string, w: string)
    requires IsIdentifier(id) && !NestsKeyword(id) && !HasMatch(w)
    ensures !HasMatch(Keyword + " " + id + Call + w)
  {
    var u := Keyword + " " + id + Call + w;
    forall i, m | 0 <= i <= |u|
      ensures !MatchOf(u[i..], m)
    {
      if i < 10 + |id| {
        NoMatchInReplacement(id, w, i, m);
      } else {
        assert u[i..] == w[i - (10 + |id|)..];
      }
    }
  }

  /** A character copied in front of an output without a match, from a
      text with no match at its start, leaves no match. */
  lemma NoMatchAfterCopy(s: string)
    requires s != [] && forall k :: !MatchOf(s, k)
    requires !HasMatch(FixReverts(s[1..]))
    ensures !HasMatch([s[0]] + FixReverts(s[1..]))
  {
    var w := FixReverts(s[1..]);
    var u := [s[0]] + w;
    forall i, m | 0 <= i <= |u|
      ensures !MatchOf(u[i..], m)
    {
      if i == 0 {
        NoMatchAtCopiedStart(s, m);
      } else {
        assert u[i..] == w[i - 1..];
      }
    }
  }

  /** After one pass, the output has no match, provided no captured
      identifier holds `revert` followed by an upper-case letter. */
  lemma {:induction false} NoMatchAfterFix(s: string)
    requires CleanCaptures(s)
    ensures !HasMatch(FixReverts(s))
    decreases |s|
  {
    if s != [] {
      match MatchAt(s)
      case Some(k) =>
        CleanAfterMatch(s, k);
        NoMatchAfterFix(s[9 + k..]);
        NoMatchAfterFixAtMatch(s, k);
      case None =>
        CleanAfterCopy(s);
        NoMatchAfterFix(s[1..]);
        NoMatchAfterFixElsewhere(s);
    }
  }

  /** The captures after a match are the remaining ones, and so clean. */
  lemma CleanAfterMatch(s: string, k: int)
    requires MatchAt(s) == Some(k) && CleanCaptures(s)
    ensures CleanCaptures(s[9 + k..])
    ensures !NestsKeyword(s[6..6 + k])
  {
    CapturesAtSome(s, k);
    CleanParts(s[6..6 + k], Captures(s[9 + k..]));
  }

  /** Copying a character keeps the captures, and so they stay clean. */
  lemma CleanAfterCopy(s: string)
    requires s != [] && MatchAt(s).None? && CleanCaptures(s)
    ensures CleanCaptures(s[1..])
  {
    CapturesAtNone(s);
  }

  /** A clean match followed by an output without a match leaves none. */
  lemma NoMatchAfterFixAtMatch(s: string, k: int)
    requires MatchAt(s) == Some(k) && !NestsKeyword(s[6..6 + k])
    requires !HasMatch(FixReverts(s[9 + k..]))
    ensures !HasMatch(FixReverts(s))
  {
    MatchedIdentifier(s);
    FixRevertsAtSome(s, k);
    NoMatchAfterReplacement(s[6..6 + k], FixReverts(s[9 + k..]));
  }

  /** A copied character followed by an output without a match leaves
      none. */
  lemma NoMatchAfterFixElsewhere(s: string)
    requires s != [] && MatchAt(s).None?
    requires !HasMatch(FixReverts(s[1..]))
    ensures !HasMatch(FixReverts(s))
  {
    assert forall k :: !MatchOf(s, k) by {
      MatchAtIsMatchOf(s);
    }
    FixRevertsAtNone(s);
    NoMatchAfterCopy(s);
  }

  /** A match in `b` is a match in `a + b`. */
  lemma HasMatchAfter(a: string, b: string)
    requires HasMatch(b)
    ensures HasMatch(a + b)
  {
    var i, k :| 0 <= i <= |b| && MatchOf(b[i..], k);
    assert (a + b)[|a| + i..] == b[i..];
  }

  /** An identifier that holds `revert` followed by an upper-case letter
      leaves a match inside its own replacement: the nested `revert`, the
      rest of the identifier and the `();` after it. */
  lemma NestedInReplacement(id: string, tail: string)
    requires IsIdentifier(id) && NestsKeyword(id)
    ensures HasMatch(Keyword + " " + id + Call + tail)
  {
    var u := Keyword + " " + id + Call + tail;
    var p :| KeywordAt(id, p);
    var x := id[p + 6..];
    assert IsIdentifier(x) by {
      assert forall j :: 0 <= j < |x| ==> x[j] == id[p + 6 + j];
    }
    assert u[7 + p..] == Keyword + x + Call + tail by {
      assert u[7..] == id + Call + tail;
      assert (id + Call + tail)[p..] == id[p..] + Call + tail;
      assert id[p..] == id[p..p + 6] + x;
    }
    CallMatches(x, tail);
  }

  /** A captured identifier that holds `revert` followed by an upper-case
      letter leaves a match in the output. */
  lemma {:induction false} NestedKeywordSurvives(s: string, j: int)
    requires 0 <= j < |Captures(s)| && NestsKeyword(Captures(s)[j])
    ensures HasMatch(FixReverts(s))
    decreases |s|
  {
    if s != [] {
      match MatchAt(s)
      case Some(k) =>
        if j == 0 {
          NestedAtMatch(s, k);
        } else {
          LaterCapture(s, k, j);
          NestedKeywordSurvives(s[9 + k..], j - 1);
          MatchAfterReplacement(s, k);
        }
      case None =>
        CapturesAtNone(s);
        assert Captures(s[1..])[j] == Captures(s)[j];
        NestedKeywordSurvives(s[1..], j);
        MatchAfterCopy(s);
    }
  }

  /** A match whose identifier nests `revert` and an upper-case letter
      leaves a match in its replacement. */
  lemma NestedAtMatch(s: string, k: int)
    requires MatchAt(s) == Some(k) && 0 < |Captures(s)| && NestsKeyword(Captures(s)[0])
    ensures HasMatch(FixReverts(s))
  {
    CapturesAtSome(s, k);
    MatchedIdentifier(s);
    FixRevertsAtSome(s, k);
    NestedInReplacement(s[6..6 + k], FixReverts(s[9 + k..]));
  }

  /** The captures after the first match's are those of the rest. */
  lemma LaterCapture(s: string, k: int, j: int)
    requires MatchAt(s) == Some(k) && 0 < j < |Captures(s)|
    ensures j - 1 < |Captures(s[9 + k..])| && Captures(s[9 + k..])[j - 1] == Captures(s)[j]
  {
    CapturesAtSome(s, k);
  }

  /** A match in the output after a replacement is a match in the output. */
  lemma MatchAfterReplacement(s: string, k: int)
    requires MatchAt(s) == Some(k) && HasMatch(FixReverts(s[9 + k..]))
    ensures HasMatch(FixReverts(s))
  {
    FixRevertsAtSome(s, k);
    HasMatchAfter(Spaced(s[6..6 + k]), FixReverts(s[9 + k..]));
  }

  /** A match in the output after a copied character is a match in the
      output. */
  lemma MatchAfterCopy(s: string)
    requires s != [] && MatchAt(s).None? && HasMatch(FixReverts(s[1..]))
    ensures HasMatch(FixReverts(s))
  {
    FixRevertsAtNone(s);
    HasMatchAfter([s[0]], FixReverts(s[1..]));
  }

  /** The output has at least one capture exactly when the input has a
      match anywhere. */
  lemma {:induction false} CapturesIffMatch(s: string)
    ensures Captures(s) != [] <==> HasMatch(s)
    decreases |s|
  {
    if s == [] {
      assert !HasMatch(s) by {
        forall i, k | 0 <= i <= |s| ensures !MatchOf(s[i..], k) {}
      }
    } else {
      match MatchAt(s)
      case Some(k) =>
        CapturesAtSome(s, k);
        MatchAtStart(s, k);
      case None =>
        CapturesAtNone(s);
        CapturesIffMatch(s[1..]);
        MatchIffInRest(s);
    }
  }

  /** A match the scanner finds is a match of the pattern. */
  lemma MatchAtStart(s: string, k: int)
    requires MatchAt(s) == Some(k)
    ensures HasMatch(s)
  {
    MatchAtIsMatchOf(s);
    assert MatchOf(s[0..], k) by {
      assert s[0..] == s;
    }
  }

  /** Without a match at its start, a text has a match exactly when the
      text after its first character has one. */
  lemma MatchIffInRest(s: string)
    requires s != [] && MatchAt(s).None?
    ensures HasMatch(s) <==> HasMatch(s[1..])
  {
    MatchAtIsMatchOf(s);
    assert s[0..] == s;
    if HasMatch(s) {
      var i, k :| 0 <= i <= |s| && MatchOf(s[i..], k);
      assert s[1..][i - 1..] == s[i..];
    }
    if HasMatch(s[1..]) {
      HasMatchAfter([s[0]], s[1..]);
      assert [s[0]] + s[1..] == s;
    }
  }

  /** The text is left as it is exactly when nothing is captured. */
  lemma {:induction false} UnchangedIffNoCapture(s: string)
    ensures FixReverts(s) == s <==> Captures(s) == []
    decreases |s|
  {
    FixRevertsLength(s);
    if s != [] && Captures(s) == [] {
      match MatchAt(s)
      case None =>
        UnchangedIffNoCapture(s[1..]);
        assert [s[0]] + s[1..] == s;
    }
  }

  /** The text changes exactly when the pattern matches somewhere in it. */
  lemma ChangedIffMatch(s: string)
    ensures FixReverts(s) != s <==> HasMatch(s)
  {
    UnchangedIffNoCapture(s);
    CapturesIffMatch(s);
  }

  /** A second pass changes nothing exactly when no captured identifier
      holds `revert` followed by an upper-case letter. */
  lemma FixRevertsIdempotentIff(s: string)
    ensures FixReverts(FixReverts(s)) == FixReverts(s) <==> CleanCaptures(s)
  {
    ChangedIffMatch(FixReverts(s));
    if CleanCaptures(s) {
      NoMatchAfterFix(s);
    } else {
      var j :| 0 <= j < |Captures(s)| && NestsKeyword(Captures(s)[j]);
      NestedKeywordSurvives(s, j);
    }
  }

  /** A call already written with the space is left as it is, provided its
      identifier does not itself hold `revert` followed by an upper-case
      letter. */
  lemma SpacedCallUnchanged(id: string, tail: string)
    requires IsIdentifier(id) && !NestsKeyword(id)
    ensures FixReverts(Keyword + " " + id + Call + tail) == Keyword + " " + id + Call + FixReverts(tail)
    ensures Captures(Keyword + " " + id + Call + tail) == Captures(tail)
  {
    var u := Keyword + " " + id + Call + tail;
    var n := 10 + |id|;
    forall i | 0 <= i < n
      ensures Unmatched(u, i)
    {
      MatchAtIsMatchOf(u[i..]);
      forall m | true
        ensures !MatchOf(u[i..], m)
      {
        NoMatchInReplacement(id, tail, i, m);
      }
    }
    CopyPrefix(u, n);
    assert u[..n] == Keyword + " " + id + Call && u[n..] == tail;
  }

  /** A text without `revert` followed by an upper-case letter is left as it
      is. */
  lemma NoKeywordUnchanged(s: string)
    requires !NestsKeyword(s)
    ensures FixReverts(s) == s && Captures(s) == []
  {
    forall i, k | 0 <= i <= |s| && MatchOf(s[i..], k)
      ensures KeywordAt(s, i)
    {
      assert s[i..][..6] == s[i..i + 6];
    }
    ChangedIffMatch(s);
    UnchangedIffNoCapture(s);
  }

  /** No match starts inside `revert` when the character after it is not
      an upper-case letter. */
  lemma NoMatchInUnmatchedKeyword(rest: string, i: int)
    requires rest == [] || !IsUpper(rest[0])
    requires 0 <= i < 6
    ensures MatchAt((Keyword + rest)[i..]).None?
  {
    var u := Keyword + rest;
    var v := u[i..];
    if 7 <= |v| {
      if i == 0 {
        assert v[6] == rest[0];
      } else {
        assert v[..6][0] == u[i] == Keyword[i];
        if i == 4 {
          assert v[..6][1] == u[5] == 't';
        }
      }
    }
  }

  /** `revert` not followed by an upper-case letter (a space, a lower-case
      letter, `(`, or the end of the text) is copied, whatever follows. */
  lemma UnmatchedKeywordCopied(rest: string)
    requires rest == [] || !IsUpper(rest[0])
    ensures FixReverts(Keyword + rest) == Keyword + FixReverts(rest)
    ensures Captures(Keyword + rest) == Captures(rest)
  {
    var u := Keyword + rest;
    forall i | 0 <= i < 6
      ensures Unmatched(u, i)
    {
      NoMatchInUnmatchedKeyword(rest, i);
    }
    CopyPrefix(u, 6);
    assert u[..6] == Keyword && u[6..] == rest;
  }

  /** A character other than `r` is copied, whatever follows it. */
  lemma OtherCharCopied(c: char, rest: string)
    requires c != 'r'
    ensures FixReverts([c] + rest) == [c] + FixReverts(rest)
    ensures Captures([c] + rest) == Captures(rest)
  {
    var u := [c] + rest;
    assert u[1..] == rest;
    if 7 <= |u| {
      assert u[..6][0] == c;
    }
  }

  /** A call already written with the space is left as it is, provided its
      identifier does not itself hold `revert` followed by an upper-case
      letter: the identifier `AlreadySet` of `revert AlreadySet();`. */
  lemma SpacedCallExample(tail: string)
    ensures FixReverts(Keyword + " " + "AlreadySet" + Call + tail)
         == Keyword + " " + "AlreadySet" + Call + FixReverts(tail)
  {
    var id := "AlreadySet";
    assert !NestsKeyword(id) by {
      forall i | 0 <= i && i + 7 <= |id|
        ensures !KeywordAt(id, i)
      {
        var w := id[i..i + 6];
        assert w[0] == id[i] && w[1] == id[i + 1] && w[2] == id[i + 2];
      }
    }
    SpacedCallUnchanged(id, tail);
  }

  /** A `(` that `)` does not follow, with only letters and digits between
      the end of `revert` and it, breaks a match at the start: the run of
      the match would have to end at that `(`, where `();` cannot follow. */
  lemma OpenParenBreaksMatch(v: string, d: int, m: int)
    requires 0 <= d < |v| && v[d] == '('
    requires d + 1 == |v| || v[d + 1] != ')'
    requires forall j :: |Keyword| <= j < d ==> IsAlnum(v[j])
    ensures !MatchOf(v, m)
  {
    if d < |Keyword| {
      // The `(` falls on `revert`.
      if |Keyword| <= |v| {
        assert v[..|Keyword|][d] == '(';
      }
    } else if 1 <= m && |Keyword| + m + |Call| <= |v| {
      if d < |Keyword| + m {
        // The `(` falls inside the run.
        assert !IsAlnum(v[d]);
      } else if d == |Keyword| + m {
        // Something other than `)` follows the `(`.
        assert v[d..d + |Call|][1] == v[d + 1];
      } else {
        // A letter or digit falls on the `(` of `();`.
        assert IsAlnum(v[|Keyword| + m]);
        assert v[|Keyword| + m..|Keyword| + m + |Call|][0] == v[|Keyword| + m];
      }
    }
  }

  /** In `revert`, an identifier and a `(` that `)` does not follow, no
      match starts before the arguments. */
  lemma NoMatchBeforeArguments(id: string, args: string, i: int)
    requires IsIdentifier(id)
    requires args == [] || args[0] != ')'
    requires 0 <= i < |Keyword| + |id| + 1
    ensures Unmatched(Keyword + id + "(" + args, i)
  {
    var u := Keyword + id + "(" + args;
    var n := |id|;
    assert u[|Keyword| + n] == '(' && u[|Keyword| + n + 1..] == args by {
      Parts(Keyword, id, "(", args);
      assert u[|Keyword| + n..|Keyword| + n + 1][0] == u[|Keyword| + n];
    }
    assert forall j :: |Keyword| <= j < |Keyword| + n ==> IsAlnum(u[j]) by {
      Parts(Keyword, id, "(", args);
    }
    var v := u[i..];
    var d := |Keyword| + n - i;
    assert v[d] == '(';
    if args != [] {
      assert v[d + 1] == args[0];
    }
    assert forall j :: |Keyword| <= j < d ==> v[j] == u[i + j];
    MatchAtIsMatchOf(v);
    forall m | true
      ensures !MatchOf(v, m)
    {
      OpenParenBreaksMatch(v, d, m);
    }
  }

  /** The pattern wants an empty argument list: `revert`, an identifier and
      a `(` that `)` does not follow, as in `revertFoo(x);`, is not a match
      and is copied as it is; scanning goes on in the arguments. */
  lemma ArgumentsNotMatched(id: string, args: string)
    requires IsIdentifier(id)
    requires args == [] || args[0] != ')'
    ensures forall k :: !MatchOf(Keyword + id + "(" + args, k)
    ensures FixReverts(Keyword + id + "(" + args) == Keyword + id + "(" + FixReverts(args)
    ensures Captures(Keyword + id + "(" + args) == Captures(args)
  {
    var a := Keyword + id + "(";
    forall i | 0 <= i < |a|
      ensures Unmatched(a + args, i)
    {
      NoMatchBeforeArguments(id, args, i);
    }
    CopiedThrough(a, args);
    NotMatchedAtStart(a + args);
  }

  /** No match at index 0 is no match at the start. */
  lemma NotMatchedAtStart(s: string)
    requires Unmatched(s, 0)
    ensures forall k :: !MatchOf(s, k)
  {
    assert s[0..] == s;
    MatchAtIsMatchOf(s);
  }

  /** A text at none of whose indices a match starts is copied, whatever
      follows it. */
  lemma CopiedThrough(a: string, b: string)
    requires forall i :: 0 <= i < |a| ==> Unmatched(a + b, i)
    ensures FixReverts(a + b) == a + FixReverts(b)
    ensures Captures(a + b) == Captures(b)
  {
    var u := a + b;
    CopyPrefix(u, |a|);
    assert u[..|a|] == a && u[|a|..] == b;
  }

  /** No match starts at a character other than `r`. */
  lemma OtherCharUnmatched(s: string, i: int)
    requires 0 <= i < |s| && s[i] != 'r'
    ensures Unmatched(s, i)
  {
    assert s[i..][0] == s[i];
    MatchAtIsMatchOf(s[i..]);
    forall m | true
      ensures !MatchOf(s[i..], m)
    {
      FirstCharBreaksMatch(s[i..], m);
    }
  }

  /** A text without the letter `r` is copied, whatever follows it. */
  lemma WithoutRCopied(w: string, tail: string)
    requires forall j :: 0 <= j < |w| ==> w[j] != 'r'
    ensures FixReverts(w + tail) == w + FixReverts(tail)
    ensures Captures(w + tail) == Captures(tail)
  {
    forall i | 0 <= i < |w|
      ensures Unmatched(w + tail, i)
    {
      assert (w + tail)[i] == w[i];
      OtherCharUnmatched(w + tail, i);
    }
    CopiedThrough(w, tail);
  }

  /** `revertFoo(x);` is left as it is, whatever text follows. */
  lemma ArgumentExample(tail: string)
    ensures FixReverts(Keyword + "Foo" + "(" + ("x);" + tail)) == Keyword + "Foo" + "(" + ("x);" + FixReverts(tail))
  {
    ArgumentsNotMatched("Foo", "x);" + tail);
    WithoutRCopied("x);", tail);
  }

  /** `revertfoo();`, with a lower-case letter after `revert`, is left as
      it is, whatever text follows. */
  lemma LowerCaseExample(tail: string)
    ensures FixReverts(Keyword + ("foo();" + tail)) == Keyword + ("foo();" + FixReverts(tail))
  {
    UnmatchedKeywordCopied("foo();" + tail);
    WithoutRCopied("foo();", tail);
  }

  /** `revert();`, without an identifier, is left as it is, whatever text
      follows. */
  lemma NoIdentifierExample(tail: string)
    ensures FixReverts(Keyword + (Call + tail)) == Keyword + (Call + FixReverts(tail))
  {
    UnmatchedKeywordCopied(Call + tail);
    WithoutRCopied(Call, tail);
  }

  /** The pattern has no word boundary: the `revert` at the end of a longer
      word such as `xrevertFoo();` is rewritten too. */
  lemma InsideWordRewritten(c: char, id: string, tail: string)
    requires c != 'r' && IsIdentifier(id)
    ensures FixReverts([c] + Keyword + id + Call + tail) == [c] + Keyword + " " + id + Call + FixReverts(tail)
  {
    var inner := Keyword + id + Call + tail;
    calc {
      FixReverts([c] + Keyword + id + Call + tail);
      { assert [c] + Keyword + id + Call + tail == [c] + inner; }
      FixReverts([c] + inner);
      { OtherCharCopied(c, inner); }
      [c] + FixReverts(inner);
      { FixRevertsOfCall(id, tail); }
      [c] + (Keyword + " " + id + Call + FixReverts(tail));
      [c] + Keyword + " " + id + Call + FixReverts(tail);
    }
  }

  /** `revertInsufficientBalance();` becomes `revert InsufficientBalance();`,
      whatever text follows. */
  lemma InsufficientBalanceExample(tail: string)
    ensures FixReverts(Keyword + "InsufficientBalance" + Call + tail)
         == Keyword + " " + "InsufficientBalance" + Call + FixReverts(tail)
  {
    FixRevertsOfCall("InsufficientBalance", tail);
  }

  /** Two calls separated by a character other than `r` are both rewritten
      in one pass, whatever text follows. */
  lemma TwoCallsRewritten(a: string, c: char, b: string, tail: string)
    requires IsIdentifier(a) && IsIdentifier(b) && c != 'r'
    ensures FixReverts(Keyword + a + Call + ([c] + (Keyword + b + Call + tail)))
         == Spaced(a) + ([c] + (Spaced(b) + FixReverts(tail)))
    ensures Captures(Keyword + a + Call + ([c] + (Keyword + b + Call + tail)))
         == [a] + [b] + Captures(tail)
  {
    var second := Keyword + b + Call + tail;
    FixRevertsOfCall(a, [c] + second);
    OtherCharCopied(c, second);
    FixRevertsOfCall(b, tail);
  }

  /** Both calls of `revertFoo();` and `revertBar();`, on two lines, are
      rewritten in a single pass, whatever text follows. */
  lemma TwoRevertsExample(tail: string)
    ensures FixReverts(Keyword + "Foo" + Call + ("\n" + (Keyword + "Bar" + Call + tail)))
         == Spaced("Foo") + ("\n" + (Spaced("Bar") + FixReverts(tail)))
    ensures Captures(Keyword + "Foo" + Call + ("\n" + (Keyword + "Bar" + Call + tail)))
         == ["Foo", "Bar"] + Captures(tail)
  {
    TwoCallsRewritten("Foo", '\n', "Bar", tail);
  }

  /** Idempotence is only conditional. The first pass over
      `revertXrevertFoo();` captures `XrevertFoo` and writes
      `revert XrevertFoo();`, whatever text follows. */
  lemma IdempotenceCounterexample(tail: string)
    ensures Captures(Keyword + "X" + Keyword + "Foo" + Call + tail) == ["X" + Keyword + "Foo"] + Captures(tail)
    ensures FixReverts(Keyword + "X" + Keyword + "Foo" + Call + tail)
         == Keyword + " " + "X" + Keyword + "Foo" + Call + FixReverts(tail)
  {
    var id := "X" + Keyword + "Foo";
    assert Keyword + "X" + Keyword + "Foo" + Call + tail == Keyword + id + Call + tail;
    assert Keyword + " " + "X" + Keyword + "Foo" + Call == Keyword + " " + id + Call;
    FixRevertsOfCall(id, tail);
  }

  /** A second pass over that output finds `revertFoo();` inside the
      identifier and rewrites it as well. */
  lemma SecondPassRewritesNested(tail: string)
    ensures FixReverts(Keyword + " " + "X" + Keyword + "Foo" + Call + tail)
         == Keyword + " " + "X" + Keyword + " " + "Foo" + Call + FixReverts(tail)
  {
    var rest := " " + "X" + Keyword + "Foo" + Call + tail;
    var after := "X" + Keyword + "Foo" + Call + tail;
    calc {
      FixReverts(Keyword + " " + "X" + Keyword + "Foo" + Call + tail);
      { assert Keyword + " " + "X" + Keyword + "Foo" + Call + tail == Keyword + rest; }
      FixReverts(Keyword + rest);
      { UnmatchedKeywordCopied(rest); }
      Keyword + FixReverts(rest);
      { assert rest == [' '] + after; OtherCharCopied(' ', after); }
      Keyword + ([' '] + FixReverts(after));
      { InsideWordRewritten('X', "Foo", tail); }
      Keyword + ([' '] + ("X" + Keyword + " " + "Foo" + Call + FixReverts(tail)));
      Keyword + " " + "X" + Keyword + " " + "Foo" + Call + FixReverts(tail);
    }
  }

}
