/**
  The handful of Python string operations the backend relies on, stated on
  `string` (a sequence of Unicode scalar values):

  - `str.lower()`, restricted to the ASCII letters A-Z;
  - `str.strip()`, with Python's own set of whitespace characters;
  - the `in` operator on strings (substring containment) and `str.startswith`;
  - `s.split(sep)[-1]`, the text after the last occurrence of a separator.
 */
module Text {
  import opened Wrappers

  // ---------------------------------------------------------------------------
  // Case folding

  function LowerChar(c: char): (r: char)
    ensures 'A' <= c <= 'Z' ==> r as int == c as int + 32
    ensures !('A' <= c <= 'Z') ==> r == c
  {
    if 'A' <= c <= 'Z' then (c as int + 32) as char else c
  }

  function Lower(s: string): (r: string)
    ensures |r| == |s|
    ensures forall i :: 0 <= i < |s| ==> r[i] == LowerChar(s[i])
  {
    seq(|s|, i requires 0 <= i < |s| => LowerChar(s[i]))
  }

  /** A string that `Lower` leaves unchanged: it holds no ASCII capital. */
  predicate IsLower(s: string) {
    forall i :: 0 <= i < |s| ==> !('A' <= s[i] <= 'Z')
  }

  lemma LowerIsLower(s: string)
    ensures IsLower(Lower(s))
    ensures Lower(Lower(s)) == Lower(s)
  {
  }

  lemma LowerFixesLower(s: string)
    requires IsLower(s)
    ensures Lower(s) == s
  {
  }

  lemma LowerAppend(a: string, b: string)
    ensures Lower(a + b) == Lower(a) + Lower(b)
  {
  }

  // ---------------------------------------------------------------------------
  // Whitespace and str.strip()

  /** The characters for which Python's `str.isspace()` holds. */
  predicate IsSpace(c: char) {
    || '\t' <= c <= '\r' || c == ' '
    || '\U{1C}' <= c <= '\U{1F}' || c == '\U{85}' || c == '\U{A0}' || c == '\U{1680}'
    || '\U{2000}' <= c <= '\U{200A}' || c == '\U{2028}' || c == '\U{2029}'
    || c == '\U{202F}' || c == '\U{205F}' || c == '\U{3000}'
  }

  /** Drops the leading whitespace. */
  function TrimStart(s: string): (r: string)
    ensures |r| <= |s| && r == s[|s| - |r|..]
    ensures forall i :: 0 <= i < |s| - |r| ==> IsSpace(s[i])
    ensures r != [] ==> !IsSpace(r[0])
    decreases |s|
  {
    if s != [] && IsSpace(s[0]) then TrimStart(s[1..]) else s
  }

  /** Drops the trailing whitespace. */
  function TrimEnd(s: string): (r: string)
    ensures |r| <= |s| && r == s[..|r|]
    ensures forall i :: |r| <= i < |s| ==> IsSpace(s[i])
    ensures r != [] ==> !IsSpace(r[|r| - 1])
    decreases |s|
  {
    if s != [] && IsSpace(s[|s| - 1]) then TrimEnd(s[..|s| - 1]) else s
  }

  /** Python's `s.strip()`: no longer than `s`, a slice of it, and with no
      whitespace left at either end. */
  function Strip(s: string): (r: string)
    ensures |r| <= |s|
    ensures r != [] ==> !IsSpace(r[0]) && !IsSpace(r[|r| - 1])
  {
    TrimEnd(TrimStart(s))
  }

  /** `Strip(s)` is the slice of `s` between its leading and its trailing run of
      whitespace, and it neither starts nor ends with whitespace. */
  lemma StripIsTrimmedSlice(s: string)
    ensures exists i, j :: 0 <= i <= j <= |s| && Strip(s) == s[i..j]
                           && (forall k :: 0 <= k < i ==> IsSpace(s[k]))
                           && (forall k :: j <= k < |s| ==> IsSpace(s[k]))
    ensures Strip(s) != [] ==> !IsSpace(Strip(s)[0]) && !IsSpace(Strip(s)[|Strip(s)| - 1])
  {
    var t := TrimStart(s);
    var r := TrimEnd(t);
    var i := |s| - |t|;
    assert r == t[..|r|] == s[i..i + |r|];
    assert forall k :: i + |r| <= k < |s| ==> s[k] == t[k - i];
  }

  /** A string with no whitespace at either end is its own strip. */
  lemma {:induction false} StripOfTrimmed(s: string)
    requires s != [] ==> !IsSpace(s[0]) && !IsSpace(s[|s| - 1])
    ensures Strip(s) == s
  {
  }

  lemma StripIdempotent(s: string)
    ensures Strip(Strip(s)) == Strip(s)
  {
    StripIsTrimmedSlice(s);
    StripOfTrimmed(Strip(s));
  }

  /** Stripping a text with no ASCII capital leaves none. */
  lemma StripKeepsLower(s: string)
    requires IsLower(s)
    ensures IsLower(Strip(s))
  {
    StripIsTrimmedSlice(s);
    var i, j :| 0 <= i <= j <= |s| && Strip(s) == s[i..j];
    assert forall k :: 0 <= k < j - i ==> Strip(s)[k] == s[i + k];
  }

  // ---------------------------------------------------------------------------
  // Substrings: `t in s`, `s.startswith(t)`

  predicate MatchAt(s: string, t: string, i: nat) {
    i + |t| <= |s| && s[i..i + |t|] == t
  }

  /** Python's `t in s` for strings. */
  predicate Contains(s: string, t: string)
    ensures Contains(s, t) ==> |t| <= |s|
  {
    exists i: nat | i <= |s| :: MatchAt(s, t, i)
  }

  predicate StartsWith(s: string, t: string) {
    |t| <= |s| && s[..|t|] == t
  }

  lemma ContainsMiddle(a: string, t: string, b: string)
    ensures Contains(a + t + b, t)
  {
    assert MatchAt(a + t + b, t, |a|);
  }

  lemma ContainsLower(a: string, t: string, b: string)
    ensures Contains(Lower(a + t + b), Lower(t))
  {
    LowerAppend(a + t, b);
    LowerAppend(a, t);
    ContainsMiddle(Lower(a), Lower(t), Lower(b));
  }

  /** An occurrence of `t` at `i` puts `t[j]` at `i + j`. */
  lemma MatchAtChar(s: string, t: string, i: nat, j: nat)
    requires MatchAt(s, t, i) && j < |t|
    ensures i + j < |s| && s[i + j] == t[j]
  {
    assert s[i..i + |t|][j] == t[j];
  }

  /** The character `c` occurs nowhere in `s`. */
  predicate Lacks(s: string, c: char) {
    forall k | 0 <= k < |s| :: s[k] != c
  }

  /** The capital of a lowercase ASCII letter. */
  function UpperChar(c: char): (r: char)
    requires 'a' <= c <= 'z'
    ensures 'A' <= r <= 'Z' && LowerChar(r) == c
  {
    (c as int - 32) as char
  }

  /** The lowercase letter `c` occurs in `s` in neither case. */
  predicate LacksLetter(s: string, c: char)
    requires 'a' <= c <= 'z'
  {
    Lacks(s, c) && Lacks(s, UpperChar(c))
  }

  /** The character `x` is nowhere followed by `y` in `s`. */
  predicate LacksPair(s: string, x: char, y: char) {
    forall k | 0 <= k && k + 1 < |s| :: !(s[k] == x && s[k + 1] == y)
  }

  lemma LacksAppend(a: string, b: string, c: char)
    requires Lacks(a, c) && Lacks(b, c)
    ensures Lacks(a + b, c)
  {
    assert forall k | |a| <= k < |a + b| :: (a + b)[k] == b[k - |a|];
  }

  /** Lowering keeps a letter out of a text holding it in neither case. */
  lemma LowerLacksLetter(s: string, c: char)
    requires 'a' <= c <= 'z' && LacksLetter(s, c)
    ensures Lacks(Lower(s), c)
  {
  }

  /** Lowering a text three pieces at a time: a letter missing, in both cases,
      from each piece is missing from the lowered whole. */
  lemma LowerLacksPieces(a: string, b: string, d: string, c: char)
    requires 'a' <= c <= 'z' && LacksLetter(a, c) && LacksLetter(b, c) && LacksLetter(d, c)
    ensures Lacks(Lower(a + b + d), c)
  {
    var C := UpperChar(c);
    LacksAppend(a, b, c);
    LacksAppend(a, b, C);
    LacksAppend(a + b, d, c);
    LacksAppend(a + b, d, C);
    LowerLacksLetter(a + b + d, c);
  }

  lemma LacksPairAppend(a: string, b: string, x: char, y: char)
    requires LacksPair(a, x, y) && LacksPair(b, x, y)
    requires a != [] && b != [] ==> !(a[|a| - 1] == x && b[0] == y)
    ensures LacksPair(a + b, x, y)
  {
    forall k | 0 <= k && k + 1 < |a + b|
      ensures !((a + b)[k] == x && (a + b)[k + 1] == y)
    {
      if |a| <= k {
        assert (a + b)[k] == b[k - |a|] && (a + b)[k + 1] == b[k + 1 - |a|];
      }
    }
  }

  /** A text missing `x` altogether never has `x` followed by anything. */
  lemma LacksGivesLacksPair(s: string, x: char, y: char)
    requires Lacks(s, x)
    ensures LacksPair(s, x, y)
  {
  }

  /** Lowering keeps the letters `x`, `y` apart in a text that has them apart and
      holds neither capital. */
  lemma LowerLacksPair(s: string, x: char, y: char)
    requires 'a' <= x <= 'z' && 'a' <= y <= 'z'
    requires LacksPair(s, x, y) && Lacks(s, UpperChar(x)) && Lacks(s, UpperChar(y))
    ensures LacksPair(Lower(s), x, y)
  {
  }

  /** Lowering a text three pieces at a time: letters `x`, `y` apart in each
      piece and across each seam, with neither capital anywhere, stay apart. */
  lemma LowerLacksPairPieces(a: string, b: string, d: string, x: char, y: char)
    requires 'a' <= x <= 'z' && 'a' <= y <= 'z' && b != []
    requires LacksPair(a, x, y) && LacksPair(b, x, y) && LacksPair(d, x, y)
    requires Lacks(a, UpperChar(x)) && Lacks(b, UpperChar(x)) && Lacks(d, UpperChar(x))
    requires Lacks(a, UpperChar(y)) && Lacks(b, UpperChar(y)) && Lacks(d, UpperChar(y))
    requires a != [] ==> !(a[|a| - 1] == x && b[0] == y)
    requires d != [] ==> !(b[|b| - 1] == x && d[0] == y)
    ensures LacksPair(Lower(a + b + d), x, y)
  {
    var X, Y := UpperChar(x), UpperChar(y);
    LacksPairAppend(a, b, x, y);
    assert (a + b)[|a + b| - 1] == b[|b| - 1];
    LacksPairAppend(a + b, d, x, y);
    LacksAppend(a, b, X);
    LacksAppend(a + b, d, X);
    LacksAppend(a, b, Y);
    LacksAppend(a + b, d, Y);
    LowerLacksPair(a + b + d, x, y);
  }

  /** `t` cannot occur in `s` when one of its characters, `c`, never occurs in
      `s`. */
  lemma AbsentByChar(s: string, t: string, j: nat, c: char)
    requires j < |t| && t[j] == c && Lacks(s, c)
    ensures !Contains(s, t)
  {
    if Contains(s, t) {
      var i: nat :| i <= |s| && MatchAt(s, t, i);
      MatchAtChar(s, t, i, j);
    }
  }

  /** `t` cannot occur in `s` when two adjacent characters of `t`, `x` then `y`,
      are never adjacent in `s`. */
  lemma AbsentByPair(s: string, t: string, j: nat, x: char, y: char)
    requires j + 1 < |t| && t[j] == x && t[j + 1] == y && LacksPair(s, x, y)
    ensures !Contains(s, t)
  {
    if Contains(s, t) {
      var i: nat :| i <= |s| && MatchAt(s, t, i);
      MatchAtChar(s, t, i, j);
      MatchAtChar(s, t, i, j + 1);
    }
  }

  /** The index of the first of `keys`, from `from` on, that occurs in `s`: the
      shape of every ordered "first substring hit wins" scan in the backend. */
  function FirstOccurring(s: string, keys: seq<string>, from: nat): (r: Option<nat>)
    requires from <= |keys|
    ensures r.Some? ==> from <= r.value < |keys| && Contains(s, keys[r.value])
    ensures r.Some? ==> forall j :: from <= j < r.value ==> !Contains(s, keys[j])
    ensures r.None? ==> forall j :: from <= j < |keys| ==> !Contains(s, keys[j])
    decreases |keys| - from
  {
    if from == |keys| then None
    else if Contains(s, keys[from]) then Some(from)
    else FirstOccurring(s, keys, from + 1)
  }

  /** The scan stops at `i` exactly when `keys[i]` occurs and no earlier key does. */
  lemma FirstOccurringAt(s: string, keys: seq<string>, i: nat)
    requires i < |keys| && Contains(s, keys[i])
    requires forall j :: 0 <= j < i ==> !Contains(s, keys[j])
    ensures FirstOccurring(s, keys, 0) == Some(i)
  {
  }

  /** A slice of a text in which `t` does not occur holds no `t` either. */
  lemma SliceKeepsAbsence(s: string, t: string, i: nat, j: nat)
    requires i <= j <= |s| && !Contains(s, t)
    ensures !Contains(s[i..j], t)
  {
    var u := s[i..j];
    assert forall p: nat | p <= |s| :: !MatchAt(s, t, p);
    forall k: nat | k <= |u|
      ensures !MatchAt(u, t, k)
    {
      if k + |t| <= |u| {
        var inU, inS := u[k..k + |t|], s[i + k..i + k + |t|];
        assert forall m | 0 <= m < |t| :: inU[m] == inS[m];
        assert inU == inS;
        assert !MatchAt(s, t, i + k);
      }
    }
  }

  /** Stripping a text in which `t` does not occur cannot make `t` occur. */
  lemma StripKeepsAbsence(s: string, t: string)
    requires !Contains(s, t)
    ensures !Contains(Strip(s), t)
  {
    StripIsTrimmedSlice(s);
    var i, j :| 0 <= i <= j <= |s| && Strip(s) == s[i..j];
    SliceKeepsAbsence(s, t, i, j);
  }

  // ---------------------------------------------------------------------------
  // `s.split(sep)[-1]`

  /** The last position, below `bound`, where `t` occurs in `s`. */
  function LastMatchBelow(s: string, t: string, bound: nat): (r: Option<nat>)
    ensures r.Some? ==> r.value < bound && MatchAt(s, t, r.value)
    ensures r.Some? ==> forall j: nat :: r.value < j < bound ==> !MatchAt(s, t, j)
    ensures r.None? ==> forall j: nat :: j < bound ==> !MatchAt(s, t, j)
    decreases bound
  {
    if bound == 0 then None
    else if MatchAt(s, t, bound - 1) then Some(bound - 1)
    else LastMatchBelow(s, t, bound - 1)
  }

  function LastMatch(s: string, t: string): Option<nat> {
    LastMatchBelow(s, t, |s| + 1)
  }

  /** The text after the last occurrence of `sep` in `s`, or `s` when there is
      none. For a separator that cannot overlap itself, such as "Assistant:",
      this is Python's `s.split(sep)[-1]`. */
  function AfterLast(s: string, sep: string): (r: string)
    ensures |r| <= |s| && r == s[|s| - |r|..]
  {
    match LastMatch(s, sep)
    case Some(i) => s[i + |sep|..]
    case None => s
  }

  /** `AfterLast` returns a suffix that no longer contains the separator, and
      when the separator occurs the input is that suffix behind an occurrence. */
  lemma AfterLastSplits(s: string, sep: string)
    requires sep != []
    ensures !Contains(AfterLast(s, sep), sep)
    ensures Contains(s, sep) ==>
              exists pre :: s == pre + sep + AfterLast(s, sep)
    ensures !Contains(s, sep) ==> AfterLast(s, sep) == s
  {
    var r := AfterLast(s, sep);
    match LastMatch(s, sep)
    case Some(i) =>
      assert s == s[..i] + sep + r;
      forall k: nat | k <= |r| && MatchAt(r, sep, k) ensures false {
        assert s[i + |sep| + k..i + |sep| + k + |sep|] == r[k..k + |sep|];
        assert MatchAt(s, sep, i + |sep| + k);
      }
    case None =>
      assert forall k: nat | k <= |s| :: !MatchAt(s, sep, k);
  }
}
