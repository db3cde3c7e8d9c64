/** The three java.lang.String operations the adapter's location formatting
    relies on: indexOf (first occurrence, or -1), contains and trim. */
module JavaString {

  /** `pat` occurs in `s` starting at index `i`. */
  predicate OccursAt(s: string, pat: string, i: int) {
    0 <= i && i + |pat| <= |s| && s[i..i + |pat|] == pat
  }

  /** The first occurrence of `pat` in `s` at or after `from`, or -1. */
  function IndexFrom(s: string, pat: string, from: nat): (r: int)
    requires from <= |s|
    ensures r == -1 || (from <= r && OccursAt(s, pat, r))
    ensures forall j :: from <= j && (r == -1 || j < r) ==> !OccursAt(s, pat, j)
    decreases |s| - from
  {
    if from + |pat| > |s| then -1
    else if s[from..from + |pat|] == pat then from
    else IndexFrom(s, pat, from + 1)
  }

  /** String.indexOf: the index of the first occurrence of `pat`, or -1 when
      there is none. */
  function IndexOf(s: string, pat: string): (r: int)
    ensures -1 <= r
    ensures r >= 0 ==> OccursAt(s, pat, r)
    ensures forall j :: 0 <= j && (r == -1 || j < r) ==> !OccursAt(s, pat, j)
  {
    IndexFrom(s, pat, 0)
  }

  /** String.contains, which Java defines as indexOf(pat) >= 0. */
  function Contains(s: string, pat: string): (b: bool)
    ensures b <==> exists i :: OccursAt(s, pat, i)
  {
    IndexOf(s, pat) >= 0
  }

  /** Any occurrence that has no earlier one is the one indexOf reports. */
  lemma IndexOfIsFirstOccurrence(s: string, pat: string, i: int)
    requires OccursAt(s, pat, i)
    requires forall j :: 0 <= j < i ==> !OccursAt(s, pat, j)
    ensures IndexOf(s, pat) == i
  {
  }

  /** With no occurrence at all, indexOf reports -1. */
  lemma IndexOfAbsent(s: string, pat: string)
    requires forall j :: !OccursAt(s, pat, j)
    ensures IndexOf(s, pat) == -1
  {
  }

  /** An occurrence that ends inside `s` is an occurrence in `s + t` and the
      other way round. */
  lemma OccursInPrefix(s: string, t: string, pat: string, j: int)
    requires 0 <= j && j + |pat| <= |s|
    ensures OccursAt(s + t, pat, j) <==> OccursAt(s, pat, j)
  {
    assert (s + t)[j..j + |pat|] == s[j..j + |pat|];
  }

  /** String.trim removes every character at or below U+0020 from both ends. */
  predicate IsBlank(c: char) {
    c <= ' '
  }

  predicate AllBlank(s: string) {
    forall k :: 0 <= k < |s| ==> IsBlank(s[k])
  }

  /** Neither end of `s` is a character that trim would remove. */
  predicate IsTrimmed(s: string) {
    |s| == 0 || (!IsBlank(s[0]) && !IsBlank(s[|s| - 1]))
  }

  /** `s` is `r` preceded by the `i` blank characters `s[..i]` and followed
      only by blanks. */
  predicate PaddedAt(s: string, r: string, i: int) {
    0 <= i && i + |r| <= |s| && s[i..i + |r|] == r
    && AllBlank(s[..i]) && AllBlank(s[i + |r|..])
  }

  /** `s` is `r` with only blank characters added before and after it. */
  ghost predicate PaddedBy(s: string, r: string) {
    exists i :: PaddedAt(s, r, i)
  }

  /** The first loop of String.trim: skip blanks at the front. */
  function TrimStart(s: string): (r: string)
    ensures |r| <= |s| && r == s[|s| - |r|..]
    ensures AllBlank(s[..|s| - |r|])
    ensures r == [] || !IsBlank(r[0])
  {
    if |s| > 0 && IsBlank(s[0]) then
      var r := TrimStart(s[1..]);
      assert s[1..][|s| - 1 - |r|..] == s[|s| - |r|..];
      assert forall k :: 1 <= k < |s| - |r| ==> s[k] == s[1..][..|s| - 1 - |r|][k - 1];
      r
    else s
  }

  /** The second loop of String.trim: drop blanks at the back. */
  function TrimEnd(s: string): (r: string)
    ensures |r| <= |s| && r == s[..|r|]
    ensures AllBlank(s[|r|..])
    ensures r == [] || !IsBlank(r[|r| - 1])
  {
    if |s| > 0 && IsBlank(s[|s| - 1]) then
      var r := TrimEnd(s[..|s| - 1]);
      assert s[..|s| - 1][..|r|] == s[..|r|];
      assert forall k :: |r| <= k < |s| - 1 ==> s[k] == s[..|s| - 1][|r|..][k - |r|];
      r
    else s
  }

  /** Running the two loops of String.trim one after the other leaves a slice
      of `s` with only blanks cut from either side. */
  lemma TrimLoopsPad(s: string)
    ensures PaddedAt(s, TrimEnd(TrimStart(s)), |s| - |TrimStart(s)|)
  {
    var t := TrimStart(s);
    var r := TrimEnd(t);
    var i := |s| - |t|;
    assert s[i..i + |r|] == t[..|r|];
    assert s[i + |r|..] == t[|r|..];
  }

  /** String.trim: the longest slice of `s` that neither starts nor ends with
      a blank, once the blanks around it are removed. */
  function Trim(s: string): (r: string)
    ensures |r| <= |s|
    ensures IsTrimmed(r)
    ensures PaddedBy(s, r)
  {
    TrimLoopsPad(s);
    TrimEnd(TrimStart(s))
  }

  /** Padding a non-empty trimmed string pins down where it starts and ends:
      at the first and the last character of `s` that is not blank. */
  lemma PaddedBounds(s: string, r: string, i: int)
    requires IsTrimmed(r) && r != [] && PaddedAt(s, r, i)
    ensures !IsBlank(s[i]) && !IsBlank(s[i + |r| - 1])
    ensures forall k :: 0 <= k < i ==> IsBlank(s[k])
    ensures forall k :: i + |r| <= k < |s| ==> IsBlank(s[k])
  {
    assert s[i] == r[0] && s[i + |r| - 1] == r[|r| - 1];
    forall k | 0 <= k < i ensures IsBlank(s[k]) {
      assert s[..i][k] == s[k];
    }
    forall k | i + |r| <= k < |s| ensures IsBlank(s[k]) {
      assert s[i + |r|..][k - i - |r|] == s[k];
    }
  }

  /** Only an all-blank string is a padding of the empty string. */
  lemma PaddedEmpty(s: string, i: int)
    requires PaddedAt(s, [], i)
    ensures AllBlank(s)
  {
    forall k | 0 <= k < |s| ensures IsBlank(s[k]) {
      if k < i {
        assert s[..i][k] == s[k];
      } else {
        assert s[i..][k - i] == s[k];
      }
    }
  }

  /** Two trimmed strings that `s` pads are the same string. */
  lemma PaddedSame(s: string, r: string, i: int, t: string, a: int)
    requires IsTrimmed(r) && PaddedAt(s, r, i)
    requires IsTrimmed(t) && PaddedAt(s, t, a)
    ensures r == t
  {
    if r == [] {
      PaddedEmpty(s, i);
      if t != [] {
        PaddedBounds(s, t, a);
        assert false;
      }
    } else if t == [] {
      PaddedEmpty(s, a);
      PaddedBounds(s, r, i);
      assert false;
    } else {
      PaddedBounds(s, r, i);
      PaddedBounds(s, t, a);
      assert i == a;
      assert |r| == |t|;
    }
  }

  /** Trim's contract determines its result: the only trimmed string that `s`
      is a blank padding of is Trim(s). */
  lemma TrimUnique(s: string, r: string)
    requires IsTrimmed(r) && PaddedBy(s, r)
    ensures Trim(s) == r
  {
    var t := Trim(s);
    var i :| PaddedAt(s, r, i);
    var a :| PaddedAt(s, t, a);
    PaddedSame(s, r, i, t, a);
  }

  /** A suffix of non-blank characters belongs to any trimmed string that `s`
      pads. */
  lemma PaddedKeepsSuffix(s: string, r: string, a: int, suffix: string)
    requires IsTrimmed(r) && PaddedAt(s, r, a)
    requires suffix != [] && |suffix| <= |s| && s[|s| - |suffix|..] == suffix
    requires forall k :: 0 <= k < |suffix| ==> !IsBlank(suffix[k])
    ensures |suffix| <= |r| && r[|r| - |suffix|..] == suffix
  {
    var n := |s| - |suffix|;
    assert s[n] == suffix[0];
    assert s[|s| - 1] == suffix[|suffix| - 1];
    if r == [] {
      PaddedEmpty(s, a);
      assert false;
    }
    PaddedBounds(s, r, a);
    assert a + |r| == |s|;
    assert a <= n;
    assert r == s[a..];
    assert r[|r| - |suffix|..] == s[n..];
  }

  /** A suffix made only of characters trim keeps survives trimming: Trim(s)
      still ends with it. */
  lemma TrimKeepsSuffix(s: string, suffix: string)
    requires suffix != [] && |suffix| <= |s| && s[|s| - |suffix|..] == suffix
    requires forall k :: 0 <= k < |suffix| ==> !IsBlank(suffix[k])
    ensures |suffix| <= |Trim(s)| && Trim(s)[|Trim(s)| - |suffix|..] == suffix
  {
    var r := Trim(s);
    var a :| PaddedAt(s, r, a);
    PaddedKeepsSuffix(s, r, a, suffix);
  }

  /** Trimming a string that is already trimmed changes nothing. */
  lemma TrimOfTrimmed(s: string)
    requires IsTrimmed(s)
    ensures Trim(s) == s
  {
    assert s[0..|s|] == s;
    assert PaddedAt(s, s, 0);
    TrimUnique(s, s);
  }

  /** Trim is idempotent. */
  lemma TrimIdempotent(s: string)
    ensures Trim(Trim(s)) == Trim(s)
  {
    TrimOfTrimmed(Trim(s));
  }
}
