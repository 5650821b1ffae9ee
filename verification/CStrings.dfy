/**
 NUL-terminated strings in a character buffer and the scanners that walk them. A pointer into
 the buffer is an index.
 */
module CStrings {

  const NUL := '\0'

  /** There is a terminator at or after index p. */
  ghost predicate Terminated(s: seq<char>, p: nat) {
    exists e :: p <= e < |s| && s[e] == NUL
  }

  function StrEnd(s: seq<char>, p: nat): (e: nat)
    requires Terminated(s, p)
    ensures p <= e < |s| && s[e] == NUL && NUL !in s[p..e]
    decreases |s| - p
  {
    if s[p] == NUL then p else StrEnd(s, p + 1)
  }

  /** The string a pointer points to. */
  function Str(s: seq<char>, p: nat): (r: string)
    requires Terminated(s, p)
    ensures NUL !in r
  {
    s[p..StrEnd(s, p)]
  }

  lemma StrEndUnique(s: seq<char>, p: nat, e: nat)
    requires p <= e < |s| && s[e] == NUL && NUL !in s[p..e]
    ensures Terminated(s, p) && StrEnd(s, p) == e
  {
    var f := StrEnd(s, p);
  }

  lemma PartOfSlice(s: seq<char>, p: nat, k: nat, e: nat)
    requires p + k <= e <= |s|
    ensures s[p..p + k] == s[p..e][..k]
  {
    forall i | 0 <= i < k ensures s[p..p + k][i] == s[p..e][..k][i] {
      assert s[p..e][i] == s[p + i];
    }
  }

  /** Writing a terminator cuts the string short there. */
  lemma CutString(s: seq<char>, p: nat, k: nat)
    requires Terminated(s, p) && k <= |Str(s, p)|
    ensures Terminated(s[p + k := NUL], p) && Str(s[p + k := NUL], p) == Str(s, p)[..k]
  {
    var cut, e := s[p + k := NUL], StrEnd(s, p);
    forall i | p <= i < p + k ensures cut[i] == s[i] && cut[i] != NUL {
      assert s[i] == s[p..e][i - p];
    }
    StrEndUnique(cut, p, p + k);
    assert cut[p..p + k] == s[p..p + k];
    PartOfSlice(s, p, k, e);
  }

  /** Further along a string is the rest of it. */
  lemma StrSuffix(s: seq<char>, p: nat, k: nat)
    requires Terminated(s, p) && k <= |Str(s, p)|
    ensures Terminated(s, p + k) && Str(s, p + k) == Str(s, p)[k..]
  {
    var e := StrEnd(s, p);
    assert s[p + k..e] == Str(s, p)[k..];
    StrEndUnique(s, p + k, e);
  }

  predicate IsDigit(c: char) {
    '0' <= c <= '9'
  }

  predicate AllDigits(s: string) {
    forall i :: 0 <= i < |s| ==> IsDigit(s[i])
  }

  predicate IsHex(c: char) {
    IsDigit(c) || 'a' <= c <= 'f' || 'A' <= c <= 'F'
  }

  predicate AllHex(s: string) {
    forall i :: 0 <= i < |s| ==> IsHex(s[i])
  }

  /** The first place of ch among the first max + 1 characters, or -1. */
  function FirstIndex(s: string, ch: char, max: int): (r: int)
    ensures -1 <= r
    ensures r >= 0 ==> r <= max && r < |s| && s[r] == ch && ch !in s[..r]
    ensures r == -1 ==> forall i :: 0 <= i < |s| && i <= max ==> s[i] != ch
  {
    if s == [] || max < 0 then -1
    else if s[0] == ch then 0
    else
      var r := FirstIndex(s[1..], ch, max - 1);
      assert r >= 0 ==> s[..r + 1] == [s[0]] + s[1..][..r];
      assert forall i :: 1 <= i < |s| ==> s[i] == s[1..][i - 1];
      if r < 0 then -1 else r + 1
  }

  lemma FirstIndexUnique(s: string, ch: char, max: int, r: nat)
    requires r <= max && r < |s| && s[r] == ch && ch !in s[..r]
    ensures FirstIndex(s, ch, max) == r
  {
    var f := FirstIndex(s, ch, max);
  }

  /** The first place of the character, the terminator included, if that is no more than max. A
      negative max sets no limit. */
  method IndexOfFirstChar(buf: array<char>, p: nat, ch: char, max: int) returns (r: int)
    requires Terminated(buf[..], p)
    ensures var s := Str(buf[..], p); r == FirstIndex(s + [NUL], ch, if max < 0 then |s| else max)
    ensures ch != NUL && max >= 0 ==> r == FirstIndex(Str(buf[..], p), ch, max)
  {
    ghost var s := Str(buf[..], p);
    ghost var z, limit := s + [NUL], if max < 0 then |s| else max;
    TerminatorLast(s, ch, max);
    var i := 0;
    while buf[p + i] != ch
      invariant 0 <= i <= |s| && i <= limit && ch !in z[..i]
      decreases |s| - i
    {
      assert z[i] == buf[p + i];
      if buf[p + i] == NUL || i == max {
        NotAmongFirst(z, ch, limit, i);
        return -1;
      }
      assert z[..i + 1] == z[..i] + [z[i]];
      i := i + 1;
    }
    assert z[i] == buf[p + i];
    FirstIndexUnique(z, ch, limit, i);
    return i;
  }

  lemma NotAmongFirst(s: string, ch: char, max: int, i: nat)
    requires i < |s| && ch !in s[..i] && s[i] != ch && (i == |s| - 1 || i == max)
    ensures FirstIndex(s, ch, max) == -1
  {
    var f := FirstIndex(s, ch, max);
  }

  /** A character other than the terminator is not found there. */
  lemma TerminatorLast(s: string, ch: char, max: int)
    ensures ch != NUL ==> FirstIndex(s + [NUL], ch, max) == FirstIndex(s, ch, max)
  {
    var f := FirstIndex(s, ch, max);
    if ch != NUL && f >= 0 {
      assert (s + [NUL])[..f] == s[..f];
      FirstIndexUnique(s + [NUL], ch, max, f);
    }
  }

  method AreAllCharDecimal(buf: array<char>, p: nat) returns (r: bool)
    requires Terminated(buf[..], p)
    ensures r == AllDigits(Str(buf[..], p))
  {
    ghost var s := Str(buf[..], p);
    var i := 0;
    while buf[p + i] != NUL
      invariant 0 <= i <= |s| && AllDigits(s[..i])
      decreases |s| - i
    {
      if !IsDigit(buf[p + i]) {
        assert s[i] == buf[p + i];
        return false;
      }
      i := i + 1;
    }
    assert s[..i] == s;
    return true;
  }

  method AreAllCharHexadecimal(buf: array<char>, p: nat) returns (r: bool)
    requires Terminated(buf[..], p)
    ensures r == AllHex(Str(buf[..], p))
  {
    ghost var s := Str(buf[..], p);
    var i := 0;
    while buf[p + i] != NUL
      invariant 0 <= i <= |s| && AllHex(s[..i])
      decreases |s| - i
    {
      if !IsHex(buf[p + i]) {
        assert s[i] == buf[p + i];
        return false;
      }
      i := i + 1;
    }
    assert s[..i] == s;
    return true;
  }

  /** Pieces of text with a separator between them. */
  function Join(pieces: seq<string>, sep: char): string
    requires pieces != []
  {
    if |pieces| == 1 then pieces[0] else pieces[0] + [sep] + Join(pieces[1..], sep)
  }
}
