/**
 UTF-8 as section 4 of RFC 3629 defines it, on byte strings: which strings are
 well formed, where characters begin, and how many there are. Bytes that form
 no character count as one each, as utf8.RuneCountInString counts them.
 */
module Utf8 {
  import opened Bytes

  predicate InRange(c: char, lo: int, hi: int) { lo <= c as int <= hi }

  predicate IsTail(c: char) { InRange(c, 0x80, 0xBF) }

  /** A byte that can begin a character, or is malformed: anything but a tail byte. */
  predicate RuneStart(c: char) { !IsTail(c) }

  /** Length of the well-formed character at the front of `s`, 0 when there is none. */
  function RuneLen(s: string): (n: nat)
    ensures n <= |s| && n <= 4
    ensures forall k | 0 < k < n :: IsTail(s[k])
    ensures n > 0 ==> RuneStart(s[0])
  {
    if s == "" then 0
    else if InRange(s[0], 0x00, 0x7F) then 1
    else if |s| >= 2 && InRange(s[0], 0xC2, 0xDF) && IsTail(s[1]) then 2
    else if |s| >= 3 && IsTail(s[2])
            && (|| (InRange(s[0], 0xE0, 0xE0) && InRange(s[1], 0xA0, 0xBF))
                || (InRange(s[0], 0xE1, 0xEC) && IsTail(s[1]))
                || (InRange(s[0], 0xED, 0xED) && InRange(s[1], 0x80, 0x9F))
                || (InRange(s[0], 0xEE, 0xEF) && IsTail(s[1]))) then 3
    else if |s| >= 4 && IsTail(s[2]) && IsTail(s[3])
            && (|| (InRange(s[0], 0xF0, 0xF0) && InRange(s[1], 0x90, 0xBF))
                || (InRange(s[0], 0xF1, 0xF3) && IsTail(s[1]))
                || (InRange(s[0], 0xF4, 0xF4) && InRange(s[1], 0x80, 0x8F))) then 4
    else 0
  }

  /** The octet string is a sequence of characters. */
  predicate Valid(s: string)
    decreases |s|
  {
    s == "" || (RuneLen(s) > 0 && Valid(s[RuneLen(s)..]))
  }

  function RuneCount(s: string): nat
    decreases |s|
  {
    if s == "" then 0 else 1 + RuneCount(s[Max(1, RuneLen(s))..])
  }

  /** What follows a character does not change it. */
  lemma RuneLenFront(s: string, t: string)
    requires RuneLen(s) > 0
    ensures RuneLen(s + t) == RuneLen(s)
  {
    assert forall k | 0 <= k < |s| :: (s + t)[k] == s[k];
  }

  lemma RuneLenTake(s: string, j: nat)
    requires RuneLen(s) <= j <= |s|
    ensures RuneLen(s[..j]) == RuneLen(s) || RuneLen(s) == 0
  {
    assert forall k | 0 <= k < j :: s[..j][k] == s[k];
  }

  /** Well-formed text cut where a character begins stays well formed. */
  lemma {:induction false} ValidCut(s: string, j: nat)
    requires Valid(s) && j <= |s| && (j < |s| ==> RuneStart(s[j]))
    ensures Valid(s[..j])
    decreases |s|
  {
    hide RuneLen;
    if j > 0 {
      var n := RuneLen(s);
      assert j >= n;
      assert j < |s| ==> s[n..][j - n] == s[j];
      ValidCut(s[n..], j - n);
      RuneLenTake(s, j);
      assert s[..j][n..] == s[n..][..j - n];
    }
  }

  lemma {:induction false} ValidAppend(s: string, t: string)
    requires Valid(s) && Valid(t)
    ensures Valid(s + t) && RuneCount(s + t) == RuneCount(s) + RuneCount(t)
    decreases |s|
  {
    hide RuneLen;
    if s == "" {
      assert s + t == t;
    } else {
      var n := RuneLen(s);
      ValidAppend(s[n..], t);
      RuneLenFront(s, t);
      assert (s + t)[n..] == s[n..] + t;
    }
  }

  /** Four bytes of well-formed text hold a beginning of a character. */
  lemma {:induction false} StartNear(s: string, j: nat)
    requires Valid(s) && j < |s|
    ensures exists k :: Max(0, j - 3) <= k <= j && RuneStart(s[k])
    decreases |s|
  {
    hide RuneLen;
    var n := RuneLen(s);
    if n <= j {
      StartNear(s[n..], j - n);
      var k :| Max(0, j - n - 3) <= k <= j - n && RuneStart(s[n..][k]);
      assert RuneStart(s[n + k]);
    } else {
      assert RuneStart(s[0]);
    }
  }

  predicate Ascii(s: string) { forall k | 0 <= k < |s| :: s[k] as int < 0x80 }

  lemma {:induction false} AsciiValid(s: string)
    requires Ascii(s)
    ensures Valid(s) && RuneCount(s) == |s|
    decreases |s|
  {
    if s != "" {
      assert RuneLen(s) == 1;
      AsciiValid(s[1..]);
    }
  }
}
