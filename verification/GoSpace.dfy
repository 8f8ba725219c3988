/**
 The whitespace of Go's strings.TrimSpace and strings.Fields: besides the four
 bytes the lexers know, vertical tab, form feed and the spaces of Unicode, whose
 bytes are matched one space at a time. No space begins with a byte that another
 character of well-formed UTF-8 holds further in, so reading byte by byte finds
 the same spaces as reading by characters.
 */
module GoSpace {
  import opened Bytes

  /** U+0085 and U+00A0, two bytes each in UTF-8. */
  predicate TwoByteSpace(s: string) {
    |s| == 2 && s[0] as int == 0xC2 && (s[1] as int == 0x85 || s[1] as int == 0xA0)
  }

  /** U+1680, U+2000 to U+200A, U+2028, U+2029, U+202F, U+205F and U+3000, three bytes each. */
  predicate ThreeByteSpace(s: string) {
    && |s| == 3
    && var a, b, c := s[0] as int, s[1] as int, s[2] as int;
       || (a == 0xE1 && b == 0x9A && c == 0x80)
       || (a == 0xE2 && b == 0x80 && (0x80 <= c <= 0x8A || c == 0xA8 || c == 0xA9 || c == 0xAF))
       || (a == 0xE2 && b == 0x81 && c == 0x9F)
       || (a == 0xE3 && b == 0x80 && c == 0x80)
  }

  predicate AsciiSpace(c: char) { IsSpace(c) || c == '\U{000B}' || c == '\U{000C}' }

  /** Bytes of the space at the front, and at the end, of a text; 0 when there is none. */
  function FrontSpace(s: string): (n: nat)
    ensures n <= |s|
  {
    if s == "" then 0
    else if AsciiSpace(s[0]) then 1
    else if |s| >= 2 && TwoByteSpace(s[..2]) then 2
    else if |s| >= 3 && ThreeByteSpace(s[..3]) then 3
    else 0
  }

  /** The last n bytes. */
  function Tail(s: string, n: nat): (t: string)
    requires n <= |s|
    ensures |t| == n && forall k | 0 <= k < n :: t[k] == s[|s| - n + k]
  {
    s[|s| - n..]
  }

  function BackSpace(s: string): (n: nat)
    ensures n <= |s|
  {
    if s == "" then 0
    else if AsciiSpace(s[|s| - 1]) then 1
    else if |s| >= 2 && TwoByteSpace(Tail(s, 2)) then 2
    else if |s| >= 3 && ThreeByteSpace(Tail(s, 3)) then 3
    else 0
  }

  function TrimFront(s: string): string
    decreases |s|
  {
    if FrontSpace(s) == 0 then s else TrimFront(s[FrontSpace(s)..])
  }

  function TrimBack(s: string): string
    decreases |s|
  {
    if BackSpace(s) == 0 then s else TrimBack(s[..|s| - BackSpace(s)])
  }

  function GoTrimSpace(s: string): string { TrimBack(TrimFront(s)) }

  // ---- what trimming leaves ---------------------------------------------------------------

  /** No space of any kind at either end. */
  predicate Bare(s: string) { FrontSpace(s) == 0 && BackSpace(s) == 0 }

  lemma {:induction false} TrimFrontBare(s: string)
    ensures FrontSpace(TrimFront(s)) == 0 && |TrimFront(s)| <= |s| && (FrontSpace(s) > 0 ==> |TrimFront(s)| < |s|)
    decreases |s|
  {
    hide FrontSpace;
    if FrontSpace(s) > 0 {
      TrimFrontBare(s[FrontSpace(s)..]);
    }
  }

  lemma FrontOfPrefix(s: string, n: nat)
    requires n <= |s| && FrontSpace(s) == 0
    ensures FrontSpace(s[..n]) == 0
  {
    assert n >= 2 ==> s[..n][..2] == s[..2];
    assert n >= 3 ==> s[..n][..3] == s[..3];
  }

  lemma {:induction false} TrimBackBare(s: string)
    requires FrontSpace(s) == 0
    ensures Bare(TrimBack(s)) && |TrimBack(s)| <= |s| && (BackSpace(s) > 0 ==> |TrimBack(s)| < |s|)
    decreases |s|
  {
    hide FrontSpace, BackSpace;
    if BackSpace(s) > 0 {
      FrontOfPrefix(s, |s| - BackSpace(s));
      TrimBackBare(s[..|s| - BackSpace(s)]);
    }
  }

  /** A trimmed text is bare, and a text is left alone exactly when it is bare already. */
  lemma TrimIsBare(s: string)
    ensures Bare(GoTrimSpace(s)) && |GoTrimSpace(s)| <= |s|
    ensures GoTrimSpace(s) == s <==> Bare(s)
  {
    TrimFrontBare(s);
    TrimBackBare(TrimFront(s));
  }

  /** A bare text has no whitespace of the lexer's at its ends either. */
  lemma BareEnds(s: string)
    requires Bare(s) && s != ""
    ensures !IsSpace(s[0]) && !IsSpace(s[|s| - 1])
  {
  }

  lemma {:induction false} TrimIsPart(s: string)
    ensures forall c | c in GoTrimSpace(s) :: c in s
  {
    hide FrontSpace, BackSpace;
    FrontIsPart(s);
    BackIsPart(TrimFront(s));
  }

  lemma {:induction false} FrontIsPart(s: string)
    ensures forall c | c in TrimFront(s) :: c in s
    decreases |s|
  {
    hide FrontSpace;
    if FrontSpace(s) > 0 {
      FrontIsPart(s[FrontSpace(s)..]);
    }
  }

  lemma {:induction false} BackIsPart(s: string)
    ensures forall c | c in TrimBack(s) :: c in s
    decreases |s|
  {
    hide BackSpace;
    if BackSpace(s) > 0 {
      BackIsPart(s[..|s| - BackSpace(s)]);
    }
  }

  // ---- fields --------------------------------------------------------------------------------

  /** Bytes up to the next space, or to the end. */
  function FieldLen(s: string): (n: nat)
    ensures n <= |s| && (s != "" && FrontSpace(s) == 0 ==> 0 < n)
    ensures n < |s| ==> FrontSpace(s[n..]) > 0
    decreases |s|
  {
    if s == "" || FrontSpace(s) > 0 then 0
    else
      var n := FieldLen(s[1..]);
      assert s[1..][n..] == s[n + 1..];
      n + 1
  }

  /** strings.Fields. */
  function Fields(s: string): seq<string>
    decreases |s|
  {
    if s == "" then []
    else if FrontSpace(s) > 0 then Fields(s[FrontSpace(s)..])
    else [s[..FieldLen(s)]] + Fields(s[FieldLen(s)..])
  }
}
