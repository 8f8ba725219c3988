/**
 What Go makes of spaces, read off the text: a field is what stands between
 them, and trimming leaves what stands between the first and the last.
 */
module GoFields {
  import opened Bytes
  import opened GoSpace

  /** One space, of one to three bytes. */
  predicate IsOneSpace(sp: string) { (|sp| == 1 && AsciiSpace(sp[0])) || TwoByteSpace(sp) || ThreeByteSpace(sp) }

  datatype Piece = Gap(space: string) | Field(text: string)

  function PieceForm(p: Piece): string { if p.Gap? then p.space else p.text }

  function Form(ps: seq<Piece>): string { if ps == [] then "" else PieceForm(ps[0]) + Form(ps[1..]) }

  /** No space begins inside the field, and one or the end follows it. */
  ghost predicate Fits(p: Piece, rest: seq<Piece>) {
    match p
    case Gap(sp) => IsOneSpace(sp)
    case Field(text) =>
      && text != "" && (rest == [] || rest[0].Gap?)
      && forall k, sp | 0 <= k < |text| && IsOneSpace(sp) :: !(sp <= (text + Form(rest))[k..])
  }

  ghost predicate Good(ps: seq<Piece>) { ps == [] || (Fits(ps[0], ps[1..]) && Good(ps[1..])) }

  function FieldTexts(ps: seq<Piece>): seq<string> {
    if ps == [] then []
    else (match ps[0]
          case Gap(_) => []
          case Field(text) => [text]) + FieldTexts(ps[1..])
  }

  // ---- one space -------------------------------------------------------------------

  lemma SpaceInFront(sp: string, rest: string)
    requires IsOneSpace(sp)
    ensures FrontSpace(sp + rest) == |sp|
  {
    var s := sp + rest;
    assert s[..|sp|] == sp;
    assert forall k | 0 <= k < |sp| :: s[k] == sp[k];
  }

  lemma PrefixIsSpace(s: string, sp: string)
    requires IsOneSpace(sp) && sp <= s
    ensures FrontSpace(s) == |sp| > 0
  {
    SpaceInFront(sp, s[|sp|..]);
    assert s == sp + s[|sp|..];
  }

  lemma NoSpaceInFront(s: string)
    requires FrontSpace(s) == 0
    ensures forall sp | IsOneSpace(sp) :: !(sp <= s)
  {
    hide FrontSpace, IsOneSpace;
    forall sp | IsOneSpace(sp)
      ensures !(sp <= s)
    {
      if sp <= s {
        PrefixIsSpace(s, sp);
      }
    }
  }

  lemma FrontIsSpace(s: string)
    requires FrontSpace(s) > 0
    ensures IsOneSpace(s[..FrontSpace(s)]) && s[..FrontSpace(s)] <= s
  {
  }

  lemma SpaceAtEnd(s: string, sp: string)
    requires IsOneSpace(sp)
    ensures BackSpace(s + sp) == |sp|
  {
    var t := s + sp;
    assert t[|s|..] == sp;
    assert forall k | 0 <= k < |sp| :: t[|s| + k] == sp[k];
    assert |sp| == 2 ==> Tail(t, 2) == sp;
    if |sp| == 3 {
      assert Tail(t, 3) == sp;
      assert Tail(t, 2) == sp[1..];
    }
  }

  // ---- fields ------------------------------------------------------------------------

  lemma {:induction false} FieldLenIs(text: string, rest: string)
    requires (rest == "" || FrontSpace(rest) > 0) && forall k | 0 <= k < |text| :: FrontSpace((text + rest)[k..]) == 0
    ensures FieldLen(text + rest) == |text|
    decreases |text|
  {
    hide FrontSpace;
    if text == "" {
      assert text + rest == rest;
    } else {
      assert (text + rest)[0..] == text + rest;
      assert (text + rest)[1..] == text[1..] + rest;
      assert forall k | 0 <= k < |text[1..]| :: (text[1..] + rest)[k..] == (text + rest)[k + 1..];
      FieldLenIs(text[1..], rest);
    }
  }

  lemma Solid(text: string, rest: string)
    requires forall k, sp | 0 <= k < |text| && IsOneSpace(sp) :: !(sp <= (text + rest)[k..])
    ensures forall k | 0 <= k < |text| :: FrontSpace((text + rest)[k..]) == 0
  {
    hide FrontSpace, IsOneSpace;
    forall k | 0 <= k < |text|
      ensures FrontSpace((text + rest)[k..]) == 0
    {
      var s := (text + rest)[k..];
      if FrontSpace(s) > 0 {
        FrontIsSpace(s);
      }
    }
  }

  lemma FieldsStep(s: string, n: nat, isGap: bool)
    requires s != "" && n <= |s|
    requires if isGap then FrontSpace(s) == n > 0 else FrontSpace(s) == 0 && FieldLen(s) == n
    ensures Fields(s) == (if isGap then [] else [s[..n]]) + Fields(s[n..])
  {
    hide FrontSpace, FieldLen;
  }

  /** A text of fields and spaces has those fields. */
  lemma {:induction false} FieldsRead(ps: seq<Piece>)
    requires Good(ps)
    ensures Fields(Form(ps)) == FieldTexts(ps)
    decreases |ps|
  {
    hide FrontSpace, FieldLen, Fields, IsOneSpace;
    if ps == [] {
      NoFields();
    } else {
      var rest := Form(ps[1..]);
      FieldsRead(ps[1..]);
      assert (PieceForm(ps[0]) + rest)[|PieceForm(ps[0])|..] == rest;
      match ps[0]
      case Gap(sp) =>
        SpaceInFront(sp, rest);
        SpaceIsSome(sp);
        FieldsStep(sp + rest, |sp|, true);
      case Field(text) =>
        RestSeparates(ps[1..]);
        Solid(text, rest);
        FieldLenIs(text, rest);
        assert (text + rest)[0..] == text + rest && (text + rest)[..|text|] == text;
        FieldsStep(text + rest, |text|, false);
    }
  }

  lemma NoFields()
    ensures Fields("") == []
  {
  }

  lemma SpaceIsSome(sp: string)
    requires IsOneSpace(sp)
    ensures sp != ""
  {
  }

  lemma RestSeparates(rest: seq<Piece>)
    requires Good(rest) && (rest == [] || rest[0].Gap?)
    ensures Form(rest) == "" || FrontSpace(Form(rest)) > 0
  {
    hide FrontSpace, IsOneSpace;
    if rest != [] {
      SpaceInFront(rest[0].space, Form(rest[1..]));
      SpaceIsSome(rest[0].space);
    }
  }

  lemma {:induction false} PiecesOf(s: string) returns (ps: seq<Piece>)
    ensures Good(ps) && Form(ps) == s
    ensures s != "" && FrontSpace(s) > 0 ==> ps != [] && ps[0].Gap?
    decreases |s|
  {
    hide FrontSpace, FieldLen, IsOneSpace;
    if s == "" {
      ps := [];
    } else if FrontSpace(s) > 0 {
      var n := FrontSpace(s);
      FrontIsSpace(s);
      var more := PiecesOf(s[n..]);
      ps := [Gap(s[..n])] + more;
      assert ps[1..] == more && s == s[..n] + s[n..];
    } else {
      var n := FieldLen(s);
      var more := PiecesOf(s[n..]);
      ps := [Field(s[..n])] + more;
      assert ps[1..] == more && s == s[..n] + s[n..];
      FieldIsSolid(s);
      FieldStops(s);
      assert s[..n] + Form(more) == s;
    }
  }

  lemma FieldStops(s: string)
    requires s != "" && FrontSpace(s) == 0
    ensures var n := FieldLen(s); 0 < n && (n < |s| ==> FrontSpace(s[n..]) > 0)
  {
    hide FrontSpace;
  }

  lemma {:induction false} FieldClear(s: string)
    ensures forall k | 0 <= k < FieldLen(s) :: FrontSpace(s[k..]) == 0
    decreases |s|
  {
    hide FrontSpace;
    if s != "" && FrontSpace(s) == 0 {
      FieldClear(s[1..]);
      assert s[0..] == s;
      assert forall k | 1 <= k < FieldLen(s) :: s[k..] == s[1..][k - 1..];
    }
  }

  lemma FieldIsSolid(s: string)
    ensures forall k, sp | 0 <= k < FieldLen(s) && IsOneSpace(sp) :: !(sp <= s[k..])
  {
    hide FrontSpace, IsOneSpace;
    FieldClear(s);
    forall k, sp | 0 <= k < FieldLen(s) && IsOneSpace(sp)
      ensures !(sp <= s[k..])
    {
      NoSpaceInFront(s[k..]);
    }
  }

  /** Every text is fields and spaces, and its fields are those, however it is told apart. */
  lemma FieldsExactly(s: string)
    ensures exists ps :: Good(ps) && Form(ps) == s
    ensures forall ps | Good(ps) && Form(ps) == s :: Fields(s) == FieldTexts(ps)
  {
    hide Good, Form, Fields, FieldTexts;
    var ps := PiecesOf(s);
    forall ps | Good(ps) && Form(ps) == s
      ensures Fields(s) == FieldTexts(ps)
    {
      FieldsRead(ps);
    }
  }

  // ---- trimming -----------------------------------------------------------------------

  predicate AllSpaces(gaps: seq<string>) { forall k | 0 <= k < |gaps| :: IsOneSpace(gaps[k]) }

  function Joined(gaps: seq<string>): string { if gaps == [] then "" else gaps[0] + Joined(gaps[1..]) }

  /** No space at either end. */
  ghost predicate Clean(core: string) {
    forall sp | IsOneSpace(sp) :: !(sp <= core) && !(|sp| <= |core| && core[|core| - |sp|..] == sp)
  }

  lemma {:induction false} FrontGoes(front: seq<string>, rest: string)
    requires AllSpaces(front)
    ensures TrimFront(Joined(front) + rest) == TrimFront(rest)
    decreases |front|
  {
    hide FrontSpace, IsOneSpace;
    if front == [] {
      assert Joined(front) + rest == rest;
    } else {
      var s, more := Joined(front) + rest, Joined(front[1..]) + rest;
      assert s == front[0] + more;
      SpaceInFront(front[0], more);
      SpaceIsSome(front[0]);
      assert s[|front[0]|..] == more;
      FrontGoes(front[1..], rest);
    }
  }

  lemma {:induction false} JoinedLast(gaps: seq<string>)
    requires gaps != []
    ensures Joined(gaps) == Joined(gaps[..|gaps| - 1]) + gaps[|gaps| - 1]
    decreases |gaps|
  {
    if |gaps| > 1 {
      JoinedLast(gaps[1..]);
      assert gaps[1..][..|gaps| - 2] == gaps[..|gaps| - 1][1..];
    }
  }

  lemma {:induction false} BackGoes(s: string, back: seq<string>)
    requires AllSpaces(back)
    ensures TrimBack(s + Joined(back)) == TrimBack(s)
    decreases |back|
  {
    hide BackSpace, IsOneSpace;
    if back == [] {
      assert s + Joined(back) == s;
    } else {
      var n := |back| - 1;
      var t := s + Joined(back[..n]);
      JoinedLast(back);
      assert s + Joined(back) == t + back[n];
      SpaceAtEnd(t, back[n]);
      SpaceIsSome(back[n]);
      assert (t + back[n])[..|t|] == t;
      BackGoes(s, back[..n]);
    }
  }

  lemma CleanIsBare(core: string)
    requires Clean(core)
    ensures Bare(core)
  {
    hide IsOneSpace;
    if FrontSpace(core) > 0 {
      FrontIsSpace(core);
    }
    if BackSpace(core) > 0 {
      BackIsSpace(core);
    }
  }

  lemma BackIsSpace(s: string)
    requires BackSpace(s) > 0
    ensures IsOneSpace(s[|s| - BackSpace(s)..])
  {
    assert BackSpace(s) == 1 ==> s[|s| - 1..] == [s[|s| - 1]];
  }

  /** Before spaces nothing turns into a space that was none. */
  lemma StillNoSpace(core: string, back: seq<string>)
    requires core != "" && FrontSpace(core) == 0 && AllSpaces(back)
    ensures FrontSpace(core + Joined(back)) == 0
  {
    var s := core + Joined(back);
    if back != [] {
      assert |back[0]| > 0 && s[|core|] == back[0][0];
    }
    assert forall k | 0 <= k < |core| :: s[k] == core[k];
  }

  /** Spaces at the ends, of any kind, are what trimming takes, and all it takes. */
  lemma TrimReads(front: seq<string>, core: string, back: seq<string>)
    requires AllSpaces(front) && AllSpaces(back) && Clean(core)
    ensures GoTrimSpace(Joined(front) + core + Joined(back)) == core
  {
    hide FrontSpace, BackSpace, IsOneSpace, Clean;
    CleanIsBare(core);
    assert Joined(front) + core + Joined(back) == Joined(front) + (core + Joined(back));
    FrontGoes(front, core + Joined(back));
    if core == "" {
      assert core + Joined(back) == Joined(back) + "";
      FrontGoes(back, "");
      assert TrimFront("") == "" && TrimBack("") == "" by { NothingToTrim(); }
    } else {
      StillNoSpace(core, back);
      BackGoes(core, back);
    }
  }

  lemma NothingToTrim()
    ensures TrimFront("") == "" && TrimBack("") == ""
  {
  }
}
