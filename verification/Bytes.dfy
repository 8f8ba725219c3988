/**
 Byte classes and byte searches shared by the SQL lexer, the splitter and the
 printers. A Go string is a sequence of bytes; here each byte is a `char` whose
 code is the byte's value. No definition in this file looks above 0x80, so
 every statement built on it covers all byte strings, valid UTF-8 or not.
 */
module Bytes {

  datatype Option<+T> = None | Some(value: T)

  predicate IsDigit(c: char) { '0' <= c <= '9' }

  predicate IsTagByte(c: char) {
    c == '_' || 'a' <= c <= 'z' || 'A' <= c <= 'Z' || IsDigit(c)
  }

  predicate IsWordByte(c: char) { IsTagByte(c) || c as int >= 0x80 }

  predicate IsSpace(c: char) { c == ' ' || c == '\t' || c == '\n' || c == '\r' }

  /** The classes by their codes in ASCII; every byte above it is a word byte and no tag byte. */
  lemma ByteClasses(c: char)
    ensures IsSpace(c) <==> c as int in {9, 10, 13, 32}
    ensures IsDigit(c) <==> 48 <= c as int <= 57
    ensures IsTagByte(c) <==> 48 <= c as int <= 57 || 65 <= c as int <= 90 || c as int == 95 || 97 <= c as int <= 122
    ensures IsWordByte(c) <==> IsTagByte(c) || c as int >= 128
  {
  }

  predicate AllSpace(s: string, from: nat, to: nat)
    requires from <= to <= |s|
  {
    forall k | from <= k < to :: IsSpace(s[k])
  }

  function Min(a: int, b: int): int { if a <= b then a else b }

  function Max(a: int, b: int): int { if a >= b then a else b }

  /** First position at or after `from` holding `c`, or |s|. */
  function IndexByte(s: string, c: char, from: nat): (k: nat)
    requires from <= |s|
    ensures from <= k <= |s|
    decreases |s| - from
  {
    if from == |s| || s[from] == c then from else IndexByte(s, c, from + 1)
  }

  lemma {:induction false} IndexByteFirst(s: string, c: char, from: nat)
    requires from <= |s|
    ensures var k := IndexByte(s, c, from);
            (k < |s| ==> s[k] == c) && forall j | from <= j < k :: s[j] != c
    decreases |s| - from
  {
    if from < |s| && s[from] != c {
      IndexByteFirst(s, c, from + 1);
    }
  }

  /** End of the run of word bytes starting at `from`. */
  function WordEnd(s: string, from: nat): (k: nat)
    requires from <= |s|
    ensures from <= k <= |s|
    decreases |s| - from
  {
    if from == |s| || !IsWordByte(s[from]) then from else WordEnd(s, from + 1)
  }

  lemma {:induction false} WordEndRun(s: string, from: nat)
    requires from <= |s|
    ensures var k := WordEnd(s, from);
            (k < |s| ==> !IsWordByte(s[k])) && forall j | from <= j < k :: IsWordByte(s[j])
    decreases |s| - from
  {
    if from < |s| && IsWordByte(s[from]) {
      WordEndRun(s, from + 1);
    }
  }

  /** End of the run of dollar-tag bytes starting at `from`. */
  function TagEnd(s: string, from: nat): (k: nat)
    requires from <= |s|
    ensures from <= k <= |s|
    decreases |s| - from
  {
    if from == |s| || !IsTagByte(s[from]) then from else TagEnd(s, from + 1)
  }

  lemma {:induction false} TagEndRun(s: string, from: nat)
    requires from <= |s|
    ensures var k := TagEnd(s, from);
            (k < |s| ==> !IsTagByte(s[k])) && forall j | from <= j < k :: IsTagByte(s[j])
    decreases |s| - from
  {
    if from < |s| && IsTagByte(s[from]) {
      TagEndRun(s, from + 1);
    }
  }

  predicate OccursAt(s: string, pat: string, k: int) {
    0 <= k && k + |pat| <= |s| && s[k..k + |pat|] == pat
  }

  /** First occurrence of `pat` at or after `from`. */
  function Index(s: string, pat: string, from: nat): (r: Option<nat>)
    requires from <= |s|
    ensures r.Some? ==> from <= r.value && r.value + |pat| <= |s|
    decreases |s| - from
  {
    if OccursAt(s, pat, from) then Some(from)
    else if from == |s| then None
    else Index(s, pat, from + 1)
  }

  lemma {:induction false} IndexFirst(s: string, pat: string, from: nat)
    requires from <= |s|
    ensures match Index(s, pat, from)
            case Some(k) => OccursAt(s, pat, k) && forall j | from <= j < k :: !OccursAt(s, pat, j)
            case None => forall j | from <= j <= |s| :: !OccursAt(s, pat, j)
    decreases |s| - from
  {
    if !OccursAt(s, pat, from) && from < |s| {
      IndexFirst(s, pat, from + 1);
    }
  }

  /** ASCII upper case, which is all the keyword comparisons can tell apart. */
  function UpperByte(c: char): char {
    if 'a' <= c <= 'z' then (c as int - 32) as char else c
  }

  // ---- windows of a string ------------------------------------------------

  lemma IndexByteWindow(s: string, a: nat, b: nat, c: char, i: nat)
    requires a <= i <= b <= |s|
    ensures IndexByte(s[a..b], c, i - a) == Min(IndexByte(s, c, i), b) - a
  {
    var w := s[a..b];
    IndexByteFirst(s, c, i);
    IndexByteFirst(w, c, i - a);
    assert forall j | 0 <= j < |w| :: w[j] == s[a + j];
    assert forall j | a <= j < b :: s[j] == w[j - a];
  }

  lemma WordEndWindow(s: string, a: nat, b: nat, i: nat)
    requires a <= i <= b <= |s|
    ensures WordEnd(s[a..b], i - a) == Min(WordEnd(s, i), b) - a
  {
    var w := s[a..b];
    WordEndRun(s, i);
    WordEndRun(w, i - a);
    assert forall j | 0 <= j < |w| :: w[j] == s[a + j];
    assert forall j | a <= j < b :: s[j] == w[j - a];
  }

  lemma TagEndWindow(s: string, a: nat, b: nat, i: nat)
    requires a <= i <= b <= |s|
    ensures TagEnd(s[a..b], i - a) == Min(TagEnd(s, i), b) - a
  {
    var w := s[a..b];
    TagEndRun(s, i);
    TagEndRun(w, i - a);
    assert forall j | 0 <= j < |w| :: w[j] == s[a + j];
    assert forall j | a <= j < b :: s[j] == w[j - a];
  }

  lemma SliceOfSlice(s: string, a: nat, b: nat, i: nat, j: nat)
    requires a <= b <= |s| && i <= j <= b - a
    ensures s[a..b][i..j] == s[a + i..a + j]
  {
    var u, v := s[a..b][i..j], s[a + i..a + j];
    assert forall k | 0 <= k < j - i :: u[k] == s[a + i + k] == v[k];
  }

  lemma OccursWindow(s: string, a: nat, b: nat, pat: string, k: int)
    requires a <= b <= |s|
    ensures OccursAt(s[a..b], pat, k) <==> 0 <= k && a + k + |pat| <= b && OccursAt(s, pat, a + k)
  {
    if 0 <= k && a + k + |pat| <= b {
      SliceOfSlice(s, a, b, k, k + |pat|);
    }
  }

  /** A search in a window finds what the whole string holds there, if it fits. */
  lemma IndexWindow(s: string, a: nat, b: nat, pat: string, i: nat)
    requires a <= i <= b <= |s|
    ensures var r, q := Index(s[a..b], pat, i - a), Index(s, pat, i);
            if q.Some? && q.value + |pat| <= b then r == Some(q.value - a) else r.None?
  {
    hide OccursAt, Index;
    var w, r, q := s[a..b], Index(s[a..b], pat, i - a), Index(s, pat, i);
    IndexFirst(s, pat, i);
    IndexFirst(w, pat, i - a);
    if r.Some? {
      OccursWindow(s, a, b, pat, r.value);
      assert OccursAt(s, pat, a + r.value);
    }
    if q.Some? {
      OccursWindow(s, a, b, pat, q.value - a);
    }
  }
}
