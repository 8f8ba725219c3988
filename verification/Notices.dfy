/**
 What the notices below a table say in numbers, read off their text.
 */
module Notices {
  import opened Bytes
  import opened Printing
  import opened Format

  function DigitsEnd(s: string): (k: nat)
    ensures k <= |s| && (forall j | 0 <= j < k :: IsDigit(s[j])) && (k < |s| ==> !IsDigit(s[k]))
  {
    if s == "" || !IsDigit(s[0]) then 0 else 1 + DigitsEnd(s[1..])
  }

  /** The numbers in a text, in order. */
  function NumbersIn(s: string): seq<int>
    decreases |s|
  {
    if s == "" then []
    else if !IsDigit(s[0]) then NumbersIn(s[1..])
    else [NatOf(s[..DigitsEnd(s)])] + NumbersIn(s[DigitsEnd(s)..])
  }

  predicate NoDigits(s: string) { forall k | 0 <= k < |s| :: !IsDigit(s[k]) }

  lemma {:induction false} Words(words: string, rest: string)
    requires NoDigits(words)
    ensures NumbersIn(words + rest) == NumbersIn(rest)
    decreases |words|
  {
    if words == "" {
      assert words + rest == rest;
    } else {
      assert (words + rest)[1..] == words[1..] + rest;
      Words(words[1..], rest);
    }
  }

  lemma Number(digits: string, rest: string)
    requires digits != "" && (forall k | 0 <= k < |digits| :: IsDigit(digits[k])) && (rest != "" ==> !IsDigit(rest[0]))
    ensures NumbersIn(digits + rest) == [NatOf(digits)] + NumbersIn(rest)
  {
    hide NatOf;
    var s := digits + rest;
    assert forall k | 0 <= k < |digits| :: s[k] == digits[k];
    assert rest != "" ==> s[|digits|] == rest[0];
    assert DigitsEnd(s) == |digits|;
    assert s[..|digits|] == digits && s[|digits|..] == rest;
  }

  /** A printed number between words. */
  lemma Printed(before: string, n: nat, after: string, rest: string)
    requires NoDigits(before) && NoDigits(after) && after != ""
    ensures NumbersIn(before + Decimal(n) + after + rest) == [n] + NumbersIn(rest)
  {
    hide Decimal, NumbersIn, NatOf;
    assert before + Decimal(n) + after + rest == before + (Decimal(n) + (after + rest));
    Words(before, Decimal(n) + (after + rest));
    Number(Decimal(n), after + rest);
    DecimalReads(n);
    Words(after, rest);
  }

  lemma TheCaps()
    ensures NatOf("200") == MAX_ROWS && NatOf("102400") == MAX_BYTES && NatOf("2048") == MAX_CELL_BYTES
  {
    assert NatOf("") == 0;
    assert "2"[..0] == "" && "20"[..1] == "2" && "200"[..2] == "20";
    assert "204"[..2] == "20" && "2048"[..3] == "204";
    assert "1"[..0] == "" && "10"[..1] == "1" && "102"[..2] == "10" && "1024"[..3] == "102";
    assert "10240"[..4] == "1024" && "102400"[..5] == "10240";
    assert NatOf("1") == 1 && NatOf("10") == 10 && NatOf("102") == 102 && NatOf("1024") == 1024 && NatOf("10240") == 10240;
    assert NatOf("2") == 2 && NatOf("20") == 20 && NatOf("204") == 204;
  }

  lemma RowCap(rest: string)
    ensures NumbersIn("the 200-row cap" + rest) == [MAX_ROWS] + NumbersIn(rest)
  {
    hide NumbersIn, NatOf;
    TheCaps();
    assert "the 200-row cap" + rest == "the " + ("200" + ("-row cap" + rest));
    Words("the ", "200" + ("-row cap" + rest));
    Number("200", "-row cap" + rest);
    Words("-row cap", rest);
  }

  lemma ByteCap(rest: string)
    ensures NumbersIn("the 102400-byte response cap" + rest) == [MAX_BYTES] + NumbersIn(rest)
  {
    hide NumbersIn, NatOf;
    TheCaps();
    assert "the 102400-byte response cap" + rest == "the " + ("102400" + ("-byte response cap" + rest));
    Words("the ", "102400" + ("-byte response cap" + rest));
    Number("102400", "-byte response cap" + rest);
    Words("-byte response cap", rest);
  }

  lemma ReasonsSay(more: bool, short: bool, rest: string)
    ensures NumbersIn(Reasons(more, short) + rest)
            == (if more then [MAX_ROWS] else []) + (if short then [MAX_BYTES] else []) + NumbersIn(rest)
  {
    hide NumbersIn;
    var b := if short then "the 102400-byte response cap" else "";
    var and := if more && short then " and " else "";
    ByteCap(rest);
    Words(and, b + rest);
    RowCap(and + (b + rest));
    assert Reasons(more, short) + rest == (if more then "the 200-row cap" else "") + (and + (b + rest));
    assert "" + (and + (b + rest)) == and + (b + rest) && "" + rest == rest;
  }

  lemma CountWords()
    ensures NoDigits(" of ") && NoDigits(" rows shown") && NoDigits(" rows shown and more remain") && NoDigits("")
  {
  }

  lemma CountOf(shown: nat, total: nat, words: string, rest: string)
    requires NoDigits(words) && words != ""
    ensures NumbersIn(Decimal(shown) + " of " + Decimal(total) + words + rest) == [shown, total] + NumbersIn(rest)
  {
    hide NumbersIn, Decimal;
    var tail := Decimal(total) + words + rest;
    assert Decimal(shown) + " of " + Decimal(total) + words + rest == "" + Decimal(shown) + " of " + tail;
    Printed("", shown, " of ", tail);
    assert tail == "" + Decimal(total) + words + rest;
    Printed("", total, words, rest);
  }

  lemma CountOnly(shown: nat, words: string, rest: string)
    requires NoDigits(words) && words != ""
    ensures NumbersIn(Decimal(shown) + words + rest) == [shown] + NumbersIn(rest)
  {
    hide NumbersIn, Decimal;
    assert Decimal(shown) + words + rest == "" + Decimal(shown) + words + rest;
    Printed("", shown, words, rest);
  }

  lemma CountSays(shown: nat, total: int, rest: string)
    ensures NumbersIn(CountText(shown, total) + rest) == [shown] + (if total >= 0 then [total] else []) + NumbersIn(rest)
  {
    hide NumbersIn, Decimal, NoDigits;
    CountWords();
    if total >= 0 {
      CountOf(shown, total, " rows shown", rest);
    } else {
      CountOnly(shown, " rows shown and more remain", rest);
    }
  }

  /** The truncation notice names the caps that fired, then how many rows are shown, then, when it is
      known, how many there are. */
  lemma TruncatedSays(more: bool, short: bool, shown: nat, total: int)
    ensures NumbersIn(TruncatedNotice(more, short, shown, total))
            == if !more && !short then []
               else (if more then [MAX_ROWS] else []) + (if short then [MAX_BYTES] else [])
                    + [shown] + if total >= 0 then [total] else []
  {
    hide NumbersIn, Reasons, CountText, Decimal;
    if more || short {
      AdviceSaysNothing();
      SentenceSays(more, short, shown, total, ADVICE);
    } else {
      NothingSaid();
    }
  }

  lemma SentenceSays(more: bool, short: bool, shown: nat, total: int, advice: string)
    requires NumbersIn(advice) == []
    ensures NumbersIn("\nTruncated by " + Reasons(more, short) + ": " + CountText(shown, total) + advice)
            == (if more then [MAX_ROWS] else []) + (if short then [MAX_BYTES] else [])
               + [shown] + if total >= 0 then [total] else []
  {
    hide NumbersIn, Reasons, CountText, Decimal;
    var reasons, count := Reasons(more, short), CountText(shown, total) + advice;
    Words("\nTruncated by ", reasons + (": " + count));
    ReasonsSay(more, short, ": " + count);
    Words(": ", count);
    CountSays(shown, total, advice);
    assert "\nTruncated by " + reasons + ": " + CountText(shown, total) + advice == "\nTruncated by " + (reasons + (": " + count));
  }

  lemma NothingSaid()
    ensures NumbersIn("") == []
  {
  }

  lemma Sentence(a: string, b: string, c: string, d: string)
    requires NoDigits(a) && NoDigits(b) && NoDigits(c) && NoDigits(d)
    ensures NumbersIn(a + b + c + d) == []
  {
    hide NumbersIn;
    NothingSaid();
    Words(a + b + c + d, "");
    assert a + b + c + d + "" == a + b + c + d;
  }

  lemma AdviceSaysNothing()
    ensures NumbersIn(ADVICE) == []
  {
    hide NumbersIn;
    Sentence(". Narrow the query", " with a WHERE clause", " or a LIMIT to see", " the rest.\n");
  }

  lemma EndsHaveNone()
    ensures NoDigits(CUT_ENDS) && NoDigits(CUT_MARKER) && NoDigits("\".\n")
  {
    var e, f, g := " of them); ", "a cut value ends ", "with \"";
    assert NoDigits(e) && NoDigits(f) && NoDigits(g);
    assert NoDigits(e + f + g);
  }

  lemma CellCap(rest: string)
    ensures NumbersIn(CUT_VALUES + rest) == [MAX_CELL_BYTES] + NumbersIn(rest)
  {
    hide NumbersIn, NatOf;
    TheCaps();
    var tail := "were cut (" + rest;
    assert CUT_VALUES + rest == "Values over the " + ("2048" + ("-byte cell cap " + tail));
    Words("Values over the ", "2048" + ("-byte cell cap " + tail));
    Number("2048", "-byte cell cap " + tail);
    Words("-byte cell cap ", tail);
    Words("were cut (", rest);
  }

  lemma CutEnd(cut: nat, ends: string, marker: string, quote: string)
    requires NoDigits(ends) && NoDigits(marker) && NoDigits(quote) && ends != ""
    ensures NumbersIn(Decimal(cut) + ends + marker + quote) == [cut]
  {
    hide NumbersIn, Decimal;
    Sentence(marker, quote, "", "");
    assert marker + quote + "" + "" == marker + quote;
    Printed("", cut, ends, marker + quote);
    assert Decimal(cut) + ends + marker + quote == "" + Decimal(cut) + ends + (marker + quote);
  }

  lemma Apart(a: string, b: string, c: string, d: string, e: string)
    ensures a + b + c + d + e == a + (b + c + d + e)
  {
  }

  /** The notice of cut values gives the cell cap, and then how many values were cut. */
  lemma CutSays(cut: nat)
    ensures NumbersIn(CutNotice(cut)) == if cut == 0 then [] else [MAX_CELL_BYTES, cut]
  {
    hide NumbersIn, Decimal, NatOf, NoDigits;
    if cut > 0 {
      EndsHaveNone();
      CutEnd(cut, CUT_ENDS, CUT_MARKER, "\".\n");
      CellCap(Decimal(cut) + CUT_ENDS + CUT_MARKER + "\".\n");
      Apart(CUT_VALUES, Decimal(cut), CUT_ENDS, CUT_MARKER, "\".\n");
    } else {
      NothingSaid();
    }
  }
}
