/** What the query decoder does with any text: which escapes it takes, what each of
    them becomes, and that nothing else is touched. */
module QueryDecoding {
  import opened Bytes
  import opened Common
  import opened CText
  import opened Query
  import opened QueryProperties

  // Which escapes are taken ------------------------------------------------------------

  /** The two bytes behind a percent sign: two digits, or a digit behind a blank or a
      sign, which `strtoul` takes as well. */
  predicate IsEscapePair(a: byte, b: byte)
  {
    IsHex(b) && (IsHex(a) || IsSpace(a) || a == 43 || a == 45)
  }

  function PairValue(a: byte, b: byte): byte
    requires IsEscapePair(a, b)
  {
    if IsHex(a) then 16 * HexValue(a) + HexValue(b)
    else if a == 45 && HexValue(b) > 0 then 256 - HexValue(b)
    else HexValue(b)
  }

  predicate EscapeAt(s: Bytes, i: nat)
  {
    i + 2 < |s| && s[i] == PERCENT && IsEscapePair(s[i + 1], s[i + 2])
  }

  predicate NoEscape(s: Bytes)
  {
    forall i | 0 <= i < |s| :: !EscapeAt(s, i)
  }

  lemma PairOfDigits(a: byte, b: byte)
    requires IsHex(a) && IsHex(b)
    ensures EscapeValue([a, b]) == 16 * HexValue(a) + HexValue(b)
  {
    TwoDigits(a, b);
  }

  lemma PairStart(a: byte, b: byte)
    ensures CString([a, b]) == if a == 0 then [] else if b == 0 then [a] else [a, b]
  {
    assert [a, b][1..] == [b] && [b][1..] == [];
    assert CString([b]) == if b == 0 then [] else [b] + CString([]);
    assert CString([a, b]) == if a == 0 then [] else [a] + CString([b]);
  }

  lemma OneDigit(b: byte)
    requires IsHex(b)
    ensures Digits([b]) == 1 && Number([b][..1]) == HexValue(b) && !HasPrefix([b]) && [b][0..] == [b]
  {
    assert [b][..1] == [b] && [b][..0] == [];
    assert Number([b]) == 16 * Number([b][..0]) + HexValue(b);
    DigitsOf([b], []);
    assert [b] + [] == [b];
  }

  /** A blank or a sign, and one digit. */
  lemma PairOfOneDigit(a: byte, b: byte)
    requires IsHex(b) && (IsSpace(a) || a == 43 || a == 45)
    ensures Strtoul([a, b]) == Scanned(Limited(HexValue(b), a == 45), 2)
  {
    var s: Bytes := [a, b];
    OneDigit(b);
    DigitIsNoBlank(b);
    assert s[1..] == [b];
    SpacesOf(if IsSpace(a) then [a] else [], if IsSpace(a) then [b] else s);
    assert [a] + [b] == s && [] + s == s;
    StrtoulParts(s, Spaces(s), 1, [b], 0, 1);
  }

  lemma LowByteOf(h: nat)
    requires 0 < h < 16
    ensures (ULONG_MAX + 1 - h) % 256 == 256 - h
  {
    assert ULONG_MAX + 1 - h == 256 * 0xFF_FFFF_FFFF_FFFF + (256 - h);
  }

  lemma TakenPair(a: byte, b: byte)
    requires IsEscapePair(a, b)
    ensures EscapeValue([a, b]) == PairValue(a, b)
  {
    DigitIsNoBlank(b);
    PairStart(a, b);
    if IsHex(a) {
      PairOfDigits(a, b);
    } else {
      PairOfOneDigit(a, b);
      if a == 45 && HexValue(b) > 0 {
        LowByteOf(HexValue(b));
      } else {
        assert HexValue(b) % 256 == HexValue(b);
      }
    }
  }

  lemma ShortIsNotTaken(s: Bytes)
    requires |s| < 2
    ensures Strtoul(s).end != 2
  {
  }

  lemma OtherPair(a: byte, b: byte)
    requires !IsEscapePair(a, b)
    ensures EscapeValue([a, b]) == -1
  {
    PairStart(a, b);
    var s := CString([a, b]);
    if |s| == 2 {
      NotTakenWhole(a, b);
    } else {
      ShortIsNotTaken(s);
    }
  }

  lemma NotTakenWhole(a: byte, b: byte)
    requires !IsEscapePair(a, b)
    ensures Strtoul([a, b]).end != 2
  {
    var s: Bytes := [a, b];
    var n := Spaces(s);
    var start := if n < 2 && (s[n] == 43 || s[n] == 45) then n + 1 else n;
    var rest := s[start..];
    SpacesMean(s);
    StrtoulParts(s, n, start, rest, 0, Digits(rest[0..]));
    assert rest[0..] == rest;
    if start == 0 {
      assert rest == s;
    } else if start == 1 {
      assert rest == [b];
    }
  }

  /** The two bytes are taken exactly if they are such a pair. */
  lemma EscapeValueIs(a: byte, b: byte)
    ensures EscapeValue([a, b]) == if IsEscapePair(a, b) then PairValue(a, b) else -1
  {
    if IsEscapePair(a, b) {
      TakenPair(a, b);
    } else {
      OtherPair(a, b);
    }
  }

  // Any text -------------------------------------------------------------------------------

  function Plain(c: byte, f: bool): byte { if c == PLUS && f then SPACE else c }

  /** The decoder takes an escape where one stands, and one byte everywhere else. */
  lemma StepIs(s: Bytes, f: bool)
    requires s != []
    ensures DecodeStep(s, f) == if EscapeAt(s, 0) then (PairValue(s[1], s[2]), 3) else (Plain(s[0], f), 1)
  {
    if |s| > 2 {
      assert s[1..3] == [s[1], s[2]];
      EscapeValueIs(s[1], s[2]);
    }
  }

  lemma EscapeDecodesTo(a: byte, b: byte, rest: Bytes, f: bool)
    requires IsEscapePair(a, b)
    ensures Decode([PERCENT, a, b] + rest, f) == [PairValue(a, b)] + Decode(rest, f)
  {
    var s := [PERCENT, a, b] + rest;
    StepIs(s, f);
    assert s[3..] == rest;
  }

  lemma OtherByteDecodesTo(c: byte, rest: Bytes, f: bool)
    requires !EscapeAt([c] + rest, 0)
    ensures Decode([c] + rest, f) == [Plain(c, f)] + Decode(rest, f)
  {
    var s := [c] + rest;
    StepIs(s, f);
    assert s[1..] == rest;
  }

  lemma EscapeBehind(s: Bytes, n: nat, i: nat)
    requires n <= |s|
    ensures EscapeAt(s[n..], i) <==> EscapeAt(s, n + i)
  {
  }

  lemma {:induction false} DecodingShortens(s: Bytes, f: bool)
    ensures |Decode(s, f)| <= |s|
    ensures !NoEscape(s) ==> |Decode(s, f)| < |s|
    decreases |s|
  {
    if s != [] {
      StepIs(s, f);
      var n := DecodeStep(s, f).1;
      DecodingShortens(s[n..], f);
      if !NoEscape(s) && !EscapeAt(s, 0) {
        var i :| 0 <= i < |s| && EscapeAt(s, i);
        EscapeBehind(s, 1, i - 1);
      }
    }
  }

  function AllPlain(s: Bytes, f: bool): Bytes
  {
    seq(|s|, i requires 0 <= i < |s| => Plain(s[i], f))
  }

  lemma {:induction false} WithoutEscapes(s: Bytes, f: bool)
    requires NoEscape(s)
    ensures Decode(s, f) == AllPlain(s, f)
    decreases |s|
  {
    if s != [] {
      StepIs(s, f);
      forall i | 0 <= i < |s| - 1
        ensures !EscapeAt(s[1..], i)
      {
        EscapeBehind(s, 1, i);
      }
      WithoutEscapes(s[1..], f);
      assert AllPlain(s, f) == [Plain(s[0], f)] + AllPlain(s[1..], f);
    }
  }

  /** Decoding leaves a text as it is exactly if no escape stands in it and, where a
      plus means a space, no plus. */
  lemma DecodesToItselfIff(s: Bytes, f: bool)
    ensures Decode(s, f) == s <==> NoEscape(s) && (f ==> PLUS !in s)
  {
    DecodingShortens(s, f);
    if NoEscape(s) {
      WithoutEscapes(s, f);
      if f && PLUS in s {
        var i :| 0 <= i < |s| && s[i] == PLUS;
        assert AllPlain(s, f)[i] != s[i];
      } else {
        assert AllPlain(s, f) == s;
      }
    }
  }

  /** No escape starts in a and ends behind it. */
  predicate NoneStraddles(a: Bytes, b: Bytes)
  {
    forall i | 0 <= i < |a| && |a| <= i + 2 :: !EscapeAt(a + b, i)
  }

  lemma EscapeInFront(a: Bytes, b: Bytes)
    requires a != [] && NoneStraddles(a, b)
    ensures EscapeAt(a + b, 0) <==> EscapeAt(a, 0)
  {
    if |a| > 2 {
      assert (a + b)[0] == a[0] && (a + b)[1] == a[1] && (a + b)[2] == a[2];
    } else {
      assert !EscapeAt(a + b, 0);
    }
  }

  lemma DecodeUnfolds(s: Bytes, c: byte, n: nat, f: bool)
    requires s != [] && DecodeStep(s, f) == (c, n)
    ensures Decode(s, f) == [c] + Decode(s[n..], f)
  {
  }

  /** The first step is the same with more behind. */
  lemma SameStep(a: Bytes, b: Bytes, f: bool)
    requires a != [] && NoneStraddles(a, b)
    ensures DecodeStep(a + b, f) == DecodeStep(a, f)
    ensures var n := DecodeStep(a, f).1; (a + b)[n..] == a[n..] + b && NoneStraddles(a[n..], b)
  {
    var s := a + b;
    StepIs(s, f);
    StepIs(a, f);
    EscapeInFront(a, b);
    assert s[0] == a[0] && (EscapeAt(a, 0) ==> s[1] == a[1] && s[2] == a[2]);
    var n := DecodeStep(a, f).1;
    assert s[n..] == a[n..] + b;
    forall i | 0 <= i < |a| - n && |a| - n <= i + 2
      ensures !EscapeAt(a[n..] + b, i)
    {
      EscapeBehind(s, n, i);
    }
  }

  /** Two texts are decoded each on its own unless an escape lies across the join; so
      an escape, or what only looks like one, changes nothing beyond itself. */
  lemma {:induction false} DecodeOfJoin(a: Bytes, b: Bytes, f: bool)
    requires NoneStraddles(a, b)
    ensures Decode(a + b, f) == Decode(a, f) + Decode(b, f)
    decreases |a|
  {
    if a == [] {
      assert a + b == b;
    } else {
      var (c, n) := DecodeStep(a, f);
      SameStep(a, b, f);
      DecodeUnfolds(a, c, n, f);
      DecodeUnfolds(a + b, c, n, f);
      DecodeOfJoin(a[n..], b, f);
      Reassociate([c], Decode(a[n..], f), Decode(b, f));
    }
  }

  /** `50%+off`: the percent sign stays, the plus is a space. */
  lemma PercentStays()
    ensures Decode([53, 48, PERCENT, PLUS, 111, 102, 102], true) == [53, 48, PERCENT, SPACE, 111, 102, 102]
  {
    var s: Bytes := [53, 48, PERCENT, PLUS, 111, 102, 102];
    assert NoEscape(s);
    WithoutEscapes(s, true);
  }
}
