/** The parts of the C library the code leans on: C strings and `strtoul` with
    base 16, and the hexadecimal printer that it undoes. */
module CText {
  import opened Bytes

  const ULONG_MAX: nat := 0xFFFF_FFFF_FFFF_FFFF

  /** The bytes of a C string stored in `field`. */
  function CString(field: Bytes): Bytes
  {
    if field == [] || field[0] == 0 then [] else [field[0]] + CString(field[1..])
  }

  predicate IsSpace(c: byte) { c == 32 || 9 <= c <= 13 }

  predicate IsAlnum(c: byte) { 48 <= c <= 57 || 65 <= c <= 90 || 97 <= c <= 122 }

  predicate IsHex(c: byte) { 48 <= c <= 57 || 65 <= c <= 70 || 97 <= c <= 102 }

  function HexValue(c: byte): (v: nat)
    requires IsHex(c)
    ensures v < 16
  {
    if c <= 57 then c - 48 else if c <= 70 then c - 55 else c - 87
  }

  /** How many bytes at the front of s are blanks, or hexadecimal digits. */
  function Spaces(s: Bytes): (n: nat)
    ensures n <= |s|
  {
    if s != [] && IsSpace(s[0]) then 1 + Spaces(s[1..]) else 0
  }

  function Digits(s: Bytes): (n: nat)
    ensures n <= |s|
    ensures forall i | 0 <= i < n :: IsHex(s[i])
  {
    if s != [] && IsHex(s[0]) then 1 + Digits(s[1..]) else 0
  }

  function Number(digits: Bytes): nat
    requires forall i | 0 <= i < |digits| :: IsHex(digits[i])
  {
    if digits == [] then 0
    else 16 * Number(digits[..|digits| - 1]) + HexValue(digits[|digits| - 1])
  }

  lemma NumberOfTwo(h: byte, l: byte)
    requires IsHex(h) && IsHex(l)
    ensures Number([h, l]) == 16 * HexValue(h) + HexValue(l)
  {
    var two: Bytes := [h, l];
    assert two[..1] == [h] && [h][..0] == [];
    assert Number([h]) == HexValue(h);
  }

  /** A value, and how many bytes of the text were used for it. */
  datatype Scanned = Scanned(value: nat, end: nat)

  /** `strtoul(s, &end, 16)` for a text without NUL. */
  function Strtoul(s: Bytes): (r: Scanned)
    ensures r.value <= ULONG_MAX
    ensures r.end <= |s|
  {
    var blanks := Spaces(s);
    var signed := blanks < |s| && (s[blanks] == 43 || s[blanks] == 45);
    var negative := signed && s[blanks] == 45;
    var start := if signed then blanks + 1 else blanks;
    var rest := s[start..];
    var skip := if HasPrefix(rest) then 2 else 0;
    var n := Digits(rest[skip..]);
    if n == 0 then Scanned(0, 0)
    else
      var value := Number(rest[skip..][..n]);
      Scanned(if value > ULONG_MAX then ULONG_MAX
             else if negative && value > 0 then ULONG_MAX + 1 - value
             else value,
             start + skip + n)
  }

  /** "0x" counts as a prefix when a digit follows it. */
  predicate HasPrefix(s: Bytes)
  {
    |s| > 2 && s[0] == 48 && (s[1] == 120 || s[1] == 88) && IsHex(s[2])
  }

  function LowerHex(v: nat): (c: byte)
    requires v < 16
    ensures IsHex(c) && HexValue(c) == v
    ensures c != 43 && c != 45 && !IsSpace(c) && c != 120 && c != 88
  {
    if v < 10 then 48 + v else 87 + v
  }

  function UpperHex(v: nat): (c: byte)
    requires v < 16
    ensures IsHex(c) && HexValue(c) == v && (IsAlnum(c))
  {
    if v < 10 then 48 + v else 55 + v
  }

  /** Lower-case hexadecimal, without leading zeros. */
  function Hex(n: nat): (text: Bytes)
    ensures text != []
    ensures forall i | 0 <= i < |text| :: IsHex(text[i])
  {
    if n < 16 then [LowerHex(n)] else Hex(n / 16) + [LowerHex(n % 16)]
  }

  /** `from_i_to_hex`. */
  method FromIToHex(value: nat) returns (text: Bytes)
    ensures text == Hex(value)
  {
    var n := value;
    text := [LowerHex(n % 16)];
    n := n / 16;
    while n > 0
      invariant (if n > 0 then Hex(n) + text else text) == Hex(value)
    {
      text := [LowerHex(n % 16)] + text;
      n := n / 16;
    }
  }

  lemma {:induction false} NumberOfHex(n: nat)
    ensures Number(Hex(n)) == n
  {
    var text := Hex(n);
    if n < 16 {
      assert text[..0] == [];
    } else {
      assert text[..|text| - 1] == Hex(n / 16);
      NumberOfHex(n / 16);
    }
  }

  lemma {:induction false} DigitsOf(text: Bytes, rest: Bytes)
    requires forall i | 0 <= i < |text| :: IsHex(text[i])
    requires rest == [] || !IsHex(rest[0])
    ensures Digits(text + rest) == |text|
  {
    if text == [] {
      assert text + rest == rest;
    } else {
      assert (text + rest)[1..] == text[1..] + rest;
      DigitsOf(text[1..], rest);
    }
  }

  lemma {:induction false} HexStartsPlain(n: nat)
    ensures var c := Hex(n)[0]; c != 43 && c != 45 && !IsSpace(c) && c != 0
    ensures !HasPrefix(Hex(n) + CRLF)
  {
    if n >= 16 {
      HexStartsPlain(n / 16);
    }
    var text := Hex(n);
    assert |text| > 1 ==> IsHex(text[1]);
  }

  /** Reading back a printed length, up to the line end. */
  lemma StrtoulOfHex(n: nat)
    requires n <= ULONG_MAX
    ensures Strtoul(Hex(n) + CRLF) == Scanned(n, |Hex(n)|)
  {
    var s := Hex(n) + CRLF;
    HexStartsPlain(n);
    assert Spaces(s) == 0 && s[0..] == s;
    DigitsOf(Hex(n), CRLF);
    assert s[..|Hex(n)|] == Hex(n);
    NumberOfHex(n);
  }

  lemma {:induction false} CStringIsWhole(text: Bytes)
    requires 0 !in text
    ensures CString(text) == text
  {
    if text != [] {
      CStringIsWhole(text[1..]);
    }
  }

  // What `strtoul` reads, in general ----------------------------------------------------------

  predicate AllHex(s: Bytes)
  {
    forall i | 0 <= i < |s| :: IsHex(s[i])
  }

  /** A digit at i begins the number: only blanks come before it, and a sign at
      most. */
  predicate NumberStarts(s: Bytes, i: nat)
  {
    && i < |s| && IsHex(s[i])
    && (|| (forall k | 0 <= k < i :: IsSpace(s[k]))
        || (i > 0 && (s[i - 1] == 43 || s[i - 1] == 45) && forall k | 0 <= k < i - 1 :: IsSpace(s[k])))
  }

  lemma {:induction false} SpacesMean(s: Bytes)
    ensures var n := Spaces(s);
            && (forall k | 0 <= k < n :: IsSpace(s[k]))
            && (n < |s| ==> !IsSpace(s[n]))
  {
    if s != [] && IsSpace(s[0]) {
      SpacesMean(s[1..]);
    }
  }

  lemma DigitsStart(s: Bytes)
    ensures Digits(s) == 0 <==> s == [] || !IsHex(s[0])
  {
  }

  /** `strtoul` takes nothing exactly if no number starts in the text. */
  lemma StrtoulTakesNothingIff(s: Bytes)
    ensures Strtoul(s).end == 0 <==> forall i: nat :: !NumberStarts(s, i)
  {
    var b := Spaces(s);
    var start := if b < |s| && (s[b] == 43 || s[b] == 45) then b + 1 else b;
    var rest := s[start..];
    var skip := if HasPrefix(rest) then 2 else 0;
    SpacesMean(s);
    DigitsStart(rest[skip..]);
    StrtoulParts(s, b, start, rest, skip, Digits(rest[skip..]));
    assert Digits(rest[skip..]) == 0 <==> start == |s| || !IsHex(s[start]);
    forall i: nat | NumberStarts(s, i)
      ensures i == start
    {
      StartIs(s, i, b);
    }
    assert start < |s| && IsHex(s[start]) ==> NumberStarts(s, start);
  }

  lemma StartIs(s: Bytes, i: nat, b: nat)
    requires NumberStarts(s, i) && b <= |s|
    requires (forall k | 0 <= k < b :: IsSpace(s[k])) && (b < |s| ==> !IsSpace(s[b]))
    ensures i == if b < |s| && (s[b] == 43 || s[b] == 45) then b + 1 else b
  {
    assert !IsSpace(s[i]) && (i > 0 && (s[i - 1] == 43 || s[i - 1] == 45) ==> !IsSpace(s[i - 1]));
  }

  lemma {:induction false} SpacesOf(blanks: Bytes, rest: Bytes)
    requires forall k | 0 <= k < |blanks| :: IsSpace(blanks[k])
    requires rest == [] || !IsSpace(rest[0])
    ensures Spaces(blanks + rest) == |blanks|
  {
    if blanks == [] {
      assert blanks + rest == rest;
    } else {
      assert (blanks + rest)[1..] == blanks[1..] + rest;
      SpacesOf(blanks[1..], rest);
    }
  }

  predicate IsSign(sign: Bytes) { sign == [] || sign == [43] || sign == [45] }

  predicate IsHexPrefix(prefix: Bytes) { prefix == [] || prefix == [48, 120] || prefix == [48, 88] }

  /** The value as `strtoul` gives it: the largest for a number that is too large,
      the complement for a negative one. */
  function Limited(value: nat, negative: bool): nat
  {
    if value > ULONG_MAX then ULONG_MAX
    else if negative && value > 0 then ULONG_MAX + 1 - value
    else value
  }

  /** The parts of the text `strtoul` looks at. */
  lemma StrtoulParts(s: Bytes, b: nat, start: nat, rest: Bytes, skip: nat, n: nat)
    requires b == Spaces(s) && start == (if b < |s| && (s[b] == 43 || s[b] == 45) then b + 1 else b)
    requires rest == s[start..] && skip == (if HasPrefix(rest) then 2 else 0)
    requires n == Digits(rest[skip..])
    ensures n == 0 ==> Strtoul(s) == Scanned(0, 0)
    ensures n > 0 ==>
              Strtoul(s) == Scanned(Limited(Number(rest[skip..][..n]), b < |s| && s[b] == 45), start + skip + n)
  {
  }

  /** Blanks in front only move the end. */
  lemma BlanksAreSkipped(blanks: Bytes, s: Bytes)
    requires forall k | 0 <= k < |blanks| :: IsSpace(blanks[k])
    requires s != [] && !IsSpace(s[0])
    ensures var r := Strtoul(s);
            Strtoul(blanks + s) == if r.end == 0 then Scanned(0, 0) else Scanned(r.value, |blanks| + r.end)
  {
    var t := blanks + s;
    SpacesOf(blanks, s);
    var start := if s[0] == 43 || s[0] == 45 then 1 else 0;
    var rest := s[start..];
    var skip := if HasPrefix(rest) then 2 else 0;
    assert t[|blanks|] == s[0] && t[|blanks| + start..] == rest;
    StrtoulParts(s, 0, start, rest, skip, Digits(rest[skip..]));
    StrtoulParts(t, |blanks|, |blanks| + start, rest, skip, Digits(rest[skip..]));
  }

  lemma DigitIsNoBlank(c: byte)
    requires IsHex(c)
    ensures !IsSpace(c) && c != 43 && c != 45
  {
  }

  /** A sign and a number. */
  lemma SignedReads(sign: Bytes, number: Bytes, skip: nat, n: nat)
    requires IsSign(sign) && number != [] && IsHex(number[0])
    requires skip == (if HasPrefix(number) then 2 else 0) && n == Digits(number[skip..]) && n > 0
    ensures Strtoul(sign + number) == Scanned(Limited(Number(number[skip..][..n]), sign == [45]), |sign| + skip + n)
  {
    var s := sign + number;
    assert s[|sign|..] == number;
    assert s[0] == if sign == [] then number[0] else sign[0];
    DigitIsNoBlank(number[0]);
    SpacesOf([], s);
    assert [] + s == s;
    StrtoulParts(s, 0, |sign|, number, skip, n);
  }

  /** Blanks, a sign, "0x" and digits, each of the first three if it is there; what
      follows does not go on with the number, nor make its leading zero a prefix. */
  lemma StrtoulReads(blanks: Bytes, sign: Bytes, prefix: Bytes, x: Bytes, rest: Bytes)
    requires forall k | 0 <= k < |blanks| :: IsSpace(blanks[k])
    requires IsSign(sign) && IsHexPrefix(prefix) && x != [] && AllHex(x)
    requires rest == [] || !IsHex(rest[0])
    requires prefix == [] ==> !HasPrefix(x + rest)
    ensures Strtoul(blanks + (sign + (prefix + (x + rest))))
         == Scanned(Limited(Number(x), sign == [45]), |blanks| + |sign| + |prefix| + |x|)
  {
    var number := prefix + (x + rest);
    UnsignedReads(prefix, x, rest, number);
    SignedReads(sign, number, |prefix|, |x|);
    assert (sign + number)[0] == if sign == [] then number[0] else sign[0];
    DigitIsNoBlank(number[0]);
    BlanksAreSkipped(blanks, sign + number);
  }

  lemma UnsignedReads(prefix: Bytes, x: Bytes, rest: Bytes, number: Bytes)
    requires IsHexPrefix(prefix) && x != [] && AllHex(x) && number == prefix + (x + rest)
    requires rest == [] || !IsHex(rest[0])
    requires prefix == [] ==> !HasPrefix(x + rest)
    ensures number != [] && IsHex(number[0])
    ensures |prefix| == if HasPrefix(number) then 2 else 0
    ensures Digits(number[|prefix|..]) == |x| && number[|prefix|..][..|x|] == x
  {
    PrefixIs(prefix, x, rest);
    DigitsOf(x, rest);
  }

  lemma PrefixIs(prefix: Bytes, x: Bytes, rest: Bytes)
    requires IsHexPrefix(prefix) && x != [] && AllHex(x)
    requires prefix == [] ==> !HasPrefix(x + rest)
    ensures var number := prefix + (x + rest);
            && number != [] && IsHex(number[0]) && (HasPrefix(number) <==> prefix != [])
            && number[|prefix|..] == x + rest && number[|prefix|..][..|x|] == x
  {
    if prefix == [] {
      assert prefix + (x + rest) == x + rest;
    }
  }
}
