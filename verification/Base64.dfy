/** Base64 with the accumulator of the code: a 32-bit integer that keeps being
    shifted and wraps around. */
module Base64 {
  import opened Bytes
  import opened Common

  const PAD: byte := 61
  const TWO_31: nat := 0x8000_0000
  const TWO_32: nat := 0x1_0000_0000

  /** Section 4 of RFC 4648, table 1. */
  function Letter(v: nat): (c: byte)
    requires v < 64
  {
    if v < 26 then 65 + v else if v < 52 then 71 + v else if v < 62 then v - 4 else if v == 62 then 43 else 47
  }

  /** The value of a letter, or 64. */
  function LetterValue(c: byte): (v: nat)
    ensures v <= 64
  {
    if 65 <= c <= 90 then c - 65
    else if 97 <= c <= 122 then c - 71
    else if 48 <= c <= 57 then c + 4
    else if c == 43 then 62
    else if c == 47 then 63
    else 64
  }

  // The encoding of RFC 4648, by groups ------------------------------------------------

  /** The letters of three bytes. */
  function Four(a: byte, b: byte, c: byte): (g: Bytes)
    ensures |g| == 4
  {
    [Letter(a / 4), Letter(a % 4 * 16 + b / 16), Letter(b % 16 * 4 + c / 64), Letter(c % 64)]
  }

  function Encoded(s: Bytes): Bytes
  {
    if s == [] then []
    else if |s| == 1 then [Letter(s[0] / 4), Letter(s[0] % 4 * 16), PAD, PAD]
    else if |s| == 2 then
      [Letter(s[0] / 4), Letter(s[0] % 4 * 16 + s[1] / 16), Letter(s[1] % 16 * 4), PAD]
    else Four(s[0], s[1], s[2]) + Encoded(s[3..])
  }

  /** Four letters, the last one or two of which may be padding; the bits that are
      left over must be zero. */
  function DecodedGroup(a: byte, b: byte, c: byte, d: byte): Option<Bytes>
  {
    var x, y, z, w := LetterValue(a), LetterValue(b), LetterValue(c), LetterValue(d);
    if x == 64 || y == 64 then None
    else if c == PAD then if d == PAD && y % 16 == 0 then Some([x * 4 + y / 16]) else None
    else if z == 64 then None
    else if d == PAD then if z % 4 == 0 then Some([x * 4 + y / 16, y % 16 * 16 + z / 4]) else None
    else if w == 64 then None
    else Some([x * 4 + y / 16, y % 16 * 16 + z / 4, z % 4 * 64 + w])
  }

  /** A decoder: groups of four letters, padding in the last group only. */
  function Decoded(t: Bytes): Option<Bytes>
  {
    if t == [] then Some([])
    else if |t| < 4 then None
    else
      match (DecodedGroup(t[0], t[1], t[2], t[3]), Decoded(t[4..]))
      case (Some(head), Some(rest)) => if |head| < 3 && rest != [] then None else Some(head + rest)
      case _ => None
  }

  // The code ------------------------------------------------------------------------------

  /** Two's complement in 32 bits. */
  function Wrap(x: int): int
  {
    (x + TWO_31) % TWO_32 - TWO_31
  }

  /** `(val >> shift) & 0x3F` for the shifts that occur. */
  function SixBits(val: int, shift: int): (v: nat)
    requires shift == 0 || shift == 2 || shift == 4 || shift == 6
    ensures v < 64
  {
    if shift == 0 then val % 64
    else if shift == 2 then val / 4 % 64
    else if shift == 4 then val / 16 % 64
    else val / 64 % 64
  }

  /** The letters out after the bytes s, before padding and the last letter. */
  function Emitted(s: Bytes): Bytes
  {
    if s == [] then []
    else if |s| == 1 then [Letter(s[0] / 4)]
    else if |s| == 2 then [Letter(s[0] / 4), Letter(s[0] % 4 * 16 + s[1] / 16)]
    else Four(s[0], s[1], s[2]) + Emitted(s[3..])
  }

  /** The letters one more byte brings out; `last` is the byte before it. */
  function Step(phase: nat, last: byte, c: byte): Bytes
    requires phase < 3
  {
    if phase == 0 then [Letter(c / 4)]
    else if phase == 1 then [Letter(last % 4 * 16 + c / 16)]
    else [Letter(last % 16 * 4 + c / 64), Letter(c % 64)]
  }

  /** The end of the encoding. */
  function Tail(phase: nat, last: byte): Bytes
    requires phase < 3
  {
    if phase == 0 then []
    else if phase == 1 then [Letter(last % 4 * 16), PAD, PAD]
    else [Letter(last % 16 * 4), PAD]
  }

  function LastByte(s: Bytes): byte { if s == [] then 0 else s[|s| - 1] }

  function Phase(n: nat): (p: nat)
    ensures p < 3
  {
    if n < 3 then n else Phase(n - 3)
  }

  lemma {:induction false} EmittedSnoc(s: Bytes, c: byte)
    ensures Emitted(s + [c]) == Emitted(s) + Step(Phase(|s|), LastByte(s), c)
  {
    if |s| >= 3 {
      EmittedSnoc(s[3..], c);
      assert (s + [c])[3..] == s[3..] + [c];
      if |s| == 3 {
        assert s[3..] == [];
      }
    } else {
      assert |s| == 2 ==> (s + [c])[3..] == [];
    }
  }

  lemma {:induction false} EncodedByTail(s: Bytes)
    ensures Encoded(s) == Emitted(s) + Tail(Phase(|s|), LastByte(s))
  {
    if |s| >= 3 {
      EncodedByTail(s[3..]);
      var tail := Tail(Phase(|s|), LastByte(s));
      assert |s| > 3 ==> LastByte(s[3..]) == LastByte(s);
      assert |s| == 3 ==> tail == [];
      Reassociate(Four(s[0], s[1], s[2]), Emitted(s[3..]), tail);
    }
  }

  lemma {:induction false} EmittedLength(s: Bytes)
    ensures |Emitted(s)| % 4 == Phase(|s|)
  {
    if |s| >= 3 {
      EmittedLength(s[3..]);
      var n := |Emitted(s[3..])|;
      assert |Emitted(s)| == 4 + n && Phase(|s|) == Phase(|s| - 3);
      FourMore(n);
    }
  }

  lemma FourMore(n: nat)
    ensures (4 + n) % 4 == n % 4
  {
  }

  lemma PhaseNext(n: nat)
    ensures Phase(n + 1) == if Phase(n) == 2 then 0 else Phase(n) + 1
  {
    if n >= 3 {
      PhaseNext(n - 3);
    }
  }

  lemma WrapKeepsLowBits(x: int)
    ensures Wrap(x) % 4096 == x % 4096
  {
    var m := (x + TWO_31) / TWO_32;
    assert Wrap(x) == x - m * TWO_32;
    var q := m * 1048576;
    assert Wrap(x) == x - q * 4096;
    SameLow(Wrap(x), x, -q);
  }

  lemma SameLow(a: int, b: int, q: int)
    requires a == b + q * 4096
    ensures a % 4096 == b % 4096
  {
    var k := b / 4096;
    assert b == k * 4096 + b % 4096;
    assert a == (k + q) * 4096 + b % 4096;
    Quotient(a, k + q, b % 4096);
  }

  lemma Quotient(a: int, q: int, r: int)
    requires a == q * 4096 + r && 0 <= r < 4096
    ensures a / 4096 == q && a % 4096 == r
  {
  }

  lemma AddMultiple(r: int, q: int)
    ensures (r + q * 64) % 64 == r % 64
  {
    var k := r / 64;
    assert r + q * 64 == (k + q) * 64 + r % 64;
  }

  lemma DivideSum(a: int, d: int, q: int, r: int)
    requires d == 4 || d == 16 || d == 64
    requires a == q * d + r
    ensures a / d == q + r / d
  {
    if d == 4 {
      assert a / 4 == q + r / 4;
    } else if d == 16 {
      assert a / 16 == q + r / 16;
    } else {
      assert a / 64 == q + r / 64;
    }
  }

  /** The bits taken lie in the low twelve. */
  lemma SixBitsOfLow(val: int, shift: int)
    requires shift == 0 || shift == 2 || shift == 4 || shift == 6
    ensures SixBits(val, shift) == SixBits(val % 4096, shift)
  {
    var q, r := val / 4096, val % 4096;
    assert val == q * 4096 + r;
    if shift == 0 {
      AddMultiple(r, q * 64);
    } else if shift == 2 {
      DivideSum(val, 4, q * 1024, r);
      AddMultiple(r / 4, q * 16);
    } else if shift == 4 {
      DivideSum(val, 16, q * 256, r);
      AddMultiple(r / 16, q * 4);
    } else {
      DivideSum(val, 64, q * 64, r);
      AddMultiple(r / 64, q);
    }
  }

  /** The accumulator after one more byte, in its low twelve bits. */
  lemma ShiftIn(val: int, last: byte, c: byte)
    requires val % 256 == last
    ensures var val' := Wrap(val * 256 + c);
            val' % 256 == c && val' % 4096 == last % 16 * 256 + c
  {
    var x := val * 256 + c;
    WrapKeepsLowBits(x);
    var q := val / 256;
    assert val == q * 256 + last;
    assert x == (q * 16 + last / 16) * 4096 + (last % 16 * 256 + c);
    Quotient(x, q * 16 + last / 16, last % 16 * 256 + c);
    LowByteOfLow(Wrap(x), last % 16, c);
  }

  lemma LowByteOfLow(v: int, h: nat, c: byte)
    requires v % 4096 == h * 256 + c && h < 16
    ensures v % 256 == c
  {
    var q := v / 4096;
    assert v == (q * 16 + h) * 256 + c;
  }

  /** The six bits at each place of the shifted accumulator. */
  lemma BitsOfShifted(last: byte, c: byte)
    ensures var low := last % 16 * 256 + c;
            && SixBits(low, 2) == c / 4
            && SixBits(low, 4) == last % 4 * 16 + c / 16
            && SixBits(low, 6) == last % 16 * 4 + c / 64
            && SixBits(low, 0) == c % 64
  {
    OuterBits(last % 16, c);
    MiddleBits(last, c);
  }

  lemma OuterBits(h: nat, c: byte)
    requires h < 16
    ensures var low := h * 256 + c;
            SixBits(low, 2) == c / 4 && SixBits(low, 6) == h * 4 + c / 64 && SixBits(low, 0) == c % 64
  {
    var low := h * 256 + c;
    DivideSum(low, 4, h * 64, c);
    AddMultiple(c / 4, h);
    DivideSum(low, 64, h * 4, c);
    AddMultiple(c, h * 4);
  }

  lemma MiddleBits(last: byte, c: byte)
    ensures SixBits(last % 16 * 256 + c, 4) == last % 4 * 16 + c / 16
  {
    var low, h := last % 16 * 256 + c, last % 16;
    DivideSum(low, 16, h * 16, c);
    SplitNibble(last);
    AddMultiple(last % 4 * 16 + c / 16, h / 4);
  }

  lemma SplitNibble(last: byte)
    ensures var h := last % 16; h * 16 == (h / 4) * 64 + last % 4 * 16
  {
    var h := last % 16;
    assert h % 4 == last % 4;
  }

  method Encode(input: Bytes) returns (out: Bytes)
    ensures out == Encoded(input)
  {
    out := [];
    var val: int := 0;
    var valb := -6;
    ghost var last: byte := 0;
    for i := 0 to |input|
      invariant valb == 2 * Phase(i) - 6
      invariant last == LastByte(input[..i]) && val % 256 == last
      invariant out == Emitted(input[..i])
    {
      var c := input[i];
      assert input[..i + 1] == input[..i] + [c];
      EmittedSnoc(input[..i], c);
      PhaseNext(i);
      ShiftIn(val, last, c);
      val := Wrap(val * 256 + c);
      valb := valb + 8;
      ghost var before := out;
      out, valb := PushLetters(out, val, valb, last, c);
      last := c;
    }
    assert input[..|input|] == input;
    EncodedByTail(input);
    EmittedLength(input);
    out := Finish(out, val, valb, last, Phase(|input|));
  }

  /** The inner loop: bring out six bits at a time. */
  method PushLetters(start: Bytes, val: int, bits: int, ghost last: byte, ghost c: byte) returns (out: Bytes, valb: int)
    requires bits == 2 || bits == 4 || bits == 6
    requires val % 4096 == last % 16 * 256 + c
    ensures out == start + Step(bits / 2 - 1, last, c)
    ensures valb == if bits == 6 then -6 else bits - 6
  {
    out, valb := start, bits;
    BitsOfShifted(last, c);
    while valb >= 0
      invariant valb == bits || (bits == 6 && valb == 0) || valb == (if bits == 6 then -6 else bits - 6)
      invariant valb == bits ==> out == start
      invariant valb == 0 ==> out == start + [Letter(last % 16 * 4 + c / 64)]
      invariant valb < 0 ==> out == start + Step(bits / 2 - 1, last, c)
      decreases valb + 6
    {
      SixBitsOfLow(val, valb);
      out := out + [Letter(SixBits(val, valb))];
      valb := valb - 6;
    }
  }

  /** The letter of the bits left over, and the padding. */
  method Finish(start: Bytes, val: int, valb: int, ghost last: byte, ghost phase: nat) returns (out: Bytes)
    requires phase < 3 && valb == 2 * phase - 6 && val % 256 == last && |start| % 4 == phase
    ensures out == start + Tail(phase, last)
  {
    out := start;
    if valb > -6 {
      ShiftIn(val, last, 0);
      BitsOfShifted(last, 0);
      SixBitsOfLow(Wrap(val * 256), valb + 8);
      out := out + [Letter(SixBits(Wrap(val * 256), valb + 8))];
    }
    ghost var missing := if phase == 0 then 0 else 3 - phase;
    MissingPads(|start|, phase, |out|, missing);
    out := Pad(out, missing);
  }

  lemma MissingPads(n: nat, phase: nat, n': nat, missing: nat)
    requires phase < 3 && n % 4 == phase
    requires n' == (if phase == 0 then n else n + 1) && missing == (if phase == 0 then 0 else 3 - phase)
    ensures (n' + missing) % 4 == 0
  {
  }

  function Pads(n: nat): Bytes { seq(n, _ => PAD) }

  /** The last loop. */
  method Pad(start: Bytes, ghost missing: nat) returns (out: Bytes)
    requires (|start| + missing) % 4 == 0 && missing < 4
    ensures out == start + Pads(missing)
  {
    out := start;
    ghost var done := 0;
    PadsLeft(|out|, missing - done);
    while |out| % 4 != 0
      invariant done <= missing && out == start + Pads(done)
      invariant |out| % 4 != 0 <==> done < missing
      decreases missing - done
    {
      out := out + [PAD];
      done := done + 1;
      PadsLeft(|out|, missing - done);
    }
  }

  lemma PadsLeft(n: nat, left: nat)
    requires (n + left) % 4 == 0 && left < 4
    ensures n % 4 != 0 <==> left > 0
  {
  }

  // Properties -----------------------------------------------------------------------------

  lemma LetterComesBack(v: nat)
    requires v < 64
    ensures LetterValue(Letter(v)) == v && Letter(v) != PAD
  {
  }

  lemma GroupComesBack(a: byte, b: byte, c: byte)
    ensures DecodedGroup(Letter(a / 4), Letter(a % 4 * 16 + b / 16), Letter(b % 16 * 4 + c / 64), Letter(c % 64))
         == Some([a, b, c])
  {
    var x, y, z, w := a / 4, a % 4 * 16 + b / 16, b % 16 * 4 + c / 64, c % 64;
    LetterComesBack(x);
    LetterComesBack(y);
    LetterComesBack(z);
    LetterComesBack(w);
    assert y / 16 == a % 4 && y % 16 == b / 16;
    assert z / 4 == b % 16 && z % 4 == c / 64;
  }

  lemma TwoComeBack(a: byte, b: byte)
    ensures DecodedGroup(Letter(a / 4), Letter(a % 4 * 16 + b / 16), Letter(b % 16 * 4), PAD) == Some([a, b])
  {
    var x, y, z := a / 4, a % 4 * 16 + b / 16, b % 16 * 4;
    LetterComesBack(x);
    LetterComesBack(y);
    LetterComesBack(z);
    assert y / 16 == a % 4 && y % 16 == b / 16 && z / 4 == b % 16;
  }

  lemma OneComesBack(a: byte)
    ensures DecodedGroup(Letter(a / 4), Letter(a % 4 * 16), PAD, PAD) == Some([a])
  {
    LetterComesBack(a / 4);
    LetterComesBack(a % 4 * 16);
  }

  lemma OneGroup(a: byte, b: byte, c: byte, d: byte, head: Bytes, t: Bytes, rest: Bytes)
    requires DecodedGroup(a, b, c, d) == Some(head) && Decoded(t) == Some(rest)
    requires |head| == 3 || rest == []
    ensures Decoded([a, b, c, d] + t) == Some(head + rest)
  {
    var all := [a, b, c, d] + t;
    assert all[4..] == t;
  }

  lemma FourComeBack(a: byte, b: byte, c: byte, t: Bytes, rest: Bytes)
    requires Decoded(t) == Some(rest)
    ensures Decoded(Four(a, b, c) + t) == Some([a, b, c] + rest)
  {
    GroupComesBack(a, b, c);
    OneGroup(Letter(a / 4), Letter(a % 4 * 16 + b / 16), Letter(b % 16 * 4 + c / 64), Letter(c % 64),
             [a, b, c], t, rest);
  }

  /** Decoding gives every input back. */
  lemma {:induction false} RoundTrip(s: Bytes)
    ensures Decoded(Encoded(s)) == Some(s)
  {
    if |s| == 1 {
      OneComesBack(s[0]);
      OneGroup(Letter(s[0] / 4), Letter(s[0] % 4 * 16), PAD, PAD, [s[0]], [], []);
      assert s == [s[0]] + [];
    } else if |s| == 2 {
      TwoComeBack(s[0], s[1]);
      OneGroup(Letter(s[0] / 4), Letter(s[0] % 4 * 16 + s[1] / 16), Letter(s[1] % 16 * 4), PAD, [s[0], s[1]], [], []);
      assert s == [s[0], s[1]] + [];
    } else if |s| >= 3 {
      RoundTrip(s[3..]);
      FourComeBack(s[0], s[1], s[2], Encoded(s[3..]), s[3..]);
      assert s == [s[0], s[1], s[2]] + s[3..];
    }
  }

  /** Four letters for every three bytes begun. */
  lemma {:induction false} EncodedLength(s: Bytes)
    ensures |Encoded(s)| == 4 * ((|s| + 2) / 3)
  {
    if |s| >= 3 {
      EncodedLength(s[3..]);
    }
  }
}
