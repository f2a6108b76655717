/** Percent escapes in path components and header values: `%XX` and `%uXXXX`. */
module PathEscapes {
  import opened Bytes
  import opened Common
  import opened CText

  /** The value of `count` hexadecimal digits at position i. */
  function HexAt(s: Bytes, i: nat, count: nat): Option<nat>
  {
    if i + count <= |s| && AllHex(s[i..i + count]) then Some(Number(s[i..i + count])) else None
  }

  /** Surrogates have no encoding. */
  function Utf8(code: nat): (s: Bytes)
    ensures |s| <= 4
  {
    if code < 0x80 then [code]
    else if code < 0x800 then [0xC0 + code / 0x40, 0x80 + code % 0x40]
    else if 0xD800 <= code < 0xE000 || code >= 0x11_0000 then []
    else if code < 0x1_0000 then [0xE0 + code / 0x1000, 0x80 + code / 0x40 % 0x40, 0x80 + code % 0x40]
    else [0xF0 + code / 0x4_0000, 0x80 + code / 0x1000 % 0x40, 0x80 + code / 0x40 % 0x40, 0x80 + code % 0x40]
  }

  /** What stands for the front of the text, and how much of it that is. */
  function PathStep(s: Bytes): (r: (Bytes, nat))
    requires s != []
    ensures 1 <= r.1 <= |s|
  {
    if s[0] != PERCENT || |s| == 1 then ([s[0]], 1)
    else if s[1] == 117 then
      match HexAt(s, 2, 4)
      case Some(v) => (Utf8(v), 6)
      case None => ([s[0]], 1)
    else
      match HexAt(s, 1, 2)
      case Some(v) => ([v % 256], 3)
      case None => ([s[0]], 1)
  }

  function DecodePath(s: Bytes): Bytes
    decreases |s|
  {
    if s == [] then [] else PathStep(s).0 + DecodePath(s[PathStep(s).1..])
  }

  // The code -----------------------------------------------------------------------------

  method FromHexToI(s: Bytes, start: nat, count: nat) returns (ok: bool, val: nat)
    requires count > 0
    ensures ok == HexAt(s, start, count).Some?
    ensures ok ==> HexAt(s, start, count) == Some(val)
  {
    val := 0;
    for n := 0 to count
      invariant start + n <= |s| || n == 0
      invariant n > 0 ==> AllHex(s[start..start + n]) && val == Number(s[start..start + n])
      invariant n == 0 ==> val == 0
    {
      if start + n >= |s| {
        return false, val;
      }
      var c := s[start + n];
      if !IsHex(c) {
        assert start + count <= |s| ==> s[start..start + count][n] == c;
        return false, val;
      }
      OneDigitMore(s, start, n);
      val := val * 16 + HexValue(c);
    }
    ok := true;
  }

  lemma OneDigitMore(s: Bytes, start: nat, n: nat)
    requires start + n < |s| && IsHex(s[start + n]) && AllHex(s[start..start + n])
    ensures AllHex(s[start..start + n + 1])
    ensures Number(s[start..start + n + 1]) == 16 * Number(s[start..start + n]) + HexValue(s[start + n])
  {
    var front, all := s[start..start + n], s[start..start + n + 1];
    assert all == front + [s[start + n]] && all[..|all| - 1] == front;
  }

  /** What is appended for the escape or byte at i, and how far it reaches. */
  method PathStepAt(s: Bytes, i: nat) returns (out: Bytes, n: nat)
    requires i < |s|
    ensures (out, n) == PathStep(s[i..])
  {
    ghost var rest := s[i..];
    out, n := [s[i]], 1;
    if s[i] == PERCENT && i + 1 < |s| {
      if s[i + 1] == 117 {
        HexBehind(s, i, 2, 4);
        var ok, v := FromHexToI(s, i + 2, 4);
        if ok {
          out, n := Utf8(v), 6;
        }
      } else {
        HexBehind(s, i, 1, 2);
        var ok, v := FromHexToI(s, i + 1, 2);
        if ok {
          out, n := [v % 256], 3;
        }
      }
    }
  }

  lemma HexBehind(s: Bytes, i: nat, k: nat, count: nat)
    requires i <= |s|
    ensures HexAt(s[i..], k, count) == HexAt(s, i + k, count)
  {
    if i + k + count <= |s| {
      assert s[i..][k..k + count] == s[i + k..i + k + count];
    }
  }

  method DecodePathComponent(component: Bytes) returns (result: Bytes)
    ensures result == DecodePath(component)
  {
    result := [];
    ghost var total := DecodePath(component);
    var i := 0;
    assert component[0..] == component;
    while i < |component|
      invariant 0 <= i <= |component|
      invariant result + DecodePath(component[i..]) == total
    {
      var out, n := PathStepAt(component, i);
      DecodeOnwards(component, i, result);
      result := result + out;
      i := i + n;
    }
  }

  lemma DecodeOnwards(s: Bytes, i: nat, result: Bytes)
    requires i < |s|
    ensures var (out, n) := PathStep(s[i..]);
            result + DecodePath(s[i..]) == result + out + DecodePath(s[i + n..])
  {
    var (out, n) := PathStep(s[i..]);
    assert s[i..][n..] == s[i + n..];
    DecodeFirst(s[i..]);
    Reassociate(result, out, DecodePath(s[i + n..]));
  }

  lemma DecodeFirst(s: Bytes)
    requires s != []
    ensures DecodePath(s) == PathStep(s).0 + DecodePath(s[PathStep(s).1..])
  {
  }

  // Properties ---------------------------------------------------------------------------

  /** An escape that is decoded stands at i. */
  predicate EscapeAt(s: Bytes, i: nat)
  {
    i + 1 < |s| && s[i] == PERCENT && if s[i + 1] == 117 then HexAt(s, i + 2, 4).Some? else HexAt(s, i + 1, 2).Some?
  }

  predicate NoEscape(s: Bytes)
  {
    forall i | 0 <= i < |s| :: !EscapeAt(s, i)
  }

  lemma StepOfEscape(s: Bytes)
    requires s != []
    ensures if EscapeAt(s, 0) then |PathStep(s).0| < PathStep(s).1 else PathStep(s) == ([s[0]], 1)
  {
  }

  lemma {:induction false} DecodingShortens(s: Bytes)
    ensures |DecodePath(s)| <= |s|
    decreases |s|
  {
    if s != [] {
      DecodingShortens(s[PathStep(s).1..]);
    }
  }

  lemma EscapeBehind(s: Bytes, i: nat)
    requires 0 < i < |s|
    ensures EscapeAt(s, i) <==> EscapeAt(s[1..], i - 1)
  {
    HexBehind(s, 1, i, 2);
    HexBehind(s, 1, i + 1, 4);
  }

  lemma {:induction false} EscapeShortens(s: Bytes, i: nat)
    requires EscapeAt(s, i)
    ensures |DecodePath(s)| < |s|
    decreases |s|
  {
    StepOfEscape(s);
    var n := PathStep(s).1;
    DecodingShortens(s[n..]);
    if !EscapeAt(s, 0) {
      EscapeBehind(s, i);
      EscapeShortens(s[1..], i - 1);
    }
  }

  lemma {:induction false} NothingToDecode(s: Bytes)
    requires NoEscape(s)
    ensures DecodePath(s) == s
    decreases |s|
  {
    if s != [] {
      StepOfEscape(s);
      forall i | 0 <= i < |s| - 1
        ensures !EscapeAt(s[1..], i)
      {
        EscapeBehind(s, i + 1);
      }
      NothingToDecode(s[1..]);
    }
  }

  /** Decoding leaves a text as it is exactly if it has no escape. */
  lemma DecodesToItselfIff(s: Bytes)
    ensures DecodePath(s) == s <==> NoEscape(s)
  {
    if NoEscape(s) {
      NothingToDecode(s);
    } else {
      var i :| 0 <= i < |s| && EscapeAt(s, i);
      EscapeShortens(s, i);
    }
  }

  // Encoding, and the way back -----------------------------------------------------------

  /** Bytes that stand for themselves in a path segment: unreserved ones,
      sub-delimiters, ":" and "@". */
  predicate IsPathPlain(c: byte)
  {
    || IsAlnum(c) || c == 45 || c == 46 || c == 95 || c == 126
    || c == 33 || c == 36 || 38 <= c <= 44 || c == 59 || c == EQ
    || c == 58 || c == 64
  }

  function Escaped(c: byte): Bytes { [PERCENT, UpperHex(c / 16), UpperHex(c % 16)] }

  function EncodePath(s: Bytes): Bytes
  {
    if s == [] then [] else (if IsPathPlain(s[0]) then [s[0]] else Escaped(s[0])) + EncodePath(s[1..])
  }

  method EncodePathComponent(component: Bytes) returns (result: Bytes)
    ensures result == EncodePath(component)
  {
    result := [];
    assert component[0..] == component;
    for i := 0 to |component|
      invariant result + EncodePath(component[i..]) == EncodePath(component)
    {
      var c := component[i];
      var e: Bytes;
      if IsAlnum(c) || c == 45 || c == 46 || c == 95 || c == 126 {
        e := [c];
      } else if c == 33 || c == 36 || c == 38 || c == 39 || c == 40 || c == 41 || c == 42 || c == 43 || c == 44
                || c == 59 || c == 61 {
        e := [c];
      } else if c == 58 {
        e := [c];
      } else if c == 64 {
        e := [c];
      } else {
        e := [PERCENT, UpperHex(c / 16), UpperHex(c % 16)];
      }
      EncodeOnwards(component, i, e, result);
      result := result + e;
    }
  }

  lemma EncodeOnwards(s: Bytes, i: nat, e: Bytes, result: Bytes)
    requires i < |s| && e == if IsPathPlain(s[i]) then [s[i]] else Escaped(s[i])
    ensures result + EncodePath(s[i..]) == result + e + EncodePath(s[i + 1..])
  {
    assert s[i..][0] == s[i] && s[i..][1..] == s[i + 1..];
    Reassociate(result, e, EncodePath(s[i + 1..]));
  }

  /** Two digits of either case behind a percent sign stand for their value. */
  lemma EscapeIsDecoded(h: byte, l: byte, rest: Bytes)
    requires IsHex(h) && IsHex(l)
    ensures DecodePath([PERCENT, h, l] + rest) == [16 * HexValue(h) + HexValue(l)] + DecodePath(rest)
  {
    var s := [PERCENT, h, l] + rest;
    assert s[1..3] == [h, l] && s[3..] == rest;
    NumberOfTwo(h, l);
    assert HexAt(s, 1, 2) == Some(16 * HexValue(h) + HexValue(l));
    ByteStaysByte(16 * HexValue(h) + HexValue(l));
    DecodeFirst(s);
  }

  lemma ByteStaysByte(n: nat)
    requires n < 256
    ensures n % 256 == n
  {
  }

  lemma PlainIsDecoded(c: byte, rest: Bytes)
    requires c != PERCENT
    ensures DecodePath([c] + rest) == [c] + DecodePath(rest)
  {
    assert ([c] + rest)[1..] == rest;
    DecodeFirst([c] + rest);
  }

  /** Decoding undoes encoding, on every byte string. */
  lemma {:induction false} PathRoundTrip(s: Bytes)
    ensures DecodePath(EncodePath(s)) == s
  {
    if s != [] {
      var c, rest := s[0], EncodePath(s[1..]);
      PathRoundTrip(s[1..]);
      if IsPathPlain(c) {
        PlainIsDecoded(c, rest);
      } else {
        EscapeIsDecoded(UpperHex(c / 16), UpperHex(c % 16), rest);
      }
    }
  }

  // Code points ----------------------------------------------------------------------------

  /** The code point a UTF-8 sequence stands for; section 3 of RFC 3629. */
  function ReadUtf8(s: seq<int>): int
  {
    if |s| == 1 && s[0] < 0x80 then s[0]
    else if |s| == 2 && 0xC0 <= s[0] < 0xE0 then (s[0] - 0xC0) * 0x40 + (s[1] - 0x80)
    else if |s| == 3 && 0xE0 <= s[0] < 0xF0 then (s[0] - 0xE0) * 0x1000 + (s[1] - 0x80) * 0x40 + (s[2] - 0x80)
    else if |s| == 4 && 0xF0 <= s[0] < 0xF8 then
      (s[0] - 0xF0) * 0x4_0000 + (s[1] - 0x80) * 0x1000 + (s[2] - 0x80) * 0x40 + (s[3] - 0x80)
    else -1
  }

  /** The low digits of a number to the base 64, and the rest. */
  lemma Base64Digits(n: nat)
    ensures n == n / 0x40 * 0x40 + n % 0x40
    ensures n == n / 0x1000 * 0x1000 + n / 0x40 % 0x40 * 0x40 + n % 0x40
    ensures n == n / 0x4_0000 * 0x4_0000 + n / 0x1000 % 0x40 * 0x1000 + n / 0x40 % 0x40 * 0x40 + n % 0x40
  {
    var h := n / 0x40;
    var g := h / 0x40;
    assert g == n / 0x1000;
    assert g / 0x40 == n / 0x4_0000;
  }

  /** Every code point but the surrogates has its UTF-8 sequence, of the shortest
      length; surrogates have none. */
  lemma Utf8Reads(code: nat)
    requires code < 0x11_0000
    ensures if 0xD800 <= code < 0xE000 then Utf8(code) == []
            else
              && ReadUtf8(Utf8(code)) == code
              && |Utf8(code)| == (if code < 0x80 then 1 else if code < 0x800 then 2
                                  else if code < 0x1_0000 then 3 else 4)
              && forall i | 0 < i < |Utf8(code)| :: 0x80 <= Utf8(code)[i] < 0xC0
  {
    Base64Digits(code);
  }

  /** Four digits behind `%u` stand for the sequence of their code point. */
  lemma CodePointIsDecoded(digits: Bytes, rest: Bytes)
    requires |digits| == 4 && AllHex(digits)
    ensures DecodePath([PERCENT, 117] + digits + rest) == Utf8(Number(digits)) + DecodePath(rest)
  {
    var s := [PERCENT, 117] + digits + rest;
    assert s[2..6] == digits && s[6..] == rest;
    assert HexAt(s, 2, 4) == Some(Number(digits));
    DecodeFirst(s);
  }
}
