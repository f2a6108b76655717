/** A ustar reader (POSIX.1 `pax`, "ustar Interchange Format"), and what it makes
    of the fields of the headers of Tar.dfy. */
module TarReader {
  import opened Bytes
  import opened Common
  import opened CText
  import opened Tar

  // The reader -------------------------------------------------------------------------------

  /** The octal digits at the front of a field. */
  function OctalDigits(field: Bytes): (s: Bytes)
    ensures AllOctal(s)
  {
    if field == [] || !IsOctal(field[0]) then [] else [field[0]] + OctalDigits(field[1..])
  }

  function OctalNumber(digits: Bytes): nat
    requires AllOctal(digits)
  {
    if digits == [] then 0
    else 8 * OctalNumber(digits[..|digits| - 1]) + (digits[|digits| - 1] - 48)
  }

  function ReadOctal(field: Bytes): nat
  {
    OctalNumber(OctalDigits(field))
  }

  /** The name, behind the prefix if there is one. */
  function ReadName(header: Bytes): Bytes
    requires |header| == BLOCK
  {
    var prefix := CString(header[345..500]);
    if prefix == [] then CString(header[..100]) else prefix + [47] + CString(header[..100])
  }

  /** The stored checksum is that of the header with blanks in its place. */
  predicate ChecksumHolds(header: Bytes)
    requires |header| == BLOCK
  {
    ReadOctal(header[148..156]) == Sum(header[..148] + Fill(8, BLANK) + header[156..])
  }

  /** A regular file of the ustar format. */
  predicate IsFileHeader(header: Bytes)
    requires |header| == BLOCK
  {
    header[257..263] == MAGIC && header[156] == 48 && ChecksumHolds(header)
  }

  predicate EndsHere(t: Bytes)
  {
    |t| >= 2 * BLOCK && t[..2 * BLOCK] == Fill(2 * BLOCK, 0)
  }

  function ReadFile(t: Bytes): (r: Option<File>)
    ensures r.Some? ==> BLOCK + |r.value.data| + Padding(|r.value.data|) <= |t|
  {
    if |t| < BLOCK || !IsFileHeader(t[..BLOCK]) then None
    else
      var size := ReadOctal(t[..BLOCK][124..136]);
      if BLOCK + size + Padding(size) > |t| then None
      else Some(File(ReadName(t[..BLOCK]), t[BLOCK..BLOCK + size]))
  }

  function ReadArchive(t: Bytes): Option<seq<File>>
    decreases |t|
  {
    if EndsHere(t) then Some([])
    else
      var first := ReadFile(t);
      if first.None? then None
      else
        var others := ReadArchive(t[BLOCK + |first.value.data| + Padding(|first.value.data|)..]);
        if others.None? then None else Some([first.value] + others.value)
  }

  /** A reader that also asks for the version "00". */
  function ReadFileOfVersion(t: Bytes): (r: Option<File>)
    ensures r.Some? ==> BLOCK + |r.value.data| + Padding(|r.value.data|) <= |t|
  {
    if |t| >= BLOCK && t[263..265] == [48, 48] then ReadFile(t) else None
  }

  function ReadArchiveOfVersion(t: Bytes): Option<seq<File>>
    decreases |t|
  {
    if EndsHere(t) then Some([])
    else
      var first := ReadFileOfVersion(t);
      if first.None? then None
      else
        var others := ReadArchiveOfVersion(t[BLOCK + |first.value.data| + Padding(|first.value.data|)..]);
        if others.None? then None else Some([first.value] + others.value)
  }

  // Octal numbers -----------------------------------------------------------------------------

  lemma {:induction false} OctalNumberOfOctal(n: nat)
    ensures OctalNumber(Octal(n)) == n
  {
    var s := Octal(n);
    if n < 8 {
      assert s[..0] == [];
    } else {
      assert s[..|s| - 1] == Octal(n / 8);
      OctalNumberOfOctal(n / 8);
    }
  }

  lemma {:induction false} NumberBelowPower(digits: Bytes)
    requires AllOctal(digits)
    ensures OctalNumber(digits) < Power(8, |digits|)
  {
    if digits != [] {
      NumberBelowPower(digits[..|digits| - 1]);
    }
  }

  lemma {:induction false} LeadingZeros(k: nat, digits: Bytes)
    requires AllOctal(digits)
    ensures AllOctal(Fill(k, 48) + digits)
    ensures OctalNumber(Fill(k, 48) + digits) == OctalNumber(digits)
    decreases k, |digits|
  {
    var all := Fill(k, 48) + digits;
    if digits != [] {
      assert all[..|all| - 1] == Fill(k, 48) + digits[..|digits| - 1];
      LeadingZeros(k, digits[..|digits| - 1]);
    } else if k > 0 {
      assert all[..|all| - 1] == Fill(k - 1, 48) + [];
      LeadingZeros(k - 1, []);
    }
  }

  /** How many digits a number takes. */
  lemma {:induction false} DigitsNeeded(n: nat, k: nat)
    requires k > 0
    ensures |Octal(n)| <= k <==> n < Power(8, k)
  {
    assert Power(8, 1) == 8 * Power(8, 0);
    if n >= 8 && k > 1 {
      DigitsNeeded(n / 8, k - 1);
    } else if k > 1 {
      PowerGrows(k);
    }
  }

  lemma {:induction false} PowerGrows(k: nat)
    requires k > 0
    ensures Power(8, k) >= 8
  {
    if k > 1 {
      PowerGrows(k - 1);
    }
  }

  lemma {:induction false} DigitsUpToOther(digits: Bytes, rest: Bytes)
    requires AllOctal(digits)
    requires rest != [] && !IsOctal(rest[0])
    ensures OctalDigits(digits + rest) == digits
  {
    if digits == [] {
      assert digits + rest == rest;
    } else {
      assert (digits + rest)[1..] == digits[1..] + rest;
      DigitsUpToOther(digits[1..], rest);
    }
  }

  lemma PaddedIsExact(n: nat, width: nat)
    requires width > 0 && n < Power(8, width)
    ensures |OctalPadded(n, width)| == width
    ensures OctalNumber(OctalPadded(n, width)) == n
  {
    DigitsNeeded(n, width);
    OctalNumberOfOctal(n);
    var digits := Octal(n);
    if |digits| < width {
      LeadingZeros(width - |digits|, digits);
    }
  }

  /** A size field holds the size exactly when eleven octal digits do. */
  lemma SizeFieldReads(n: nat)
    ensures ReadOctal(Printed(OctalPadded(n, 11), 12)) == n <==> n < Power(8, 11)
  {
    var digits := OctalPadded(n, 11);
    var field := Printed(digits, 12);
    DigitsNeeded(n, 11);
    if n < Power(8, 11) {
      PaddedIsExact(n, 11);
      assert field == digits + [NUL];
      DigitsUpToOther(digits, [NUL]);
    } else {
      assert digits == Octal(n);
      DigitsUpToOther(digits[..11], [NUL]);
      NumberBelowPower(digits[..11]);
    }
  }

  // The checksum -------------------------------------------------------------------------------

  lemma {:induction false} SumIsBounded(s: Bytes)
    ensures Sum(s) <= 255 * |s|
  {
    if s != [] {
      SumIsBounded(s[..|s| - 1]);
    }
  }

  /** The sum of a header always fits its six digits, so it reads back. */
  lemma ChecksumFieldReads(front: Bytes, back: Bytes)
    requires |front| == 148 && |back| == 356
    ensures Checksum(front, back) < Power(8, 6)
    ensures ReadOctal(ChecksumField(Checksum(front, back))) == Checksum(front, back)
  {
    var sum := Checksum(front, back);
    SumIsBounded(front + Fill(8, BLANK) + back);
    assert Power(8, 6) == 262144 by {
      assert Power(8, 2) == 64;
      assert Power(8, 4) == 4096;
    }
    PaddedIsExact(sum, 6);
    var digits := OctalPadded(sum, 6);
    assert digits[..6] == digits;
    DigitsUpToOther(digits, [NUL, BLANK]);
  }

  // Names ------------------------------------------------------------------------------------------

  lemma {:induction false} CStringStops(text: Bytes, rest: Bytes)
    requires 0 !in text
    ensures CString(text + [NUL] + rest) == text
  {
    var all := text + [NUL] + rest;
    if text != [] {
      assert all[1..] == text[1..] + [NUL] + rest;
      CStringStops(text[1..], rest);
    }
  }

  lemma {:induction false} CStringHasNoNul(name: Bytes)
    ensures 0 !in CString(name)
    ensures |CString(name)| <= |name|
    ensures CString(name) == name <==> 0 !in name
  {
    if name != [] && name[0] != 0 {
      CStringHasNoNul(name[1..]);
      assert name == [name[0]] + name[1..];
    }
  }

  /** A text in a field, or its beginning when the field is too short. */
  lemma FieldReads(text: Bytes, cap: nat)
    requires cap > 0 && 0 !in text
    ensures CString(Printed(text, cap)) == if |text| < cap then text else text[..cap - 1]
  {
    if |text| < cap {
      assert Printed(text, cap) == text + [NUL] + Fill(cap - 1 - |text|, 0);
      CStringStops(text, Fill(cap - 1 - |text|, 0));
    } else {
      assert Printed(text, cap) == text[..cap - 1] + [NUL] + [];
      CStringStops(text[..cap - 1], []);
    }
  }

  lemma NameFieldReads(name: Bytes)
    ensures CString(Printed(CString(name), 100)) == name <==> |name| <= 99 && 0 !in name
  {
    var text := CString(name);
    CStringHasNoNul(name);
    FieldReads(text, 100);
  }

  // One header ------------------------------------------------------------------------------------------

  lemma FrontParts(name: Bytes, size: nat)
    ensures Front(name, size)[..100] == Printed(CString(name), 100)
    ensures Front(name, size)[124..136] == Printed(OctalPadded(size, 11), 12)
    ensures Front(name, size)[100] != 0
  {
    PrintedStarts(OctalPadded(420, 7), 8);
  }

  lemma PrintedStarts(digits: Bytes, cap: nat)
    requires cap > 1 && digits != [] && AllOctal(digits)
    ensures Printed(digits, cap)[0] != 0
  {
  }

  lemma BackParts()
    ensures Back()[0] == 48
    ensures Back()[101..107] == MAGIC
    ensures Back()[189..344] == Fill(155, 0)
  {
  }

  lemma HeaderParts(name: Bytes, size: nat)
    ensures Header(name, size)[..148] == Front(name, size)
    ensures Header(name, size)[148..156] == ChecksumField(Checksum(Front(name, size), Back()))
    ensures Header(name, size)[156..] == Back()
    ensures Header(name, size)[..100] == Printed(CString(name), 100)
    ensures Header(name, size)[124..136] == Printed(OctalPadded(size, 11), 12)
    ensures Header(name, size)[257..263] == MAGIC
    ensures Header(name, size)[345..500] == Fill(155, 0)
    ensures Header(name, size)[100] != 0 && Header(name, size)[156] == 48
  {
    var front, back := Front(name, size), Back();
    var field := ChecksumField(Checksum(front, back));
    FrontParts(name, size);
    BackParts();
    Slices(front, field, back);
  }

  /** The version field holds "0" and NUL, whatever the file. */
  lemma VersionIsNotPosix(name: Bytes, size: nat)
    ensures Header(name, size)[263..265] == [48, 0]
  {
    HeaderParts(name, size);
    BackVersion();
    SliceBehind(Header(name, size), 156, 107, 109);
  }

  lemma BackVersion()
    ensures Back()[107..109] == [48, 0]
  {
  }

  lemma SliceBehind(s: Bytes, n: nat, i: nat, j: nat)
    requires i <= j && n + j <= |s|
    ensures s[n..][i..j] == s[n + i..n + j]
  {
  }

  lemma Slices(front: Bytes, field: Bytes, back: Bytes)
    requires |front| == 148 && |field| == 8 && |back| == 356
    ensures (front + field + back)[..148] == front
    ensures (front + field + back)[148..156] == field
    ensures (front + field + back)[156..] == back
    ensures (front + field + back)[..100] == front[..100]
    ensures (front + field + back)[124..136] == front[124..136]
    ensures (front + field + back)[257..263] == back[101..107]
    ensures (front + field + back)[345..500] == back[189..344]
    ensures (front + field + back)[100] == front[100]
    ensures (front + field + back)[156] == back[0]
  {
  }

  /** Every header is one of the format, with a checksum that holds, whatever the
      name and the size. */
  lemma {:induction false} HeaderIsAccepted(name: Bytes, size: nat)
    ensures IsFileHeader(Header(name, size))
    ensures ReadName(Header(name, size)) == name <==> |name| <= 99 && 0 !in name
    ensures ReadOctal(Header(name, size)[124..136]) == size <==> size < Power(8, 11)
  {
    HeaderParts(name, size);
    ChecksumFieldReads(Front(name, size), Back());
    NameFieldReads(name);
    SizeFieldReads(size);
  }

  lemma NumberFieldReads(n: nat, width: nat)
    requires width > 0 && n < Power(8, width)
    ensures ReadOctal(Printed(OctalPadded(n, width), width + 1)) == n
  {
    PaddedIsExact(n, width);
    var digits := OctalPadded(n, width);
    assert Printed(digits, width + 1) == digits + [NUL];
    DigitsUpToOther(digits, [NUL]);
  }

  lemma OwnerParts(name: Bytes, size: nat)
    ensures Front(name, size)[100..108] == Printed(OctalPadded(420, 7), 8)
    ensures Front(name, size)[108..116] == Front(name, size)[116..124] == Printed(OctalPadded(0, 7), 8)
    ensures Front(name, size)[136..148] == Printed(OctalPadded(0, 11), 12)
  {
  }

  lemma ZeroParts()
    ensures Back()[1..101] == Fill(100, 0)
    ensures Back()[109..] == Fill(247, 0)
  {
  }

  lemma SliceWithin(s: Bytes, n: nat, i: nat, j: nat)
    requires i <= j <= n <= |s|
    ensures s[..n][i..j] == s[i..j]
  {
  }

  lemma ZerosBehind(name: Bytes, size: nat)
    ensures forall i | 157 <= i < 257 || 265 <= i < BLOCK :: Header(name, size)[i] == NUL
  {
    var h := Header(name, size);
    HeaderParts(name, size);
    ZeroParts();
    forall i | 157 <= i < 257 || 265 <= i < BLOCK
      ensures h[i] == NUL
    {
      assert h[i] == Back()[i - 156];
      if i < 257 {
        assert Back()[i - 156] == Back()[1..101][i - 157];
      } else {
        assert Back()[i - 156] == Back()[109..][i - 265];
      }
    }
  }

  /** The other fields of every header: mode 0644, no owner, no group, no time, no
      link and nothing behind the version. */
  lemma OtherFieldsRead(name: Bytes, size: nat)
    ensures var h := Header(name, size);
            && ReadOctal(h[100..108]) == 6 * 64 + 4 * 8 + 4
            && ReadOctal(h[108..116]) == ReadOctal(h[116..124]) == ReadOctal(h[136..148]) == 0
            && (forall i | 157 <= i < 257 || 265 <= i < BLOCK :: h[i] == NUL)
  {
    var h := Header(name, size);
    HeaderParts(name, size);
    OwnerParts(name, size);
    SliceWithin(h, 148, 100, 108);
    SliceWithin(h, 148, 108, 116);
    SliceWithin(h, 148, 116, 124);
    SliceWithin(h, 148, 136, 148);
    assert Power(8, 7) > 420 by {
      assert Power(8, 3) == 512;
      PowerGrows(4);
    }
    assert Power(8, 7) > 0 && Power(8, 11) > 0;
    NumberFieldReads(420, 7);
    NumberFieldReads(0, 7);
    NumberFieldReads(0, 11);
    ZerosBehind(name, size);
  }

  /** What stands between a file's bytes and the next block is zero. */
  lemma PaddingIsZero(f: File)
    ensures var end := BLOCK + |f.data|;
            && |Member(f)| - BLOCK < end <= |Member(f)| && |Member(f)| % BLOCK == 0
            && Member(f)[end..] == Fill(|Member(f)| - end, 0)
  {
    BehindIs(Header(f.name, |f.data|), f.data, Fill(Padding(|f.data|), 0));
    PaddingFills(|f.data|);
  }

  lemma PaddingFills(n: nat)
    ensures (BLOCK + n + Padding(n)) % BLOCK == 0
  {
  }

  lemma BehindIs(a: Bytes, b: Bytes, c: Bytes)
    ensures (a + b + c)[|a| + |b|..] == c
  {
  }
}
