/** The tar writer: header fields, checksum, data and padding. */
module Tar {
  import opened Bytes
  import opened Common
  import opened CText

  const BLOCK: nat := 512
  const NUL: byte := 0
  const BLANK: byte := 32
  /** "ustar" and its NUL. */
  const MAGIC: Bytes := [117, 115, 116, 97, 114, 0]

  datatype File = File(name: Bytes, data: Bytes)

  function Fill(n: nat, c: byte): (s: Bytes)
    ensures |s| == n
  {
    seq(n, _ => c)
  }

  // Numbers in octal ---------------------------------------------------------------------

  predicate IsOctal(c: byte) { 48 <= c <= 55 }

  predicate AllOctal(s: Bytes)
  {
    forall i | 0 <= i < |s| :: IsOctal(s[i])
  }

  function Octal(n: nat): (s: Bytes)
    ensures s != [] && AllOctal(s)
  {
    if n < 8 then [48 + n] else Octal(n / 8) + [48 + n % 8]
  }

  /** "%0*lo": at least `width` digits. */
  function OctalPadded(n: nat, width: nat): (s: Bytes)
    ensures |s| >= width && AllOctal(s)
  {
    var digits := Octal(n);
    if |digits| < width then Fill(width - |digits|, 48) + digits else digits
  }

  /** `snprintf` of a text into a zeroed field: cut to leave room for a NUL. */
  function Printed(text: Bytes, cap: nat): (field: Bytes)
    requires cap > 0
    ensures |field| == cap
  {
    if |text| < cap then text + Fill(cap - |text|, 0) else text[..cap - 1] + [NUL]
  }

  function Sum(s: Bytes): nat
  {
    if s == [] then 0 else Sum(s[..|s| - 1]) + s[|s| - 1]
  }

  // The archive as a function ---------------------------------------------------------------

  /** mode, uid and gid. */
  function Owner(): Bytes
  {
    Printed(OctalPadded(420, 7), 8) + Printed(OctalPadded(0, 7), 8) + Printed(OctalPadded(0, 7), 8)
  }

  /** Everything before the checksum field. */
  function Front(name: Bytes, size: nat): (s: Bytes)
    ensures |s| == 148
  {
    Printed(CString(name), 100) + Owner() + Printed(OctalPadded(size, 11), 12) + Printed(OctalPadded(0, 11), 12)
  }

  /** Everything behind it: type, link name, magic, version and empty fields. */
  function Back(): (s: Bytes)
    ensures |s| == 356
  {
    [48] + Fill(100, 0) + MAGIC + Printed([48, 48], 2) + Fill(247, 0)
  }

  function Checksum(front: Bytes, back: Bytes): nat
  {
    Sum(front + Fill(8, BLANK) + back)
  }

  function ChecksumField(sum: nat): (s: Bytes)
    ensures |s| == 8
  {
    OctalPadded(sum, 6)[..6] + [NUL, BLANK]
  }

  function Header(name: Bytes, size: nat): (s: Bytes)
    ensures |s| == BLOCK
  {
    var front, back := Front(name, size), Back();
    front + ChecksumField(Checksum(front, back)) + back
  }

  function Padding(n: nat): (p: nat)
    ensures p < BLOCK
  {
    (BLOCK - n % BLOCK) % BLOCK
  }

  function Member(f: File): Bytes
  {
    Header(f.name, |f.data|) + f.data + Fill(Padding(|f.data|), 0)
  }

  function Members(files: seq<File>): Bytes
  {
    if files == [] then [] else Member(files[0]) + Members(files[1..])
  }

  function Archive(files: seq<File>): Bytes
  {
    Members(files) + Fill(2 * BLOCK, 0)
  }

  // The code -----------------------------------------------------------------------------------

  /** The packed header structure, field by field. */
  class TarHeader {
    var name: Bytes
    var mode: Bytes
    var uid: Bytes
    var gid: Bytes
    var size: Bytes
    var mtime: Bytes
    var chksum: Bytes
    var typeflag: Bytes
    var linkname: Bytes
    var magic: Bytes
    var version: Bytes
    /** uname, gname, devmajor, devminor, prefix and pad. */
    var others: Bytes

    /** All zero, as after `memset`. */
    constructor ()
      ensures name == Fill(100, 0) && mode == uid == gid == chksum == Fill(8, 0)
      ensures size == mtime == Fill(12, 0) && typeflag == [NUL] && linkname == Fill(100, 0)
      ensures magic == Fill(6, 0) && version == Fill(2, 0) && others == Fill(247, 0)
    {
      name := Fill(100, 0);
      mode := Fill(8, 0);
      uid := Fill(8, 0);
      gid := Fill(8, 0);
      size := Fill(12, 0);
      mtime := Fill(12, 0);
      chksum := Fill(8, 0);
      typeflag := [NUL];
      linkname := Fill(100, 0);
      magic := Fill(6, 0);
      version := Fill(2, 0);
      others := Fill(247, 0);
    }

    /** The bytes of the structure in memory. */
    function Raw(): Bytes
      reads this
    {
      (name + (mode + uid + gid) + size + mtime) + chksum + (typeflag + linkname + magic + version + others)
    }

    /** Everything but the checksum. */
    method FillIn(filename: Bytes, length: nat)
      requires linkname == Fill(100, 0) && others == Fill(247, 0)
      modifies this
      ensures Raw() == Front(filename, length) + Fill(8, BLANK) + Back()
      ensures chksum == Fill(8, BLANK)
      ensures name + (mode + uid + gid) + size + mtime == Front(filename, length)
      ensures typeflag + linkname + magic + version + others == Back()
    {
      name := Printed(CString(filename), 100);
      mode := Printed(OctalPadded(420, 7), 8);
      uid := Printed(OctalPadded(0, 7), 8);
      gid := Printed(OctalPadded(0, 7), 8);
      size := Printed(OctalPadded(length, 11), 12);
      mtime := Printed(OctalPadded(0, 11), 12);
      chksum := Fill(8, BLANK);
      typeflag := [48];
      magic := Printed(MAGIC[..5], 6);
      version := Printed([48, 48], 2);
      assert MAGIC[..5] + Fill(1, 0) == MAGIC;
    }
  }

  method TarChecksum(h: TarHeader) returns (sum: nat)
    ensures sum == Sum(h.Raw())
  {
    var p := h.Raw();
    sum := 0;
    for i := 0 to |p|
      invariant sum == Sum(p[..i])
    {
      assert p[..i + 1][..i] == p[..i];
      sum := sum + p[i];
    }
    assert p[..|p|] == p;
  }

  method TarAppendFile(out: Bytes, filename: Bytes, data: Bytes) returns (out': Bytes)
    ensures out' == out + Member(File(filename, data))
  {
    var h := new TarHeader();
    h.FillIn(filename, |data|);
    var sum := TarChecksum(h);
    h.chksum := OctalPadded(sum, 6)[..6] + [NUL, BLANK];
    assert h.Raw() == Header(filename, |data|);
    out' := out + h.Raw();
    out' := out' + data;
    out' := out' + Fill(Padding(|data|), 0);
    Reassociate(out, h.Raw(), data);
    Reassociate(out, h.Raw() + data, Fill(Padding(|data|), 0));
  }

  method TarFinish(tar: Bytes) returns (tar': Bytes)
    ensures tar' == tar + Fill(2 * BLOCK, 0)
  {
    tar' := tar + Fill(512, 0);
    tar' := tar' + Fill(512, 0);
    assert tar' == tar + (Fill(512, 0) + Fill(512, 0));
    assert Fill(512, 0) + Fill(512, 0) == Fill(2 * BLOCK, 0);
  }

  lemma MembersFront(before: Bytes, files: seq<File>, i: nat)
    requires i < |files|
    ensures before + Members(files[i..]) == before + Member(files[i]) + Members(files[i + 1..])
  {
    assert files[i..][1..] == files[i + 1..];
    assert files[i] == File(files[i].name, files[i].data);
  }
}
