/** What a ustar reader makes of the archives of Tar.dfy: it finds the files again
    exactly when every name fits the name field and every size the size field. */
module TarProperties {
  import opened Bytes
  import opened Common
  import opened Tar
  import opened TarReader

  // The archive --------------------------------------------------------------------------------------------

  /** What the format has room for. */
  predicate Storable(f: File)
  {
    |f.name| <= 99 && 0 !in f.name && |f.data| < Power(8, 11)
  }

  lemma MemberSlices(header: Bytes, data: Bytes, pad: Bytes, rest: Bytes)
    requires |header| == BLOCK && header[100] != 0
    ensures (header + data + pad + rest)[..BLOCK] == header
    ensures (header + data + pad + rest)[BLOCK..BLOCK + |data|] == data
    ensures (header + data + pad + rest)[BLOCK + |data| + |pad|..] == rest
    ensures !EndsHere(header + data + pad + rest)
  {
    var all := header + data + pad + rest;
    assert all[100] == header[100];
    assert |all| >= 2 * BLOCK ==> all[..2 * BLOCK][100] != 0;
  }

  lemma StartOfMember(f: File, rest: Bytes)
    ensures |Member(f)| == BLOCK + |f.data| + Padding(|f.data|)
    ensures (Member(f) + rest)[..BLOCK] == Header(f.name, |f.data|)
    ensures (Member(f) + rest)[BLOCK..BLOCK + |f.data|] == f.data
    ensures (Member(f) + rest)[|Member(f)|..] == rest
    ensures !EndsHere(Member(f) + rest)
  {
    HeaderParts(f.name, |f.data|);
    MemberSlices(Header(f.name, |f.data|), f.data, Fill(Padding(|f.data|), 0), rest);
  }

  lemma ReadFileOf(t: Bytes, header: Bytes, f: File)
    requires |t| >= BLOCK && t[..BLOCK] == header && IsFileHeader(header)
    requires |t| >= BLOCK + |f.data| + Padding(|f.data|) && t[BLOCK..BLOCK + |f.data|] == f.data
    ensures ReadFile(t) == Some(f) <==> ReadName(header) == f.name && ReadOctal(header[124..136]) == |f.data|
  {
  }

  lemma ReadFileOfMember(f: File, rest: Bytes)
    ensures ReadFile(Member(f) + rest) == Some(f) <==> Storable(f)
  {
    StartOfMember(f, rest);
    HeaderIsAccepted(f.name, |f.data|);
    ReadFileOf(Member(f) + rest, Header(f.name, |f.data|), f);
  }

  lemma ArchiveFirst(files: seq<File>)
    requires files != []
    ensures Archive(files) == Member(files[0]) + Archive(files[1..])
  {
    Reassociate(Member(files[0]), Members(files[1..]), Fill(2 * BLOCK, 0));
  }

  function Prepended(f: File, others: Option<seq<File>>): Option<seq<File>>
  {
    if others.None? then None else Some([f] + others.value)
  }

  /** What the reader makes of a member and what follows it. */
  lemma ReadArchiveOfMember(f: File, rest: Bytes)
    ensures var all := ReadArchive(Member(f) + rest);
            if Storable(f) then all == Prepended(f, ReadArchive(rest))
            else all.Some? ==> all.value != [] && all.value[0] != f
  {
    StartOfMember(f, rest);
    ReadFileOfMember(f, rest);
  }

  /** A ustar reader recovers the files exactly when all of them are storable. */
  lemma {:induction false} ReadBackIffStorable(files: seq<File>)
    ensures ReadArchive(Archive(files)) == Some(files) <==> forall f | f in files :: Storable(f)
  {
    var end := Fill(2 * BLOCK, 0);
    if files == [] {
      assert Archive(files) == end && end[..2 * BLOCK] == end;
    } else {
      var first, others := files[0], files[1..];
      ReadBackIffStorable(others);
      ArchiveFirst(files);
      ReadArchiveOfMember(first, Archive(others));
      assert files == [first] + others;
      SomeOfCons(first, others);
      StorableCons(files);
    }
  }

  lemma StorableCons(files: seq<File>)
    requires files != []
    ensures (forall f | f in files :: Storable(f)) <==> Storable(files[0]) && forall f | f in files[1..] :: Storable(f)
  {
    assert files == [files[0]] + files[1..];
  }

  /** A reader that asks for the version "00" rejects every archive with a file. */
  lemma VersionIsRejected(files: seq<File>)
    requires files != []
    ensures ReadArchiveOfVersion(Archive(files)).None?
  {
    var f := files[0];
    ArchiveFirst(files);
    StartOfMember(f, Archive(files[1..]));
    VersionIsNotPosix(f.name, |f.data|);
    OtherVersion(Archive(files), Header(f.name, |f.data|));
  }

  lemma OtherVersion(t: Bytes, header: Bytes)
    requires |t| >= BLOCK && t[..BLOCK] == header && header[263..265] == [48, 0] && !EndsHere(t)
    ensures ReadArchiveOfVersion(t).None?
  {
    Inside(t, BLOCK, 263, 265);
    assert t[263..265][1] == 0;
    assert ReadFileOfVersion(t).None?;
  }

  lemma Inside(s: Bytes, n: nat, i: nat, j: nat)
    requires i <= j <= n <= |s|
    ensures s[..n][i..j] == s[i..j]
  {
  }

  /** A name of 100 bytes fills the field, and the last byte is lost. */
  lemma LongNameIsLost()
    ensures var file := File(Fill(100, 97), []);
            !Storable(file) && ReadArchive(Archive([file])) != Some([file])
  {
    var files := [File(Fill(100, 97), [])];
    assert files[0] in files && !Storable(files[0]);
    ReadBackIffStorable(files);
  }

  lemma SomeOfCons(first: File, others: seq<File>)
    ensures forall f: File, fs: seq<File> | [f] + fs == [first] + others :: f == first && fs == others
  {
    forall f: File, fs: seq<File> | [f] + fs == [first] + others
      ensures f == first && fs == others
    {
      assert ([f] + fs)[0] == f && ([f] + fs)[1..] == fs;
      assert ([first] + others)[0] == first && ([first] + others)[1..] == others;
    }
  }

  /** The bound on contents: eight gibibytes. */
  lemma EightGibibytes()
    ensures Power(8, 11) == 8589934592
  {
    assert Power(8, 2) == 64;
    assert Power(8, 4) == 4096;
    assert Power(8, 6) == 262144;
    assert Power(8, 8) == 16777216;
    assert Power(8, 10) == 1073741824;
  }

  lemma PaddingAligns(n: nat)
    ensures (n + Padding(n)) % BLOCK == 0
  {
    var q, r := n / BLOCK, n % BLOCK;
    assert n == BLOCK * q + r;
    if r == 0 {
      assert Padding(n) == 0;
    } else {
      assert Padding(n) == BLOCK - r;
      assert n + Padding(n) == BLOCK * (q + 1);
    }
  }

  lemma MemberAligned(f: File)
    ensures |Member(f)| % BLOCK == 0
  {
    MemberLength(f);
    AlignedLength(|Member(f)|, |f.data|);
  }

  lemma MemberLength(f: File)
    ensures |Member(f)| == BLOCK + |f.data| + Padding(|f.data|)
  {
  }

  lemma AlignedLength(total: nat, n: nat)
    requires total == BLOCK + n + Padding(n)
    ensures total % BLOCK == 0
  {
    PaddingAligns(n);
  }

  lemma SumAligned(a: nat, b: nat)
    requires a % BLOCK == 0 && b % BLOCK == 0
    ensures (a + b) % BLOCK == 0
  {
  }

  lemma {:induction false} ConcatAligned(parts: seq<Bytes>)
    requires forall part | part in parts :: |part| % BLOCK == 0
    ensures |Concat(parts)| % BLOCK == 0
  {
    if parts != [] {
      assert parts[0] in parts;
      ConcatAligned(parts[1..]);
      SumAligned(|parts[0]|, |Concat(parts[1..])|);
    }
  }

  lemma {:induction false} MembersAreConcat(files: seq<File>)
    ensures Members(files) == Concat(seq(|files|, i requires 0 <= i < |files| => Member(files[i])))
  {
    var parts := seq(|files|, i requires 0 <= i < |files| => Member(files[i]));
    if files != [] {
      var others := files[1..];
      MembersAreConcat(others);
      assert parts[1..] == seq(|others|, i requires 0 <= i < |others| => Member(others[i]));
    }
  }

  /** So the member behind any list of members starts on a block boundary. */
  lemma {:induction false} MembersAligned(files: seq<File>)
    ensures |Members(files)| % BLOCK == 0
  {
    var parts := seq(|files|, i requires 0 <= i < |files| => Member(files[i]));
    forall part | part in parts ensures |part| % BLOCK == 0 {
      var i :| 0 <= i < |parts| && parts[i] == part;
      MemberAligned(files[i]);
    }
    ConcatAligned(parts);
    MembersAreConcat(files);
  }

  lemma ArchiveAligned(files: seq<File>)
    ensures |Archive(files)| % BLOCK == 0
  {
    MembersAligned(files);
    TwoBlocksMore(|Members(files)|, |Archive(files)|);
  }

  lemma TwoBlocksMore(n: nat, total: nat)
    requires n % BLOCK == 0 && total == n + 2 * BLOCK
    ensures total % BLOCK == 0
  {
    SumAligned(n, 2 * BLOCK);
  }

  /** The archive of the later files is what follows the members of the earlier ones. */
  lemma ArchiveOfConcat(a: seq<File>, b: seq<File>)
    ensures Archive(a + b) == Members(a) + Archive(b)
  {
    MembersOfConcat(a, b);
    Reassociate(Members(a), Members(b), Fill(2 * BLOCK, 0));
  }

  lemma {:induction false} MembersOfConcat(a: seq<File>, b: seq<File>)
    ensures Members(a + b) == Members(a) + Members(b)
  {
    if a == [] {
      assert a + b == b;
    } else {
      var all, first := a + b, Member(a[0]);
      assert all[0] == a[0] && all[1..] == a[1..] + b;
      assert Members(all) == first + Members(all[1..]);
      MembersOfConcat(a[1..], b);
      Reassociate(first, Members(a[1..]), Members(b));
    }
  }
}
