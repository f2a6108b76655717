/** Reading one line at a time from a stream, into a fixed buffer that spills over
    into a growable one. */
module LineReader {
  import opened Bytes
  import opened SocketStream

  const MAX_LINE_LENGTH: nat := 32768

  /** What one call does with the unread input `u` of a reliable stream: how many
      bytes it consumes, and whether they are a line. */
  datatype Line = Line(ok: bool, len: nat)

  ghost function NextLine(u: Bytes): (r: Line)
    ensures r.len <= |u| && (r.ok ==> 0 < r.len)
  {
    var e := Find(u, CRLF);
    if e < |u| && e + 2 <= MAX_LINE_LENGTH then Line(true, e + 2)
    else if |u| < MAX_LINE_LENGTH then Line(u != [], |u|)
    else Line(false, MAX_LINE_LENGTH)
  }

  /** The line is the shortest front of the input that ends in CRLF; without one,
      all of the input if that is nonempty and below the limit. */
  lemma NextLineMeans(u: Bytes)
    ensures var r := NextLine(u);
            && (r.ok ==> (OccursAt(u, CRLF, r.len - 2) || (r.len == |u| && 0 < |u| < MAX_LINE_LENGTH)))
            && (forall i | 0 <= i < r.len - 2 :: !OccursAt(u, CRLF, i))
            && (!r.ok <==>
                  || u == []
                  || (MAX_LINE_LENGTH <= |u| && forall i | 0 <= i <= MAX_LINE_LENGTH - 2 :: !OccursAt(u, CRLF, i)))
  {
    FindMeans(u, CRLF);
  }

  class StreamLineReader {
    const strm: Stream
    const fixed: array<byte>
    var used: nat
    var growable: Bytes

    ghost predicate Valid()
      reads this, strm, strm.readBuff, fixed
    {
      && strm.Valid()
      && fixed != strm.readBuff
      && 2 <= fixed.Length
      && used < fixed.Length
      && (growable != [] ==> used == fixed.Length - 1 && used < |growable|)
      && (used > 0 ==> fixed[used] == 0)
    }

    /** The accumulated bytes, wherever they are kept. */
    ghost function Text(): Bytes
      reads this, fixed
      requires used < fixed.Length
    {
      if growable == [] then fixed[..used] else growable
    }

    constructor (strm: Stream, fixed: array<byte>)
      requires strm.Valid() && fixed != strm.readBuff && 2 <= fixed.Length
      ensures Valid() && this.strm == strm && this.fixed == fixed && Text() == []
    {
      this.strm := strm;
      this.fixed := fixed;
      used := 0;
      growable := [];
    }

    method Size() returns (n: nat)
      requires Valid()
      ensures n == |Text()|
    {
      n := if growable == [] then used else |growable|;
    }

    method Ptr() returns (text: Bytes)
      requires Valid()
      ensures text == Text()
    {
      text := if growable == [] then fixed[..used] else growable;
    }

    method EndWithCrlf() returns (r: bool)
      requires Valid()
      ensures r <==> 2 <= |Text()| && Text()[|Text()| - 2..] == CRLF
    {
      var end := Ptr();
      r := |end| >= 2 && end[|end| - 2] == CR && end[|end| - 1] == LF;
      assert |end| >= 2 ==> end[|end| - 2..] == [end[|end| - 2], end[|end| - 1]];
    }

    method Append(c: byte)
      requires Valid()
      modifies this, fixed
      ensures Valid() && Text() == old(Text()) + [c]
    {
      if used < fixed.Length - 1 {
        fixed[used] := c;
        used := used + 1;
        fixed[used] := 0;
      } else {
        if growable == [] {
          assert fixed[used] == 0;
          growable := fixed[..used];
        }
        growable := growable + [c];
      }
    }

    /** Read one byte and put it behind the text. */
    method ReadByte() returns (n: int, c: byte)
      requires Valid()
      modifies this, fixed, strm, strm.readBuff
      ensures Valid() && strm.readBuff == old(strm.readBuff)
      ensures n > 0 ==> Text() == old(Text()) + [c] && old(strm.Unread()) == [c] + strm.Unread()
      ensures n <= 0 ==> Text() == old(Text()) && strm.Unread() == old(strm.Unread())
      ensures n == 0 ==> strm.Unread() == []
      ensures strm.reliable ==> n >= 0
    {
      c := 0;
      ghost var text := Text();
      var data;
      n, data := strm.Read(1);
      assert Valid() && Text() == text;
      if n > 0 {
        c := data[0];
        assert data == [c];
        Append(c);
      }
    }

    method GetLine() returns (ok: bool)
      requires Valid()
      modifies this, fixed, strm, strm.readBuff
      ensures Valid() && strm.readBuff == old(strm.readBuff)
      ensures Text() + strm.Unread() == old(strm.Unread())
      ensures strm.reliable || ok ==> Line(ok, |Text()|) == NextLine(old(strm.Unread()))
      ensures ok ==> Text() != []
    {
      used := 0;
      growable := [];
      ghost var start := strm.Unread();
      var prev: byte := 0;
      var i := 0;
      while true
        invariant Valid() && strm.readBuff == old(strm.readBuff)
        invariant Accumulates(start, Text(), strm.Unread(), prev)
        invariant i == |Text()|
        decreases |strm.Unread()|
      {
        ghost var text, unread := Text(), strm.Unread();
        var size := Size();
        if size >= MAX_LINE_LENGTH {
          LineTooLong(start, text, unread);
          return false;
        }
        var n, c := ReadByte();
        if n < 0 {
          return false;
        } else if n == 0 {
          InputEnds(start, text);
          return i != 0;
        }
        if prev == CR && c == LF {
          LineComplete(start, text, strm.Unread());
          return true;
        }
        OneMore(start, text, c, strm.Unread());
        prev := c;
        i := i + 1;
      }
    }
  }

  /** The loop state: the bytes so far hold no line end. */
  ghost predicate Accumulates(start: Bytes, text: Bytes, unread: Bytes, prev: byte)
  {
    && start == text + unread
    && |text| <= MAX_LINE_LENGTH
    && !Occurs(text, CRLF)
    && prev == if text == [] then 0 else text[|text| - 1]
  }

  lemma LineTooLong(start: Bytes, text: Bytes, unread: Bytes)
    requires start == text + unread && |text| == MAX_LINE_LENGTH && !Occurs(text, CRLF)
    ensures NextLine(start) == Line(false, |text|)
  {
    FindInPrefix(text, unread, CRLF);
    FindMeans(text, CRLF);
    var e := Find(text, CRLF);
    assert !OccursAt(text, CRLF, e);
  }

  lemma InputEnds(start: Bytes, text: Bytes)
    requires !Occurs(text, CRLF) && |text| < MAX_LINE_LENGTH
    ensures start == text + [] ==> NextLine(start) == Line(text != [], |text|)
  {
    FindMeans(text, CRLF);
    var e := Find(text, CRLF);
    assert !OccursAt(text, CRLF, e);
    assert text + [] == text;
  }

  lemma LineComplete(start: Bytes, text: Bytes, unread: Bytes)
    requires Accumulates(start, text, [LF] + unread, CR) && |text| < MAX_LINE_LENGTH
    ensures NextLine(start) == Line(true, |text| + 1)
    ensures start == text + [LF] + unread
  {
    var head := text[..|text| - 1];
    forall i
      ensures !OccursAt(head, CRLF, i)
    {
      assert !OccursAt(text, CRLF, i);
      if 0 <= i && i + 2 <= |head| {
        assert head[i..i + 2] == text[i..i + 2];
      }
    }
    assert text == head + [CR];
    assert start == head + CRLF + unread;
    FindAfter(head, CRLF, unread);
  }

  lemma OneMore(start: Bytes, text: Bytes, c: byte, unread: Bytes)
    requires Accumulates(start, text, [c] + unread, if text == [] then 0 else text[|text| - 1])
    requires |text| < MAX_LINE_LENGTH
    requires text == [] || text[|text| - 1] != CR || c != LF
    ensures Accumulates(start, text + [c], unread, c)
  {
    assert start == text + [c] + unread;
    var t := text + [c];
    forall i
      ensures !OccursAt(t, CRLF, i)
    {
      if 0 <= i && i + 2 <= |text| {
        assert !OccursAt(text, CRLF, i);
        assert t[i..i + 2] == text[i..i + 2];
      } else if 0 <= i && i + 2 == |t| {
        assert t[i..i + 2] == [text[|text| - 1], c];
      }
    }
  }
}
