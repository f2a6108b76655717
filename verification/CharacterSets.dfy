/** The characters each part of the code treats specially, written out. */
module CharacterSets {
  import opened Bytes
  import opened CText
  import Query
  import PathEscapes
  import Text
  import RangeHeader
  import Base64
  import Collage
  import H = HeaderFields
  import F = FormDataHeaders

  predicate IsCapital(c: byte) { 'A' <= c as char <= 'Z' }

  predicate IsSmall(c: byte) { 'a' <= c as char <= 'z' }

  predicate IsDecimal(c: byte) { '0' <= c as char <= '9' }

  /** Section 2.3 of RFC 3986. */
  predicate IsUnreserved(c: byte)
  {
    IsCapital(c) || IsSmall(c) || IsDecimal(c) || c as char in "-._~"
  }

  /** Section 2.2 of RFC 3986. */
  const SUB_DELIMS: string := "!$&'()*+,;="

  /** Folding letters: each capital to its small letter, everything else stays. */
  lemma FoldingIs(c: byte)
    ensures F.Lower(c) == if IsCapital(c) then c - 'A' as int + 'a' as int else c
  {
  }

  /** Digits, decimal and hexadecimal, and the values of the latter. */
  lemma DigitsAre(c: byte)
    ensures RangeHeader.IsDigit(c) <==> IsDecimal(c)
    ensures IsHex(c) <==> IsDecimal(c) || 'A' <= c as char <= 'F' || 'a' <= c as char <= 'f'
    ensures IsHex(c) ==> HexValue(c) ==
                         if IsDecimal(c) then c - '0' as int
                         else if IsCapital(c) then 10 + c - 'A' as int
                         else 10 + c - 'a' as int
  {
  }

  /** Table 1 of RFC 4648. */
  lemma AlphabetIs(v: nat)
    requires v < 64
    ensures Base64.Letter(v) ==
            if v < 26 then 'A' as int + v
            else if v < 52 then 'a' as int + v - 26
            else if v < 62 then '0' as int + v - 52
            else if v == 62 then '+' as int
            else '/' as int
    ensures Base64.PAD as char == '='
  {
  }

  /** Blanks of the C library: space, tab, line feed, vertical tab, form feed and
      carriage return; those of header lines are only the first two. */
  lemma BlanksAre(c: byte)
    ensures IsSpace(c) <==> c in [32, 9, 10, 11, 12, 13]
    ensures Text.IsBlank(c) <==> c in [32, 9]
  {
  }

  /** An escape in capital letters. */
  function CapitalEscape(c: byte): Bytes
  {
    ['%' as int, CapitalDigit(c / 16), CapitalDigit(c % 16)]
  }

  function CapitalDigit(v: nat): byte
    requires v < 16
  {
    if v < 10 then '0' as int + v else 'A' as int + v - 10
  }

  /** Bytes a query component leaves as they are: unreserved characters, ":@/?" and
      the sub-delimiters but "&+=". */
  predicate StaysInQuery(c: byte)
  {
    IsUnreserved(c) || c as char in ":@/?" || (c as char in SUB_DELIMS && c as char !in "&+=")
  }

  lemma QueryPlainIs(c: byte)
    ensures c != 32 && c != 43 ==> (Query.IsPlain(c) <==> StaysInQuery(c))
  {
  }

  /** A space becomes a plus or an escape, a plus stays only where it does not mean a
      space, and every other byte that does not stay is an escape. */
  lemma QueryEscapesAre(c: byte, spaceAsPlus: bool)
    ensures Query.EncodeByte(c, spaceAsPlus) ==
            if StaysInQuery(c) then [c]
            else if c as char == ' ' && spaceAsPlus then ['+' as int]
            else if c as char == '+' && !spaceAsPlus then ['+' as int]
            else CapitalEscape(c)
  {
    QueryPlainIs(c);
  }

  /** In a path component unreserved characters, sub-delimiters, ":" and "@" stay. */
  lemma PathEscapesAre(c: byte)
    ensures PathEscapes.IsPathPlain(c) <==> IsUnreserved(c) || c as char in SUB_DELIMS || c as char in ":@"
    ensures PathEscapes.Escaped(c) == CapitalEscape(c)
  {
  }

  function Folded(s: Bytes): Bytes
  {
    seq(|s|, i requires 0 <= i < |s| => F.Lower(s[i]))
  }

  /** "location" and "referer" */
  const SMALL_LOCATION: Bytes := [108, 111, 99, 97, 116, 105, 111, 110]
  const SMALL_REFERER: Bytes := [114, 101, 102, 101, 114, 101, 114]

  /** The two names whose values are not decoded, in any letters. */
  lemma VerbatimNamesAre(key: Bytes)
    ensures H.IsVerbatim(key) <==> Folded(key) == SMALL_LOCATION || Folded(key) == SMALL_REFERER
  {
    assert Folded(H.LOCATION) == SMALL_LOCATION && Folded(H.REFERER) == SMALL_REFERER;
    SameIff(key, H.LOCATION);
    SameIff(key, H.REFERER);
  }

  lemma SameIff(a: Bytes, b: Bytes)
    ensures H.SameIgnoringCase(a, b) <==> Folded(a) == Folded(b)
  {
    if Folded(a) == Folded(b) {
      assert |Folded(a)| == |a| && |Folded(b)| == |b|;
      forall i | 0 <= i < |a|
        ensures F.Lower(a[i]) == F.Lower(b[i])
      {
        assert Folded(a)[i] == F.Lower(a[i]) && Folded(b)[i] == F.Lower(b[i]);
      }
    }
  }

  /** Matching a head does not look at the letters either. */
  lemma HeadsFold(text: Bytes, head: Bytes)
    ensures F.HasHead(text, head) <==> |head| <= |text| && Folded(text[..|head|]) == Folded(head)
  {
    if |head| <= |text| {
      var front := text[..|head|];
      SameIff(front, head);
      assert forall i | 0 <= i < |head| :: front[i] == text[i];
    }
  }

  /** The names in the archive of pictures: "cat_", two decimal digits counting from
      one, and ".jpg". */
  lemma PictureNameIs(i: nat)
    requires i < Collage.NEED
    ensures var name := Collage.CatName(i);
            && |name| == 10
            && name[..4] == ['c' as int, 'a' as int, 't' as int, '_' as int]
            && IsDecimal(name[4]) && IsDecimal(name[5])
            && 10 * (name[4] - '0' as int) + (name[5] - '0' as int) == i + 1
            && name[6..] == ['.' as int, 'j' as int, 'p' as int, 'g' as int]
  {
  }
}
