/** Texts that are known from the standards and from the service's own documentation. */
module Vectors {
  import opened Wrappers
  import opened Numerals
  import opened Uuids
  import Text
  import Base64Url
  import Cursors
  import ETags
  import References

  /** The alphabet of table 2 in section 5 of RFC 4648: capitals, small letters, digits and two signs. */
  lemma AlphabetIsUsed(n: nat)
    requires n < 64
    ensures Base64Url.Symbol(0) == 'A' && Base64Url.Symbol(26) == 'a' && Base64Url.Symbol(52) == '0'
    ensures Base64Url.Symbol(62) == '-' && Base64Url.Symbol(63) == '_'
    ensures n < 61 && n != 25 && n != 51 ==> Base64Url.Symbol(n + 1) as int == Base64Url.Symbol(n) as int + 1
  {
  }

  /** The examples of section 10 of RFC 4648, without padding, and one of bytes beyond ASCII. */
  lemma KnownBase64Texts()
    ensures Base64Url.Encode("") == ""
    ensures Base64Url.Encode("f") == "Zg"
    ensures Base64Url.Encode("fo") == "Zm8"
    ensures Base64Url.Encode("foo") == "Zm9v"
    ensures Base64Url.Encode([0xFB as char, 0xFF as char]) == "-_8"
  {
  }

  lemma LongerBase64Texts()
    ensures Base64Url.AllBytes("foob") && Base64Url.Encode("foob") == "Zm9vYg"
  {
    Base64Url.FullGroupIsEncoded('f', 'o', 'o', "b");
    assert ['f', 'o', 'o'] + "b" == "foob";
    assert Base64Url.Group('f', 'o', 'o') == "Zm9v" && Base64Url.Encode("b") == "Yg";
  }

  lemma KnownNumerals()
    ensures Signed(0) == "0" && Signed(120) == "120" && Signed(-37) == "-37"
    ensures Hex(0x1F0, 4) == "01f0"
  {
  }

  predicate IsLowerHex(c: char) { '0' <= c <= '9' || 'a' <= c <= 'f' }

  lemma {:induction false} HexIsLower(n: nat, width: nat)
    ensures forall i | 0 <= i < width :: IsLowerHex(Hex(n, width)[i])
  {
    if width > 0 {
      HexIsLower(n / 16, width - 1);
    }
  }

  /** The layout of section 4 of RFC 9562: 8-4-4-4-12 lower-case digits, the highest first. */
  lemma UuidLayout(id: Uuid)
    ensures var s := Print(id);
            && |s| == 36 && s[8] == s[13] == s[18] == s[23] == '-'
            && s[..8] + s[9..13] + s[14..18] + s[19..23] + s[24..] == Hex(id, 32)
            && forall i | 0 <= i < 36 && i !in {8, 13, 18, 23} :: IsLowerHex(s[i])
  {
    PrintUngroups(id);
    HexIsLower(id, 32);
  }

  /** The tag of version 7, as the specification of the service shows it. */
  lemma KnownTag()
    ensures ETags.SetETag(7) == "\"7\""
  {
  }

  /** What a cursor spells before it is encoded: time, id and rank, in this order. */
  lemma PayloadLayout(id: Uuid, text: Cursors.RankText)
    requires text.show(7) == "7"
    ensures var s := Cursors.Payload(Cursors.Cursor(15, id, 7), text);
            |s| == 41 && s[..3] == "15|" && s[3..39] == Print(id) && s[39..] == "|7"
  {
    var s := Cursors.Payload(Cursors.Cursor(15, id, 7), text);
    assert Cursors.UnixNano(15) == 15 && Signed(15) == "15";
    assert s == "15|" + (Print(id) + "|7");
  }

  /** A reference in the form that notes are written with. */
  lemma MarkdownReferenceIsFound(alt: string, id: Uuid)
    requires ':' !in alt && InRange(id)
    ensures References.Referenced("![" + alt + "](attachment:" + Print(id) + ")") == {id}
  {
    var image := References.Image(alt, id);
    References.ScanInvertsRender([image]);
    assert References.Render([image]) == image.Text() + References.Render([]);
    assert References.Render([image]) == "![" + alt + "](attachment:" + Print(id) + ")";
  }

  /** White space: the ASCII kinds, the two of Latin-1 and those of the Unicode tables. */
  lemma WhiteSpaceIs(c: char)
    ensures Text.IsSpace(c) <==>
            c as int in {
              0x09, 0x0A, 0x0B, 0x0C, 0x0D, 0x20, 0x85, 0xA0, 0x1680, 0x2000, 0x2001, 0x2002, 0x2003, 0x2004, 0x2005,
              0x2006, 0x2007, 0x2008, 0x2009, 0x200A, 0x2028, 0x2029, 0x202F, 0x205F, 0x3000
            }
  {
  }

  lemma WidthsAre()
    ensures Int32.Limit() == 2147483648 && Int64.Limit() == 9223372036854775808
  {
  }

  /** The other forms in which an id is read: after a URN prefix in any case, in braces, and without dashes. */
  lemma UuidForms(id: Uuid)
    requires InRange(id)
    ensures Parse("urn:uuid:" + Print(id)) == Some(id)
    ensures Parse("URN:UUID:" + Print(id)) == Some(id)
    ensures Parse("{" + Print(id) + "}") == Some(id)
    ensures Parse(Hex(id, 32)) == Some(id)
  {
    ParseInvertsPrint(id);
    HexRoundTrip(id, 32);
    PrefixesAre();
    PrefixIsSkipped("urn:uuid:", Print(id));
    PrefixIsSkipped("URN:UUID:", Print(id));
    assert ("{" + Print(id) + "}")[1..37] == Print(id);
  }

  lemma PrefixesAre()
    ensures Text.Map(AsciiLower, "urn:uuid:") == "urn:uuid:"
    ensures Text.Map(AsciiLower, "URN:UUID:") == "urn:uuid:"
  {
  }

  lemma PrefixIsSkipped(prefix: string, s: string)
    requires |s| == 36 && |prefix| == 9 && Text.Map(AsciiLower, prefix) == "urn:uuid:"
    ensures Parse(prefix + s) == ParseGrouped(s) == Parse(s)
  {
    assert (prefix + s)[..9] == prefix && (prefix + s)[9..] == s;
  }

  /** Line breaks in an encoded text are skipped; any other character outside the alphabet is refused. */
  lemma OnlyBreaksAreSkipped(s: string)
    ensures Base64Url.Decode(s) == Base64Url.DecodeGroups(Base64Url.WithoutBreaks(s))
    ensures forall c :: c in Base64Url.WithoutBreaks(s) <==> c in s && c != '\r' && c != '\n'
  {
    BreaksGo(s);
  }

  lemma {:induction false} BreaksGo(s: string)
    ensures forall c :: c in Base64Url.WithoutBreaks(s) <==> c in s && c != '\r' && c != '\n'
  {
    if s != "" {
      BreaksGo(s[1..]);
      assert s == [s[0]] + s[1..];
    }
  }

  /** A character is read as the number it is the symbol of, and no other character is read. */
  lemma SymbolIsRead(c: char, n: nat)
    ensures Base64Url.Sextet(c) == Some(n) <==> n < 64 && c == Base64Url.Symbol(n)
  {
  }
}
