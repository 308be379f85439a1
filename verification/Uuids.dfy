/** UUIDs as the numbers their 128 bits spell, and their text (section 4 of RFC 9562). */
module Uuids {
  import opened Wrappers
  import opened Numerals
  import Text

  /** Postgres compares UUIDs byte by byte, which is the order of these numbers. */
  type Uuid = nat

  const NIL: Uuid := 0

  predicate InRange(id: Uuid) { id < SixteenTo(32) }

  /** `UUID.String`: 32 lower-case digits grouped 8-4-4-4-12. */
  function Print(id: Uuid): (s: string)
    ensures |s| == 36
  {
    var h := Hex(id, 32);
    h[..8] + "-" + h[8..12] + "-" + h[12..16] + "-" + h[16..20] + "-" + h[20..]
  }

  /** The digits of a 36-character form, if its dashes are where they should be. */
  function Ungroup(s: string): Option<string>
    requires |s| == 36
  {
    if s[8] == '-' && s[13] == '-' && s[18] == '-' && s[23] == '-' then
      Some(s[..8] + s[9..13] + s[14..18] + s[19..23] + s[24..])
    else None
  }

  function ParseHex(h: string): Option<Uuid> {
    if AllHex(h) then Some(HexValue(h)) else None
  }

  function ParseGrouped(s: string): (r: Option<Uuid>)
    requires |s| == 36
  {
    match Ungroup(s)
    case None => None
    case Some(h) => ParseHex(h)
  }

  function AsciiLower(c: char): char {
    if 'A' <= c <= 'Z' then (c as int + 32) as char else c
  }

  /** `uuid.Parse`: the grouped form, bare, with a URN prefix or in braces; or 32 digits. */
  function Parse(s: string): Option<Uuid> {
    if |s| == 36 then ParseGrouped(s)
    else if |s| == 45 then
      if Text.Map(AsciiLower, s[..9]) == "urn:uuid:" then ParseGrouped(s[9..]) else None
    else if |s| == 38 then ParseGrouped(s[1..37])
    else if |s| == 32 then ParseHex(s)
    else None
  }

  lemma PrintUngroups(id: Uuid)
    ensures Ungroup(Print(id)) == Some(Hex(id, 32))
  {
    var h, s := Hex(id, 32), Print(id);
    assert s[..8] == h[..8];
    assert s[9..13] == h[8..12];
    assert s[14..18] == h[12..16];
    assert s[19..23] == h[16..20];
    assert s[24..] == h[20..];
    assert h == h[..8] + h[8..12] + h[12..16] + h[16..20] + h[20..];
  }

  lemma ParseInvertsPrint(id: Uuid)
    requires InRange(id)
    ensures Parse(Print(id)) == Some(id)
  {
    PrintUngroups(id);
    HexRoundTrip(id, 32);
  }

  /** A printed UUID is made of the characters the reference pattern of a note body accepts. */
  lemma PrintIsHexOrDash(id: Uuid)
    ensures forall i | 0 <= i < 36 :: IsHex(Print(id)[i]) || Print(id)[i] == '-'
  {
  }

  lemma ParsedIsInRange(s: string)
    ensures Parse(s).Some? ==> InRange(Parse(s).value)
  {
    var grouped := if |s| == 36 then s else if |s| == 45 then s[9..] else if |s| == 38 then s[1..37] else Print(0);
    if Ungroup(grouped).Some? && AllHex(Ungroup(grouped).value) {
      HexValueFits(Ungroup(grouped).value);
    }
    if |s| == 32 && AllHex(s) {
      HexValueFits(s);
    }
  }
}
