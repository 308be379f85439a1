/** Unpadded base64url (section 5 of RFC 4648), over strings whose characters are bytes. */
module Base64Url {
  import opened Wrappers

  predicate IsByte(c: char) { c as int < 256 }

  predicate AllBytes(s: string) { forall i | 0 <= i < |s| :: IsByte(s[i]) }

  function Symbol(n: nat): (c: char)
    requires n < 64
    ensures Sextet(c) == Some(n) && c != '\r' && c != '\n'
  {
    if n < 26 then ('A' as int + n) as char
    else if n < 52 then ('a' as int + n - 26) as char
    else if n < 62 then ('0' as int + n - 52) as char
    else if n == 62 then '-' else '_'
  }

  function Sextet(c: char): (r: Option<nat>)
    ensures r.Some? ==> r.value < 64
  {
    if 'A' <= c <= 'Z' then Some(c as int - 'A' as int)
    else if 'a' <= c <= 'z' then Some(c as int - 'a' as int + 26)
    else if '0' <= c <= '9' then Some(c as int - '0' as int + 52)
    else if c == '-' then Some(62)
    else if c == '_' then Some(63)
    else None
  }

  predicate IsSymbol(c: char) { c != '\r' && c != '\n' }

  function Encode(s: string): (e: string)
    requires AllBytes(s)
    ensures forall i | 0 <= i < |e| :: IsSymbol(e[i])
  {
    if s == [] then []
    else if |s| == 1 then Group(s[0], 0 as char, 0 as char)[..2]
    else if |s| == 2 then Group(s[0], s[1], 0 as char)[..3]
    else Group(s[0], s[1], s[2]) + Encode(s[3..])
  }

  /** Three bytes as four numbers of six bits. */
  function Regroup(x: char, y: char, z: char): (c: seq<nat>)
    requires IsByte(x) && IsByte(y) && IsByte(z)
    ensures |c| == 4 && forall i | 0 <= i < 4 :: c[i] < 64
  {
    var b0, b1, b2 := x as int, y as int, z as int;
    [b0 / 4, b0 % 4 * 16 + b1 / 16, b1 % 16 * 4 + b2 / 64, b2 % 64]
  }

  /** Four numbers of six bits as three bytes. */
  function Ungroup(c0: nat, c1: nat, c2: nat, c3: nat): (bytes: string)
    requires c0 < 64 && c1 < 64 && c2 < 64 && c3 < 64
    ensures |bytes| == 3 && AllBytes(bytes)
  {
    [(c0 * 4 + c1 / 16) as char, (c1 % 16 * 16 + c2 / 4) as char, (c2 % 4 * 64 + c3) as char]
  }

  function Group(x: char, y: char, z: char): (g: string)
    requires IsByte(x) && IsByte(y) && IsByte(z)
    ensures |g| == 4 && forall i | 0 <= i < 4 :: IsSymbol(g[i]) && Sextet(g[i]) == Some(Regroup(x, y, z)[i])
  {
    var c := Regroup(x, y, z);
    [Symbol(c[0]), Symbol(c[1]), Symbol(c[2]), Symbol(c[3])]
  }

  /** `RawURLEncoding.DecodeString`: line breaks are skipped, and the low bits a short last group
      carries beyond its bytes are not looked at. */
  function Decode(s: string): Option<string> {
    DecodeGroups(WithoutBreaks(s))
  }

  function WithoutBreaks(s: string): string {
    if s == [] then []
    else if s[0] == '\r' || s[0] == '\n' then WithoutBreaks(s[1..])
    else [s[0]] + WithoutBreaks(s[1..])
  }

  function DecodeGroups(s: string): (r: Option<string>)
    ensures r.Some? ==> AllBytes(r.value)
  {
    if s == [] then Some([])
    else if |s| < 4 then DecodeGroup(s)
    else
      match (DecodeGroup(s[..4]), DecodeGroups(s[4..]))
      case (Some(bytes), Some(rest)) => Some(bytes + rest)
      case _ => None
  }

  /** Two to four symbols as one to three bytes; a lone symbol holds no byte. */
  function DecodeGroup(g: string): (r: Option<string>)
    requires 0 < |g| <= 4
    ensures r.Some? ==> AllBytes(r.value)
  {
    if |g| == 1 || exists i | 0 <= i < |g| :: Sextet(g[i]).None? then None
    else
      var c0, c1 := Sextet(g[0]).value, Sextet(g[1]).value;
      var c2 := if |g| > 2 then Sextet(g[2]).value else 0;
      var c3 := if |g| > 3 then Sextet(g[3]).value else 0;
      Some(Ungroup(c0, c1, c2, c3)[..|g| - 1])
  }

  lemma {:induction false} SymbolsHaveNoBreaks(s: string)
    requires forall i | 0 <= i < |s| :: IsSymbol(s[i])
    ensures WithoutBreaks(s) == s
  {
    if s != [] {
      SymbolsHaveNoBreaks(s[1..]);
      assert s == [s[0]] + s[1..];
    }
  }

  lemma DecodeInvertsEncode(s: string)
    requires AllBytes(s)
    ensures Decode(Encode(s)) == Some(s)
  {
    SymbolsHaveNoBreaks(Encode(s));
    GroupsInvertEncode(s);
  }

  lemma OneByteDecodes(x: char)
    requires IsByte(x)
    ensures DecodeGroups(Encode([x])) == Some([x])
  {
    GroupRejoins(x, 0 as char, 0 as char);
  }

  lemma TwoBytesDecode(x: char, y: char)
    requires IsByte(x) && IsByte(y)
    ensures DecodeGroups(Encode([x, y])) == Some([x, y])
  {
    GroupRejoins(x, y, 0 as char);
  }

  lemma FullGroupIsEncoded(x: char, y: char, z: char, rest: string)
    requires IsByte(x) && IsByte(y) && IsByte(z) && AllBytes(rest)
    ensures AllBytes([x, y, z] + rest) && Encode([x, y, z] + rest) == Group(x, y, z) + Encode(rest)
  {
    var s := [x, y, z] + rest;
    assert s[3..] == rest;
  }

  lemma {:induction false} GroupsInvertEncode(s: string)
    requires AllBytes(s)
    ensures DecodeGroups(Encode(s)) == Some(s)
  {
    if |s| == 1 {
      OneByteDecodes(s[0]);
      assert s == [s[0]];
    } else if |s| == 2 {
      TwoBytesDecode(s[0], s[1]);
      assert s == [s[0], s[1]];
    } else if |s| > 2 {
      var rest := s[3..];
      assert s == [s[0], s[1], s[2]] + rest;
      GroupRejoins(s[0], s[1], s[2]);
      FullGroupIsEncoded(s[0], s[1], s[2], rest);
      GroupsInvertEncode(rest);
      FullGroupDecodes(Group(s[0], s[1], s[2]), [s[0], s[1], s[2]], Encode(rest), rest);
    }
  }

  lemma FullGroupDecodes(g: string, bytes: string, tail: string, rest: string)
    requires |g| == 4 && DecodeGroup(g) == Some(bytes) && DecodeGroups(tail) == Some(rest)
    ensures DecodeGroups(g + tail) == Some(bytes + rest)
  {
    assert (g + tail)[..4] == g && (g + tail)[4..] == tail;
  }

  /** The bits of three bytes, regrouped in sixes and back. */
  lemma BitsRejoin(x: char, y: char, z: char)
    requires IsByte(x) && IsByte(y) && IsByte(z)
    ensures var c := Regroup(x, y, z); Ungroup(c[0], c[1], c[2], c[3]) == [x, y, z]
  {
  }

  /** The first `k + 1` symbols of a group hold its first `k` bytes. */
  lemma GroupRejoins(x: char, y: char, z: char)
    requires IsByte(x) && IsByte(y) && IsByte(z)
    ensures y as int == 0 && z as int == 0 ==> DecodeGroup(Group(x, y, z)[..2]) == Some([x])
    ensures z as int == 0 ==> DecodeGroup(Group(x, y, z)[..3]) == Some([x, y])
    ensures DecodeGroup(Group(x, y, z)) == Some([x, y, z])
  {
    BitsRejoin(x, y, z);
    var g, c := Group(x, y, z), Regroup(x, y, z);
    assert [x, y, z][..3] == [x, y, z] && [x, y, z][..2] == [x, y] && [x, y, z][..1] == [x];
    assert DecodeGroup(g) == Some([x, y, z]);
    if z as int == 0 {
      assert c[3] == 0;
      assert DecodeGroup(g[..3]) == Some(Ungroup(c[0], c[1], c[2], c[3])[..2]);
      if y as int == 0 {
        assert c[2] == 0;
        assert DecodeGroup(g[..2]) == Some(Ungroup(c[0], c[1], c[2], c[3])[..1]);
      }
    }
  }
}
