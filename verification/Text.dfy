/** The text operations the handlers call before they look at a value. A string is a sequence
    of Unicode scalar values, and its length in bytes is that of its UTF-8 form. */
module Text {

  /** White space as Go's `unicode.IsSpace` has it. */
  predicate IsSpace(c: char) {
    var n := c as int;
    || 9 <= n <= 13 || n == 0x20 || n == 0x85 || n == 0xA0 || n == 0x1680
    || 0x2000 <= n <= 0x200A || n == 0x2028 || n == 0x2029 || n == 0x202F || n == 0x205F || n == 0x3000
  }

  function TrimLeft(s: string, cut: char -> bool): (r: string)
    ensures |r| <= |s|
  {
    if s != [] && cut(s[0]) then TrimLeft(s[1..], cut) else s
  }

  function TrimRight(s: string, cut: char -> bool): (r: string)
    ensures |r| <= |s|
  {
    if s != [] && cut(s[|s| - 1]) then TrimRight(s[..|s| - 1], cut) else s
  }

  function Trim(s: string, cut: char -> bool): string {
    TrimRight(TrimLeft(s, cut), cut)
  }

  function TrimSpace(s: string): string {
    Trim(s, IsSpace)
  }

  /** Neither end of `s` is a character to be cut. */
  predicate Trimmed(s: string, cut: char -> bool) {
    s == [] || (!cut(s[0]) && !cut(s[|s| - 1]))
  }

  lemma {:induction false} TrimRightKeepsHead(s: string, cut: char -> bool)
    requires s != [] && !cut(s[0])
    ensures TrimRight(s, cut) != [] && TrimRight(s, cut)[0] == s[0]
    ensures Trimmed(TrimRight(s, cut), cut)
  {
    if cut(s[|s| - 1]) {
      TrimRightKeepsHead(s[..|s| - 1], cut);
    }
  }

  lemma {:induction false} TrimLeftEndsAtKept(s: string, cut: char -> bool)
    ensures TrimLeft(s, cut) == [] || !cut(TrimLeft(s, cut)[0])
  {
    if s != [] && cut(s[0]) {
      TrimLeftEndsAtKept(s[1..], cut);
    }
  }

  /** Trimming cuts everything there is to cut, and a trimmed string is left alone. */
  lemma TrimSettles(s: string, cut: char -> bool)
    ensures Trimmed(Trim(s, cut), cut)
    ensures Trimmed(s, cut) ==> Trim(s, cut) == s
  {
    TrimLeftEndsAtKept(s, cut);
    var t := TrimLeft(s, cut);
    if t != [] {
      TrimRightKeepsHead(t, cut);
    }
  }

  /** Characters to be cut, put around a trimmed core, are exactly what `Trim` removes. */
  lemma {:induction false} TrimStripsPadding(left: string, core: string, right: string, cut: char -> bool)
    requires forall c | c in left :: cut(c)
    requires forall c | c in right :: cut(c)
    requires core != [] && Trimmed(core, cut)
    ensures Trim(left + core + right, cut) == core
    decreases |left| + |right|
  {
    var s := left + core + right;
    if left != [] {
      assert s[1..] == left[1..] + core + right;
      TrimStripsPadding(left[1..], core, right, cut);
    } else if right != [] {
      assert TrimLeft(s, cut) == s;
      var shorter := core + right[..|right| - 1];
      assert s[..|s| - 1] == shorter == left + core + right[..|right| - 1];
      assert s[|s| - 1] == right[|right| - 1];
      assert TrimLeft(shorter, cut) == shorter;
      TrimStripsPadding(left, core, right[..|right| - 1], cut);
    } else {
      assert s == core;
    }
  }

  /** The number of bytes of one character in UTF-8 (section 3 of RFC 3629). */
  function Utf8Width(c: char): nat {
    var n := c as int;
    if n < 0x80 then 1 else if n < 0x800 then 2 else if n < 0x1_0000 then 3 else 4
  }

  /** What Go's `len` returns for a string. */
  function ByteLength(s: string): nat {
    if s == [] then 0 else ByteLength(s[..|s| - 1]) + Utf8Width(s[|s| - 1])
  }

  function Map(f: char -> char, s: string): (r: string)
    ensures |r| == |s| && forall i | 0 <= i < |s| :: r[i] == f(s[i])
  {
    seq(|s|, i requires 0 <= i < |s| => f(s[i]))
  }

  predicate HasPrefix(s: string, p: string) {
    |p| <= |s| && s[..|p|] == p
  }

  function TrimPrefix(s: string, p: string): string {
    if HasPrefix(s, p) then s[|p|..] else s
  }

  /** The UTF-8 form of a character (section 3 of RFC 3629). */
  function Utf8(c: char): (bytes: seq<int>)
    ensures forall i | 0 <= i < |bytes| :: 0 <= bytes[i] < 256
  {
    var n := c as int;
    if n < 0x80 then [n]
    else if n < 0x800 then [0xC0 + n / 0x40, 0x80 + n % 0x40]
    else if n < 0x1_0000 then [0xE0 + n / 0x1000, 0x80 + n / 0x40 % 0x40, 0x80 + n % 0x40]
    else [0xF0 + n / 0x4_0000, 0x80 + n / 0x1000 % 0x40, 0x80 + n / 0x40 % 0x40, 0x80 + n % 0x40]
  }

  /** The number that the leading byte and the bytes after it spell. */
  function FromUtf8(bytes: seq<int>): int
    requires 1 <= |bytes| <= 4
  {
    if |bytes| == 1 then bytes[0]
    else if |bytes| == 2 then (bytes[0] - 0xC0) * 0x40 + (bytes[1] - 0x80)
    else if |bytes| == 3 then ((bytes[0] - 0xE0) * 0x40 + (bytes[1] - 0x80)) * 0x40 + (bytes[2] - 0x80)
    else (((bytes[0] - 0xF0) * 0x40 + (bytes[1] - 0x80)) * 0x40 + (bytes[2] - 0x80)) * 0x40 + (bytes[3] - 0x80)
  }

  /** Each character is its bytes, as many as are counted for it. */
  lemma Utf8Spells(c: char)
    ensures |Utf8(c)| == Utf8Width(c) && FromUtf8(Utf8(c)) == c as int
  {
    var n := c as int;
    assert n / 0x40 == n / 0x1000 * 0x40 + n / 0x40 % 0x40;
    assert n / 0x1000 == n / 0x4_0000 * 0x40 + n / 0x1000 % 0x40;
  }

  function Bytes(s: string): seq<int> {
    if s == [] then [] else Bytes(s[..|s| - 1]) + Utf8(s[|s| - 1])
  }

  /** The length that limits are compared with is that of the encoded text. */
  lemma {:induction false} ByteLengthIsLength(s: string)
    ensures ByteLength(s) == |Bytes(s)|
  {
    if s != [] {
      ByteLengthIsLength(s[..|s| - 1]);
      Utf8Spells(s[|s| - 1]);
    }
  }
}
