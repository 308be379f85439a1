/** Versions as entity tags (internal/notes/handler.go). The tag is the quoted version of section
    8.8.3 of RFC 9110, sent back in `If-Match` (section 13.1.1). */
module ETags {
  import opened Wrappers
  import opened Numerals
  import opened Text

  datatype Refusal = PreconditionRequired | NotAVersion

  predicate IsQuote(c: char) { c == '"' }

  function SetETag(version: int): string {
    "\"" + Signed(version) + "\""
  }

  function IfMatchVersion(header: string): (r: Result<int, Refusal>)
    ensures r.Ok? ==> 1 <= r.value < Int32.Limit()
  {
    var raw := TrimSpace(header);
    if raw == "" || raw == "*" then Err(PreconditionRequired)
    else
      match ParseInt(Trim(TrimPrefix(raw, "W/"), IsQuote), Int32)
      case Some(v) => if v < 1 then Err(NotAVersion) else Ok(v)
      case None => Err(NotAVersion)
  }

  function Quotes(n: nat): (s: string)
    ensures |s| == n && forall c | c in s :: IsQuote(c)
  {
    seq(n, _ => '"')
  }

  /** Every text the service reads as version `v`: any number of quotes around the numeral, a weak
      prefix, a plus sign and leading zeros. */
  function Spelling(v: nat, weak: bool, plus: bool, zeros: nat, left: nat, right: nat): string {
    (if weak then "W/" else "") + (Quotes(left) + Numeral(v, plus, zeros) + Quotes(right))
  }

  function Numeral(v: nat, plus: bool, zeros: nat): string {
    (if plus then "+" else "") + Zeros(zeros) + Decimal(v)
  }

  lemma NumeralParses(v: nat, plus: bool, zeros: nat)
    requires 1 <= v < Int32.Limit()
    ensures ParseInt(Numeral(v, plus, zeros), Int32) == Some(v)
  {
    var digits := Zeros(zeros) + Decimal(v);
    assert Numeral(v, plus, zeros) == (if plus then "+" else "") + digits;
    ZerosAddNothing(zeros, Decimal(v));
    DecimalRoundTrip(v);
    ParseSignedDigits(if plus then "+" else "", digits, Int32);
  }

  lemma NumeralEnds(v: nat, plus: bool, zeros: nat)
    ensures var n := Numeral(v, plus, zeros);
            n != [] && (n[0] == '+' || IsDigit(n[0])) && IsDigit(n[|n| - 1])
  {
    var digits, core := Zeros(zeros) + Decimal(v), Numeral(v, plus, zeros);
    assert core == (if plus then "+" else "") + digits;
    assert digits != [] && IsDigit(digits[0]) && IsDigit(digits[|digits| - 1]);
    assert core[|core| - 1] == digits[|digits| - 1];
  }

  lemma QuotedStrips(core: string, left: nat, right: nat)
    requires core != [] && (core[0] == '+' || IsDigit(core[0])) && IsDigit(core[|core| - 1])
    ensures Trim(Quotes(left) + core + Quotes(right), IsQuote) == core
  {
    TrimStripsPadding(Quotes(left), core, Quotes(right), IsQuote);
  }

  lemma PrefixStrips(quoted: string, weak: bool)
    requires quoted != [] && quoted[0] != 'W'
    ensures TrimPrefix((if weak then "W/" else "") + quoted, "W/") == quoted
  {
    var raw := (if weak then "W/" else "") + quoted;
    if weak {
      assert raw[..2] == "W/";
      assert raw[2..] == quoted;
    } else {
      assert raw == quoted;
      assert |raw| >= 2 ==> raw[..2][0] != 'W';
    }
  }

  /** A trimmed header is read by its prefix, its quotes and its number. */
  lemma CoreIsRead(raw: string, core: string, v: int)
    requires raw != "" && raw != "*" && Trimmed(raw, IsSpace)
    requires Trim(TrimPrefix(raw, "W/"), IsQuote) == core
    requires ParseInt(core, Int32) == Some(v) && v >= 1
    ensures IfMatchVersion(raw) == Ok(v)
  {
    TrimSettles(raw, IsSpace);
  }

  lemma SpellingIsAccepted(v: nat, weak: bool, plus: bool, zeros: nat, left: nat, right: nat)
    requires 1 <= v < Int32.Limit()
    ensures IfMatchVersion(Spelling(v, weak, plus, zeros, left, right)) == Ok(v)
  {
    var core := Numeral(v, plus, zeros);
    NumeralEnds(v, plus, zeros);
    NumeralParses(v, plus, zeros);
    var quoted := Quotes(left) + core + Quotes(right);
    QuotedEnds(core, left, right);
    var raw := Spelling(v, weak, plus, zeros, left, right);
    assert raw == (if weak then "W/" else "") + quoted;
    PrefixStrips(quoted, weak);
    PrefixedIsTrimmed(quoted, weak);
    QuotedStrips(core, left, right);
    CoreIsRead(raw, core, v);
  }

  lemma QuotedEnds(core: string, left: nat, right: nat)
    requires core != [] && (core[0] == '+' || IsDigit(core[0])) && IsDigit(core[|core| - 1])
    ensures var quoted := Quotes(left) + core + Quotes(right);
            && quoted != [] && (IsQuote(quoted[0]) || quoted[0] == '+' || IsDigit(quoted[0]))
            && (IsQuote(quoted[|quoted| - 1]) || IsDigit(quoted[|quoted| - 1]))
  {
    var quoted := Quotes(left) + core + Quotes(right);
    assert quoted[0] == if left > 0 then Quotes(left)[0] else core[0];
    assert quoted[|quoted| - 1] == if right > 0 then Quotes(right)[right - 1] else core[|core| - 1];
  }

  lemma PrefixedIsTrimmed(quoted: string, weak: bool)
    requires quoted != [] && (IsQuote(quoted[0]) || quoted[0] == '+' || IsDigit(quoted[0]))
    requires IsQuote(quoted[|quoted| - 1]) || IsDigit(quoted[|quoted| - 1])
    ensures var raw := (if weak then "W/" else "") + quoted;
            raw != "" && raw != "*" && Trimmed(raw, IsSpace)
  {
    var raw := (if weak then "W/" else "") + quoted;
    assert raw[0] == if weak then 'W' else quoted[0];
    assert raw[|raw| - 1] == quoted[|quoted| - 1];
  }

  /** What `Trim` cuts away is padding on both sides. */
  lemma {:induction false} TrimLeavesPadding(s: string)
    ensures exists l: nat, r: nat :: s == Quotes(l) + Trim(s, IsQuote) + Quotes(r)
  {
    var l := LeftPadding(s);
    var t := TrimLeft(s, IsQuote);
    var r := RightPadding(t);
    assert s == Quotes(l) + Trim(s, IsQuote) + Quotes(r);
  }

  lemma {:induction false} LeftPadding(s: string) returns (l: nat)
    ensures s == Quotes(l) + TrimLeft(s, IsQuote)
  {
    l := 0;
    if s != [] && IsQuote(s[0]) {
      var k := LeftPadding(s[1..]);
      l := k + 1;
      assert s == [s[0]] + s[1..];
    }
  }

  lemma {:induction false} RightPadding(s: string) returns (r: nat)
    ensures s == TrimRight(s, IsQuote) + Quotes(r)
  {
    r := 0;
    if s != [] && IsQuote(s[|s| - 1]) {
      var k := RightPadding(s[..|s| - 1]);
      r := k + 1;
      assert s == s[..|s| - 1] + [s[|s| - 1]];
    }
  }

  /** A header is read as version `v` exactly when, white space aside, it spells `v`. In particular
      an empty header, `*`, zero, a negative number and a number of 32 bits or more are refused. */
  lemma IfMatchReadsSpellings(header: string, v: int)
    ensures IfMatchVersion(header) == Ok(v) <==>
            1 <= v < Int32.Limit() && exists weak, plus, zeros: nat, left: nat, right: nat ::
              TrimSpace(header) == Spelling(v, weak, plus, zeros, left, right)
  {
    var raw := TrimSpace(header);
    TrimSettles(header, IsSpace);
    TrimSettles(raw, IsSpace);
    if IfMatchVersion(header) == Ok(v) {
      var weak, plus, zeros, left, right := AcceptedIsSpelling(raw, v);
    }
    if 1 <= v < Int32.Limit() && exists weak, plus, zeros: nat, left: nat, right: nat ::
         raw == Spelling(v, weak, plus, zeros, left, right) {
      var weak, plus, zeros: nat, left: nat, right: nat :| raw == Spelling(v, weak, plus, zeros, left, right);
      SpellingIsAccepted(v, weak, plus, zeros, left, right);
    }
  }

  lemma AcceptedIsSpelling(raw: string, v: int)
    returns (weak: bool, plus: bool, zeros: nat, left: nat, right: nat)
    requires ParseInt(Trim(TrimPrefix(raw, "W/"), IsQuote), Int32) == Some(v) && v >= 1
    ensures raw == Spelling(v, weak, plus, zeros, left, right)
  {
    weak := HasPrefix(raw, "W/");
    var quoted := TrimPrefix(raw, "W/");
    assert raw == (if weak then "W/" else "") + quoted;
    TrimLeavesPadding(quoted);
    var core := Trim(quoted, IsQuote);
    left, right :| quoted == Quotes(left) + core + Quotes(right);
    plus, zeros := ParsedIsNumeral(core, v);
  }

  lemma ParsedIsNumeral(core: string, v: int) returns (plus: bool, zeros: nat)
    requires ParseInt(core, Int32) == Some(v) && v >= 1
    ensures core == Numeral(v, plus, zeros)
  {
    var digits := Unsigned(core);
    plus := core != digits;
    UnsignedSplits(core);
    zeros := Padding(digits);
    assert core == (if plus then "+" else "") + digits;
  }

  lemma UnsignedSplits(core: string)
    requires !Negative(core)
    ensures core == (if core != Unsigned(core) then "+" else "") + Unsigned(core)
  {
    if core != [] && core[0] == '+' {
      assert core == "+" + core[1..];
    }
  }

  /** The tag of a version reads back as that version, as sent, bare, or marked weak. */
  lemma IfMatchInvertsETag(version: int)
    requires 1 <= version < Int32.Limit()
    ensures IfMatchVersion(SetETag(version)) == Ok(version)
    ensures IfMatchVersion(Signed(version)) == Ok(version)
    ensures IfMatchVersion("W/" + SetETag(version)) == Ok(version)
  {
    SpellingIsAccepted(version, false, false, 0, 1, 1);
    SpellingIsAccepted(version, false, false, 0, 0, 0);
    SpellingIsAccepted(version, true, false, 0, 1, 1);
    assert Quotes(1) == "\"" && Quotes(0) == "";
    assert Numeral(version, false, 0) == Signed(version);
    assert Spelling(version, false, false, 0, 1, 1) == SetETag(version);
    assert Spelling(version, false, false, 0, 0, 0) == Signed(version);
    assert Spelling(version, true, false, 0, 1, 1) == "W/" + SetETag(version);
  }
}
