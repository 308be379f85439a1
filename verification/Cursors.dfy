/** The list position a client carries from one page to the next (internal/store/notes_list.go). */
module Cursors {
  import opened Wrappers
  import opened Numerals
  import opened Uuids
  import Base64Url

  /** A search rank, standing for its place in the total order of 32-bit floats. */
  type Rank = int

  /** The text form of a rank. `strconv` prints a float in a form that parses back to it. */
  datatype RankText = RankText(show: Rank -> string, parse: string -> Option<Rank>) {
    predicate Faithful(r: Rank) {
      && parse(show(r)) == Some(r)
      && Base64Url.AllBytes(show(r))
      && '|' !in show(r)
    }
  }

  datatype Cursor = Cursor(updatedAt: int, id: Uuid, rank: Rank)

  /** `strings.Split(s, "|")`. */
  function Split(s: string): (parts: seq<string>)
    ensures parts != []
  {
    if s == [] then [""]
    else
      var rest := Split(s[1..]);
      if s[0] == '|' then [""] + rest else [[s[0]] + rest[0]] + rest[1..]
  }

  /** `Time.UnixNano`: nanoseconds since 1970, in arithmetic that wraps at 64 bits. */
  function UnixNano(t: int): (n: int)
    ensures Int64.Holds(n) && (n == t <==> Int64.Holds(t))
  {
    (t + Int64.Limit()) % (2 * Int64.Limit()) - Int64.Limit()
  }

  function Encode(c: Cursor, text: RankText): string
    requires Base64Url.AllBytes(text.show(c.rank))
  {
    Base64Url.Encode(Payload(c, text))
  }

  function Payload(c: Cursor, text: RankText): (s: string)
    requires Base64Url.AllBytes(text.show(c.rank))
    ensures Base64Url.AllBytes(s)
  {
    PlainFields(c);
    Signed(UnixNano(c.updatedAt)) + "|" + Print(c.id) + "|" + text.show(c.rank)
  }

  function Decode(s: string, text: RankText): Option<Cursor> {
    match Base64Url.Decode(s)
    case None => None
    case Some(raw) =>
      var parts := Split(raw);
      if |parts| != 3 then None
      else
        match (ParseInt(parts[0], Int64), Parse(parts[1]), text.parse(parts[2]))
        case (Some(nanos), Some(id), Some(rank)) => Some(Cursor(nanos, id, rank))
        case _ => None
  }

  /** The two printed fields are bytes and hold no separator. */
  lemma PlainFields(c: Cursor)
    ensures Base64Url.AllBytes(Signed(UnixNano(c.updatedAt))) && '|' !in Signed(UnixNano(c.updatedAt))
    ensures Base64Url.AllBytes(Print(c.id)) && '|' !in Print(c.id)
  {
    var s, p := Signed(UnixNano(c.updatedAt)), Print(c.id);
    assert forall i | 0 <= i < |s| :: s[i] == '-' || IsDigit(s[i]);
    PrintIsHexOrDash(c.id);
    assert forall i | 0 <= i < |p| :: p[i] == '-' || IsHex(p[i]);
  }

  lemma {:induction false} SplitAtSeparator(a: string, b: string)
    requires '|' !in a
    ensures Split(a + "|" + b) == [a] + Split(b)
  {
    var s := a + "|" + b;
    if a == [] {
      assert s[1..] == b;
    } else {
      assert s[1..] == a[1..] + "|" + b;
      SplitAtSeparator(a[1..], b);
      assert [s[0]] + a[1..] == a;
    }
  }

  lemma {:induction false} SplitWithoutSeparator(a: string)
    requires '|' !in a
    ensures Split(a) == [a]
  {
    if a != [] {
      SplitWithoutSeparator(a[1..]);
      assert [a[0]] + a[1..] == a;
    }
  }

  lemma PayloadSplits(c: Cursor, text: RankText)
    requires text.Faithful(c.rank)
    ensures Split(Payload(c, text)) == [Signed(UnixNano(c.updatedAt)), Print(c.id), text.show(c.rank)]
  {
    var t, u, r := Signed(UnixNano(c.updatedAt)), Print(c.id), text.show(c.rank);
    PlainFields(c);
    assert Payload(c, text) == t + "|" + (u + "|" + r);
    SplitAtSeparator(t, u + "|" + r);
    SplitAtSeparator(u, r);
    SplitWithoutSeparator(r);
  }

  /** A cursor's text always decodes. It decodes to the cursor exactly when the time fits 64 bits of
      nanoseconds, and otherwise to the time it wraps to. */
  lemma DecodeInvertsEncode(c: Cursor, text: RankText)
    requires InRange(c.id) && text.Faithful(c.rank)
    ensures Decode(Encode(c, text), text) == Some(c.(updatedAt := UnixNano(c.updatedAt)))
    ensures Decode(Encode(c, text), text) == Some(c) <==> Int64.Holds(c.updatedAt)
  {
    Base64Url.DecodeInvertsEncode(Payload(c, text));
    PayloadSplits(c, text);
    ParseIntInvertsSigned(UnixNano(c.updatedAt), Int64);
    ParseInvertsPrint(c.id);
  }

  lemma {:induction false} SplitFindsAll(s: string)
    ensures forall i | 0 <= i < |Split(s)| :: '|' !in Split(s)[i]
    ensures Join(Split(s)) == s
  {
    if s != [] {
      SplitFindsAll(s[1..]);
      var rest := Split(s[1..]);
      if s[0] == '|' {
        assert Split(s)[1..] == rest;
      } else {
        assert Split(s)[1..] == rest[1..];
        JoinFirst([s[0]], rest);
      }
      assert s == [s[0]] + s[1..];
    }
  }

  /** The parts with a separator between each two. */
  function Join(parts: seq<string>): string {
    if parts == [] then "" else if |parts| == 1 then parts[0] else parts[0] + "|" + Join(parts[1..])
  }

  lemma JoinFirst(front: string, parts: seq<string>)
    requires parts != []
    ensures Join([front + parts[0]] + parts[1..]) == front + Join(parts)
  {
    assert ([front + parts[0]] + parts[1..])[1..] == parts[1..];
  }

  lemma JoinThree(t: string, u: string, r: string)
    ensures Join([t, u, r]) == t + "|" + u + "|" + r
  {
    assert [t, u, r][1..] == [u, r] && [u, r][1..] == [r];
    assert Join([u, r]) == u + "|" + r;
    assert Join([t, u, r]) == t + "|" + (u + "|" + r);
  }

  lemma SplitThree(t: string, u: string, r: string)
    requires '|' !in t && '|' !in u && '|' !in r
    ensures Split(t + "|" + u + "|" + r) == [t, u, r]
  {
    assert t + "|" + u + "|" + r == t + "|" + (u + "|" + r);
    SplitAtSeparator(t, u + "|" + r);
    SplitAtSeparator(u, r);
    SplitWithoutSeparator(r);
  }

  /** A text is a cursor exactly when it decodes to three fields with two separators between them: a
      decimal time of 64 bits, a UUID and a rank. */
  lemma DecodeReads(s: string, text: RankText, c: Cursor)
    ensures Decode(s, text) == Some(c) <==>
            exists t, u, r ::
              && '|' !in t && '|' !in u && '|' !in r && Base64Url.Decode(s) == Some(t + "|" + u + "|" + r)
              && ParseInt(t, Int64) == Some(c.updatedAt) && Parse(u) == Some(c.id) && text.parse(r) == Some(c.rank)
  {
    if Decode(s, text) == Some(c) {
      var raw := Base64Url.Decode(s).value;
      var parts := Split(raw);
      SplitFindsAll(raw);
      var t, u, r := parts[0], parts[1], parts[2];
      assert parts == [t, u, r];
      JoinThree(t, u, r);
    }
    if t, u, r :|
        && '|' !in t && '|' !in u && '|' !in r && Base64Url.Decode(s) == Some(t + "|" + u + "|" + r)
        && ParseInt(t, Int64) == Some(c.updatedAt) && Parse(u) == Some(c.id) && text.parse(r) == Some(c.rank) {
      SplitThree(t, u, r);
    }
  }
}
