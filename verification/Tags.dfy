/** Tag normalisation (internal/notes/handler.go). */
module Tags {
  import opened Wrappers
  import opened Text

  const MAX_TAGS := 32
  const MAX_TAG_LENGTH := 64

  datatype TagError = TagTooLong | TooManyTags

  /** What the proofs need of the rune mapping behind `strings.ToLower`. */
  ghost predicate CaseMap(lower: char -> char) {
    forall c :: lower(lower(c)) == lower(c) && (IsSpace(lower(c)) ==> IsSpace(c))
  }

  function Clean(t: string, lower: char -> char): string {
    Map(lower, TrimSpace(t))
  }

  /** The cleaned tags that are not blank, in the order given. */
  function Kept(tags: seq<string>, lower: char -> char): seq<string> {
    if tags == [] then []
    else
      var t := Clean(tags[|tags| - 1], lower);
      Kept(tags[..|tags| - 1], lower) + if t == "" then [] else [t]
  }

  /** The elements of `ts`, each where it occurs first. */
  function Distinct(ts: seq<string>): seq<string> {
    if ts == [] then []
    else
      var front := Distinct(ts[..|ts| - 1]);
      if ts[|ts| - 1] in front then front else front + [ts[|ts| - 1]]
  }

  predicate AllShort(ts: seq<string>) {
    forall t | t in ts :: ByteLength(t) <= MAX_TAG_LENGTH
  }

  function Normalized(tags: seq<string>, lower: char -> char): Result<seq<string>, TagError> {
    var kept := Kept(tags, lower);
    if !AllShort(kept) then Err(TagTooLong)
    else if |Distinct(kept)| > MAX_TAGS then Err(TooManyTags)
    else Ok(Distinct(kept))
  }

  lemma KeptStep(tags: seq<string>, i: nat, lower: char -> char)
    requires i < |tags|
    ensures var t := Clean(tags[i], lower);
            Kept(tags[..i + 1], lower) == if t == "" then Kept(tags[..i], lower) else Kept(tags[..i], lower) + [t]
  {
    assert tags[..i + 1][..i] == tags[..i];
  }

  /** One pass of the loop over a tag that is neither blank nor too long. */
  lemma PassStep(kept: seq<string>, t: string)
    requires AllShort(kept) && ByteLength(t) <= MAX_TAG_LENGTH
    ensures AllShort(kept + [t])
    ensures Distinct(kept + [t]) == if t in Distinct(kept) then Distinct(kept) else Distinct(kept) + [t]
  {
    assert (kept + [t])[..|kept|] == kept;
  }

  lemma TooLongIsRefused(tags: seq<string>, i: nat, lower: char -> char)
    requires i < |tags| && Clean(tags[i], lower) != "" && ByteLength(Clean(tags[i], lower)) > MAX_TAG_LENGTH
    ensures Normalized(tags, lower) == Err(TagTooLong)
  {
    KeptStep(tags, i, lower);
    KeptGrows(tags, i + 1, lower);
    assert Clean(tags[i], lower) in Kept(tags[..i + 1], lower);
  }

  method NormalizeTags(tags: seq<string>, lower: char -> char) returns (r: Result<seq<string>, TagError>)
    ensures r == Normalized(tags, lower)
  {
    var out: seq<string> := [];
    var seen: set<string> := {};
    ghost var kept: seq<string> := [];
    for i := 0 to |tags|
      invariant kept == Kept(tags[..i], lower) && AllShort(kept)
      invariant out == Distinct(kept)
      invariant forall t :: t in seen <==> t in out
    {
      KeptStep(tags, i, lower);
      var t := Clean(tags[i], lower);
      if t == "" {
        continue;
      }
      if ByteLength(t) > MAX_TAG_LENGTH {
        TooLongIsRefused(tags, i, lower);
        return Err(TagTooLong);
      }
      PassStep(kept, t);
      kept := kept + [t];
      if t in seen {
        continue;
      }
      seen := seen + {t};
      out := out + [t];
    }
    assert tags[..|tags|] == tags;
    r := if |out| > MAX_TAGS then Err(TooManyTags) else Ok(out);
  }

  lemma {:induction false} KeptGrows(tags: seq<string>, n: nat, lower: char -> char)
    requires n <= |tags|
    ensures forall t | t in Kept(tags[..n], lower) :: t in Kept(tags, lower)
    decreases |tags| - n
  {
    if n < |tags| {
      assert tags[..n + 1][..n] == tags[..n];
      KeptGrows(tags, n + 1, lower);
    } else {
      assert tags[..n] == tags;
    }
  }

  lemma {:induction false} KeptAreClean(tags: seq<string>, lower: char -> char)
    ensures forall t :: t in Kept(tags, lower) <==> t != "" && exists i | 0 <= i < |tags| :: t == Clean(tags[i], lower)
  {
    if tags != [] {
      var n := |tags| - 1;
      KeptAreClean(tags[..n], lower);
      assert tags == tags[..n] + [tags[n]];
      forall t
        ensures t in Kept(tags, lower) <==> t != "" && exists i | 0 <= i < |tags| :: t == Clean(tags[i], lower)
      {
        if t in Kept(tags[..n], lower) {
          var i :| 0 <= i < n && t == Clean(tags[..n][i], lower);
          assert t == Clean(tags[i], lower);
        }
      }
    }
  }

  predicate NoDuplicates(ts: seq<string>) {
    forall i, j | 0 <= i < j < |ts| :: ts[i] != ts[j]
  }

  /** The index of the first occurrence of `t`. */
  function FirstAt(ts: seq<string>, t: string): (k: nat)
    requires t in ts
    ensures k < |ts| && ts[k] == t && t !in ts[..k]
  {
    if ts[0] == t then 0
    else
      assert ts == [ts[0]] + ts[1..];
      var k := FirstAt(ts[1..], t);
      assert ts[..k + 1] == [ts[0]] + ts[1..][..k];
      k + 1
  }

  lemma FirstAtOf(ts: seq<string>, t: string, k: nat)
    requires k < |ts| && ts[k] == t && t !in ts[..k]
    ensures t in ts && FirstAt(ts, t) == k
  {
    var f := FirstAt(ts, t);
    assert forall i | 0 <= i < k :: ts[..k][i] == ts[i];
    assert forall i | 0 <= i < f :: ts[..f][i] == ts[i];
  }

  /** The elements of `d` stand in the order in which `ts` first has them. */
  predicate Ordered(d: seq<string>, ts: seq<string>)
    requires forall t | t in d :: t in ts
  {
    forall i, j | 0 <= i < j < |d| :: FirstAt(ts, d[i]) < FirstAt(ts, d[j])
  }

  lemma {:induction false} DistinctKeepsFirsts(ts: seq<string>)
    ensures NoDuplicates(Distinct(ts))
    ensures forall t :: t in Distinct(ts) <==> t in ts
    ensures Ordered(Distinct(ts), ts)
  {
    if ts != [] {
      var n := |ts| - 1;
      var front, last := ts[..n], ts[n];
      DistinctKeepsFirsts(front);
      assert ts == front + [last];
      forall t | t in front
        ensures FirstAt(ts, t) == FirstAt(front, t)
      {
        var k := FirstAt(front, t);
        assert ts[..k] == front[..k];
        FirstAtOf(ts, t, k);
      }
      if last !in front {
        FirstAtOf(ts, last, n);
        assert Distinct(ts) == Distinct(front) + [last];
      }
    }
  }

  /** What a caller gets from a successful normalisation: the distinct, non-blank, trimmed and
      lower-cased inputs, in the order of their first occurrence and within both limits. */
  lemma NormalizedTagsAre(tags: seq<string>, lower: char -> char)
    ensures var r := Normalized(tags, lower);
            var kept := Kept(tags, lower);
            (r.Ok? ==>
               && NoDuplicates(r.value)
               && |r.value| <= MAX_TAGS && AllShort(r.value)
               && (forall t :: t in r.value <==> t != "" && exists i | 0 <= i < |tags| :: t == Clean(tags[i], lower))
               && (forall t | t in r.value :: t in kept)
               && Ordered(r.value, kept))
  {
    KeptAreClean(tags, lower);
    DistinctKeepsFirsts(Kept(tags, lower));
  }

  lemma CleanIsSettled(t: string, lower: char -> char)
    requires CaseMap(lower)
    ensures Clean(Clean(t, lower), lower) == Clean(t, lower)
  {
    TrimSettles(t, IsSpace);
    TrimSettles(Clean(t, lower), IsSpace);
    assert Map(lower, Clean(t, lower)) == Clean(t, lower);
  }

  lemma {:induction false} SettledIsKept(ts: seq<string>, lower: char -> char)
    requires forall i | 0 <= i < |ts| :: ts[i] != "" && Clean(ts[i], lower) == ts[i]
    ensures Kept(ts, lower) == ts
  {
    if ts != [] {
      SettledIsKept(ts[..|ts| - 1], lower);
      assert ts == ts[..|ts| - 1] + [ts[|ts| - 1]];
    }
  }

  lemma {:induction false} DistinctIsSettled(ts: seq<string>)
    requires NoDuplicates(ts)
    ensures Distinct(ts) == ts
  {
    if ts != [] {
      DistinctIsSettled(ts[..|ts| - 1]);
      assert ts == ts[..|ts| - 1] + [ts[|ts| - 1]];
    }
  }

  lemma NormalizedAreSettled(tags: seq<string>, lower: char -> char)
    requires CaseMap(lower) && Normalized(tags, lower).Ok?
    ensures var out := Normalized(tags, lower).value;
            forall i | 0 <= i < |out| :: out[i] != "" && Clean(out[i], lower) == out[i]
  {
    NormalizedTagsAre(tags, lower);
    var out := Normalized(tags, lower).value;
    forall i | 0 <= i < |out|
      ensures out[i] != "" && Clean(out[i], lower) == out[i]
    {
      assert out[i] in out;
      var k :| 0 <= k < |tags| && out[i] == Clean(tags[k], lower);
      CleanIsSettled(tags[k], lower);
    }
  }

  /** Normalising normalised tags changes nothing. */
  lemma NormalizeIsIdempotent(tags: seq<string>, lower: char -> char)
    requires CaseMap(lower)
    ensures Normalized(tags, lower).Ok? ==>
              Normalized(Normalized(tags, lower).value, lower) == Normalized(tags, lower)
  {
    if Normalized(tags, lower).Ok? {
      var out := Normalized(tags, lower).value;
      NormalizedAreSettled(tags, lower);
      SettledIsKept(out, lower);
      DistinctKeepsFirsts(Kept(tags, lower));
      DistinctIsSettled(out);
      assert AllShort(out);
    }
  }

  /** White space around a tag and the case of its letters do not matter; what is inside is kept. */
  lemma PaddingAndCaseAreIgnored(left: string, core: string, right: string, lower: char -> char)
    requires (forall c | c in left :: IsSpace(c)) && (forall c | c in right :: IsSpace(c))
    requires core != "" && !IsSpace(core[0]) && !IsSpace(core[|core| - 1])
    ensures |Clean(left + core + right, lower)| == |core|
    ensures forall i | 0 <= i < |core| :: Clean(left + core + right, lower)[i] == lower(core[i])
  {
    TrimStripsPadding(left, core, right, IsSpace);
  }
}
