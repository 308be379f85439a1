/** References to attachments inside note bodies (internal/notes/attachments.go). The pattern is
    `attachment:` and then 36 hexadecimal digits or dashes, found leftmost first and without
    overlaps. */
module References {
  import opened Wrappers
  import opened Numerals
  import opened Uuids

  const SCHEME := "attachment:"
  const MATCH_LENGTH := 47

  predicate RefChar(c: char) { IsHex(c) || c == '-' }

  predicate MatchAt(s: string, i: nat) {
    && i + MATCH_LENGTH <= |s|
    && s[i..i + 11] == SCHEME
    && forall k | i + 11 <= k < i + MATCH_LENGTH :: RefChar(s[k])
  }

  /** Where `FindAllStringSubmatch` finds a match, from position `i` on. */
  function Matches(s: string, i: nat): (found: seq<nat>)
    ensures forall m | m in found :: i <= m && MatchAt(s, m)
    decreases |s| - i
  {
    if |s| < i + MATCH_LENGTH then []
    else if MatchAt(s, i) then [i] + Matches(s, i + MATCH_LENGTH)
    else Matches(s, i + 1)
  }

  function IdAt(s: string, m: nat): Option<Uuid>
    requires m + MATCH_LENGTH <= |s|
  {
    ParseGrouped(s[m + 11..m + MATCH_LENGTH])
  }

  /** The ids that the matches from position `i` on name. */
  function IdsFrom(s: string, i: nat): set<Uuid> {
    set m | m in Matches(s, i) && IdAt(s, m).Some? :: IdAt(s, m).value
  }

  function Referenced(body: string): set<Uuid> {
    IdsFrom(body, 0)
  }

  function Named(id: Option<Uuid>): set<Uuid> {
    match id
    case Some(u) => {u}
    case None => {}
  }

  method ReferencedIDs(body: string) returns (out: set<Uuid>)
    ensures out == Referenced(body)
  {
    out := {};
    var i := 0;
    while i + MATCH_LENGTH <= |body|
      invariant out + IdsFrom(body, i) == Referenced(body)
      decreases |body| - i
    {
      ScanSteps(body, i);
      if MatchAt(body, i) {
        var id := IdAt(body, i);
        if id.Some? {
          out := out + {id.value};
        }
        i := i + MATCH_LENGTH;
      } else {
        i := i + 1;
      }
    }
    assert Matches(body, i) == [];
  }

  lemma ScanSteps(s: string, i: nat)
    requires i + MATCH_LENGTH <= |s|
    ensures IdsFrom(s, i) == if MatchAt(s, i) then Named(IdAt(s, i)) + IdsFrom(s, i + MATCH_LENGTH)
            else IdsFrom(s, i + 1)
  {
    if MatchAt(s, i) {
      assert Matches(s, i) == [i] + Matches(s, i + MATCH_LENGTH);
      assert forall m :: m in Matches(s, i) <==> m == i || m in Matches(s, i + MATCH_LENGTH);
    } else {
      assert Matches(s, i) == Matches(s, i + 1);
    }
  }

  /** Two matches overlap at most in one character: the last of the first, which is the `a` the
      second begins with. */
  lemma OverlapIsOneCharacter(s: string, i: nat, j: nat)
    requires MatchAt(s, i) && MatchAt(s, j) && i < j < i + MATCH_LENGTH
    ensures j == i + 46
  {
    SchemeSpelled(s, i);
    SchemeSpelled(s, j);
    assert forall k | i + 11 <= k < i + MATCH_LENGTH :: RefChar(s[k]);
  }

  lemma SchemeSpelled(s: string, i: nat)
    requires MatchAt(s, i)
    ensures s[i] == 'a' && s[i + 1] == 't' && s[i + 2] == 't' && s[i + 3] == 'a' && s[i + 4] == 'c'
    ensures s[i + 5] == 'h' && s[i + 6] == 'm' && s[i + 7] == 'e' && s[i + 8] == 'n' && s[i + 9] == 't'
            && s[i + 10] == ':'
  {
    assert forall k | 0 <= k < 11 :: s[i + k] == SCHEME[k] by {
      assert forall k | i <= k < i + 11 :: s[k] == s[i..i + 11][k - i];
    }
  }

  /** Exactly which occurrences of the pattern the scan reports: all but those whose first
      character ended the match reported just before. */
  lemma {:induction false} ScanMissesOnlyOverlapped(s: string, i: nat, j: nat)
    requires i <= j
    ensures j in Matches(s, i) <==> MatchAt(s, j) && !(j >= i + 46 && j - 46 in Matches(s, i))
    decreases |s| - i
  {
    if |s| < i + MATCH_LENGTH {
    } else if MatchAt(s, i) {
      assert Matches(s, i) == [i] + Matches(s, i + MATCH_LENGTH);
      if j >= i + MATCH_LENGTH {
        ScanMissesOnlyOverlapped(s, i + MATCH_LENGTH, j);
      } else if i < j && MatchAt(s, j) {
        OverlapIsOneCharacter(s, i, j);
      }
    } else if i < j {
      ScanMissesOnlyOverlapped(s, i + 1, j);
    }
  }

  /** Every id reported is written in the body. */
  lemma ReferencedIsSound(body: string, id: Uuid)
    requires id in Referenced(body)
    ensures exists j: nat :: MatchAt(body, j) && IdAt(body, j) == Some(id)
  {
    var m :| m in Matches(body, 0) && IdAt(body, m) == Some(id);
    assert MatchAt(body, m);
  }

  /** How many occurrences stand in a row that ends at `j`, each sharing one character with the next. */
  function Chain(s: string, j: nat): nat {
    if !MatchAt(s, j) then 0 else if j < 46 then 1 else 1 + Chain(s, j - 46)
  }

  /** The text alone decides what the scan reports: every other occurrence of such a row, from its first. */
  lemma {:induction false} ScanFollowsChain(s: string, j: nat)
    ensures j in Matches(s, 0) <==> Chain(s, j) % 2 == 1
    decreases j
  {
    ScanMissesOnlyOverlapped(s, 0, j);
    if j >= 46 {
      ScanFollowsChain(s, j - 46);
    }
  }

  /** The scan misses nothing exactly when no two occurrences share a character. */
  lemma NothingIsMissedWhen(s: string)
    ensures (forall j: nat | MatchAt(s, j) :: j in Matches(s, 0)) <==>
            (forall j: nat | MatchAt(s, j) :: !MatchAt(s, j + 46))
  {
    if forall j: nat | MatchAt(s, j) :: j in Matches(s, 0) {
      forall j: nat | MatchAt(s, j)
        ensures !MatchAt(s, j + 46)
      {
        ScanMissesOnlyOverlapped(s, 0, j + 46);
      }
    } else {
      var j: nat :| MatchAt(s, j) && j !in Matches(s, 0);
      ScanMissesOnlyOverlapped(s, 0, j);
      assert MatchAt(s, j - 46) && MatchAt(s, (j - 46) + 46);
    }
  }

  /** An id is reported exactly when some occurrence names it that is the first, third, … of its row. */
  lemma ReferencedExactly(body: string, id: Uuid)
    ensures id in Referenced(body) <==>
            exists j: nat :: MatchAt(body, j) && IdAt(body, j) == Some(id) && Chain(body, j) % 2 == 1
  {
    if id in Referenced(body) {
      var m :| m in Matches(body, 0) && IdAt(body, m) == Some(id);
      ScanFollowsChain(body, m);
      assert MatchAt(body, m);
    }
    if j: nat :| MatchAt(body, j) && IdAt(body, j) == Some(id) && Chain(body, j) % 2 == 1 {
      ScanFollowsChain(body, j);
    }
  }

  /** Every id written after something that is no digit or dash is reported. */
  lemma ReferencedIsComplete(body: string, j: nat)
    requires MatchAt(body, j) && (j > 0 ==> !RefChar(body[j - 1]))
    requires IdAt(body, j).Some?
    ensures IdAt(body, j).value in Referenced(body)
  {
    ScanMissesOnlyOverlapped(body, 0, j);
    assert forall m: nat | MatchAt(body, m) :: RefChar(body[m + 45]);
  }

  /** Run together, the second of two references is missed when the first ends in `a`. */
  lemma AdjacentReferenceIsMissed(x: Uuid, y: Uuid)
    requires InRange(x) && InRange(y) && x % 16 == 10
    ensures var body := SCHEME + Print(x) + SCHEME[1..] + Print(y);
            && MatchAt(body, 46) && IdAt(body, 46) == Some(y)
            && Referenced(body) == {x}
  {
    var body := SCHEME + Print(x) + SCHEME[1..] + Print(y);
    PrintIsHexOrDash(x);
    PrintIsHexOrDash(y);
    ParseInvertsPrint(x);
    ParseInvertsPrint(y);
    assert Print(x)[35] == Hex(x, 32)[31] == 'a';
    assert body[11..47] == Print(x);
    assert body[57..93] == Print(y);
    assert body[46] == Print(x)[35] == 'a';
    assert forall k | 47 <= k < 57 :: body[k] == SCHEME[k - 46];
    assert body[46..57] == SCHEME;
    assert forall k | 11 <= k < 47 :: body[k] == Print(x)[k - 11];
    assert forall k | 57 <= k < 93 :: body[k] == Print(y)[k - 57];
    assert MatchAt(body, 0) && MatchAt(body, 46);
    assert Matches(body, 47) == [];
    ScanSteps(body, 0);
  }

  /** A reference as Markdown writes it. */
  datatype Image = Image(alt: string, id: Uuid) {
    function Lead(): string { "![" + alt + "](" }

    function Text(): string { Lead() + SCHEME + Print(id) + ")" }
  }

  function Render(images: seq<Image>): string {
    if images == [] then [] else images[0].Text() + Render(images[1..])
  }

  lemma {:induction false} SkipsToMatch(s: string, i: nat, k: nat)
    requires i <= k && forall p | i <= p < k :: !MatchAt(s, p)
    ensures IdsFrom(s, i) == IdsFrom(s, k)
    decreases k - i
  {
    if i < k {
      SkipsToMatch(s, i + 1, k);
    }
  }

  lemma LeadHoldsNoMatch(s: string, i: nat, lead: string, p: nat)
    requires ':' !in lead && lead != [] && lead[|lead| - 1] == '('
    requires i + |lead| <= |s| && s[i..i + |lead|] == lead
    requires i <= p < i + |lead|
    ensures !MatchAt(s, p)
  {
    assert forall k | 0 <= k < |lead| :: s[i..i + |lead|][k] == s[i + k] == lead[k];
    if MatchAt(s, p) {
      SchemeSpelled(s, p);
      assert s[i + |lead| - 1] == '(';
      assert forall k | i <= k < i + |lead| :: s[k] == lead[k - i] != ':';
    }
  }

  lemma ImageLayout(image: Image)
    ensures var t, n := image.Text(), |image.Lead()|;
            && |t| == n + 48 && t[..n] == image.Lead() && t[n..n + 11] == SCHEME
            && t[n + 11..n + 47] == Print(image.id) && t[n + 47] == ')'
  {
    var lead := image.Lead();
    assert image.Text() == lead + (SCHEME + Print(image.id) + ")");
    var rest := SCHEME + Print(image.id) + ")";
    assert rest[..11] == SCHEME && rest[11..47] == Print(image.id);
    assert forall a, b | 0 <= a <= b <= |rest| :: image.Text()[|lead| + a..|lead| + b] == rest[a..b];
  }

  lemma SliceOfSlice(s: string, i: nat, text: string, a: nat, b: nat)
    requires a <= b <= |text| && i + |text| <= |s| && s[i..i + |text|] == text
    ensures s[i + a..i + b] == text[a..b]
  {
    assert forall k | 0 <= k < |text| :: s[i + k] == text[k];
  }

  lemma PrintedMatches(s: string, m: nat, id: Uuid)
    requires InRange(id) && m + MATCH_LENGTH <= |s|
    requires s[m..m + 11] == SCHEME && s[m + 11..m + MATCH_LENGTH] == Print(id)
    ensures MatchAt(s, m) && IdAt(s, m) == Some(id)
  {
    PrintIsHexOrDash(id);
    ParseInvertsPrint(id);
    assert forall k | m + 11 <= k < m + MATCH_LENGTH :: s[k] == s[m + 11..m + MATCH_LENGTH][k - m - 11];
  }

  lemma ImageContributes(s: string, i: nat, image: Image)
    requires ':' !in image.alt && InRange(image.id)
    requires i + |image.Text()| <= |s| && s[i..i + |image.Text()|] == image.Text()
    ensures IdsFrom(s, i) == {image.id} + IdsFrom(s, i + |image.Text()|)
  {
    var text, n := image.Text(), |image.Lead()|;
    ImageLayout(image);
    SliceOfSlice(s, i, text, 0, n);
    LeadIsSkipped(s, i, image.Lead());
    SliceOfSlice(s, i, text, n, n + 11);
    SliceOfSlice(s, i, text, n + 11, n + 47);
    PrintedMatches(s, i + n, image.id);
    ScanSteps(s, i + n);
    SliceOfSlice(s, i, text, n + 47, n + 48);
    AfterImage(s, i + n + 47);
  }

  lemma LeadIsSkipped(s: string, i: nat, lead: string)
    requires ':' !in lead && lead != [] && lead[|lead| - 1] == '('
    requires i + |lead| <= |s| && s[i..i + |lead|] == lead
    ensures IdsFrom(s, i) == IdsFrom(s, i + |lead|)
  {
    forall p | i <= p < i + |lead|
      ensures !MatchAt(s, p)
    {
      LeadHoldsNoMatch(s, i, lead, p);
    }
    SkipsToMatch(s, i, i + |lead|);
  }

  lemma AfterImage(s: string, p: nat)
    requires p < |s| && s[p..p + 1] == ")"
    ensures IdsFrom(s, p) == IdsFrom(s, p + 1)
  {
    assert s[p] == s[p..p + 1][0] == ')';
    if MatchAt(s, p) {
      SchemeSpelled(s, p);
    }
    SkipsToMatch(s, p, p + 1);
  }

  lemma IdsOfFirst(images: seq<Image>)
    requires images != []
    ensures (set m | m in images :: m.id) == {images[0].id} + set m | m in images[1..] :: m.id
  {
    assert forall m :: m in images <==> m == images[0] || m in images[1..];
  }

  lemma HeadAndRest(s: string, i: nat, head: string, rest: string)
    requires i <= |s| && s[i..] == head + rest
    ensures i + |head| <= |s| && s[i..i + |head|] == head && s[i + |head|..] == rest
  {
    assert s[i..i + |head|] == s[i..][..|head|];
    assert s[i + |head|..] == s[i..][|head|..];
  }

  lemma {:induction false} ImagesFrom(s: string, i: nat, images: seq<Image>)
    requires i <= |s| && s[i..] == Render(images)
    requires forall m | m in images :: ':' !in m.alt && InRange(m.id)
    ensures IdsFrom(s, i) == set m | m in images :: m.id
    decreases |images|
  {
    if images != [] {
      var text := images[0].Text();
      HeadAndRest(s, i, text, Render(images[1..]));
      ImageContributes(s, i, images[0]);
      assert forall m | m in images[1..] :: m in images;
      ImagesFrom(s, i + |text|, images[1..]);
      IdsOfFirst(images);
    }
  }

  /** Scanning what was rendered gives back exactly the ids that were rendered. */
  lemma ScanInvertsRender(images: seq<Image>)
    requires forall m | m in images :: ':' !in m.alt && InRange(m.id)
    ensures Referenced(Render(images)) == set m | m in images :: m.id
  {
    assert Render(images)[0..] == Render(images);
    ImagesFrom(Render(images), 0, images);
  }
}
