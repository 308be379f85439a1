/** Keyset pagination over a set of positions: the order, the cut at a cursor and the probe for one
    row more than the page (internal/store/notes_list.go). */
module Keyset {
  import opened Wrappers
  import opened Uuids

  /** A row's place in the list: its sort value, then its id. */
  datatype Pos = Pos(major: int, id: Uuid)

  /** The row comparison `(a, b) < (x, y)`. */
  predicate Below(p: Pos, q: Pos) {
    p.major < q.major || (p.major == q.major && p.id < q.id)
  }

  predicate IsTop(s: set<Pos>, m: Pos) {
    m in s && forall p | p in s :: p == m || Below(p, m)
  }

  lemma {:induction false} TopExists(s: set<Pos>)
    requires s != {}
    ensures exists m :: IsTop(s, m)
  {
    var x :| x in s;
    var rest := s - {x};
    if rest == {} {
      assert s == {x};
      assert IsTop(s, x);
    } else {
      TopExists(rest);
      var m :| IsTop(rest, m);
      var top := if Below(x, m) then m else x;
      assert s == rest + {x};
      assert IsTop(s, top);
    }
  }

  /** `order by ... desc, id desc`. */
  function Descending(s: set<Pos>): seq<Pos> {
    if s == {} then []
    else
      TopExists(s);
      var m :| IsTop(s, m);
      [m] + Descending(s - {m})
  }

  predicate StrictlyDescends(l: seq<Pos>) {
    forall i, j | 0 <= i < j < |l| :: Below(l[j], l[i])
  }

  lemma TopDescends(m: Pos, l: seq<Pos>)
    requires StrictlyDescends(l) && forall i | 0 <= i < |l| :: Below(l[i], m)
    ensures StrictlyDescends([m] + l)
  {
    var ml := [m] + l;
    assert forall i | 0 < i < |ml| :: ml[i] == l[i - 1];
  }

  /** A strictly descending list falls in its sort value, and in its ids where that stays equal. */
  lemma DescentIs(l: seq<Pos>)
    requires StrictlyDescends(l)
    ensures forall i, j | 0 <= i < j < |l| ::
              l[i].major > l[j].major || (l[i].major == l[j].major && l[i].id > l[j].id)
  {
    forall i, j | 0 <= i < j < |l|
      ensures l[i].major > l[j].major || (l[i].major == l[j].major && l[i].id > l[j].id)
    {
      assert Below(l[j], l[i]);
    }
  }

  /** The order is a list of exactly the set, each element once, greatest first. */
  lemma {:induction false} DescendingLists(s: set<Pos>)
    ensures var l := Descending(s);
            StrictlyDescends(l) && |l| == |s| && forall p :: p in l <==> p in s
  {
    if s != {} {
      TopExists(s);
      var m :| IsTop(s, m) && Descending(s) == [m] + Descending(s - {m});
      DescendingLists(s - {m});
      assert forall i | 0 <= i < |Descending(s - {m})| :: Descending(s - {m})[i] in s - {m};
      TopDescends(m, Descending(s - {m}));
    }
  }

  /** A strictly descending list is determined by its elements. */
  lemma {:induction false} DescendingIsUnique(a: seq<Pos>, b: seq<Pos>)
    requires StrictlyDescends(a) && StrictlyDescends(b)
    requires forall p :: p in a <==> p in b
    ensures a == b
  {
    assert b != [] ==> b[0] in a;
    assert a != [] ==> a[0] in b;
    if a != [] {
      assert a[0] == b[0];
      assert forall i | 0 < i < |a| :: a[i] == a[1..][i - 1];
      assert forall i | 0 < i < |b| :: b[i] == b[1..][i - 1];
      forall p
        ensures p in a[1..] <==> p in b[1..]
      {
        assert p in a <==> p == a[0] || p in a[1..];
        assert p in b <==> p == b[0] || p in b[1..];
      }
      DescendingIsUnique(a[1..], b[1..]);
    }
  }

  /** The positions a request that starts at `start` still has to return. */
  function Remaining(s: set<Pos>, start: Option<Pos>): set<Pos> {
    set p | p in s && (start.Some? ==> Below(p, start.value))
  }

  datatype Page = Page(rows: seq<Pos>, next: Option<Pos>)

  /** One page: the query asks for one row more than the limit, and cuts it off again. */
  function PageFrom(s: set<Pos>, start: Option<Pos>, limit: nat): Page
    requires limit >= 1
  {
    var l := Descending(Remaining(s, start));
    if |l| > limit then Page(l[..limit], Some(l[limit - 1])) else Page(l, None)
  }

  /** Below the `n`th of a descending list lies exactly what is not among its first `n`. */
  lemma CutSplits(l: seq<Pos>, n: nat)
    requires 1 <= n <= |l| && StrictlyDescends(l)
    ensures forall p | p in l :: Below(p, l[n - 1]) <==> p !in l[..n]
  {
    forall p | p in l
      ensures Below(p, l[n - 1]) <==> p !in l[..n]
    {
      var i :| 0 <= i < |l| && l[i] == p;
      if i < n {
        assert l[..n][i] == p;
        assert i < n - 1 ==> Below(l[n - 1], l[i]);
      } else {
        assert Below(l[i], l[n - 1]);
        assert forall k | 0 <= k < n :: l[..n][k] == l[k] && Below(l[i], l[k]);
      }
    }
  }

  lemma CutLeavesRest(s: set<Pos>, start: Option<Pos>, limit: nat)
    requires 1 <= limit < |Descending(Remaining(s, start))|
    ensures var l := Descending(Remaining(s, start));
            Remaining(s, Some(l[limit - 1])) == (set p | p in Remaining(s, start) && p !in l[..limit])
            && l[limit] in Remaining(s, Some(l[limit - 1]))
  {
    var rest := Remaining(s, start);
    var l := Descending(rest);
    DescendingLists(rest);
    CutSplits(l, limit);
    assert l[limit - 1] in l && l[limit] in l && Below(l[limit], l[limit - 1]);
    forall p
      ensures p in Remaining(s, Some(l[limit - 1])) <==> p in rest && p !in l[..limit]
    {
      if p in s && Below(p, l[limit - 1]) {
        assert p in rest;
      }
    }
  }

  /** What a page is: the greatest positions below the start, in order, and a cursor exactly when
      something is left below it. */
  lemma PageIsTopOfRemaining(s: set<Pos>, start: Option<Pos>, limit: nat)
    requires limit >= 1
    ensures var page, rest := PageFrom(s, start, limit), Remaining(s, start);
            && StrictlyDescends(page.rows)
            && (forall p | p in page.rows :: p in rest)
            && |page.rows| == (if |rest| <= limit then |rest| else limit)
            && (page.next.Some? <==> |rest| > limit)
            && (page.next.None? ==> forall p | p in rest :: p in page.rows)
            && (page.next.Some? ==>
                  && page.next.value == page.rows[limit - 1]
                  && Remaining(s, page.next) == (set p | p in rest && p !in page.rows)
                  && Remaining(s, page.next) != {})
  {
    var rest := Remaining(s, start);
    var l := Descending(rest);
    DescendingLists(rest);
    if |l| > limit {
      CutLeavesRest(s, start, limit);
      assert forall i | 0 <= i < limit :: l[..limit][i] == l[i] && l[i] in l;
    }
  }

  /** A position is on the page exactly when it remains and fewer than a page of others lie above it. */
  lemma OnPageWhen(s: set<Pos>, start: Option<Pos>, limit: nat, p: Pos)
    requires limit >= 1 && p in Remaining(s, start)
    ensures p in PageFrom(s, start, limit).rows <==> |set q | q in Remaining(s, start) && Below(p, q)| < limit
  {
    var rest := Remaining(s, start);
    var l := Descending(rest);
    DescendingLists(rest);
    var k :| 0 <= k < |l| && l[k] == p;
    AboveIsPrefix(rest, k);
    assert k < limit && k < |l| && |l| > limit ==> l[..limit][k] == p;
    if |l| > limit && p in l[..limit] {
      var i :| 0 <= i < limit && l[..limit][i] == p;
      assert i == k;
    }
  }

  lemma AboveIsPrefix(s: set<Pos>, k: nat)
    requires k < |s| && |Descending(s)| == |s|
    ensures |set q | q in s && Below(Descending(s)[k], q)| == k
  {
    var l := Descending(s);
    DescendingLists(s);
    var above := set q | q in s && Below(l[k], q);
    forall q
      ensures q in above <==> q in l[..k]
    {
      if q in above {
        var i :| 0 <= i < |l| && l[i] == q;
        assert i < k;
        assert l[..k][i] == q;
      }
      if q in l[..k] {
        var i :| 0 <= i < k && l[..k][i] == q;
        assert l[i] in l;
      }
    }
    assert above == set q | q in l[..k];
    DistinctCount(l[..k]);
  }

  lemma {:induction false} DistinctCount(l: seq<Pos>)
    requires StrictlyDescends(l)
    ensures |set q | q in l| == |l|
  {
    if l != [] {
      var front, last := l[..|l| - 1], l[|l| - 1];
      DistinctCount(front);
      assert l == front + [last];
      assert (set q | q in l) == (set q | q in front) + {last};
      assert forall i | 0 <= i < |front| :: front[i] == l[i] && Below(last, l[i]);
      assert last !in front;
    }
  }

  lemma RemainingOrder(s: set<Pos>, start: Option<Pos>, limit: nat)
    requires limit >= 1 && PageFrom(s, start, limit).next.Some?
    ensures var page := PageFrom(s, start, limit);
            Descending(Remaining(s, start)) == page.rows + Descending(Remaining(s, page.next))
    ensures |Remaining(s, PageFrom(s, start, limit).next)| == |Remaining(s, start)| - limit
  {
    var page := PageFrom(s, start, limit);
    var rest, after := Remaining(s, start), Remaining(s, page.next);
    PageIsTopOfRemaining(s, start, limit);
    DescendingLists(rest);
    DescendingLists(after);
    var l := page.rows + Descending(after);
    forall i, j | 0 <= i < j < |l|
      ensures Below(l[j], l[i])
    {
      if i < limit <= j {
        assert l[j] in after;
      }
    }
    DescendingIsUnique(Descending(rest), l);
  }

  function Concat(pages: seq<seq<Pos>>): seq<Pos> {
    if pages == [] then [] else pages[0] + Concat(pages[1..])
  }

  /** The pages a client collects by following cursors while nothing changes. */
  function Pages(s: set<Pos>, start: Option<Pos>, limit: nat): seq<seq<Pos>>
    requires limit >= 1
    decreases |Remaining(s, start)|
  {
    var page := PageFrom(s, start, limit);
    if page.next.None? then [page.rows]
    else
      RemainingOrder(s, start, limit);
      [page.rows] + Pages(s, page.next, limit)
  }

  function PagesNeeded(n: nat, limit: nat): nat
    requires limit >= 1
  {
    if n <= limit then 1 else 1 + PagesNeeded(n - limit, limit)
  }

  lemma {:induction false} PagesNeededIsCeiling(n: nat, limit: nat)
    requires limit >= 1
    ensures var k := PagesNeeded(n, limit);
            k >= 1 && n <= k * limit && (k > 1 ==> n > (k - 1) * limit)
  {
    if n > limit {
      PagesNeededIsCeiling(n - limit, limit);
      var k := PagesNeeded(n - limit, limit);
      assert (k + 1) * limit == k * limit + limit;
      assert (k - 1) * limit == k * limit - limit;
    }
  }

  /** Followed to the end, the pages are the whole list in order, each row once, in as few pages as
      the limit allows. */
  lemma {:induction false} PagesAreTheList(s: set<Pos>, start: Option<Pos>, limit: nat)
    requires limit >= 1
    ensures Concat(Pages(s, start, limit)) == Descending(Remaining(s, start))
    ensures |Pages(s, start, limit)| == PagesNeeded(|Remaining(s, start)|, limit)
    decreases |Remaining(s, start)|
  {
    var page, rest := PageFrom(s, start, limit), Remaining(s, start);
    PageIsTopOfRemaining(s, start, limit);
    if page.next.Some? {
      var later := Pages(s, page.next, limit);
      RemainingOrder(s, start, limit);
      PagesAreTheList(s, page.next, limit);
      ConcatCons(page.rows, later);
      assert Pages(s, start, limit) == [page.rows] + later;
      assert PagesNeeded(|rest|, limit) == 1 + PagesNeeded(|rest| - limit, limit);
    } else {
      assert Pages(s, start, limit) == [page.rows] && page.rows == Descending(rest);
      ConcatCons(page.rows, []);
    }
  }

  lemma ConcatCons(page: seq<Pos>, pages: seq<seq<Pos>>)
    ensures Concat([page] + pages) == page + Concat(pages)
    ensures Concat([page]) == page
  {
    assert ([page] + pages)[1..] == pages;
    assert [page][1..] == [];
    assert Concat([page]) == page + Concat([]);
  }
}
