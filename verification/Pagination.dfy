/** Keyset pagination: pages of (date, id) keys, newest first, cut by a cursor that is the
    last key listed. The visible keys may be different at every request. */
module Pagination {
  import opened Wrappers
  import opened Uuids
  import Digits

  datatype PageKey = PageKey(date: int, id: Uuid)

  datatype Page = Page(items: seq<PageKey>, next: Option<PageKey>)

  /** ORDER BY date DESC, id DESC. */
  predicate Before(a: PageKey, b: PageKey) {
    b.date < a.date || (b.date == a.date && b.id < a.id)
  }

  /** The keyset predicate of the queries. */
  predicate Past(k: PageKey, cursor: Option<PageKey>) {
    cursor.None? || k.date < cursor.value.date || (k.date == cursor.value.date && k.id < cursor.value.id)
  }

  function Rest(visible: set<PageKey>, cursor: Option<PageKey>): set<PageKey> {
    set k | k in visible && Past(k, cursor)
  }

  predicate IsFirst(k: PageKey, s: set<PageKey>) {
    k in s && forall j :: j in s && j != k ==> Before(k, j)
  }

  lemma {:induction false} FirstExists(s: set<PageKey>)
    requires s != {}
    ensures exists k :: IsFirst(k, s)
    decreases |s|
  {
    var x :| x in s;
    if s == {x} {
      assert IsFirst(x, s);
    } else {
      var rest := s - {x};
      assert s == rest + {x};
      FirstExists(rest);
      var k :| IsFirst(k, rest);
      if Before(x, k) {
        assert IsFirst(x, s);
      } else {
        assert IsFirst(k, s);
      }
    }
  }

  ghost function First(s: set<PageKey>): (k: PageKey)
    requires s != {}
    ensures IsFirst(k, s)
  {
    FirstExists(s);
    var k :| IsFirst(k, s);
    k
  }

  ghost function Sorted(s: set<PageKey>): seq<PageKey> {
    if s == {} then [] else [First(s)] + Sorted(s - {First(s)})
  }

  predicate Descending(q: seq<PageKey>) {
    forall i, j :: 0 <= i < j < |q| ==> Before(q[i], q[j])
  }

  function Elements(q: seq<PageKey>): set<PageKey> {
    set k | k in q
  }

  lemma DescendingCons(k: PageKey, q: seq<PageKey>, s: set<PageKey>)
    requires IsFirst(k, s) && Descending(q) && Elements(q) == s - {k} && |q| == |s - {k}|
    ensures Descending([k] + q) && Elements([k] + q) == s && |[k] + q| == |s|
  {
    var r := [k] + q;
    forall j
      ensures j in r <==> j in s
    {
      assert j in q <==> j in Elements(q);
    }
    forall j | 0 < j < |r|
      ensures Before(k, r[j])
    {
      assert r[j] == q[j - 1] && r[j] in Elements(q);
    }
  }

  lemma {:induction false} SortedSpec(s: set<PageKey>)
    ensures Descending(Sorted(s)) && Elements(Sorted(s)) == s && |Sorted(s)| == |s|
  {
    if s != {} {
      var k := First(s);
      SortedSpec(s - {k});
      DescendingCons(k, Sorted(s - {k}), s);
    }
  }

  /** A descending sequence is determined by its elements. */
  lemma {:induction false} SortedUnique(q: seq<PageKey>)
    requires Descending(q)
    ensures q == Sorted(Elements(q))
  {
    var s := Elements(q);
    if q == [] {
      assert s == {};
    } else {
      assert q[0] in s;
      assert IsFirst(q[0], s) by {
        forall j | j in s && j != q[0]
          ensures Before(q[0], j)
        {
          var i :| 0 <= i < |q| && q[i] == j;
        }
      }
      assert First(s) == q[0] by {
        assert IsFirst(First(s), s);
      }
      assert Elements(q[1..]) == s - {q[0]} by {
        assert forall i :: 1 <= i < |q| ==> Before(q[0], q[i]);
        assert q == [q[0]] + q[1..];
      }
      SortedUnique(q[1..]);
    }
  }

  /** LIMIT n. */
  function Take(q: seq<PageKey>, n: nat): seq<PageKey> {
    if |q| <= n then q else q[..n]
  }

  /** The limit+1 probe: a full probe means another page, and the last listed key is the
      cursor that leads to it. */
  function Cut(rows: seq<PageKey>, limit: nat): Page
    requires 1 <= limit
  {
    if |rows| == limit + 1 then Page(rows[..limit], Some(rows[limit - 1])) else Page(rows, None)
  }

  ghost function PageOf(visible: set<PageKey>, cursor: Option<PageKey>, limit: nat): Page
    requires 1 <= limit
  {
    Cut(Take(Sorted(Rest(visible, cursor)), limit + 1), limit)
  }

  lemma PageItems(visible: set<PageKey>, cursor: Option<PageKey>, limit: nat)
    requires 1 <= limit
    ensures var p := PageOf(visible, cursor, limit);
            var r := Sorted(Rest(visible, cursor));
            && Descending(r) && Elements(r) == Rest(visible, cursor) && |r| == |Rest(visible, cursor)|
            && p.items == Take(r, limit)
            && (p.next.Some? <==> |r| > limit)
            && (p.next.Some? ==> p.next.value == r[limit - 1])
  {
    SortedSpec(Rest(visible, cursor));
  }

  /** The keys after position `n` are those that come after the key at its end. */
  lemma SplitAt(r: seq<PageKey>, n: nat, k: PageKey)
    requires Descending(r) && 1 <= n <= |r|
    ensures k in r[n..] <==> k in r && Before(r[n - 1], k)
    ensures k in r[n..] <==> k in r && k !in r[..n]
  {
    if k in r {
      var i :| 0 <= i < |r| && r[i] == k;
      assert if i < n then r[..n][i] == k else r[n..][i - n] == k;
      if k in r[..n] {
        var j :| 0 <= j < n && r[..n][j] == k;
        assert r[j] == k && !Before(r[n - 1], k);
      }
      if k in r[n..] {
        var j :| 0 <= j < |r[n..]| && r[n..][j] == k;
        assert r[n + j] == k && Before(r[n - 1], r[n + j]);
      }
    }
  }

  lemma TailElements(r: seq<PageKey>, n: nat)
    requires Descending(r) && 1 <= n <= |r|
    ensures Elements(r[n..]) == Elements(r) - Elements(r[..n])
  {
    forall k
      ensures k in r[n..] <==> k in r && k !in r[..n]
    {
      SplitAt(r, n, k);
    }
  }

  /** What a page lists is past the cursor; what it leaves out is past the next cursor. */
  lemma PageSplits(visible: set<PageKey>, cursor: Option<PageKey>, limit: nat)
    requires 1 <= limit
    ensures var p := PageOf(visible, cursor, limit);
            && Descending(p.items)
            && (forall k :: k in p.items ==> k in visible && Past(k, cursor))
            && (p.next.None? ==> Elements(p.items) == Rest(visible, cursor))
            && (p.next.Some? ==> (|p.items| == limit && p.next.value == p.items[limit - 1]
                                  && Past(p.next.value, cursor)
                                  && Rest(visible, p.next) == Rest(visible, cursor) - Elements(p.items)))
  {
    PageItems(visible, cursor, limit);
    var p := PageOf(visible, cursor, limit);
    var r := Sorted(Rest(visible, cursor));
    forall k | k in p.items
      ensures k in visible && Past(k, cursor)
    {
      assert k in Elements(r);
    }
    if p.next.Some? {
      assert p.next.value in p.items;
      TailElements(r, limit);
      forall k
        ensures k in Rest(visible, p.next) <==> k in Elements(r[limit..])
      {
        SplitAt(r, limit, k);
        assert k in r <==> k in Elements(r);
        PastLater(k, p.next.value, cursor);
      }
    }
  }

  lemma PastLater(k: PageKey, c: PageKey, cursor: Option<PageKey>)
    requires Past(c, cursor)
    ensures Past(k, Some(c)) <==> Before(c, k)
    ensures Before(c, k) ==> Past(k, cursor)
  {
  }

  /* ---------- a walk while the table changes ---------- */

  /** The keys visible when a page is requested, and the limit it is requested with. */
  datatype Request = Request(visible: set<PageKey>, limit: nat)

  datatype Walk = Walk(items: seq<PageKey>, complete: bool)

  predicate Requests(reqs: seq<Request>) {
    forall i :: 0 <= i < |reqs| ==> 1 <= reqs[i].limit
  }

  /** Follow the cursor from page to page until a page has no next one. */
  ghost function Follow(reqs: seq<Request>, cursor: Option<PageKey>): Walk
    requires Requests(reqs)
  {
    if reqs == [] then Walk([], false) else
      var p := PageOf(reqs[0].visible, cursor, reqs[0].limit);
      if p.next.None? then Walk(p.items, true) else
        var w := Follow(reqs[1..], p.next);
        Walk(p.items + w.items, w.complete)
  }

  /** Whatever happens to the table, a walk lists keys in strictly descending order, so
      none twice, and only keys that were visible at one of its requests. */
  lemma {:induction false} WalkDescends(reqs: seq<Request>, cursor: Option<PageKey>)
    requires Requests(reqs)
    ensures var q := Follow(reqs, cursor).items;
            && Descending(q)
            && (forall k :: k in q ==> Past(k, cursor))
            && (forall k :: k in q ==> exists i :: 0 <= i < |reqs| && k in reqs[i].visible)
  {
    if reqs != [] {
      var p := PageOf(reqs[0].visible, cursor, reqs[0].limit);
      PageSplits(reqs[0].visible, cursor, reqs[0].limit);
      if p.next.Some? {
        WalkDescends(reqs[1..], p.next);
        var tail := Follow(reqs[1..], p.next).items;
        hide PageOf;
        DescendingJoin(p.items, tail, p.next.value);
        forall k | k in p.items + tail
          ensures Past(k, cursor) && exists i :: 0 <= i < |reqs| && k in reqs[i].visible
        {
          if k in tail {
            PastLater(k, p.next.value, cursor);
            var i :| 0 <= i < |reqs[1..]| && k in reqs[1..][i].visible;
            assert k in reqs[i + 1].visible;
          } else {
            assert k in p.items && k in reqs[0].visible;
          }
        }
      }
    }
  }

  lemma DescendingJoin(a: seq<PageKey>, b: seq<PageKey>, c: PageKey)
    requires Descending(a) && Descending(b) && a != [] && a[|a| - 1] == c
    requires forall k :: k in b ==> Past(k, Some(c))
    ensures Descending(a + b)
  {
    var q := a + b;
    forall i, j | 0 <= i < j < |q|
      ensures Before(q[i], q[j])
    {
      if i < |a| <= j {
        assert q[j] == b[j - |a|] && q[j] in b;
        assert i == |a| - 1 || Before(a[i], c);
      } else if j < |a| {
        assert Before(a[i], a[j]);
      } else {
        assert Before(b[i - |a|], b[j - |a|]);
      }
    }
  }

  lemma {:induction false} StableKeyListed(reqs: seq<Request>, cursor: Option<PageKey>, k: PageKey)
    requires Requests(reqs) && Follow(reqs, cursor).complete
    requires Past(k, cursor) && forall i :: 0 <= i < |reqs| ==> k in reqs[i].visible
    ensures k in Follow(reqs, cursor).items
  {
    var p := PageOf(reqs[0].visible, cursor, reqs[0].limit);
    PageSplits(reqs[0].visible, cursor, reqs[0].limit);
    assert k in Rest(reqs[0].visible, cursor);
    if p.next.None? {
      assert k in Elements(p.items);
    } else if k !in p.items {
      assert k in Rest(reqs[0].visible, p.next);
      StableKeyListed(reqs[1..], p.next, k);
    }
  }

  /** Stability: a key that stays visible during a complete walk is listed exactly once,
      whatever else is inserted, deleted or edited between the pages. */
  lemma StableKeyListedOnce(reqs: seq<Request>, k: PageKey)
    requires Requests(reqs) && Follow(reqs, None).complete
    requires forall i :: 0 <= i < |reqs| ==> k in reqs[i].visible
    ensures var q := Follow(reqs, None).items;
            exists i :: 0 <= i < |q| && q[i] == k && forall j :: 0 <= j < |q| && q[j] == k ==> j == i
  {
    StableKeyListed(reqs, None, k);
    WalkDescends(reqs, None);
    var q := Follow(reqs, None).items;
    var i :| 0 <= i < |q| && q[i] == k;
    forall j | 0 <= j < |q| && q[j] == k
      ensures j == i
    {
      assert !Before(k, k);
    }
  }

  /** On a fixed table a walk with any valid limits ends, and lists every visible key in
      order. */
  lemma FixedTableWalk(visible: set<PageKey>, reqs: seq<Request>)
    requires Requests(reqs) && |reqs| > |visible|
    requires forall i :: 0 <= i < |reqs| ==> reqs[i].visible == visible
    ensures Follow(reqs, None) == Walk(Sorted(visible), true)
  {
    assert Rest(visible, None) == visible;
    WalkEnds(visible, reqs, None);
    var w := Follow(reqs, None);
    assert Descending(w.items) && forall k :: k in w.items ==> k in visible by {
      WalkDescends(reqs, None);
    }
    forall k | k in visible
      ensures k in w.items
    {
      StableKeyListed(reqs, None, k);
    }
    SortedFrom(w.items, visible);
  }

  lemma SortedFrom(q: seq<PageKey>, s: set<PageKey>)
    requires Descending(q) && forall k :: k in q <==> k in s
    ensures q == Sorted(s)
  {
    SortedUnique(q);
    assert Elements(q) == s;
  }

  lemma {:induction false} WalkEnds(visible: set<PageKey>, reqs: seq<Request>, cursor: Option<PageKey>)
    requires Requests(reqs) && |reqs| > |Rest(visible, cursor)|
    requires forall i :: 0 <= i < |reqs| ==> reqs[i].visible == visible
    ensures Follow(reqs, cursor).complete
  {
    var p := PageOf(visible, cursor, reqs[0].limit);
    if p.next.Some? {
      PageShrinks(visible, cursor, reqs[0].limit);
      WalkEnds(visible, reqs[1..], p.next);
    }
  }

  /* ---------- a walk over a fixed table ---------- */

  ghost function Pages(visible: set<PageKey>, cursor: Option<PageKey>, limit: nat): seq<seq<PageKey>>
    requires 1 <= limit
    decreases |Rest(visible, cursor)|
  {
    var p := PageOf(visible, cursor, limit);
    if p.next.None? then [p.items] else
      PageShrinks(visible, cursor, limit);
      [p.items] + Pages(visible, p.next, limit)
  }

  lemma PageShrinks(visible: set<PageKey>, cursor: Option<PageKey>, limit: nat)
    requires 1 <= limit && PageOf(visible, cursor, limit).next.Some?
    ensures var next := PageOf(visible, cursor, limit).next;
            |Rest(visible, next)| == |Rest(visible, cursor)| - limit
  {
    PageSplits(visible, cursor, limit);
    PageItems(visible, cursor, limit);
    var p := PageOf(visible, cursor, limit);
    SortedUnique(p.items);
    SortedSpec(Elements(p.items));
    assert Elements(p.items) <= Rest(visible, cursor);
  }

  function Flatten(pages: seq<seq<PageKey>>): seq<PageKey> {
    if pages == [] then [] else pages[0] + Flatten(pages[1..])
  }

  lemma FlattenCons(page: seq<PageKey>, pages: seq<seq<PageKey>>)
    ensures Flatten([page] + pages) == page + Flatten(pages)
  {
    assert ([page] + pages)[1..] == pages;
  }

  function PageCount(n: nat, limit: nat): nat
    requires 1 <= limit
  {
    if n == 0 then 1 else Digits.Split(n - 1, limit).0 + 1
  }

  lemma PageCountStep(n: nat, limit: nat)
    requires 1 <= limit < n
    ensures PageCount(n, limit) == 1 + PageCount(n - limit, limit)
  {
    var s := Digits.Split(n - limit - 1, limit);
    assert (s.0 + 1) * limit == s.0 * limit + limit;
    Digits.SplitUnique(n - 1, limit, s.0 + 1, s.1);
  }

  lemma PageCountSmall(n: nat, limit: nat)
    requires 1 <= limit && n <= limit
    ensures PageCount(n, limit) == 1
  {
    if n > 0 {
      Digits.SplitUnique(n - 1, limit, 0, n - 1);
    }
  }

  lemma TailSorted(visible: set<PageKey>, cursor: Option<PageKey>, limit: nat)
    requires 1 <= limit && PageOf(visible, cursor, limit).next.Some?
    ensures var r := Sorted(Rest(visible, cursor));
            var p := PageOf(visible, cursor, limit);
            |r| > limit && p.items == r[..limit] && Sorted(Rest(visible, p.next)) == r[limit..]
  {
    PageItems(visible, cursor, limit);
    PageSplits(visible, cursor, limit);
    var r := Sorted(Rest(visible, cursor));
    TailElements(r, limit);
    SortedUnique(r[limit..]);
  }

  lemma PageSizes(visible: set<PageKey>, cursor: Option<PageKey>, limit: nat)
    requires 1 <= limit
    ensures var p := PageOf(visible, cursor, limit);
            if p.next.Some? then |p.items| == limit < |Rest(visible, cursor)|
            else |p.items| == |Rest(visible, cursor)| <= limit && p.items == Sorted(Rest(visible, cursor))
  {
    PageItems(visible, cursor, limit);
  }

  lemma {:induction false} PagesContents(visible: set<PageKey>, cursor: Option<PageKey>, limit: nat)
    requires 1 <= limit
    ensures Flatten(Pages(visible, cursor, limit)) == Sorted(Rest(visible, cursor))
    decreases |Rest(visible, cursor)|
  {
    hide PageOf, Sorted, Rest;
    var p := PageOf(visible, cursor, limit);
    if p.next.None? {
      PageSizes(visible, cursor, limit);
      FlattenCons(p.items, []);
      assert p.items + [] == p.items;
    } else {
      PageShrinks(visible, cursor, limit);
      PagesContents(visible, p.next, limit);
      TailSorted(visible, cursor, limit);
      FlattenCons(p.items, Pages(visible, p.next, limit));
    }
  }

  lemma {:induction false} PagesShape(visible: set<PageKey>, cursor: Option<PageKey>, limit: nat)
    requires 1 <= limit
    ensures var pages := Pages(visible, cursor, limit);
            && |pages| == PageCount(|Rest(visible, cursor)|, limit)
            && (forall i :: 0 <= i < |pages| - 1 ==> |pages[i]| == limit)
            && |pages[|pages| - 1]| <= limit
    decreases |Rest(visible, cursor)|
  {
    hide PageOf, Rest, PageCount;
    var p := PageOf(visible, cursor, limit);
    PageSizes(visible, cursor, limit);
    if p.next.None? {
      PageCountSmall(|Rest(visible, cursor)|, limit);
    } else {
      PageShrinks(visible, cursor, limit);
      PagesShape(visible, p.next, limit);
      PageCountStep(|Rest(visible, cursor)|, limit);
    }
  }

  /** Just as many pages as the keys fill, and one when there are none. */
  lemma PageCountExact(n: nat, limit: nat)
    requires 1 <= limit
    ensures var pages := PageCount(n, limit);
            if n == 0 then pages == 1 else pages >= 1 && (pages - 1) * limit < n <= pages * limit
  {
    if n > 0 {
      var s := Digits.Split(n - 1, limit);
      assert (s.0 + 1) * limit == s.0 * limit + limit;
    }
  }

  /** Completeness: on a fixed table the pages of a walk, laid end to end, are the visible
      keys in order; every page but the last is full, and there are max(1, ceil(n/limit))
      of them. That `Pages` is defined at all says that the walk ends. */
  lemma WalkComplete(visible: set<PageKey>, limit: nat)
    requires 1 <= limit
    ensures var pages := Pages(visible, None, limit);
            && Flatten(pages) == Sorted(visible)
            && |pages| == PageCount(|visible|, limit)
            && (if visible == {} then |pages| == 1 else (|pages| - 1) * limit < |visible| <= |pages| * limit)
            && (forall i :: 0 <= i < |pages| - 1 ==> |pages[i]| == limit)
            && |pages[|pages| - 1]| <= limit
  {
    assert Rest(visible, None) == visible;
    PagesContents(visible, None, limit);
    PagesShape(visible, None, limit);
    PageCountExact(|visible|, limit);
  }
}
