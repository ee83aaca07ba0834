/** The ordering step of merge_chunk_results (app.py:92): Python's `sorted(pairs, key=lambda x: x[0])`,
    a stable sort of (start page, markdown) pairs by start page. */
module PageOrder {

  /** One collected piece of markdown with the start page of its chunk (app.py:88). */
  datatype Entry = Entry(startPage: nat, content: string)

  predicate Sorted(s: seq<Entry>) {
    forall i, j :: 0 <= i < j < |s| ==> s[i].startPage <= s[j].startPage
  }

  /** The entries of `s` with start page p, in their order in `s`. */
  function WithStart(s: seq<Entry>, p: nat): seq<Entry>
  {
    if |s| == 0 then []
    else if s[|s| - 1].startPage == p then WithStart(s[..|s| - 1], p) + [s[|s| - 1]]
    else WithStart(s[..|s| - 1], p)
  }

  /** Inserts x after every entry whose start page is at most x's, keeping x behind its equals. */
  function Insert(s: seq<Entry>, x: Entry): seq<Entry>
  {
    if |s| == 0 || s[|s| - 1].startPage <= x.startPage then s + [x]
    else Insert(s[..|s| - 1], x) + [s[|s| - 1]]
  }

  /** `sorted(s, key=start page)`: insertion sort, each new entry going behind its equals. */
  function SortByStartPage(s: seq<Entry>): seq<Entry>
  {
    if |s| == 0 then []
    else Insert(SortByStartPage(s[..|s| - 1]), s[|s| - 1])
  }

  /** Every entry of s starts no later than page b. */
  predicate AllAtMost(s: seq<Entry>, b: nat) {
    forall i :: 0 <= i < |s| ==> s[i].startPage <= b
  }

  /** Inserting adds exactly x. */
  lemma {:induction false} InsertPermutes(s: seq<Entry>, x: Entry)
    ensures multiset(Insert(s, x)) == multiset(s) + multiset{x}
  {
    if !(|s| == 0 || s[|s| - 1].startPage <= x.startPage) {
      var init := s[..|s| - 1];
      InsertPermutes(init, x);
      assert s == init + [s[|s| - 1]];
    }
  }

  /** Inserting an entry on a page at most b into entries on pages at most b stays at most b. */
  lemma {:induction false} InsertAtMost(s: seq<Entry>, x: Entry, b: nat)
    requires AllAtMost(s, b) && x.startPage <= b
    ensures AllAtMost(Insert(s, x), b)
  {
    if !(|s| == 0 || s[|s| - 1].startPage <= x.startPage) {
      var init := s[..|s| - 1];
      assert AllAtMost(init, b);
      InsertAtMost(init, x, b);
    }
  }

  /** Inserting into a sorted sequence keeps it sorted. */
  lemma {:induction false} InsertSorted(s: seq<Entry>, x: Entry)
    requires Sorted(s)
    ensures Sorted(Insert(s, x))
  {
    if |s| > 0 && s[|s| - 1].startPage > x.startPage {
      var init, last := s[..|s| - 1], s[|s| - 1];
      assert Sorted(init);
      InsertSorted(init, x);
      assert AllAtMost(init, last.startPage);
      InsertAtMost(init, x, last.startPage);
    } else if |s| > 0 {
      assert AllAtMost(s, s[|s| - 1].startPage);
    }
  }

  /** The result of the sort is ordered by start page. */
  lemma {:induction false} SortSorted(s: seq<Entry>)
    ensures Sorted(SortByStartPage(s))
  {
    if |s| > 0 {
      SortSorted(s[..|s| - 1]);
      InsertSorted(SortByStartPage(s[..|s| - 1]), s[|s| - 1]);
    }
  }

  /** The sort is a permutation: it neither loses nor duplicates an entry. */
  lemma {:induction false} SortPermutes(s: seq<Entry>)
    ensures multiset(SortByStartPage(s)) == multiset(s)
  {
    if |s| > 0 {
      var init := s[..|s| - 1];
      SortPermutes(init);
      InsertPermutes(SortByStartPage(init), s[|s| - 1]);
      assert s == init + [s[|s| - 1]];
    }
  }

  lemma WithStartSnoc(s: seq<Entry>, x: Entry, p: nat)
    ensures WithStart(s + [x], p) == if x.startPage == p then WithStart(s, p) + [x] else WithStart(s, p)
  {
    assert (s + [x])[..|s|] == s;
  }

  /** Inserting x adds x to the entries of its own start page, at the end, and leaves every
      other start page's entries alone. */
  lemma {:induction false} InsertWithStart(s: seq<Entry>, x: Entry, p: nat)
    ensures WithStart(Insert(s, x), p) == if x.startPage == p then WithStart(s, p) + [x] else WithStart(s, p)
  {
    if |s| == 0 || s[|s| - 1].startPage <= x.startPage {
      WithStartSnoc(s, x, p);
    } else {
      var init, last := s[..|s| - 1], s[|s| - 1];
      InsertWithStart(init, x, p);
      WithStartSnoc(Insert(init, x), last, p);
      assert s == init + [last];
      WithStartSnoc(init, last, p);
    }
  }

  /** Stability: for every start page, the entries with that page keep their relative order. */
  lemma {:induction false} SortIsStable(s: seq<Entry>, p: nat)
    ensures WithStart(SortByStartPage(s), p) == WithStart(s, p)
  {
    if |s| > 0 {
      var init, last := s[..|s| - 1], s[|s| - 1];
      SortIsStable(init, p);
      InsertWithStart(SortByStartPage(init), last, p);
      assert s == init + [last];
      WithStartSnoc(init, last, p);
    }
  }

  /** Some entry has start page p iff the entries with start page p are not empty. */
  lemma {:induction false} WithStartNonEmpty(s: seq<Entry>, p: nat)
    ensures |WithStart(s, p)| > 0 <==> exists i :: 0 <= i < |s| && s[i].startPage == p
  {
    if |s| > 0 {
      var init := s[..|s| - 1];
      WithStartNonEmpty(init, p);
      if exists i :: 0 <= i < |init| && init[i].startPage == p {
        var i :| 0 <= i < |init| && init[i].startPage == p;
        assert s[i] == init[i];
      }
      if exists i :: 0 <= i < |s| && s[i].startPage == p {
        var i :| 0 <= i < |s| && s[i].startPage == p;
        if i < |s| - 1 {
          assert init[i] == s[i];
        }
      }
    }
  }

  /** Dropping the last entry keeps a sequence sorted. */
  lemma SortedInit(s: seq<Entry>)
    requires Sorted(s) && |s| > 0
    ensures Sorted(s[..|s| - 1])
  {
  }

  /** A page held by some entry of s has entries in s; an empty sequence has none. */
  lemma HasPage(s: seq<Entry>, i: nat)
    requires i < |s|
    ensures |WithStart(s, s[i].startPage)| > 0
  {
    WithStartNonEmpty(s, s[i].startPage);
  }

  /** If s has entries with page p, some entry of s is on page p. */
  lemma PageHeld(s: seq<Entry>, p: nat) returns (i: nat)
    requires |WithStart(s, p)| > 0
    ensures i < |s| && s[i].startPage == p
  {
    WithStartNonEmpty(s, p);
    i :| 0 <= i < |s| && s[i].startPage == p;
  }

  /** In a sorted sequence no entry is on a later page than the last one. */
  lemma PageAtMostLast(s: seq<Entry>, p: nat)
    requires Sorted(s) && |WithStart(s, p)| > 0
    ensures |s| > 0 && p <= s[|s| - 1].startPage
  {
    var i := PageHeld(s, p);
  }

  /** Sorted sequences that agree on the entries of each other's last page end on the same page. */
  lemma LastPagesAgree(a: seq<Entry>, b: seq<Entry>)
    requires Sorted(a) && Sorted(b) && |a| > 0 && |b| > 0
    requires WithStart(a, a[|a| - 1].startPage) == WithStart(b, a[|a| - 1].startPage)
    requires WithStart(a, b[|b| - 1].startPage) == WithStart(b, b[|b| - 1].startPage)
    ensures a[|a| - 1].startPage == b[|b| - 1].startPage
  {
    HasPage(a, |a| - 1);
    PageAtMostLast(b, a[|a| - 1].startPage);
    HasPage(b, |b| - 1);
    PageAtMostLast(a, b[|b| - 1].startPage);
  }

  /** Sequences with the same entries per page whose last entries share a page have the same last
      entry. */
  lemma SameLast(a: seq<Entry>, b: seq<Entry>)
    requires |a| > 0 && |b| > 0 && a[|a| - 1].startPage == b[|b| - 1].startPage
    requires WithStart(a, a[|a| - 1].startPage) == WithStart(b, a[|a| - 1].startPage)
    ensures a[|a| - 1] == b[|b| - 1]
  {
    var wa := WithStart(a, a[|a| - 1].startPage);
    assert wa[|wa| - 1] == a[|a| - 1];
  }

  /** ... and what precedes the last entries again has the same entries on every page. */
  lemma SameInit(a: seq<Entry>, b: seq<Entry>, p: nat)
    requires |a| > 0 && |b| > 0 && a[|a| - 1] == b[|b| - 1]
    requires WithStart(a, p) == WithStart(b, p)
    ensures WithStart(a[..|a| - 1], p) == WithStart(b[..|b| - 1], p)
  {
    var a', b', l := a[..|a| - 1], b[..|b| - 1], a[|a| - 1];
    var w := WithStart(a, p);
    if l.startPage == p {
      assert w == WithStart(a', p) + [l];
      assert w == WithStart(b', p) + [l];
      assert WithStart(a', p) == w[..|w| - 1] == WithStart(b', p);
    }
  }

  /** Two sorted sequences with the same entries per start page, in the same order, are equal. */
  lemma {:induction false} SortedUnique(a: seq<Entry>, b: seq<Entry>)
    requires Sorted(a) && Sorted(b)
    requires forall p :: WithStart(a, p) == WithStart(b, p)
    ensures a == b
    decreases |a| + |b|
  {
    if |a| > 0 && |b| > 0 {
      var a', b' := a[..|a| - 1], b[..|b| - 1];
      assert WithStart(a, a[|a| - 1].startPage) == WithStart(b, a[|a| - 1].startPage);
      assert WithStart(a, b[|b| - 1].startPage) == WithStart(b, b[|b| - 1].startPage);
      LastPagesAgree(a, b);
      SameLast(a, b);
      forall p
        ensures WithStart(a', p) == WithStart(b', p)
      {
        SameInit(a, b, p);
      }
      SortedInit(a);
      SortedInit(b);
      SortedUnique(a', b');
      assert a == a' + [a[|a| - 1]];
      assert b == b' + [b[|b| - 1]];
    } else if |a| > 0 {
      HasPage(a, 0);
      assert false;
    } else if |b| > 0 {
      HasPage(b, 0);
      assert false;
    }
  }

  /** What Python promises of `sorted` with a key: r is ordered by start page, and for every start
      page r holds the entries of s with that page in their original order. */
  ghost predicate IsStableSortOf(r: seq<Entry>, s: seq<Entry>) {
    Sorted(r) && forall p :: WithStart(r, p) == WithStart(s, p)
  }

  /** The sort meets the promise. */
  lemma SortIsStableSort(s: seq<Entry>)
    ensures IsStableSortOf(SortByStartPage(s), s)
  {
    SortSorted(s);
    forall p
      ensures WithStart(SortByStartPage(s), p) == WithStart(s, p)
    {
      SortIsStable(s, p);
    }
  }

  /** The sort is characterized by the promise: r is the sort of s iff r is a stable sort of s. */
  lemma SortCharacterization(s: seq<Entry>, r: seq<Entry>)
    ensures r == SortByStartPage(s) <==> IsStableSortOf(r, s)
  {
    var q := SortByStartPage(s);
    SortIsStableSort(s);
    if IsStableSortOf(r, s) {
      forall p
        ensures WithStart(r, p) == WithStart(q, p)
      {
      }
      SortedUnique(r, q);
    }
  }

  /** An already ordered sequence is left unchanged. */
  lemma SortedUnchanged(s: seq<Entry>)
    requires Sorted(s)
    ensures SortByStartPage(s) == s
  {
    SortCharacterization(s, s);
  }

  /** s and t hold, for every start page, the same entries in the same order. */
  ghost predicate SamePageOrder(s: seq<Entry>, t: seq<Entry>) {
    forall p :: WithStart(s, p) == WithStart(t, p)
  }

  /** Two processing orders sort to the same result exactly when they agree, page by page, on the
      order of the entries sharing a start page. */
  lemma SortOrderIndependent(s: seq<Entry>, t: seq<Entry>)
    ensures SortByStartPage(s) == SortByStartPage(t) <==> SamePageOrder(s, t)
  {
    var qs, qt := SortByStartPage(s), SortByStartPage(t);
    SortIsStableSort(s);
    SortIsStableSort(t);
    if SamePageOrder(s, t) {
      SortCharacterization(t, qs);
      forall p
        ensures WithStart(qs, p) == WithStart(t, p)
      {
      }
    }
    if qs == qt {
      forall p
        ensures WithStart(s, p) == WithStart(t, p)
      {
        assert WithStart(qs, p) == WithStart(s, p);
        assert WithStart(qt, p) == WithStart(t, p);
      }
    }
  }

  predicate DistinctStarts(s: seq<Entry>) {
    forall i, j :: 0 <= i < j < |s| ==> s[i].startPage != s[j].startPage
  }

  /** The entries with start page p are exactly the entries of s with that page, counted alike. */
  lemma {:induction false} WithStartMultiset(s: seq<Entry>, p: nat, e: Entry)
    ensures multiset(WithStart(s, p))[e] == if e.startPage == p then multiset(s)[e] else 0
  {
    if |s| > 0 {
      WithStartMultiset(s[..|s| - 1], p, e);
      assert s == s[..|s| - 1] + [s[|s| - 1]];
    }
  }

  /** With distinct start pages there is at most one entry per page. */
  lemma {:induction false} DistinctWithStartSmall(s: seq<Entry>, p: nat)
    requires DistinctStarts(s)
    ensures |WithStart(s, p)| <= 1
  {
    if |s| > 0 {
      var init := s[..|s| - 1];
      assert DistinctStarts(init);
      DistinctWithStartSmall(init, p);
      if s[|s| - 1].startPage == p {
        WithStartNonEmpty(init, p);
      }
    }
  }

  /** Equal multisets select equal multisets of entries on every page. */
  lemma WithStartSameMultiset(s: seq<Entry>, t: seq<Entry>, p: nat)
    requires multiset(s) == multiset(t)
    ensures multiset(WithStart(s, p)) == multiset(WithStart(t, p))
  {
    forall e
      ensures multiset(WithStart(s, p))[e] == multiset(WithStart(t, p))[e]
    {
      WithStartMultiset(s, p, e);
      WithStartMultiset(t, p, e);
    }
  }

  /** Sequences of at most one element are determined by their multiset. */
  lemma SmallSameMultiset(a: seq<Entry>, b: seq<Entry>)
    requires |a| <= 1
    requires multiset(a) == multiset(b)
    ensures a == b
  {
    assert |a| == |multiset(a)| == |multiset(b)| == |b|;
    if |a| == 1 {
      assert a[0] in multiset(b);
    }
  }

  /** With distinct start pages, each page holds at most one entry, so equal multisets pick out
      the same entry (or none) for every page. */
  lemma DistinctSameAtPage(s: seq<Entry>, t: seq<Entry>, p: nat)
    requires DistinctStarts(s)
    requires multiset(s) == multiset(t)
    ensures WithStart(s, p) == WithStart(t, p)
  {
    WithStartSameMultiset(s, t, p);
    DistinctWithStartSmall(s, p);
    SmallSameMultiset(WithStart(s, p), WithStart(t, p));
  }

  /** When start pages are distinct (as they are for the chunks of one plan), the sorted order does
      not depend on the order the entries were collected in. */
  lemma DistinctOrderIndependent(s: seq<Entry>, t: seq<Entry>)
    requires DistinctStarts(s)
    requires multiset(s) == multiset(t)
    ensures SortByStartPage(s) == SortByStartPage(t)
  {
    forall p
      ensures WithStart(s, p) == WithStart(t, p)
    {
      DistinctSameAtPage(s, t, p);
    }
    SortOrderIndependent(s, t);
  }
}
