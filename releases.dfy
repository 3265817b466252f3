/** Release records of the remote feed, the newest-first ordering both core
    files apply to a fetched page, and the prerelease filter that follows it. */
module Releases {

  datatype Option<+T> = None | Some(value: T)

  /** One entry of the remote releases list. `createdAt` is the creation time
      in milliseconds since the epoch (what `new Date(created_at).getTime()`
      gives for the feed's timestamps). */
  datatype Release = Release(id: nat, createdAt: int, name: string, body: string, prerelease: bool)

  /** A fetched page as the code sees it: `None` when the request throws, the
      response is not ok, or the body is not an array. Such a failure and an
      empty array are both "no releases". */
  predicate FailedOrEmpty(response: Option<seq<Release>>)
  {
    response.None? || response.value == []
  }

  /** Which releases a prerelease filter keeps. */
  datatype Selection = KeepAll | OnlyPrereleases | OnlyFullReleases

  predicate Keeps(sel: Selection, r: Release)
  {
    match sel
    case KeepAll => true
    case OnlyPrereleases => r.prerelease
    case OnlyFullReleases => !r.prerelease
  }

  /** The releases of `s` that `sel` keeps, in their order in `s`. */
  function Select(sel: Selection, s: seq<Release>): (kept: seq<Release>)
    ensures |kept| <= |s|
  {
    if s == [] then []
    else (if Keeps(sel, s[0]) then [s[0]] else []) + Select(sel, s[1..])
  }

  /** A release is in the filtered list exactly when it is in the list and
      the filter keeps it. */
  lemma {:induction false} SelectMembers(sel: Selection, s: seq<Release>)
    ensures forall x :: x in Select(sel, s) <==> x in s && Keeps(sel, x)
  {
    if s != [] {
      SelectMembers(sel, s[1..]);
      assert s == [s[0]] + s[1..];
    }
  }

  /** Filtering one more release at the end of a list extends the result by
      that release exactly when it is kept. */
  lemma {:induction false} SelectAppend(sel: Selection, s: seq<Release>, x: Release)
    ensures Select(sel, s + [x]) == Select(sel, s) + (if Keeps(sel, x) then [x] else [])
  {
    var last := if Keeps(sel, x) then [x] else [];
    if s == [] {
      assert s + [x] == [x] + [];
      SelectCons(sel, x, []);
    } else {
      var t := s[1..];
      assert s + [x] == [s[0]] + (t + [x]);
      assert s == [s[0]] + t;
      SelectCons(sel, s[0], t + [x]);
      SelectCons(sel, s[0], t);
      SelectAppend(sel, t, x);
      var head := if Keeps(sel, s[0]) then [s[0]] else [];
      ConcatAssoc(head, Select(sel, t), last);
    }
  }

  lemma ConcatAssoc(a: seq<Release>, b: seq<Release>, c: seq<Release>)
    ensures a + (b + c) == (a + b) + c
  {
  }

  /** The filter that keeps everything returns the list itself. */
  lemma {:induction false} SelectAll(s: seq<Release>)
    ensures Select(KeepAll, s) == s
  {
    if s != [] {
      SelectAll(s[1..]);
      assert s == [s[0]] + s[1..];
    }
  }

  /** Filtering neither duplicates nor drops a kept release: each kept release
      occurs in the result exactly as often as in the input, every other
      release not at all. */
  lemma SelectCounts(sel: Selection, s: seq<Release>, x: Release)
    ensures multiset(Select(sel, s))[x] == if Keeps(sel, x) then multiset(s)[x] else 0
  {
    if Keeps(sel, x) {
      SelectCountsKept(sel, s, x);
    } else {
      SelectMembers(sel, s);
    }
  }

  /** A kept release occurs in the filtered list as often as in the list. */
  lemma {:induction false} SelectCountsKept(sel: Selection, s: seq<Release>, x: Release)
    requires Keeps(sel, x)
    ensures multiset(Select(sel, s))[x] == multiset(s)[x]
  {
    if s == [] {
      assert Select(sel, s) == [];
    } else {
      var t := s[1..];
      SelectCountsKept(sel, t, x);
      assert s == [s[0]] + t;
      SelectCons(sel, s[0], t);
      var kept, rest := Select(sel, s), Select(sel, t);
      assert multiset(s) == multiset{s[0]} + multiset(t);
      if Keeps(sel, s[0]) {
        assert kept == [s[0]] + rest;
        assert multiset(kept) == multiset{s[0]} + multiset(rest);
      } else {
        assert kept == [] + rest == rest;
        assert s[0] != x;
      }
    }
  }

  /** Newest first: `created_at` never increases along the list. */
  predicate NewestFirst(s: seq<Release>)
  {
    forall i, j :: 0 <= i < j < |s| ==> s[i].createdAt >= s[j].createdAt
  }

  /** Puts `x` in front of the first release that is not newer than it. */
  function InsertByDate(x: Release, s: seq<Release>): seq<Release>
  {
    if s == [] || x.createdAt >= s[0].createdAt then [x] + s
    else [s[0]] + InsertByDate(x, s[1..])
  }

  /** `page.sort((a, b) => b.created_at - a.created_at)`: the standard array
      sort is stable, so releases with equal timestamps keep their order. */
  function SortByNewest(s: seq<Release>): seq<Release>
  {
    if s == [] then [] else InsertByDate(s[0], SortByNewest(s[1..]))
  }

  /** Every release of `s` is at most as new as `x`. */
  predicate NoNewerThan(x: Release, s: seq<Release>)
  {
    forall i :: 0 <= i < |s| ==> s[i].createdAt <= x.createdAt
  }

  /** Inserting adds `x` once and keeps every other release. */
  lemma {:induction false} InsertByDateCounts(x: Release, s: seq<Release>)
    ensures multiset(InsertByDate(x, s)) == multiset(s) + multiset{x}
    ensures |InsertByDate(x, s)| == |s| + 1
  {
    if s != [] && x.createdAt < s[0].createdAt {
      InsertByDateCounts(x, s[1..]);
      assert s == [s[0]] + s[1..];
    }
  }

  /** Inserting into a newest-first list keeps it newest first. */
  lemma {:induction false} InsertByDateSorts(x: Release, s: seq<Release>)
    requires NewestFirst(s)
    ensures NewestFirst(InsertByDate(x, s))
  {
    if s == [] || x.createdAt >= s[0].createdAt {
      assert NoNewerThan(x, s) by {
        forall i | 0 <= i < |s| ensures s[i].createdAt <= x.createdAt {
          assert i == 0 || s[0].createdAt >= s[i].createdAt;
        }
      }
      NewestFirstCons(x, s);
    } else {
      assert NewestFirst(s[1..]);
      InsertByDateSorts(x, s[1..]);
      var t := InsertByDate(x, s[1..]);
      InsertByDateCounts(x, s[1..]);
      assert NoNewerThan(s[0], t) by {
        forall i | 0 <= i < |t| ensures t[i].createdAt <= s[0].createdAt {
          assert t[i] in multiset(s[1..]) + multiset{x};
          if t[i] != x {
            var k :| 0 <= k < |s[1..]| && s[1..][k] == t[i];
            assert s[k + 1] == t[i];
          }
        }
      }
      NewestFirstCons(s[0], t);
    }
  }

  lemma NewestFirstCons(x: Release, t: seq<Release>)
    requires NewestFirst(t) && NoNewerThan(x, t)
    ensures NewestFirst([x] + t)
  {
    var r := [x] + t;
    forall i, j | 0 <= i < j < |r| ensures r[i].createdAt >= r[j].createdAt {
      assert r[j] == t[j - 1];
      if i > 0 {
        assert r[i] == t[i - 1];
      }
    }
  }

  /** The sorted page is newest first and a permutation of the page. */
  lemma SortByNewestCorrect(s: seq<Release>)
    ensures NewestFirst(SortByNewest(s))
    ensures multiset(SortByNewest(s)) == multiset(s)
    ensures |SortByNewest(s)| == |s|
  {
    SortByNewestOrdered(s);
    SortByNewestCounts(s);
    assert |multiset(SortByNewest(s))| == |multiset(s)|;
  }

  /** The releases of `s` created at time `t`, in their order in `s`. */
  function Stamped(t: int, s: seq<Release>): seq<Release>
  {
    if s == [] then []
    else (if s[0].createdAt == t then [s[0]] else []) + Stamped(t, s[1..])
  }

  /** The sort is stable: the releases that share a timestamp come out in
      the order they had in the page. */
  lemma {:induction false} SortByNewestStable(t: int, s: seq<Release>)
    ensures Stamped(t, SortByNewest(s)) == Stamped(t, s)
  {
    if s != [] {
      var rest := SortByNewest(s[1..]);
      SortByNewestStable(t, s[1..]);
      InsertByDateStamped(t, s[0], rest);
      StampedCons(t, s[0], rest);
      assert s == [s[0]] + s[1..];
      StampedCons(t, s[0], s[1..]);
    }
  }

  /** Inserting `x` puts it ahead of every release with its timestamp. */
  lemma {:induction false} InsertByDateStamped(t: int, x: Release, u: seq<Release>)
    ensures Stamped(t, InsertByDate(x, u)) == Stamped(t, [x] + u)
  {
    if u != [] && x.createdAt < u[0].createdAt {
      var v := u[1..];
      var hx := if x.createdAt == t then [x] else [];
      var h0 := if u[0].createdAt == t then [u[0]] else [];
      InsertByDateStamped(t, x, v);
      StampedCons(t, u[0], InsertByDate(x, v));
      StampedCons(t, x, v);
      StampedCons(t, x, u);
      assert u == [u[0]] + v;
      StampedCons(t, u[0], v);
      assert hx == [] || h0 == [];
      ConcatAssoc(h0, hx, Stamped(t, v));
      ConcatAssoc(hx, h0, Stamped(t, v));
      assert h0 + hx == hx + h0;
    }
  }

  lemma StampedCons(t: int, y: Release, u: seq<Release>)
    ensures Stamped(t, [y] + u) == (if y.createdAt == t then [y] else []) + Stamped(t, u)
  {
    assert ([y] + u)[0] == y && ([y] + u)[1..] == u;
  }

  lemma {:induction false} SortByNewestOrdered(s: seq<Release>)
    ensures NewestFirst(SortByNewest(s))
  {
    if s != [] {
      SortByNewestOrdered(s[1..]);
      InsertByDateSorts(s[0], SortByNewest(s[1..]));
    }
  }

  lemma {:induction false} SortByNewestCounts(s: seq<Release>)
    ensures multiset(SortByNewest(s)) == multiset(s)
  {
    if s != [] {
      var sorted := SortByNewest(s[1..]);
      SortByNewestCounts(s[1..]);
      InsertByDateCounts(s[0], sorted);
      calc {
        multiset(SortByNewest(s));
        multiset(InsertByDate(s[0], sorted));
        multiset(sorted) + multiset{s[0]};
        multiset(s[1..]) + multiset{s[0]};
        { assert s == [s[0]] + s[1..]; }
        multiset(s);
      }
    }
  }

  /** A sublist of a newest-first list is newest first. */
  lemma {:induction false} SelectKeepsOrder(sel: Selection, s: seq<Release>)
    requires NewestFirst(s)
    ensures NewestFirst(Select(sel, s))
  {
    if s != [] {
      SelectKeepsOrder(sel, s[1..]);
      var rest := Select(sel, s[1..]);
      if Keeps(sel, s[0]) {
        SelectMembers(sel, s[1..]);
        forall j | 0 < j < |[s[0]] + rest|
          ensures ([s[0]] + rest)[0].createdAt >= ([s[0]] + rest)[j].createdAt
        {
          assert rest[j - 1] in rest;
        }
      }
    }
  }

  lemma SelectCons(sel: Selection, y: Release, t: seq<Release>)
    ensures Select(sel, [y] + t) == (if Keeps(sel, y) then [y] else []) + Select(sel, t)
  {
    assert ([y] + t)[0] == y && ([y] + t)[1..] == t;
  }

  /** Inserting and then filtering is filtering and then inserting: the
      insertion position of `x` among the kept releases is the same. */
  lemma {:induction false} SelectInsert(sel: Selection, x: Release, s: seq<Release>)
    requires NewestFirst(s)
    ensures Select(sel, InsertByDate(x, s))
         == if Keeps(sel, x) then InsertByDate(x, Select(sel, s)) else Select(sel, s)
  {
    if s == [] {
    } else if x.createdAt >= s[0].createdAt {
      SelectInsertAhead(sel, x, s);
    } else {
      assert NewestFirst(s[1..]);
      SelectInsert(sel, x, s[1..]);
      SelectInsertBehind(sel, x, s);
    }
  }

  /** `x` goes in front of a newest-first list, and so in front of what the
      filter keeps of it. */
  lemma SelectInsertAhead(sel: Selection, x: Release, s: seq<Release>)
    requires NewestFirst(s) && s != [] && x.createdAt >= s[0].createdAt
    ensures Select(sel, InsertByDate(x, s))
         == if Keeps(sel, x) then InsertByDate(x, Select(sel, s)) else Select(sel, s)
  {
    assert InsertByDate(x, s) == [x] + s;
    SelectCons(sel, x, s);
    var kept := Select(sel, s);
    if Keeps(sel, x) {
      assert NoNewerThan(x, s) by {
        forall i | 0 <= i < |s| ensures s[i].createdAt <= x.createdAt {
          assert i == 0 || s[0].createdAt >= s[i].createdAt;
        }
      }
      SelectNoNewer(sel, x, s);
      assert InsertByDate(x, kept) == [x] + kept;
    } else {
      assert [] + kept == kept;
    }
  }

  /** Filtering keeps a bound on the timestamps. */
  lemma {:induction false} SelectNoNewer(sel: Selection, x: Release, s: seq<Release>)
    requires NoNewerThan(x, s)
    ensures NoNewerThan(x, Select(sel, s))
  {
    if s != [] {
      var t := s[1..];
      assert NoNewerThan(x, t) by {
        forall i | 0 <= i < |t| ensures t[i].createdAt <= x.createdAt {
          assert t[i] == s[i + 1];
        }
      }
      SelectNoNewer(sel, x, t);
      assert s == [s[0]] + t;
      SelectCons(sel, s[0], t);
    }
  }

  /** `x` goes behind the head of `s`: the step case, given the property for
      the tail. */
  lemma SelectInsertBehind(sel: Selection, x: Release, s: seq<Release>)
    requires s != [] && x.createdAt < s[0].createdAt
    requires Select(sel, InsertByDate(x, s[1..]))
          == if Keeps(sel, x) then InsertByDate(x, Select(sel, s[1..])) else Select(sel, s[1..])
    ensures Select(sel, InsertByDate(x, s))
         == if Keeps(sel, x) then InsertByDate(x, Select(sel, s)) else Select(sel, s)
  {
    var rest := Select(sel, s[1..]);
    var tail := Select(sel, InsertByDate(x, s[1..]));
    var lhs := Select(sel, InsertByDate(x, s));
    SelectUnfold(sel, x, s);
    if Keeps(sel, s[0]) {
      assert lhs == [s[0]] + tail;
      assert Select(sel, s) == [s[0]] + rest;
      if Keeps(sel, x) {
        InsertBehindHead(x, s[0], rest);
      }
    } else {
      assert lhs == [] + tail;
      assert [] + tail == tail;
      assert Select(sel, s) == [] + rest;
      assert [] + rest == rest;
    }
  }

  /** Both sides of `SelectInsertBehind` split at the head of `s`. */
  lemma SelectUnfold(sel: Selection, x: Release, s: seq<Release>)
    requires s != [] && x.createdAt < s[0].createdAt
    ensures var head := if Keeps(sel, s[0]) then [s[0]] else [];
      && Select(sel, InsertByDate(x, s)) == head + Select(sel, InsertByDate(x, s[1..]))
      && Select(sel, s) == head + Select(sel, s[1..])
  {
    SelectCons(sel, s[0], InsertByDate(x, s[1..]));
    assert s == [s[0]] + s[1..];
    SelectCons(sel, s[0], s[1..]);
  }

  lemma InsertBehindHead(x: Release, y: Release, t: seq<Release>)
    requires x.createdAt < y.createdAt
    ensures InsertByDate(x, [y] + t) == [y] + InsertByDate(x, t)
  {
    assert ([y] + t)[0] == y && ([y] + t)[1..] == t;
  }

  /** Stability: filtering the sorted list gives the sorted filtered list, so
      the order of sort and filter does not matter. */
  lemma {:induction false} SelectSortCommute(sel: Selection, s: seq<Release>)
    ensures Select(sel, SortByNewest(s)) == SortByNewest(Select(sel, s))
  {
    if s != [] {
      var sorted := SortByNewest(s[1..]);
      SelectSortCommute(sel, s[1..]);
      SortByNewestCorrect(s[1..]);
      SelectInsert(sel, s[0], sorted);
      assert s == [s[0]] + s[1..];
      SelectCons(sel, s[0], s[1..]);
      var kept := Select(sel, s[1..]);
      if Keeps(sel, s[0]) {
        assert ([s[0]] + kept)[0] == s[0] && ([s[0]] + kept)[1..] == kept;
        assert SortByNewest([s[0]] + kept) == InsertByDate(s[0], SortByNewest(kept));
      } else {
        assert Select(sel, s) == [] + kept == kept;
      }
    }
  }

  /** What a page yields once sorted and filtered: newest first, only kept
      releases, each exactly as often as in the page. */
  lemma SortedSelection(sel: Selection, page: seq<Release>)
    ensures NewestFirst(Select(sel, SortByNewest(page)))
    ensures forall x :: x in Select(sel, SortByNewest(page)) ==> Keeps(sel, x)
    ensures forall x :: multiset(Select(sel, SortByNewest(page)))[x]
                        == if Keeps(sel, x) then multiset(page)[x] else 0
  {
    SortByNewestCorrect(page);
    SelectKeepsOrder(sel, SortByNewest(page));
    SelectMembers(sel, SortByNewest(page));
    forall x ensures multiset(Select(sel, SortByNewest(page)))[x]
                     == if Keeps(sel, x) then multiset(page)[x] else 0 {
      SelectCounts(sel, SortByNewest(page), x);
    }
  }
}
