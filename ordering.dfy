/**
 * What the repositories' queries do with their rows after filtering: ORDER BY,
 * OFFSET/LIMIT and Python's `[:n]`. An ORDER BY is modelled as a stable
 * insertion sort under a "may come before" relation; the database may order
 * ties differently, so what the rest of the model relies on is only that the
 * result is sorted and is a permutation of its input.
 */
module Ordering {

  /** `le` is total and transitive: a valid ORDER BY key. */
  ghost predicate TotalPreorder<T(!new)>(le: (T, T) -> bool) {
    && (forall a, b :: le(a, b) || le(b, a))
    && (forall a, b, c :: le(a, b) && le(b, c) ==> le(a, c))
  }

  /** Every element may come before every later one. */
  ghost predicate SortedBy<T>(s: seq<T>, le: (T, T) -> bool) {
    forall i, j :: 0 <= i < j < |s| ==> le(s[i], s[j])
  }

  function Min(a: int, b: int): int { if a <= b then a else b }

  /** The rows that satisfy a WHERE clause, in table order. */
  function Filter<T(!new)>(s: seq<T>, keep: T -> bool): (r: seq<T>)
    ensures |r| <= |s|
    ensures forall x :: x in r <==> x in s && keep(x)
  {
    if s == [] then []
    else if keep(s[0]) then [s[0]] + Filter(s[1..], keep)
    else Filter(s[1..], keep)
  }

  /** A WHERE clause no row satisfies selects nothing. */
  lemma {:induction false} FilterNone<T(!new)>(s: seq<T>, keep: T -> bool)
    requires forall x :: x in s ==> !keep(x)
    ensures Filter(s, keep) == []
  {
    if s != [] {
      assert forall x :: x in s[1..] ==> x in s;
      FilterNone(s[1..], keep);
    }
  }

  /** No two elements of `s` share a key (a primary key column). */
  ghost predicate KeysDistinct<T>(s: seq<T>, key: T -> int) {
    forall i, j :: 0 <= i < j < |s| ==> key(s[i]) != key(s[j])
  }

  /** The keys of the rows a WHERE clause keeps. */
  ghost function KeysOf<T(!new)>(s: seq<T>, keep: T -> bool, key: T -> int): set<int> {
    set x | x in s && keep(x) :: key(x)
  }

  /** Under a primary key, the rows a WHERE clause keeps are as many as their distinct keys. */
  lemma {:induction false} FilterCount<T(!new)>(s: seq<T>, keep: T -> bool, key: T -> int)
    requires KeysDistinct(s, key)
    ensures |Filter(s, keep)| == |KeysOf(s, keep, key)|
  {
    if s != [] {
      var tail := s[1..];
      assert KeysDistinct(tail, key) by {
        forall i, j | 0 <= i < j < |tail| ensures key(tail[i]) != key(tail[j]) {
          assert tail[i] == s[i + 1] && tail[j] == s[j + 1];
        }
      }
      FilterCount(tail, keep, key);
      var all := KeysOf(s, keep, key);
      var rest := KeysOf(tail, keep, key);
      assert key(s[0]) !in rest by {
        forall x | x in tail ensures key(x) != key(s[0]) {
          var j :| 0 <= j < |tail| && tail[j] == x;
          assert s[j + 1] == x;
        }
      }
      assert forall x :: x in s <==> x == s[0] || x in tail by {
        assert s == [s[0]] + tail;
      }
      if keep(s[0]) {
        assert all == rest + {key(s[0])};
      } else {
        assert all == rest;
      }
    }
  }

  /** A WHERE clause over two runs of rows, one after the other, keeps each run's rows in their order. */
  lemma {:induction false} FilterAppend<T(!new)>(a: seq<T>, b: seq<T>, keep: T -> bool)
    ensures Filter(a + b, keep) == Filter(a, keep) + Filter(b, keep)
  {
    if a == [] {
      assert a + b == b;
    } else {
      assert (a + b)[0] == a[0];
      assert (a + b)[1..] == a[1..] + b;
      FilterAppend(a[1..], b, keep);
    }
  }

  /** No value occurs twice in `s`. */
  ghost predicate Distinct<T>(s: seq<T>) {
    forall i, j :: 0 <= i < j < |s| ==> s[i] != s[j]
  }

  /** A list has at most as many distinct values as entries, exactly as many when no value repeats. */
  lemma {:induction false} DistinctCard<T>(s: seq<T>)
    ensures |set x | x in s| <= |s|
    ensures |set x | x in s| == |s| <==> Distinct(s)
  {
    if s != [] {
      var tail := s[1..];
      DistinctCard(tail);
      var all, rest := set x | x in s, set x | x in tail;
      assert s == [s[0]] + tail;
      assert all == rest + {s[0]};
      if s[0] in tail {
        assert all == rest;
        var j :| 0 <= j < |tail| && tail[j] == s[0];
        assert s[0] == s[j + 1];
        assert !Distinct(s);
      } else {
        assert |all| == |rest| + 1;
        if Distinct(tail) {
          forall i, j | 0 <= i < j < |s| ensures s[i] != s[j] {
            if i == 0 {
              assert s[j] == tail[j - 1];
            } else {
              assert s[i] == tail[i - 1] && s[j] == tail[j - 1];
            }
          }
        } else {
          var i, j :| 0 <= i < j < |tail| && tail[i] == tail[j];
          assert s[i + 1] == s[j + 1];
        }
      }
    }
  }

  /** A WHERE clause keeps a list free of repeats. */
  lemma {:induction false} FilterDistinct<T(!new)>(s: seq<T>, keep: T -> bool)
    requires Distinct(s)
    ensures Distinct(Filter(s, keep))
  {
    if s != [] {
      var tail := s[1..];
      assert Distinct(tail) by {
        forall i, j | 0 <= i < j < |tail| ensures tail[i] != tail[j] {
          assert tail[i] == s[i + 1] && tail[j] == s[j + 1];
        }
      }
      FilterDistinct(tail, keep);
      assert s[0] !in tail by {
        forall k | 0 <= k < |tail| ensures tail[k] != s[0] {
          assert tail[k] == s[k + 1];
        }
      }
    }
  }

  /** A subset as large as its superset is the whole superset. */
  lemma SubsetCard<T>(a: set<T>, b: set<T>)
    requires a <= b && |a| == |b|
    ensures a == b
  {
    assert b == a + (b - a);
    assert |b - a| == 0;
  }

  /** Places `x` in front of the first element it may precede. */
  function Insert<T>(x: T, s: seq<T>, le: (T, T) -> bool): (r: seq<T>)
    ensures |r| == |s| + 1
    ensures multiset(r) == multiset(s) + multiset{x}
  {
    if s == [] then [x]
    else if le(x, s[0]) then [x] + s
    else
      assert s == [s[0]] + s[1..];
      [s[0]] + Insert(x, s[1..], le)
  }

  /** ORDER BY `le`: a stable insertion sort. */
  function SortBy<T>(s: seq<T>, le: (T, T) -> bool): (r: seq<T>)
    ensures |r| == |s|
    ensures multiset(r) == multiset(s)
  {
    if s == [] then []
    else
      assert s == [s[0]] + s[1..];
      Insert(s[0], SortBy(s[1..], le), le)
  }

  lemma {:induction false} InsertSorted<T(!new)>(x: T, s: seq<T>, le: (T, T) -> bool)
    requires TotalPreorder(le)
    requires SortedBy(s, le)
    ensures SortedBy(Insert(x, s, le), le)
  {
    if s != [] && !le(x, s[0]) {
      var t := Insert(x, s[1..], le);
      InsertSorted(x, s[1..], le);
      assert le(s[0], x);
      forall k | 0 <= k < |t| ensures le(s[0], t[k]) {
        assert t[k] in multiset(t);
        assert t[k] in multiset(s[1..]) || t[k] == x;
        if t[k] != x {
          var m :| 0 <= m < |s[1..]| && s[1..][m] == t[k];
          assert s[1 + m] == t[k];
        }
      }
    }
  }

  /** The result of ORDER BY is ordered. */
  lemma {:induction false} SortBySorted<T(!new)>(s: seq<T>, le: (T, T) -> bool)
    requires TotalPreorder(le)
    ensures SortedBy(SortBy(s, le), le)
  {
    if s != [] {
      SortBySorted(s[1..], le);
      InsertSorted(s[0], SortBy(s[1..], le), le);
    }
  }

  /** ORDER BY neither adds nor drops rows. */
  lemma SortByMembers<T>(s: seq<T>, le: (T, T) -> bool)
    ensures forall x :: x in SortBy(s, le) <==> x in s
  {
    var r := SortBy(s, le);
    assert multiset(r) == multiset(s);
    forall x ensures x in r <==> x in s {
      assert x in r <==> x in multiset(r);
      assert x in s <==> x in multiset(s);
    }
  }

  /** ORDER BY keeps a list free of repeats. */
  lemma SortByDistinct<T(!new)>(s: seq<T>, le: (T, T) -> bool)
    requires Distinct(s)
    ensures Distinct(SortBy(s, le))
  {
    var r := SortBy(s, le);
    SortByMembers(s, le);
    var inR, inS := set x | x in r, set x | x in s;
    forall x ensures x in inR <==> x in inS {
      assert x in inR <==> x in r;
      assert x in inS <==> x in s;
    }
    assert inR == inS;
    DistinctCard(s);
    DistinctCard(r);
  }

  /** OFFSET `skip` LIMIT `limit`. */
  function Page<T>(s: seq<T>, skip: nat, limit: nat): (r: seq<T>)
    ensures |r| == if skip >= |s| then 0 else Min(limit, |s| - skip)
    ensures forall i :: 0 <= i < |r| ==> r[i] == s[skip + i]
  {
    if skip >= |s| then [] else s[skip .. skip + Min(limit, |s| - skip)]
  }

  /** Python's `s[:n]` for n >= 0. */
  function Take<T>(s: seq<T>, n: nat): (r: seq<T>)
    ensures |r| == Min(n, |s|)
    ensures r == s[..|r|]
  {
    s[..Min(n, |s|)]
  }

  /** A page of an ordered list is ordered. */
  lemma PageSorted<T>(s: seq<T>, skip: nat, limit: nat, le: (T, T) -> bool)
    requires SortedBy(s, le)
    ensures SortedBy(Page(s, skip, limit), le)
  {
    var r := Page(s, skip, limit);
    forall i, j | 0 <= i < j < |r| ensures le(r[i], r[j]) {
      assert r[i] == s[skip + i] && r[j] == s[skip + j];
    }
  }

  /** Every element of a page comes from the paged list. */
  lemma PageMembers<T>(s: seq<T>, skip: nat, limit: nat)
    ensures forall x :: x in Page(s, skip, limit) ==> x in s
  {
    var r := Page(s, skip, limit);
    forall x | x in r ensures x in s {
      var i :| 0 <= i < |r| && r[i] == x;
      assert s[skip + i] == x;
    }
  }

  /**
   * Fetching one row more than a page and cutting it back: the first `limit`
   * rows of page (skip, limit + 1) are page (skip, limit), and the longer page
   * has more than `limit` rows exactly when rows remain after page (skip, limit).
   */
  lemma {:induction false} LookAheadPage<T>(s: seq<T>, skip: nat, limit: nat)
    ensures Take(Page(s, skip, limit + 1), limit) == Page(s, skip, limit)
    ensures |Page(s, skip, limit + 1)| > limit <==> |s| > skip + limit
  {
    var long, short := Page(s, skip, limit + 1), Page(s, skip, limit);
    var cut := Take(long, limit);
    assert |cut| == |short|;
    forall i | 0 <= i < |cut| ensures cut[i] == short[i] {
      assert cut[i] == long[i] == s[skip + i];
    }
  }

  /** A page of a list free of repeats is free of repeats. */
  lemma PageDistinct<T>(s: seq<T>, skip: nat, limit: nat)
    requires Distinct(s)
    ensures Distinct(Page(s, skip, limit))
  {
    var r := Page(s, skip, limit);
    forall i, j | 0 <= i < j < |r| ensures r[i] != r[j] {
      assert r[i] == s[skip + i] && r[j] == s[skip + j];
    }
  }

  /**
   * The rows of an inner join, before any de-duplication: each row of `s`,
   * in order, once per joined row that matches it (`times` of them).
   */
  function Joined<T(!new)>(s: seq<T>, times: T -> nat): (r: seq<T>)
    ensures forall x :: x in r <==> x in s && times(x) > 0
  {
    if s == [] then []
    else
      var copies := seq(times(s[0]), _ => s[0]);
      assert forall x :: x in copies ==> x == s[0];
      assert times(s[0]) > 0 ==> copies[0] == s[0];
      assert forall x :: x in s <==> x == s[0] || x in s[1..] by {
        assert s == [s[0]] + s[1..];
      }
      copies + Joined(s[1..], times)
  }

  /** Joined rows of an ordered list stay in order: the copies of a row sit together. */
  lemma {:induction false} JoinedSorted<T(!new)>(s: seq<T>, times: T -> nat, le: (T, T) -> bool)
    requires TotalPreorder(le)
    requires SortedBy(s, le)
    ensures SortedBy(Joined(s, times), le)
  {
    if s != [] {
      var tail := s[1..];
      assert SortedBy(tail, le) by {
        forall i, j | 0 <= i < j < |tail| ensures le(tail[i], tail[j]) {
          assert tail[i] == s[i + 1] && tail[j] == s[j + 1];
        }
      }
      JoinedSorted(tail, times, le);
      var copies := seq(times(s[0]), _ => s[0]);
      var rest := Joined(tail, times);
      var r := copies + rest;
      assert le(s[0], s[0]);
      forall i, j | 0 <= i < j < |r| ensures le(r[i], r[j]) {
        if j < |copies| {
          assert r[i] == s[0] && r[j] == s[0];
        } else if i < |copies| {
          assert r[i] == s[0];
          assert r[j] == rest[j - |copies|];
          assert r[j] in tail;
          var k :| 0 <= k < |tail| && tail[k] == r[j];
          assert s[k + 1] == r[j];
        } else {
          assert r[i] == rest[i - |copies|] && r[j] == rest[j - |copies|];
        }
      }
    }
  }

  /** When every row matches exactly one joined row, the join changes nothing. */
  lemma {:induction false} JoinedOnce<T(!new)>(s: seq<T>, times: T -> nat)
    requires forall x :: x in s ==> times(x) == 1
    ensures Joined(s, times) == s
  {
    if s != [] {
      assert forall x :: x in s[1..] ==> x in s;
      JoinedOnce(s[1..], times);
      assert seq(times(s[0]), _ => s[0]) == [s[0]];
      assert s == [s[0]] + s[1..];
    }
  }

  /** `.unique()` on a result: later repeats of a row are dropped, first occurrences keep their order. */
  function Deduplicated<T(==,!new)>(s: seq<T>): (r: seq<T>)
    ensures forall x :: x in r <==> x in s
    ensures Distinct(r)
    ensures |r| <= |s|
    decreases |s|
  {
    if s == [] then []
    else
      var init, last := s[..|s| - 1], s[|s| - 1];
      assert s == init + [last];
      var d := Deduplicated(init);
      if last in d then d else d + [last]
  }

  /** De-duplicating an ordered list keeps it ordered. */
  lemma {:induction false} DeduplicatedSorted<T(!new)>(s: seq<T>, le: (T, T) -> bool)
    requires SortedBy(s, le)
    ensures SortedBy(Deduplicated(s), le)
    decreases |s|
  {
    if s != [] {
      var init, last := s[..|s| - 1], s[|s| - 1];
      assert SortedBy(init, le) by {
        forall i, j | 0 <= i < j < |init| ensures le(init[i], init[j]) {
          assert init[i] == s[i] && init[j] == s[j];
        }
      }
      DeduplicatedSorted(init, le);
      var d := Deduplicated(init);
      if last !in d {
        var r := d + [last];
        forall i, j | 0 <= i < j < |r| ensures le(r[i], r[j]) {
          if j < |d| {
            assert r[i] == d[i] && r[j] == d[j];
          } else {
            assert r[i] == d[i] && d[i] in init;
            var k :| 0 <= k < |init| && init[k] == d[i];
            assert s[k] == d[i];
          }
        }
      }
    }
  }

  /** A list without repeats is its own de-duplication. */
  lemma {:induction false} DeduplicatedDistinct<T(!new)>(s: seq<T>)
    requires Distinct(s)
    ensures Deduplicated(s) == s
    decreases |s|
  {
    if s != [] {
      var init, last := s[..|s| - 1], s[|s| - 1];
      assert Distinct(init) by {
        forall i, j | 0 <= i < j < |init| ensures init[i] != init[j] {
          assert init[i] == s[i] && init[j] == s[j];
        }
      }
      DeduplicatedDistinct(init);
      assert last !in init by {
        forall k | 0 <= k < |init| ensures init[k] != last {
          assert init[k] == s[k];
        }
      }
      assert s == init + [last];
    }
  }

  /** Code-point lexicographic order on strings (ORDER BY a text column). */
  predicate StrLe(a: string, b: string)
    decreases |a|
  {
    if a == [] then true
    else if b == [] then false
    else if a[0] != b[0] then a[0] < b[0]
    else StrLe(a[1..], b[1..])
  }

  lemma {:induction false} StrLeTotal(a: string, b: string)
    ensures StrLe(a, b) || StrLe(b, a)
    decreases |a|
  {
    if a != [] && b != [] && a[0] == b[0] {
      StrLeTotal(a[1..], b[1..]);
    }
  }

  lemma {:induction false} StrLeTrans(a: string, b: string, c: string)
    requires StrLe(a, b) && StrLe(b, c)
    ensures StrLe(a, c)
    decreases |a|
  {
    if a != [] && b != [] && c != [] && a[0] == b[0] == c[0] {
      StrLeTrans(a[1..], b[1..], c[1..]);
    }
  }
}
