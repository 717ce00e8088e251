/**
 * `sort_releases_by_date`: `sorted(releases, key=created_at, reverse=True)`.
 * Python's sort is stable, also in reverse, so releases made at the same
 * instant keep their input order.
 */
module Ordering {
  import opened Dates
  import opened Releases

  /** Newest first: no release is older than one that comes after it. */
  predicate NewestFirst(s: seq<Release>) {
    forall i, j :: 0 <= i < j < |s| ==> NotAfter(s[j].createdAt, s[i].createdAt)
  }

  /** Place `x` before the first release of `s` that is not newer than it. */
  function Insert(x: Release, s: seq<Release>): (r: seq<Release>)
    ensures multiset(r) == multiset(s) + multiset{x}
  {
    if s == [] || NotAfter(s[0].createdAt, x.createdAt) then [x] + s
    else
      assert s == [s[0]] + s[1..];
      [s[0]] + Insert(x, s[1..])
  }

  lemma {:induction false} InsertNewestFirst(x: Release, s: seq<Release>)
    requires NewestFirst(s)
    ensures NewestFirst(Insert(x, s))
  {
    if s == [] || NotAfter(s[0].createdAt, x.createdAt) {
      var r := [x] + s;
      forall j | 1 <= j < |r| ensures NotAfter(r[j].createdAt, x.createdAt) {
        if j > 1 {
          NotAfterTransitive(s[j - 1].createdAt, s[0].createdAt, x.createdAt);
        }
      }
    } else {
      var tail := s[1..];
      InsertNewestFirst(x, tail);
      var ins := Insert(x, tail);
      forall j | 0 <= j < |ins| ensures NotAfter(ins[j].createdAt, s[0].createdAt) {
        assert ins[j] in multiset(ins);
        if ins[j] == x {
          NotAfterTotal(x.createdAt, s[0].createdAt);
        } else {
          assert ins[j] in multiset(tail);
          var k :| 0 <= k < |tail| && tail[k] == ins[j];
          assert s[k + 1] == ins[j];
        }
      }
    }
  }

  /** `sorted(releases, key=created_at, reverse=True)`: a newest-first permutation of the input. */
  function SortByDate(s: seq<Release>): (r: seq<Release>)
    ensures multiset(r) == multiset(s)
    ensures NewestFirst(r)
  {
    if s == [] then []
    else
      var sorted := SortByDate(s[1..]);
      InsertNewestFirst(s[0], sorted);
      assert s == [s[0]] + s[1..];
      Insert(s[0], sorted)
  }

  /** The releases of `s` made at instant `t`, in their order in `s`. */
  function MadeAt(s: seq<Release>, t: Instant): seq<Release> {
    if s == [] then [] else (if s[0].createdAt == t then [s[0]] else []) + MadeAt(s[1..], t)
  }

  lemma {:induction false} InsertStable(x: Release, s: seq<Release>, t: Instant)
    ensures MadeAt(Insert(x, s), t) == (if x.createdAt == t then [x] else []) + MadeAt(s, t)
  {
    if s == [] || NotAfter(s[0].createdAt, x.createdAt) {
      assert ([x] + s)[1..] == s;
    } else {
      InsertStable(x, s[1..], t);
      assert ([s[0]] + Insert(x, s[1..]))[1..] == Insert(x, s[1..]);
      assert x.createdAt == t ==> s[0].createdAt != t;
    }
  }

  /** Stability: for every instant, the releases made then keep their input order. */
  lemma {:induction false} SortStable(s: seq<Release>, t: Instant)
    ensures MadeAt(SortByDate(s), t) == MadeAt(s, t)
  {
    if s != [] {
      SortStable(s[1..], t);
      InsertStable(s[0], SortByDate(s[1..]), t);
    }
  }

  /** A sequence that is already newest first is left as it is. */
  lemma {:induction false} SortKeepsNewestFirst(s: seq<Release>)
    requires NewestFirst(s)
    ensures SortByDate(s) == s
  {
    if s != [] {
      assert NewestFirst(s[1..]) by {
        forall i, j | 0 <= i < j < |s[1..]| ensures NotAfter(s[1..][j].createdAt, s[1..][i].createdAt) {
          assert s[1..][j] == s[j + 1] && s[1..][i] == s[i + 1];
        }
      }
      SortKeepsNewestFirst(s[1..]);
      assert s == [s[0]] + s[1..];
    }
  }

  /** Sorting twice is sorting once. */
  lemma SortIdempotent(s: seq<Release>)
    ensures SortByDate(SortByDate(s)) == SortByDate(s)
  {
    SortKeepsNewestFirst(SortByDate(s));
  }

  lemma MadeAtHead(s: seq<Release>)
    requires s != []
    ensures MadeAt(s, s[0].createdAt) == [s[0]] + MadeAt(s[1..], s[0].createdAt)
  {
  }

  lemma {:induction false} MadeAtMember(s: seq<Release>, x: Release)
    requires x in s
    ensures x in MadeAt(s, x.createdAt)
  {
    if s[0] != x {
      MadeAtMember(s[1..], x);
    }
  }

  /** `a` and `b` hold the releases made at each instant in the same order. */
  ghost predicate SameOrderAtEachInstant(a: seq<Release>, b: seq<Release>) {
    forall t :: MadeAt(a, t) == MadeAt(b, t)
  }

  /** Two sequences that share their head and agree at each instant agree at each instant on their tails. */
  lemma SameTails(a: seq<Release>, b: seq<Release>)
    requires a != [] && b != [] && a[0] == b[0]
    requires SameOrderAtEachInstant(a, b)
    ensures SameOrderAtEachInstant(a[1..], b[1..])
  {
    forall t ensures MadeAt(a[1..], t) == MadeAt(b[1..], t) {
      var x := if a[0].createdAt == t then [a[0]] else [];
      assert MadeAt(a, t) == MadeAt(b, t);
      assert MadeAt(a, t) == x + MadeAt(a[1..], t);
      assert MadeAt(b, t) == x + MadeAt(b[1..], t);
      assert (x + MadeAt(a[1..], t))[|x|..] == MadeAt(a[1..], t);
      assert (x + MadeAt(b[1..], t))[|x|..] == MadeAt(b[1..], t);
    }
  }

  lemma NewestFirstTail(s: seq<Release>)
    requires s != [] && NewestFirst(s)
    ensures NewestFirst(s[1..])
  {
    forall i, j | 0 <= i < j < |s| - 1 ensures NotAfter(s[1..][j].createdAt, s[1..][i].createdAt) {
      assert s[1..][j] == s[j + 1] && s[1..][i] == s[i + 1];
    }
  }

  /** Two newest-first sequences with the same releases, in the same order at each instant, start alike. */
  lemma SameHead(a: seq<Release>, b: seq<Release>)
    requires a != [] && NewestFirst(a) && NewestFirst(b)
    requires multiset(a) == multiset(b)
    requires SameOrderAtEachInstant(a, b)
    ensures b != [] && a[0] == b[0]
  {
    assert a[0] in multiset(b);
    var ka :| 0 <= ka < |b| && b[ka] == a[0];
    assert b[0] in multiset(a);
    var kb :| 0 <= kb < |a| && a[kb] == b[0];
    assert NotAfter(a[0].createdAt, b[0].createdAt) by {
      if ka > 0 {
        assert NotAfter(b[ka].createdAt, b[0].createdAt);
      }
    }
    assert NotAfter(b[0].createdAt, a[0].createdAt) by {
      if kb > 0 {
        assert NotAfter(a[kb].createdAt, a[0].createdAt);
      }
    }
    NotAfterAntisymmetric(a[0].createdAt, b[0].createdAt);
    var t0 := a[0].createdAt;
    MadeAtHead(a);
    MadeAtHead(b);
    assert MadeAt(a, t0) == MadeAt(b, t0);
    assert MadeAt(a, t0)[0] == a[0];
  }

  /**
   * The sort is the only stable newest-first permutation: two newest-first
   * sequences with the same releases, made at each instant in the same
   * order, are equal.
   */
  lemma {:induction false} NewestFirstUnique(a: seq<Release>, b: seq<Release>)
    requires NewestFirst(a) && NewestFirst(b)
    requires multiset(a) == multiset(b)
    requires SameOrderAtEachInstant(a, b)
    ensures a == b
  {
    if a == [] {
      assert |b| == |multiset(b)| == 0;
    } else {
      SameHead(a, b);
      NewestFirstTail(a);
      NewestFirstTail(b);
      SameTails(a, b);
      assert multiset(a[1..]) == multiset(b[1..]) by {
        assert a == [a[0]] + a[1..] && b == [b[0]] + b[1..];
        assert multiset(a) == multiset{a[0]} + multiset(a[1..]);
        assert multiset(b) == multiset{b[0]} + multiset(b[1..]);
        assert multiset(a[1..]) == multiset(a) - multiset{a[0]};
        assert multiset(b[1..]) == multiset(b) - multiset{b[0]};
      }
      NewestFirstUnique(a[1..], b[1..]);
      assert a == [a[0]] + a[1..] && b == [b[0]] + b[1..];
    }
  }

  /** Any stable newest-first permutation of the input is what `SortByDate` returns. */
  lemma SortByDateCharacterised(s: seq<Release>, r: seq<Release>)
    requires NewestFirst(r) && multiset(r) == multiset(s)
    requires forall t :: MadeAt(r, t) == MadeAt(s, t)
    ensures r == SortByDate(s)
  {
    forall t ensures MadeAt(SortByDate(s), t) == MadeAt(r, t) {
      SortStable(s, t);
    }
    assert SameOrderAtEachInstant(SortByDate(s), r);
    NewestFirstUnique(SortByDate(s), r);
  }
}
