/** Deduplicating mirrored monitors gives one result for one set of monitors. */
module Mirrors {
  import opened Bytes
  import opened DisplayLayout
  import opened MonitorChoice
  import opened Sequences

  lemma {:induction false} InsertAdds(m: Monitor, ms: seq<Monitor>)
    ensures multiset(Insert(m, ms)) == multiset(ms) + multiset{m}
  {
    if ms == [] || !Less(ms[0].id, m.id) {
    } else {
      InsertAdds(m, ms[1..]);
      assert ms == [ms[0]] + ms[1..];
    }
  }

  lemma {:induction false} SortedIsPermutation(ms: seq<Monitor>)
    ensures multiset(Sorted(ms)) == multiset(ms)
  {
    if ms != [] {
      SortedIsPermutation(ms[..|ms| - 1]);
      InsertAdds(ms[|ms| - 1], Sorted(ms[..|ms| - 1]));
      MultisetOfLast(ms);
    }
  }

  lemma InMultiset(ms: seq<Monitor>, m: Monitor)
    ensures m in ms <==> m in multiset(ms)
  {
  }

  lemma {:induction false} InsertKeepsStrict(m: Monitor, ms: seq<Monitor>)
    requires StrictlySorted(ms) && forall i | 0 <= i < |ms| :: ms[i].id != m.id
    ensures StrictlySorted(Insert(m, ms))
  {
    if ms == [] {
    } else if !Less(ms[0].id, m.id) {
      LessIsStrict(ms[0].id, m.id);
      var s := [m] + ms;
      forall i, j | 0 <= i < j < |s| ensures Less(s[i].id, s[j].id) {
        if i == 0 && j > 1 {
          assert Less(ms[0].id, ms[j - 1].id);
          LessChains(m.id, ms[0].id, ms[j - 1].id);
        }
      }
    } else {
      var tail := Insert(m, ms[1..]);
      InsertKeepsStrict(m, ms[1..]);
      InsertAdds(m, ms[1..]);
      forall j | 0 <= j < |tail| ensures Less(ms[0].id, tail[j].id) {
        assert tail[j] in multiset(tail);
        if tail[j] != m {
          InMultiset(ms[1..], tail[j]);
          var k :| 0 <= k < |ms[1..]| && ms[1..][k] == tail[j];
          assert Less(ms[0].id, ms[k + 1].id);
        }
      }
    }
  }

  lemma {:induction false} SortedIsStrict(ms: seq<Monitor>)
    requires DistinctIds(ms)
    ensures StrictlySorted(Sorted(ms))
  {
    if ms != [] {
      var front, last := ms[..|ms| - 1], ms[|ms| - 1];
      SortedIsStrict(front);
      SortedIsPermutation(front);
      var s := Sorted(front);
      forall i | 0 <= i < |s| ensures s[i].id != last.id {
        assert s[i] in multiset(s);
        InMultiset(front, s[i]);
        var k :| 0 <= k < |front| && front[k] == s[i];
        assert ms[k].id != ms[|ms| - 1].id;
      }
      InsertKeepsStrict(last, s);
    }
  }

  lemma RepresentativesDiffer(ms: seq<Monitor>, result: seq<Monitor>)
    requires DistinctIds(ms) && Represented(ms, result)
    ensures DistinctIds(result)
  {
    forall i, j | 0 <= i < j < |result| ensures result[i].id != result[j].id {
      assert Represents(ms, result[i]) && Represents(ms, result[j]);
      if result[i].id == result[j].id {
        SameIdSameMonitor(ms, result[i], result[j]);
      }
    }
  }

  /** Deduplication keeps exactly the preferred monitor of each bounds, in the order of their ids. */
  lemma DeduplicatedIsExact(ms: seq<Monitor>)
    requires DistinctIds(ms)
    ensures StrictlySorted(Deduplicated(ms))
    ensures forall m :: m in Deduplicated(ms) <==> Represents(ms, m)
  {
    var merged := MergeAll(ms);
    MergeAllRepresents(ms);
    RepresentativesDiffer(ms, merged);
    SortedIsStrict(merged);
    SortedIsPermutation(merged);
    forall m ensures m in Deduplicated(ms) <==> Represents(ms, m) {
      InMultiset(merged, m);
      InMultiset(Sorted(merged), m);
      RepresentedMembers(ms, merged, m);
    }
  }

  lemma BoundsAreKept(ms: seq<Monitor>, m: Monitor)
    requires DistinctIds(ms) && m in ms
    ensures HasBounds(Deduplicated(ms), m.bounds)
  {
    var merged := MergeAll(ms);
    MergeAllRepresents(ms);
    var i :| 0 <= i < |ms| && ms[i] == m;
    assert HasBounds(merged, ms[i].bounds);
    var j :| 0 <= j < |merged| && merged[j].bounds == m.bounds;
    SortedIsPermutation(merged);
    assert merged[j] in multiset(Sorted(merged));
  }

  /** No two of them have the same bounds, and every bounds is kept. */
  lemma DeduplicatedCoversBounds(ms: seq<Monitor>)
    requires DistinctIds(ms)
    ensures DistinctBounds(Deduplicated(ms))
    ensures forall m | m in ms :: HasBounds(Deduplicated(ms), m.bounds)
  {
    var d := Deduplicated(ms);
    DeduplicatedIsExact(ms);
    forall i, j | 0 <= i < j < |d| ensures d[i].bounds != d[j].bounds {
      assert d[i] in d && d[j] in d && Less(d[i].id, d[j].id);
      LessIsStrict(d[i].id, d[j].id);
      PreferredIsStrict(d[i], d[j]);
    }
    forall m | m in ms ensures HasBounds(d, m.bounds) {
      BoundsAreKept(ms, m);
    }
  }

  lemma HeadIsLeast(a: seq<Monitor>, m: Monitor)
    requires StrictlySorted(a) && m in a && m != a[0]
    ensures Less(a[0].id, m.id)
  {
    var i :| 0 <= i < |a| && a[i] == m;
  }

  /** Two lists in strict order with the same members are the same list. */
  lemma {:induction false} StrictOrderIsUnique(a: seq<Monitor>, b: seq<Monitor>)
    requires StrictlySorted(a) && StrictlySorted(b) && forall m :: m in a <==> m in b
    ensures a == b
  {
    assert |b| > 0 ==> b[0] in a;
    if a != [] {
      assert a[0] in b;
      assert b[0] in a;
      if a[0] != b[0] {
        HeadIsLeast(a, b[0]);
        HeadIsLeast(b, a[0]);
        LessIsStrict(a[0].id, b[0].id);
      }
      TailsAgree(a, b);
      StrictOrderIsUnique(a[1..], b[1..]);
      assert a == [a[0]] + a[1..] && b == [b[0]] + b[1..];
    }
  }

  lemma TailMembers(a: seq<Monitor>, m: Monitor)
    requires StrictlySorted(a) && a != []
    ensures m in a[1..] <==> m in a && m != a[0]
  {
    if m in a[1..] {
      var i :| 0 <= i < |a[1..]| && a[1..][i] == m;
      assert a[i + 1] == m && Less(a[0].id, a[i + 1].id);
      LessIsStrict(a[0].id, a[0].id);
    }
  }

  lemma TailsAgree(a: seq<Monitor>, b: seq<Monitor>)
    requires StrictlySorted(a) && StrictlySorted(b) && a != [] && b != [] && a[0] == b[0]
    requires forall m :: m in a <==> m in b
    ensures forall m :: m in a[1..] <==> m in b[1..]
  {
    forall m ensures m in a[1..] <==> m in b[1..] {
      TailMembers(a, m);
      TailMembers(b, m);
    }
  }

  // ---- permutations ----

  lemma {:induction false} CountsAtMostOne(ms: seq<Monitor>, m: Monitor)
    requires DistinctIds(ms)
    ensures multiset(ms)[m] <= 1
  {
    if ms != [] {
      var n := |ms| - 1;
      assert ms == ms[..n] + [ms[n]];
      CountsAtMostOne(ms[..n], m);
    }
  }

  lemma CountsTwice(ms: seq<Monitor>, i: nat, j: nat)
    requires i < j < |ms| && ms[i] == ms[j]
    ensures multiset(ms)[ms[i]] >= 2
  {
    assert ms == ms[..j] + ms[j..];
    assert ms[..j][i] in multiset(ms[..j]);
    assert ms[j..][0] in multiset(ms[j..]);
  }

  lemma PermutationKeepsDistinct(ms: seq<Monitor>, ns: seq<Monitor>)
    requires DistinctIds(ms) && multiset(ms) == multiset(ns)
    ensures DistinctIds(ns)
  {
    forall i, j | 0 <= i < j < |ns| ensures ns[i].id != ns[j].id {
      if ns[i].id == ns[j].id {
        assert ns[i] in multiset(ns) && ns[j] in multiset(ns);
        InMultiset(ms, ns[i]);
        InMultiset(ms, ns[j]);
        SameIdSameMonitor(ms, ns[i], ns[j]);
        CountsTwice(ns, i, j);
        CountsAtMostOne(ms, ns[i]);
      }
    }
  }

  /** The result does not depend on the order in which the monitors were listed. */
  lemma DeduplicationIgnoresOrder(ms: seq<Monitor>, ns: seq<Monitor>)
    requires DistinctIds(ms) && multiset(ms) == multiset(ns)
    ensures Deduplicated(ms) == Deduplicated(ns)
  {
    PermutationKeepsDistinct(ms, ns);
    DeduplicatedIsExact(ms);
    DeduplicatedIsExact(ns);
    forall m ensures m in Deduplicated(ms) <==> m in Deduplicated(ns) {
      SameRepresentatives(ms, ns, m);
    }
    StrictOrderIsUnique(Deduplicated(ms), Deduplicated(ns));
  }

  lemma SameRepresentatives(ms: seq<Monitor>, ns: seq<Monitor>, m: Monitor)
    requires multiset(ms) == multiset(ns)
    ensures Represents(ms, m) <==> Represents(ns, m)
  {
    forall o ensures o in ms <==> o in ns {
      InMultiset(ms, o);
      InMultiset(ns, o);
    }
  }

  /** Deduplicating twice is deduplicating once. */
  lemma DeduplicationIsIdempotent(ms: seq<Monitor>)
    requires DistinctIds(ms)
    ensures Deduplicated(Deduplicated(ms)) == Deduplicated(ms)
  {
    var d := Deduplicated(ms);
    DeduplicatedIsExact(ms);
    DeduplicatedCoversBounds(ms);
    StrictMeansDistinct(d);
    DeduplicatedIsExact(d);
    forall m ensures m in d <==> Represents(d, m) {
      AllRepresent(d, m);
    }
    StrictOrderIsUnique(Deduplicated(d), d);
  }

  lemma StrictMeansDistinct(ms: seq<Monitor>)
    requires StrictlySorted(ms)
    ensures DistinctIds(ms)
  {
    forall i, j | 0 <= i < j < |ms| ensures ms[i].id != ms[j].id {
      LessIsStrict(ms[i].id, ms[j].id);
    }
  }

  lemma AllRepresent(ms: seq<Monitor>, m: Monitor)
    requires DistinctBounds(ms)
    ensures m in ms <==> Represents(ms, m)
  {
    if m in ms {
      var i :| 0 <= i < |ms| && ms[i] == m;
      forall o | o in ms && o.bounds == m.bounds ensures o == m {
        var j :| 0 <= j < |ms| && ms[j] == o;
      }
    }
  }
}
