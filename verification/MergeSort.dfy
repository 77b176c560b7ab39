// The result of HASH_SRT as a function: bottom-up passes that merge runs of doubling
// size, and the proof that it is the stable sort for any total preorder.
module MergeSort {
  import opened Seqs
  import opened Links

  type Comparator = (Record, Record) -> int

  ghost predicate TotalPreorder(cmp: Comparator) {
    && (forall x, y :: cmp(x, y) <= 0 || cmp(y, x) <= 0)
    && (forall x, y, z :: cmp(x, y) <= 0 && cmp(y, z) <= 0 ==> cmp(x, z) <= 0)
  }

  ghost predicate Sorted(s: seq<Node>, cmp: Comparator) {
    forall i, j :: 0 <= i < j < |s| ==> cmp(s[i].rec, s[j].rec) <= 0
  }

  function Min(a: nat, b: nat): nat {
    if a < b then a else b
  }

  // Ties go to the left run.
  function Merge(a: seq<Node>, b: seq<Node>, cmp: Comparator): (r: seq<Node>)
    ensures |r| == |a| + |b|
  {
    if a == [] then b
    else if b == [] then a
    else if cmp(a[0].rec, b[0].rec) <= 0 then [a[0]] + Merge(a[1..], b, cmp)
    else [b[0]] + Merge(a, b[1..], cmp)
  }

  // One pass: adjacent runs of size k merged two by two.
  function Pass(s: seq<Node>, k: nat, cmp: Comparator): (r: seq<Node>)
    requires k >= 1
    ensures |r| == |s|
  {
    if s == [] then []
    else
      var p, q := Min(k, |s|), Min(2 * k, |s|);
      Merge(s[..p], s[p..q], cmp) + Pass(s[q..], k, cmp)
  }

  // Passes until one of them merged a single pair.
  function SortFrom(s: seq<Node>, k: nat, cmp: Comparator): (r: seq<Node>)
    requires k >= 1
    decreases |s| - k
  {
    if |s| <= 2 * k then Pass(s, k, cmp) else SortFrom(Pass(s, k, cmp), 2 * k, cmp)
  }

  lemma EmptySort(cmp: Comparator)
    ensures SortFrom([], 1, cmp) == []
  {
  }

  // The members of s that compare equal to r, in order.
  function Tied(s: seq<Node>, r: Record, cmp: Comparator): seq<Node> {
    Filter(s, (n: Node) => cmp(n.rec, r) <= 0 && cmp(r, n.rec) <= 0)
  }

  // Same elements, and elements that compare equal are in the same order.
  ghost predicate StablePermutation(s: seq<Node>, t: seq<Node>, cmp: Comparator) {
    multiset(s) == multiset(t) && forall r: Record :: Tied(s, r, cmp) == Tied(t, r, cmp)
  }

  // Blocks of size k are sorted.
  ghost predicate Runs(s: seq<Node>, k: nat, cmp: Comparator)
    requires k >= 1
  {
    s == [] || (Sorted(s[..Min(k, |s|)], cmp) && Runs(s[Min(k, |s|)..], k, cmp))
  }

  lemma ConsMembers(s: seq<Node>)
    requires s != []
    ensures multiset(s) == multiset{s[0]} + multiset(s[1..])
  {
    assert s == [s[0]] + s[1..];
  }

  lemma {:induction false} MergeMembers(a: seq<Node>, b: seq<Node>, cmp: Comparator)
    ensures multiset(Merge(a, b, cmp)) == multiset(a) + multiset(b)
  {
    if a == [] || b == [] {
    } else {
      var m := Merge(a, b, cmp);
      ConsMembers(m);
      if cmp(a[0].rec, b[0].rec) <= 0 {
        MergeMembers(a[1..], b, cmp);
        ConsMembers(a);
        assert m[1..] == Merge(a[1..], b, cmp);
      } else {
        MergeMembers(a, b[1..], cmp);
        ConsMembers(b);
        assert m[1..] == Merge(a, b[1..], cmp);
      }
    }
  }

  lemma {:induction false} MergeSorted(a: seq<Node>, b: seq<Node>, cmp: Comparator)
    requires TotalPreorder(cmp) && Sorted(a, cmp) && Sorted(b, cmp)
    ensures Sorted(Merge(a, b, cmp), cmp)
  {
    if a == [] || b == [] {
    } else if cmp(a[0].rec, b[0].rec) <= 0 {
      MergeSorted(a[1..], b, cmp);
      var m := Merge(a[1..], b, cmp);
      MergeMembers(a[1..], b, cmp);
      forall x | x in m ensures cmp(a[0].rec, x.rec) <= 0 {
        assert x in multiset(m);
        if x in b {
          assert cmp(b[0].rec, x.rec) <= 0;
        } else {
          assert x in a[1..];
        }
      }
    } else {
      MergeSorted(a, b[1..], cmp);
      var m := Merge(a, b[1..], cmp);
      MergeMembers(a, b[1..], cmp);
      forall x | x in m ensures cmp(b[0].rec, x.rec) <= 0 {
        assert x in multiset(m);
        if x in a {
          assert cmp(a[0].rec, x.rec) <= 0;
        } else {
          assert x in b[1..];
        }
      }
    }
  }

  lemma TiedAppend(s: seq<Node>, t: seq<Node>, r: Record, cmp: Comparator)
    ensures Tied(s + t, r, cmp) == Tied(s, r, cmp) + Tied(t, r, cmp)
  {
    FilterAppend(s, t, (n: Node) => cmp(n.rec, r) <= 0 && cmp(r, n.rec) <= 0);
  }

  lemma TiedCons(x: Node, s: seq<Node>, r: Record, cmp: Comparator)
    ensures Tied([x] + s, r, cmp) ==
            (if cmp(x.rec, r) <= 0 && cmp(r, x.rec) <= 0 then [x] else []) + Tied(s, r, cmp)
  {
    FilterCons(x, s, (n: Node) => cmp(n.rec, r) <= 0 && cmp(r, n.rec) <= 0);
  }

  // A run whose first element exceeds r holds nothing tied with r.
  lemma {:induction false} NoneTied(s: seq<Node>, r: Record, cmp: Comparator)
    requires TotalPreorder(cmp) && Sorted(s, cmp)
    requires s != [] ==> cmp(s[0].rec, r) > 0
    ensures Tied(s, r, cmp) == []
  {
    if s != [] {
      assert |s| > 1 ==> cmp(s[0].rec, s[1].rec) <= 0;
      NoneTied(s[1..], r, cmp);
      TiedCons(s[0], s[1..], r, cmp);
      assert s == [s[0]] + s[1..];
    }
  }

  lemma {:induction false} MergeStable(a: seq<Node>, b: seq<Node>, r: Record, cmp: Comparator)
    requires TotalPreorder(cmp) && Sorted(a, cmp) && Sorted(b, cmp)
    ensures Tied(Merge(a, b, cmp), r, cmp) == Tied(a, r, cmp) + Tied(b, r, cmp)
  {
    hide Tied, Merge;
    MergeHead(a, b, cmp);
    NothingTied(a, r, cmp);
    NothingTied(b, r, cmp);
    if a != [] && b != [] {
      var m := Merge(a, b, cmp);
      TiedStep(m, r, cmp);
      if cmp(a[0].rec, b[0].rec) <= 0 {
        MergeStable(a[1..], b, r, cmp);
        TiedStep(a, r, cmp);
      } else {
        MergeStable(a, b[1..], r, cmp);
        TiedStep(b, r, cmp);
        RightFirst(a, b, r, cmp);
      }
    }
  }

  // One step of the merge, by cases.
  lemma MergeHead(a: seq<Node>, b: seq<Node>, cmp: Comparator)
    ensures a == [] ==> Merge(a, b, cmp) == b
    ensures b == [] ==> Merge(a, b, cmp) == a
    ensures a != [] && b != [] ==>
              var m := Merge(a, b, cmp);
              && m != []
              && (cmp(a[0].rec, b[0].rec) <= 0 ==> m[0] == a[0] && m[1..] == Merge(a[1..], b, cmp))
              && (cmp(a[0].rec, b[0].rec) > 0 ==> m[0] == b[0] && m[1..] == Merge(a, b[1..], cmp))
  {
  }

  // When the right head is emitted and is tied with r, nothing on the left is.
  lemma RightFirst(a: seq<Node>, b: seq<Node>, r: Record, cmp: Comparator)
    requires TotalPreorder(cmp) && Sorted(a, cmp) && a != [] && b != []
    requires cmp(a[0].rec, b[0].rec) > 0
    ensures cmp(b[0].rec, r) <= 0 && cmp(r, b[0].rec) <= 0 ==> Tied(a, r, cmp) == []
  {
    if cmp(r, b[0].rec) <= 0 {
      assert cmp(a[0].rec, r) > 0;
      NoneTied(a, r, cmp);
    }
  }

  lemma NothingTied(s: seq<Node>, r: Record, cmp: Comparator)
    ensures s == [] ==> Tied(s, r, cmp) == []
  {
  }

  lemma TiedStep(s: seq<Node>, r: Record, cmp: Comparator)
    requires s != []
    ensures Tied(s, r, cmp) ==
            (if cmp(s[0].rec, r) <= 0 && cmp(r, s[0].rec) <= 0 then [s[0]] else []) + Tied(s[1..], r, cmp)
  {
    TiedCons(s[0], s[1..], r, cmp);
    assert s == [s[0]] + s[1..];
  }

  lemma MembersSplit(s: seq<Node>, p: nat, q: nat)
    requires p <= q <= |s|
    ensures multiset(s) == multiset(s[..p]) + multiset(s[p..q]) + multiset(s[q..])
  {
    assert s[..q] == s[..p] + s[p..q];
    assert s == s[..q] + s[q..];
  }

  lemma {:induction false} PassMembers(s: seq<Node>, k: nat, cmp: Comparator)
    requires k >= 1
    ensures multiset(Pass(s, k, cmp)) == multiset(s)
    decreases |s|
  {
    if s != [] {
      hide Merge;
      var p, q := Min(k, |s|), Min(2 * k, |s|);
      MergeMembers(s[..p], s[p..q], cmp);
      PassMembers(s[q..], k, cmp);
      MembersSplit(s, p, q);
    }
  }

  // A pass turns sorted runs of size k into sorted runs of size 2k, stably.
  lemma {:induction false} PassRuns(s: seq<Node>, k: nat, cmp: Comparator)
    requires k >= 1 && TotalPreorder(cmp) && Runs(s, k, cmp)
    ensures Runs(Pass(s, k, cmp), 2 * k, cmp)
    decreases |s|
  {
    if s != [] {
      var p, q := Min(k, |s|), Min(2 * k, |s|);
      SecondRun(s, k, cmp);
      var m, rest := Merge(s[..p], s[p..q], cmp), Pass(s[q..], k, cmp);
      MergeSorted(s[..p], s[p..q], cmp);
      PassRuns(s[q..], k, cmp);
      assert |m| == q;
      assert (m + rest)[..q] == m && (m + rest)[q..] == rest;
    }
  }

  lemma SecondRun(s: seq<Node>, k: nat, cmp: Comparator)
    requires k >= 1 && s != [] && Runs(s, k, cmp)
    ensures var p, q := Min(k, |s|), Min(2 * k, |s|);
            Sorted(s[..p], cmp) && Sorted(s[p..q], cmp) && Runs(s[q..], k, cmp)
  {
    var p, q := Min(k, |s|), Min(2 * k, |s|);
    var t := s[p..];
    if t != [] {
      assert t[..Min(k, |t|)] == s[p..q] && t[Min(k, |t|)..] == s[q..];
    } else {
      assert s[p..q] == [] && s[q..] == [];
    }
  }

  lemma TiedSplit(s: seq<Node>, p: nat, q: nat, r: Record, cmp: Comparator)
    requires p <= q <= |s|
    ensures Tied(s, r, cmp) == Tied(s[..p], r, cmp) + Tied(s[p..q], r, cmp) + Tied(s[q..], r, cmp)
  {
    hide Tied;
    assert s[..q] == s[..p] + s[p..q] && s == s[..q] + s[q..];
    TiedAppend(s[..p], s[p..q], r, cmp);
    TiedAppend(s[..q], s[q..], r, cmp);
  }

  lemma {:induction false} PassStable(s: seq<Node>, k: nat, r: Record, cmp: Comparator)
    requires k >= 1 && TotalPreorder(cmp) && Runs(s, k, cmp)
    ensures Tied(Pass(s, k, cmp), r, cmp) == Tied(s, r, cmp)
    decreases |s|
  {
    if s != [] {
      hide Tied, Merge, Runs;
      var p, q := Min(k, |s|), Min(2 * k, |s|);
      SecondRun(s, k, cmp);
      var m, rest := Merge(s[..p], s[p..q], cmp), Pass(s[q..], k, cmp);
      MergeStable(s[..p], s[p..q], r, cmp);
      PassStable(s[q..], k, r, cmp);
      TiedAppend(m, rest, r, cmp);
      TiedSplit(s, p, q, r, cmp);
    }
  }

  lemma {:induction false} SingletonRuns(s: seq<Node>, cmp: Comparator)
    ensures Runs(s, 1, cmp)
  {
    if s != [] {
      SingletonRuns(s[1..], cmp);
    }
  }

  lemma {:induction false} SortFromCorrect(s: seq<Node>, k: nat, cmp: Comparator)
    requires k >= 1 && TotalPreorder(cmp) && Runs(s, k, cmp)
    ensures Sorted(SortFrom(s, k, cmp), cmp)
    ensures StablePermutation(s, SortFrom(s, k, cmp), cmp)
    decreases |s| - k
  {
    var t := Pass(s, k, cmp);
    PassRuns(s, k, cmp);
    PassMembers(s, k, cmp);
    forall r: Record ensures Tied(t, r, cmp) == Tied(s, r, cmp) {
      PassStable(s, k, r, cmp);
    }
    if |s| <= 2 * k {
      assert t[..|t|] == t;
    } else {
      SortFromCorrect(t, 2 * k, cmp);
    }
  }

  // HASH_SRT sorts stably whenever the comparator is a total preorder.
  lemma SortIsStable(s: seq<Node>, cmp: Comparator)
    requires TotalPreorder(cmp)
    ensures Sorted(SortFrom(s, 1, cmp), cmp)
    ensures StablePermutation(s, SortFrom(s, 1, cmp), cmp)
  {
    SingletonRuns(s, cmp);
    SortFromCorrect(s, 1, cmp);
  }

  // Whatever the comparator, sorting permutes.
  lemma {:induction false} SortPermutes(s: seq<Node>, k: nat, cmp: Comparator)
    requires k >= 1
    ensures multiset(SortFrom(s, k, cmp)) == multiset(s)
    decreases |s| - k
  {
    PassMembers(s, k, cmp);
    if |s| > 2 * k {
      SortPermutes(Pass(s, k, cmp), 2 * k, cmp);
    }
  }

  // There is only one stable sorted arrangement, so the theorem above pins the result.
  lemma {:induction false} StableSortUnique(s: seq<Node>, t: seq<Node>, cmp: Comparator)
    requires TotalPreorder(cmp) && Sorted(s, cmp) && Sorted(t, cmp)
    requires forall r: Record :: Tied(s, r, cmp) == Tied(t, r, cmp)
    ensures s == t
    decreases |s|
  {
    hide Tied;
    if s == [] {
      if t != [] {
        HeadTied(t, cmp);
        assert Tied(s, t[0].rec, cmp) == Tied(t, t[0].rec, cmp);
        NothingTied(s, t[0].rec, cmp);
      }
    } else {
      HeadTied(s, cmp);
      assert Tied(t, s[0].rec, cmp) == Tied(s, s[0].rec, cmp);
      NothingTied(t, s[0].rec, cmp);
      SameHead(s, t, cmp);
      forall r: Record ensures Tied(s[1..], r, cmp) == Tied(t[1..], r, cmp) {
        TiedStep(s, r, cmp);
        TiedStep(t, r, cmp);
        SameTail(if cmp(s[0].rec, r) <= 0 && cmp(r, s[0].rec) <= 0 then [s[0]] else [],
                 Tied(s[1..], r, cmp), Tied(t[1..], r, cmp));
      }
      StableSortUnique(s[1..], t[1..], cmp);
      assert s == [s[0]] + s[1..] && t == [t[0]] + t[1..];
    }
  }

  lemma SameTail<T>(h: seq<T>, s: seq<T>, t: seq<T>)
    requires h + s == h + t
    ensures s == t
  {
    assert s == (h + s)[|h|..] && t == (h + t)[|h|..];
  }

  lemma HeadTied(s: seq<Node>, cmp: Comparator)
    requires TotalPreorder(cmp) && s != []
    ensures Tied(s, s[0].rec, cmp) != [] && Tied(s, s[0].rec, cmp)[0] == s[0]
  {
    TiedStep(s, s[0].rec, cmp);
  }

  // Each head is tied with itself in the other sequence, so each compares at most the other.
  lemma SameHead(s: seq<Node>, t: seq<Node>, cmp: Comparator)
    requires TotalPreorder(cmp) && Sorted(s, cmp) && Sorted(t, cmp) && s != [] && t != []
    requires forall r: Record :: Tied(s, r, cmp) == Tied(t, r, cmp)
    ensures s[0] == t[0]
  {
    var a, b := s[0], t[0];
    HeadTied(s, cmp);
    HeadTied(t, cmp);
    assert Tied(t, a.rec, cmp)[0] == a && Tied(s, b.rec, cmp)[0] == b;
    assert a in t && b in s;
    hide Tied;
    assert cmp(b.rec, a.rec) <= 0 && cmp(a.rec, b.rec) <= 0;
    TiedStep(t, a.rec, cmp);
  }
}
