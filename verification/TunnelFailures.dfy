// When the summary fails, with what, and at which tunnel: for every table.
module TunnelFailures {
  import opened TunnelSpec

  // The loop passes over tunnel n: an earlier tunnel, itself not passed over, matches it.
  predicate PassedOver(ts: seq<Tunnel>, n: nat)
    requires n < |ts|
    decreases n
  {
    ts[n].id != 0 && exists j :: 0 <= j < n && ts[j].matched == ts[n].id && !PassedOver(ts, j)
  }

  // Tunnel j is put on a chain, and x is that tunnel or the one it matches.
  predicate Chains(ts: seq<Tunnel>, j: nat, x: nat)
    requires j < |ts|
  {
    !PassedOver(ts, j) && ts[j].matched != 0 && (ts[j].matched == x || ts[j].id == x)
  }

  // The first of the first n tunnels that puts x on a chain, or n.
  function FirstChaining(ts: seq<Tunnel>, n: nat, x: nat): (j: nat)
    requires n <= |ts|
    ensures j <= n && (j < n ==> Chains(ts, j, x))
    ensures forall i :: 0 <= i < j ==> !Chains(ts, i, x)
  {
    if n == 0 then 0
    else
      var j := FirstChaining(ts, n - 1, x);
      if j < n - 1 || Chains(ts, n - 1, x) then j else n
  }

  // Tunnel n matches one that does not exist, and is not passed over.
  predicate MatchMissing(ts: seq<Tunnel>, n: nat)
    requires n < |ts|
  {
    !PassedOver(ts, n) && ts[n].matched != 0 && !HasId(ts, ts[n].matched)
  }

  // Tunnel n, not matching on addresses itself, matches one whose first chain is a pair.
  predicate MatchesPair(ts: seq<Tunnel>, n: nat)
    requires n < |ts|
  {
    && !PassedOver(ts, n) && ts[n].matched != 0 && HasId(ts, ts[n].matched) && !ts[n].ipMatch
    && var j := FirstChaining(ts, n, ts[n].matched); j < n && ts[j].ipMatch
  }

  predicate Fails(ts: seq<Tunnel>, n: nat)
    requires n < |ts|
  {
    MatchMissing(ts, n) || MatchesPair(ts, n)
  }

  predicate FirstFailing(ts: seq<Tunnel>, n: nat)
    requires n < |ts|
  {
    Fails(ts, n) && forall j :: 0 <= j < n ==> !Fails(ts, j)
  }

  // ----- What the scan has met -----

  // Tunnel j is not passed over, and x is that tunnel or the one it matches.
  predicate Meets(ts: seq<Tunnel>, j: nat, x: nat)
    requires j < |ts|
  {
    !PassedOver(ts, j) && (ts[j].id == x || (ts[j].matched != 0 && ts[j].matched == x))
  }

  ghost predicate Met(ts: seq<Tunnel>, n: nat, s: Scan)
    requires n <= |ts|
  {
    forall x :: x in s.scanned <==> exists j :: 0 <= j < n && Meets(ts, j, x)
  }

  // Ids on a chain, and whether the first chain with an id is a pair, are decided by the
  // first tunnel that put the id on a chain.
  ghost predicate Kinds(ts: seq<Tunnel>, n: nat, s: Scan)
    requires n <= |ts|
  {
    forall x :: KindOf(ts, n, s.chains, x)
  }

  predicate KindOf(ts: seq<Tunnel>, n: nat, chains: seq<Chain>, x: nat)
    requires n <= |ts|
  {
    var k, j := FirstWith(chains, x), FirstChaining(ts, n, x);
    (k < |chains| <==> j < n) && (k < |chains| ==> chains[k].pair == ts[j].ipMatch)
  }

  // The scan has met tunnel n already exactly when the loop passes over it.
  lemma MetIsPassedOver(ts: seq<Tunnel>, n: nat, s: Scan)
    requires n < |ts| && DistinctIds(ts) && Met(ts, n, s)
    ensures ts[n].id in s.scanned <==> PassedOver(ts, n)
  {
    if ts[n].id in s.scanned {
      var j :| 0 <= j < n && Meets(ts, j, ts[n].id);
      assert ts[j].id != ts[n].id;
    }
    if PassedOver(ts, n) {
      var j :| 0 <= j < n && ts[j].matched == ts[n].id && !PassedOver(ts, j);
      assert Meets(ts, j, ts[n].id);
    }
  }

  // Whether a turn fails, in terms of the table alone.
  lemma TurnFails(ts: seq<Tunnel>, n: nat, s: Scan)
    requires n < |ts| && DistinctIds(ts) && Met(ts, n, s) && Kinds(ts, n, s)
    ensures Turn(ts, ts[n], s).Err? <==> Fails(ts, n)
    ensures MatchMissing(ts, n) ==> Turn(ts, ts[n], s) == Err(MatchedNotExists(ts[n].id, ts[n].matched))
    ensures MatchesPair(ts, n) ==> Turn(ts, ts[n], s) == Err(PairCannotGrow(ts[n].id))
  {
    hide DistinctIds, Met, PassedOver, FirstChaining, HasId;
    MetIsPassedOver(ts, n, s);
    assert KindOf(ts, n, s.chains, ts[n].matched);
  }

  // ----- What a turn that succeeds keeps -----

  lemma MetNext(ts: seq<Tunnel>, n: nat, s: Scan)
    requires n < |ts| && DistinctIds(ts) && Met(ts, n, s) && Turn(ts, ts[n], s).Ok?
    requires ChainsScanned(s)
    ensures Met(ts, n + 1, Turn(ts, ts[n], s).scan)
    ensures ChainsScanned(Turn(ts, ts[n], s).scan)
  {
    hide PassedOver, DistinctIds, HasId;
    var t, s1 := ts[n], Turn(ts, ts[n], s).scan;
    MetIsPassedOver(ts, n, s);
    NowScanned(ts, t, s);
    forall x ensures x in s1.scanned <==> exists j :: 0 <= j < n + 1 && Meets(ts, j, x) {
      if j :| 0 <= j < n + 1 && Meets(ts, j, x) {
        assert j < n ==> x in s.scanned;
      }
      if x in s1.scanned {
        if x in s.scanned {
          var j :| 0 <= j < n && Meets(ts, j, x);
          assert 0 <= j < n + 1;
        } else {
          assert Meets(ts, n, x);
        }
      }
    }
  }

  ghost predicate ChainsScanned(s: Scan) {
    forall k, x :: 0 <= k < |s.chains| && x in s.chains[k].ids ==> x in s.scanned
  }

  // A turn that is not passed over scans the tunnel and the one it matches, and no more.
  lemma NowScanned(ts: seq<Tunnel>, t: Tunnel, s: Scan)
    requires Turn(ts, t, s).Ok? && ChainsScanned(s)
    ensures var s1 := Turn(ts, t, s).scan;
            && ChainsScanned(s1)
            && forall x :: x in s1.scanned <==>
                 x in s.scanned || (t.id !in s.scanned && (x == t.id || (t.matched != 0 && x == t.matched)))
  {
    hide HasId;
    var s1, k := Turn(ts, t, s).scan, FirstWith(s.chains, t.matched);
    if t.id !in s.scanned && t.matched != 0 && k < |s.chains| {
      assert t.matched in s.scanned;
    }
  }

  lemma FirstWithIs(chains: seq<Chain>, x: nat, k: nat)
    requires k <= |chains| && (k < |chains| ==> x in chains[k].ids)
    requires forall j :: 0 <= j < k ==> x !in chains[j].ids
    ensures FirstWith(chains, x) == k
  {
  }

  // An id not met is on no chain.
  lemma UnmetUnchained(ts: seq<Tunnel>, n: nat, s: Scan, x: nat)
    requires n <= |ts| && ChainsScanned(s) && x !in s.scanned
    ensures FirstWith(s.chains, x) == |s.chains|
  {
  }

  lemma FirstChainingNext(ts: seq<Tunnel>, n: nat, x: nat)
    requires n < |ts|
    ensures FirstChaining(ts, n + 1, x) == var j := FirstChaining(ts, n, x);
                                           if j < n || Chains(ts, n, x) then j else n + 1
  {
  }

  // Appending a chain: ids already on one keep it as their first.
  lemma KindAppended(ts: seq<Tunnel>, n: nat, s: Scan, c: Chain, x: nat)
    requires n < |ts| && KindOf(ts, n, s.chains, x)
    requires x in c.ids <==> Chains(ts, n, x)
    requires c.pair == ts[n].ipMatch
    ensures KindOf(ts, n + 1, s.chains + [c], x)
  {
    hide Chains, FirstChaining, FirstWith;
    FirstChainingNext(ts, n, x);
    var k := FirstWith(s.chains, x);
    var chains := s.chains + [c];
    var k1 := if k < |s.chains| then k else if x in c.ids then |s.chains| else |chains|;
    FirstWithIs(chains, x, k1);
  }

  // Growing the chain of the matched tunnel by one not met before.
  lemma KindGrown(ts: seq<Tunnel>, n: nat, s: Scan, k: nat, x: nat)
    requires n < |ts| && KindOf(ts, n, s.chains, x) && k == FirstWith(s.chains, ts[n].matched) < |s.chains|
    requires FirstWith(s.chains, ts[n].id) == |s.chains|
    requires !s.chains[k].pair && !ts[n].ipMatch
    requires Chains(ts, n, x) <==> x == ts[n].matched || x == ts[n].id
    ensures KindOf(ts, n + 1, s.chains[k := Chain(false, s.chains[k].ids + [ts[n].id])], x)
  {
    hide Chains, FirstChaining, FirstWith;
    FirstChainingNext(ts, n, x);
    var chains := s.chains[k := Chain(false, s.chains[k].ids + [ts[n].id])];
    FirstWithIs(chains, x, if x == ts[n].id then k else FirstWith(s.chains, x));
  }

  lemma KindKept(ts: seq<Tunnel>, n: nat, s: Scan, x: nat)
    requires n < |ts| && KindOf(ts, n, s.chains, x) && !Chains(ts, n, x)
    ensures KindOf(ts, n + 1, s.chains, x)
  {
    hide Chains, FirstChaining, FirstWith;
    FirstChainingNext(ts, n, x);
  }

  lemma KindsNext(ts: seq<Tunnel>, n: nat, s: Scan)
    requires n < |ts| && DistinctIds(ts) && Met(ts, n, s) && Kinds(ts, n, s) && ChainsScanned(s)
    requires Turn(ts, ts[n], s).Ok?
    ensures Kinds(ts, n + 1, Turn(ts, ts[n], s).scan)
  {
    hide DistinctIds, Met, PassedOver, FirstChaining, HasId, FirstWith, KindOf, ChainsScanned;
    MetIsPassedOver(ts, n, s);
    var t, s1 := ts[n], Turn(ts, ts[n], s).scan;
    var k := FirstWith(s.chains, t.matched);
    if t.id !in s.scanned {
      UnmetUnchained(ts, n, s, t.id);
    }
    var n1, chains := n + 1, s1.chains;
    forall x ensures KindOf(ts, n1, chains, x) {
      assert KindOf(ts, n, s.chains, x);
      if t.id in s.scanned || t.matched == 0 {
        KindKept(ts, n, s, x);
      } else if t.ipMatch || k == |s.chains| {
        KindAppended(ts, n, s, Chain(t.ipMatch, [t.matched, t.id]), x);
      } else {
        KindGrown(ts, n, s, k, x);
      }
    }
  }

  // ----- The whole scan -----

  // While no tunnel fails the scan goes on, with what it has met and chained known.
  lemma {:induction false} ScanGoesOn(ts: seq<Tunnel>, n: nat)
    requires n <= |ts| && DistinctIds(ts) && forall j :: 0 <= j < n ==> !Fails(ts, j)
    ensures ScanTo(ts, n).Ok?
    ensures var s := ScanTo(ts, n).scan; Met(ts, n, s) && Kinds(ts, n, s) && ChainsScanned(s)
  {
    hide Fails, DistinctIds, Turn, Met, Kinds, ChainsScanned;
    if n == 0 {
      NothingMet(ts);
    } else {
      ScanGoesOn(ts, n - 1);
      var s := ScanTo(ts, n - 1).scan;
      TurnFails(ts, n - 1, s);
      MetNext(ts, n - 1, s);
      KindsNext(ts, n - 1, s);
    }
  }

  lemma NothingMet(ts: seq<Tunnel>)
    ensures var s := Scan([], [], []); Met(ts, 0, s) && Kinds(ts, 0, s) && ChainsScanned(s)
  {
  }

  // At every tunnel the scan reaches: it is skipped exactly when it is passed over.
  lemma SkippedIff(ts: seq<Tunnel>, n: nat)
    requires n < |ts| && DistinctIds(ts) && ScanTo(ts, n).Ok?
    ensures ts[n].id in ScanTo(ts, n).scan.scanned <==> PassedOver(ts, n)
  {
    hide PassedOver, DistinctIds;
    NoneFailed(ts, n);
    ScanGoesOn(ts, n);
    MetIsPassedOver(ts, n, ScanTo(ts, n).scan);
  }

  lemma FailsThere(ts: seq<Tunnel>, n: nat)
    requires n < |ts| && DistinctIds(ts) && FirstFailing(ts, n)
    ensures MatchMissing(ts, n) ==> Summary(ts) == Err(MatchedNotExists(ts[n].id, ts[n].matched))
    ensures MatchesPair(ts, n) ==> Summary(ts) == Err(PairCannotGrow(ts[n].id))
    ensures ScanTo(ts, n + 1).Err? && Summary(ts).Err?
  {
    hide DistinctIds, MatchMissing, MatchesPair, Turn;
    ScanGoesOn(ts, n);
    TurnFails(ts, n, ScanTo(ts, n).scan);
    StaysFailed(ts, n + 1);
  }

  // A failed scan stays failed.
  lemma {:induction false} StaysFailed(ts: seq<Tunnel>, n: nat)
    requires n <= |ts| && ScanTo(ts, n).Err?
    ensures Summary(ts) == ScanTo(ts, n)
    decreases |ts| - n
  {
    if n < |ts| {
      StaysFailed(ts, n + 1);
    }
  }

  // A scan that got to n failed nowhere before.
  lemma {:induction false} NoneFailed(ts: seq<Tunnel>, n: nat)
    requires n <= |ts| && DistinctIds(ts) && ScanTo(ts, n).Ok?
    ensures forall j :: 0 <= j < n ==> !Fails(ts, j)
  {
    hide Fails, DistinctIds, Turn;
    if n > 0 {
      NoneFailed(ts, n - 1);
      ScanGoesOn(ts, n - 1);
      TurnFails(ts, n - 1, ScanTo(ts, n - 1).scan);
    }
  }

  lemma {:induction false} SomeFirst(ts: seq<Tunnel>, n: nat) returns (m: nat)
    requires n < |ts| && Fails(ts, n)
    ensures m <= n && FirstFailing(ts, m)
  {
    hide Fails;
    if j :| 0 <= j < n && Fails(ts, j) {
      m := SomeFirst(ts, j);
    } else {
      m := n;
    }
  }

  // For every table: the summary fails exactly when some tunnel fails, and then with the
  // failure of the first one.
  lemma SummaryFailsIff(ts: seq<Tunnel>)
    requires DistinctIds(ts)
    ensures Summary(ts).Err? <==> exists n :: 0 <= n < |ts| && Fails(ts, n)
    ensures forall n :: 0 <= n < |ts| ==>
              (Summary(ts) == Err(MatchedNotExists(ts[n].id, ts[n].matched)) <==> FirstFailing(ts, n) && MatchMissing(ts, n))
    ensures forall n :: 0 <= n < |ts| ==>
              (Summary(ts) == Err(PairCannotGrow(ts[n].id)) <==> FirstFailing(ts, n) && MatchesPair(ts, n))
  {
    hide DistinctIds, MatchMissing, MatchesPair, FirstFailing, Summary;
    if n :| 0 <= n < |ts| && Fails(ts, n) {
      var m := SomeFirst(ts, n);
      FailsThere(ts, m);
      FirstNames(ts, m);
    } else {
      SummaryOk(ts);
    }
  }

  lemma SummaryOk(ts: seq<Tunnel>)
    requires DistinctIds(ts) && forall n :: 0 <= n < |ts| ==> !Fails(ts, n)
    ensures Summary(ts).Ok?
    ensures forall n :: 0 <= n < |ts| ==> !FirstFailing(ts, n)
  {
    ScanGoesOn(ts, |ts|);
  }

  // Only the first failing tunnel is named by the failure.
  lemma FirstNames(ts: seq<Tunnel>, m: nat)
    requires m < |ts| && DistinctIds(ts) && FirstFailing(ts, m)
    ensures Fails(ts, m) && !(MatchMissing(ts, m) && MatchesPair(ts, m))
    ensures forall n :: 0 <= n < |ts| && ts[n].id == ts[m].id ==> n == m
    ensures forall n :: 0 <= n < |ts| && FirstFailing(ts, n) ==> n == m
  {
    hide PassedOver, FirstChaining, HasId;
  }

  // A match that does not exist goes unnoticed when its tunnel is passed over: 1 matches 2,
  // and 2 matches a tunnel that does not exist.
  lemma MissingMatchPassed()
    ensures var ts := [Tunnel(1, 2, false), Tunnel(2, 9, false)];
            && ts[1].matched == 9 && !HasId(ts, 9) && PassedOver(ts, 1)
            && Summary(ts) == Ok(Scan([], [Chain(false, [2, 1])], [1, 2]))
  {
    var ts := [Tunnel(1, 2, false), Tunnel(2, 9, false)];
    assert ts[1].id == 2;
    assert !PassedOver(ts, 0) && ts[0].matched == ts[1].id;
    assert ScanTo(ts, 1) == Ok(Scan([], [Chain(false, [2, 1])], [1, 2]));
  }

  // A tunnel that matches one whose first chain is a pair: 2 matches 1 and addresses too,
  // 3 matches 2.
  lemma PairBreaks()
    ensures var ts := [Tunnel(1, 0, false), Tunnel(2, 1, true), Tunnel(3, 2, false)];
            MatchesPair(ts, 2) && Summary(ts) == Err(PairCannotGrow(3))
  {
    var ts := [Tunnel(1, 0, false), Tunnel(2, 1, true), Tunnel(3, 2, false)];
    assert ts[0].id == 1 && ts[1].id == 2;
    assert !PassedOver(ts, 0) && !PassedOver(ts, 1) && !PassedOver(ts, 2);
    assert !Chains(ts, 0, 2) && Chains(ts, 1, 2);
    assert FirstChaining(ts, 2, 2) == 1;
    assert !Chains(ts, 0, 1) && !Fails(ts, 0);
    assert FirstChaining(ts, 1, 1) == 1 && !Fails(ts, 1);
    assert FirstFailing(ts, 2);
    FailsThere(ts, 2);
  }
}
