// The summary itself, for every table it succeeds on: which tunnels stand alone, and what
// every chain and pair holds, from the table alone.
module TunnelSummary {
  import opened TunnelSpec
  import opened TunnelFailures

  // Tunnel j is put on a chain.
  predicate Chained(ts: seq<Tunnel>, j: nat)
    requires j < |ts|
  {
    !PassedOver(ts, j) && ts[j].matched != 0
  }

  // Tunnel j starts a chain: it matches on addresses, or no chain has the matched one yet.
  predicate Starts(ts: seq<Tunnel>, j: nat)
    requires j < |ts|
  {
    Chained(ts, j) && (ts[j].ipMatch || FirstChaining(ts, j, ts[j].matched) == j)
  }

  // The tunnel that started the chain tunnel j is put on.
  function StartOf(ts: seq<Tunnel>, j: nat): (s: nat)
    requires j < |ts| && Chained(ts, j)
    ensures s <= j && Starts(ts, s)
    decreases j
  {
    if Starts(ts, j) then j else StartOf(ts, FirstChaining(ts, j, ts[j].matched))
  }

  // How many of the first n tunnels start a chain.
  function Rank(ts: seq<Tunnel>, n: nat): nat
    requires n <= |ts|
  {
    if n == 0 then 0 else Rank(ts, n - 1) + if Starts(ts, n - 1) then 1 else 0
  }

  // The tunnels among the first n put on the chain that s started, in order.
  function Members(ts: seq<Tunnel>, n: nat, s: nat): seq<nat>
    requires n <= |ts|
  {
    if n == 0 then []
    else Members(ts, n - 1, s)
         + if Chained(ts, n - 1) && StartOf(ts, n - 1) == s then [ts[n - 1].id] else []
  }

  // The chain that s started: what s matches, then its members.
  function ChainOf(ts: seq<Tunnel>, n: nat, s: nat): Chain
    requires n <= |ts| && s < |ts|
  {
    Chain(ts[s].ipMatch, [ts[s].matched] + Members(ts, n, s))
  }

  // The first n tunnels that start a chain, in order.
  function Starters(ts: seq<Tunnel>, n: nat): (ss: seq<nat>)
    requires n <= |ts|
    ensures |ss| == Rank(ts, n) && forall k :: 0 <= k < |ss| ==> ss[k] < n && Starts(ts, ss[k]) && Rank(ts, ss[k]) == k
  {
    if n == 0 then [] else Starters(ts, n - 1) + if Starts(ts, n - 1) then [n - 1] else []
  }

  // The chains of the first n tunnels, in the order they were started.
  ghost predicate ChainsAre(ts: seq<Tunnel>, n: nat, chains: seq<Chain>)
    requires n <= |ts|
  {
    |chains| == Rank(ts, n) && forall k :: 0 <= k < |chains| ==> chains[k] == ChainOf(ts, n, Starters(ts, n)[k])
  }

  // ----- Where an id is first on a chain -----

  ghost predicate Places(ts: seq<Tunnel>, n: nat, chains: seq<Chain>)
    requires n <= |ts|
  {
    forall x :: PlaceOf(ts, n, chains, x)
  }

  predicate PlaceOf(ts: seq<Tunnel>, n: nat, chains: seq<Chain>, x: nat)
    requires n <= |ts|
  {
    var j := FirstChaining(ts, n, x);
    FirstWith(chains, x) == if j < n then Rank(ts, StartOf(ts, j)) else |chains|
  }

  lemma {:induction false} RankGrows(ts: seq<Tunnel>, m: nat, n: nat)
    requires m <= n <= |ts|
    ensures Rank(ts, m) <= Rank(ts, n)
    ensures m < n && Starts(ts, m) ==> Rank(ts, m) < Rank(ts, n)
  {
    if m < n {
      RankGrows(ts, m, n - 1);
    }
  }

  lemma PlaceAppended(ts: seq<Tunnel>, n: nat, chains: seq<Chain>, c: Chain, x: nat)
    requires n < |ts| && PlaceOf(ts, n, chains, x) && |chains| == Rank(ts, n)
    requires Starts(ts, n) && (x in c.ids <==> Chains(ts, n, x))
    ensures PlaceOf(ts, n + 1, chains + [c], x)
  {
    hide FirstChaining, FirstWith, PassedOver;
    FirstChainingNext(ts, n, x);
    var j := FirstChaining(ts, n, x);
    if j < n {
      RankGrows(ts, StartOf(ts, j), n);
    }
    FirstWithIs(chains + [c], x, if j < n then FirstWith(chains, x) else if x in c.ids then |chains| else |chains| + 1);
  }

  lemma PlaceGrown(ts: seq<Tunnel>, n: nat, chains: seq<Chain>, c: Chain, x: nat)
    requires n < |ts| && PlaceOf(ts, n, chains, x) && PlaceOf(ts, n, chains, ts[n].matched)
    requires Chained(ts, n) && !Starts(ts, n) && FirstWith(chains, ts[n].matched) < |chains|
    requires c.ids == chains[FirstWith(chains, ts[n].matched)].ids + [ts[n].id]
    requires FirstWith(chains, ts[n].id) == |chains| == Rank(ts, n) && PlaceOf(ts, n, chains, ts[n].id)
    ensures PlaceOf(ts, n + 1, chains[FirstWith(chains, ts[n].matched) := c], x)
  {
    hide FirstChaining, FirstWith, PassedOver, Rank;
    var k, j := FirstWith(chains, ts[n].matched), FirstChaining(ts, n, ts[n].id);
    if j < n {
      RankGrows(ts, StartOf(ts, j), n);
    }
    FirstChainingNext(ts, n, x);
    FirstWithIs(chains[k := c], x, if x == ts[n].id then k else FirstWith(chains, x));
  }

  lemma PlaceKept(ts: seq<Tunnel>, n: nat, chains: seq<Chain>, x: nat)
    requires n < |ts| && PlaceOf(ts, n, chains, x) && !Chained(ts, n)
    ensures PlaceOf(ts, n + 1, chains, x)
  {
    hide FirstChaining, FirstWith, PassedOver, Rank;
    FirstChainingNext(ts, n, x);
  }

  // ----- What a turn does -----

  // Whether a turn that does not fail starts a chain.
  lemma StartsIff(ts: seq<Tunnel>, n: nat, s: Scan)
    requires n < |ts| && Chained(ts, n) && PlaceOf(ts, n, s.chains, ts[n].matched) && |s.chains| == Rank(ts, n)
    ensures Starts(ts, n) <==> ts[n].ipMatch || FirstWith(s.chains, ts[n].matched) == |s.chains|
    ensures !Starts(ts, n) ==>
              && FirstWith(s.chains, ts[n].matched) == Rank(ts, StartOf(ts, n))
              && StartOf(ts, n) < n
  {
    hide FirstChaining, FirstWith, PassedOver;
    var j := FirstChaining(ts, n, ts[n].matched);
    if j < n {
      RankGrows(ts, StartOf(ts, j), n);
    }
  }

  lemma PlacesNext(ts: seq<Tunnel>, n: nat, s: Scan)
    requires n < |ts| && DistinctIds(ts) && Met(ts, n, s) && ChainsScanned(s) && Turn(ts, ts[n], s).Ok?
    requires Places(ts, n, s.chains) && |s.chains| == Rank(ts, n)
    ensures Places(ts, n + 1, Turn(ts, ts[n], s).scan.chains)
  {
    hide DistinctIds, Met, PassedOver, FirstChaining, HasId, FirstWith, PlaceOf, ChainsScanned, Starts, Rank, StartOf;
    MetIsPassedOver(ts, n, s);
    var t, n1, chains := ts[n], n + 1, Turn(ts, ts[n], s).scan.chains;
    if t.id !in s.scanned {
      UnmetUnchained(ts, n, s, t.id);
    }
    assert PlaceOf(ts, n, s.chains, t.matched);
    if Chained(ts, n) {
      StartsIff(ts, n, s);
    }
    forall x ensures PlaceOf(ts, n1, chains, x) {
      assert PlaceOf(ts, n, s.chains, x);
      if !Chained(ts, n) {
        PlaceKept(ts, n, s.chains, x);
      } else if Starts(ts, n) {
        PlaceAppended(ts, n, s.chains, Chain(t.ipMatch, [t.matched, t.id]), x);
      } else {
        var k := FirstWith(s.chains, t.matched);
        assert PlaceOf(ts, n, s.chains, t.id);
        PlaceGrown(ts, n, s.chains, Chain(false, s.chains[k].ids + [t.id]), x);
      }
    }
  }

  lemma {:induction false} NoMembers(ts: seq<Tunnel>, n: nat, s: nat)
    requires n <= s < |ts|
    ensures Members(ts, n, s) == []
  {
    if n > 0 {
      NoMembers(ts, n - 1, s);
    }
  }

  // Chain number k after the turn, when chain number k was right before it.
  lemma ChainsNext(ts: seq<Tunnel>, n: nat, s: Scan)
    requires n < |ts| && DistinctIds(ts) && Met(ts, n, s) && Turn(ts, ts[n], s).Ok?
    requires Places(ts, n, s.chains) && ChainsAre(ts, n, s.chains)
    ensures ChainsAre(ts, n + 1, Turn(ts, ts[n], s).scan.chains)
  {
    hide DistinctIds, Met, PassedOver, FirstChaining, HasId, FirstWith, PlaceOf, Starts, Rank, StartOf, Members, Starters;
    MetIsPassedOver(ts, n, s);
    StartersNext(ts, n);
    var t, n1, chains := ts[n], n + 1, Turn(ts, ts[n], s).scan.chains;
    assert PlaceOf(ts, n, s.chains, t.matched);
    if Chained(ts, n) {
      StartsIff(ts, n, s);
    }
    assert |chains| == Rank(ts, n1);
    forall k | 0 <= k < |chains| ensures chains[k] == ChainOf(ts, n1, Starters(ts, n1)[k]) {
      if k < |s.chains| {
        ChainKept(ts, n, Starters(ts, n)[k]);
        assert s.chains[k] == ChainOf(ts, n, Starters(ts, n)[k]);
        SameRank(ts, n, Starters(ts, n)[k]);
      } else {
        ChainStarted(ts, n);
      }
    }
  }

  lemma StartersNext(ts: seq<Tunnel>, n: nat)
    requires n < |ts|
    ensures Starters(ts, n + 1) == Starters(ts, n) + if Starts(ts, n) then [n] else []
    ensures Rank(ts, n + 1) == Rank(ts, n) + if Starts(ts, n) then 1 else 0
    ensures Starts(ts, n) ==> Chained(ts, n)
  {
  }

  lemma ChainKept(ts: seq<Tunnel>, n: nat, s: nat)
    requires n < |ts| && s < n
    ensures ChainOf(ts, n + 1, s) == if Chained(ts, n) && StartOf(ts, n) == s
                                     then Chain(ts[s].ipMatch, ChainOf(ts, n, s).ids + [ts[n].id]) else ChainOf(ts, n, s)
  {
    hide PassedOver, StartOf;
    var m := Members(ts, n, s);
    assert m + [] == m;
    assert [ts[s].matched] + (m + [ts[n].id]) == [ts[s].matched] + m + [ts[n].id];
  }

  // The started chain is named by its rank.
  lemma SameRank(ts: seq<Tunnel>, n: nat, s: nat)
    requires n < |ts| && s < n && Starts(ts, s)
    ensures Chained(ts, n) && !Starts(ts, n) ==> (StartOf(ts, n) == s <==> Rank(ts, StartOf(ts, n)) == Rank(ts, s))
    ensures Chained(ts, n) && Starts(ts, n) ==> StartOf(ts, n) == n
  {
    hide PassedOver, Rank, FirstChaining;
    if Chained(ts, n) && !Starts(ts, n) {
      var u := StartOf(ts, n);
      if u < s {
        RankGrows(ts, u, s);
      } else if s < u {
        RankGrows(ts, s, u);
      }
    }
  }

  lemma ChainStarted(ts: seq<Tunnel>, n: nat)
    requires n < |ts| && Starts(ts, n)
    ensures ChainOf(ts, n + 1, n) == Chain(ts[n].ipMatch, [ts[n].matched, ts[n].id])
  {
    hide PassedOver, FirstChaining;
    NoMembers(ts, n, n);
    assert StartOf(ts, n) == n;
    assert [ts[n].matched] + ([] + [ts[n].id]) == [ts[n].matched, ts[n].id];
  }

  // ----- The stand-alone tunnels -----

  // Of the first n tunnels, none that is not passed over matches this id.
  predicate Unmatched(ts: seq<Tunnel>, n: nat, id: nat)
    requires n <= |ts|
  {
    forall j :: 0 <= j < n && !PassedOver(ts, j) && ts[j].matched != 0 ==> ts[j].matched != id
  }

  predicate StandsAlone(ts: seq<Tunnel>, n: nat, i: nat)
    requires n <= |ts| && i < |ts|
  {
    ts[i].matched == 0 && !PassedOver(ts, i) && Unmatched(ts, n, ts[i].id)
  }

  // Those of the first i tunnels that stand alone among the first n, in order.
  function AloneIds(ts: seq<Tunnel>, n: nat, i: nat): (ids: seq<nat>)
    requires i <= |ts| && n <= |ts|
    ensures forall id :: id in ids <==> exists j :: 0 <= j < i && StandsAlone(ts, n, j) && ts[j].id == id
  {
    if i == 0 then []
    else
      var ids := AloneIds(ts, n, i - 1);
      if StandsAlone(ts, n, i - 1) then
        var r := ids + [ts[i - 1].id];
        assert forall id :: id in r <==> id in ids || id == ts[i - 1].id;
        r
      else ids
  }

  lemma UnmatchedNext(ts: seq<Tunnel>, n: nat, id: nat)
    requires n < |ts|
    ensures Unmatched(ts, n + 1, id) <==> Unmatched(ts, n, id) && !(Chained(ts, n) && ts[n].matched == id)
  {
  }

  lemma {:induction false} RemoveFirstSnoc(s: seq<nat>, x: nat, m: nat)
    ensures m !in s && x != m ==> RemoveFirst(s + [x], m) == s + [x]
    ensures m !in s && x == m ==> RemoveFirst(s + [x], m) == s
    ensures m in s ==> RemoveFirst(s + [x], m) == RemoveFirst(s, m) + [x]
    ensures m !in s ==> RemoveFirst(s, m) == s
  {
    if s == [] {
      assert s + [x] == [x] && [x][1..] == [];
    } else {
      assert (s + [x])[1..] == s[1..] + [x];
      RemoveFirstSnoc(s[1..], x, m);
      if s[0] != m {
        assert [s[0]] + s[1..] == s;
        assert [s[0]] + (s[1..] + [x]) == s + [x];
        assert [s[0]] + (RemoveFirst(s[1..], m) + [x]) == [s[0]] + RemoveFirst(s[1..], m) + [x];
      }
    }
  }

  // A tunnel put on a chain takes the one it matches out of the stand-alone list.
  lemma {:induction false} MatchTakesOut(ts: seq<Tunnel>, n: nat, i: nat)
    requires i <= n < |ts| && DistinctIds(ts) && Chained(ts, n)
    ensures RemoveFirst(AloneIds(ts, n, i), ts[n].matched) == AloneIds(ts, n + 1, i)
  {
    hide Unmatched, PassedOver, DistinctIds;
    var m := ts[n].matched;
    if i == 0 {
      assert RemoveFirst([], m) == [];
    } else {
      var ids, id := AloneIds(ts, n, i - 1), ts[i - 1].id;
      MatchTakesOut(ts, n, i - 1);
      UnmatchedNext(ts, n, id);
      if StandsAlone(ts, n, i - 1) {
        RemoveFirstSnoc(ids, id, m);
        NotBefore(ts, n, i - 1);
      }
    }
  }

  // Ids being distinct, the id of tunnel i is not among those before it.
  lemma NotBefore(ts: seq<Tunnel>, n: nat, i: nat)
    requires i < |ts| && n <= |ts| && DistinctIds(ts)
    ensures ts[i].id !in AloneIds(ts, n, i)
  {
  }

  lemma {:induction false} AloneSame(ts: seq<Tunnel>, n: nat, i: nat)
    requires i <= n < |ts| && !Chained(ts, n)
    ensures AloneIds(ts, n + 1, i) == AloneIds(ts, n, i)
  {
    hide Unmatched, PassedOver;
    if i > 0 {
      AloneSame(ts, n, i - 1);
      UnmatchedNext(ts, n, ts[i - 1].id);
    }
  }

  lemma AloneNext(ts: seq<Tunnel>, n: nat, s: Scan)
    requires n < |ts| && DistinctIds(ts) && Met(ts, n, s) && Turn(ts, ts[n], s).Ok?
    requires s.alone == AloneIds(ts, n, n)
    ensures Turn(ts, ts[n], s).scan.alone == AloneIds(ts, n + 1, n + 1)
  {
    hide DistinctIds, Met, PassedOver, FirstWith, HasId, Unmatched, RemoveFirst;
    MetIsPassedOver(ts, n, s);
    UnmatchedNext(ts, n, ts[n].id);
    if Chained(ts, n) {
      MatchTakesOut(ts, n, n);
    } else {
      AloneSame(ts, n, n);
      NewUnmatched(ts, n);
    }
  }

  // Nothing not passed over before a tunnel matches it, unless it is passed over itself.
  lemma NewUnmatched(ts: seq<Tunnel>, n: nat)
    requires n < |ts|
    ensures !PassedOver(ts, n) ==> Unmatched(ts, n, ts[n].id)
  {
    if !PassedOver(ts, n) {
      forall j | 0 <= j < n && !PassedOver(ts, j) && ts[j].matched != 0 ensures ts[j].matched != ts[n].id {}
    }
  }

  // ----- The whole summary -----

  lemma {:induction false} ScanIs(ts: seq<Tunnel>, n: nat)
    requires n <= |ts| && DistinctIds(ts) && ScanTo(ts, n).Ok?
    ensures var s := ScanTo(ts, n).scan;
            Met(ts, n, s) && ChainsScanned(s) && Places(ts, n, s.chains) && ChainsAre(ts, n, s.chains)
            && s.alone == AloneIds(ts, n, n)
  {
    hide DistinctIds, Turn, Met, ChainsScanned, Places, ChainsAre;
    if n == 0 {
      NothingYet(ts);
    } else {
      ScanIs(ts, n - 1);
      var s := ScanTo(ts, n - 1).scan;
      RanksOf(ts, n - 1, s.chains);
      MetNext(ts, n - 1, s);
      PlacesNext(ts, n - 1, s);
      ChainsNext(ts, n - 1, s);
      AloneNext(ts, n - 1, s);
    }
  }

  lemma NothingYet(ts: seq<Tunnel>)
    ensures Met(ts, 0, Scan([], [], [])) && ChainsScanned(Scan([], [], []))
    ensures Places(ts, 0, []) && ChainsAre(ts, 0, [])
  {
  }

  lemma RanksOf(ts: seq<Tunnel>, n: nat, chains: seq<Chain>)
    requires n <= |ts| && ChainsAre(ts, n, chains)
    ensures |chains| == Rank(ts, n)
  {
  }

  // For every table: the summary that succeeds lists the stand-alone tunnels in table
  // order, and the chains and pairs in the order they were started.
  lemma SummaryIs(ts: seq<Tunnel>)
    requires DistinctIds(ts) && Summary(ts).Ok?
    ensures Summary(ts).scan.alone == AloneIds(ts, |ts|, |ts|)
    ensures ChainsAre(ts, |ts|, Summary(ts).scan.chains)
  {
    hide ChainsAre, DistinctIds;
    ScanIs(ts, |ts|);
  }

  // An id stands alone exactly when its tunnel matches none, is not passed over, and no
  // tunnel that is not passed over matches it.
  lemma StandAloneIff(ts: seq<Tunnel>, id: nat)
    requires DistinctIds(ts) && Summary(ts).Ok?
    ensures id in Summary(ts).scan.alone <==>
            exists n :: 0 <= n < |ts| && ts[n].id == id && ts[n].matched == 0 && !PassedOver(ts, n)
                        && forall j :: 0 <= j < |ts| && !PassedOver(ts, j) && ts[j].matched != 0 ==> ts[j].matched != id
  {
    hide ChainsAre, DistinctIds, PassedOver, Summary;
    SummaryIs(ts);
    if n :| 0 <= n < |ts| && ts[n].id == id && ts[n].matched == 0 && !PassedOver(ts, n) && Unmatched(ts, |ts|, id) {
      assert StandsAlone(ts, |ts|, n);
    }
  }

  lemma {:induction false} InMembers(ts: seq<Tunnel>, n: nat, s: nat, x: nat)
    requires n <= |ts|
    ensures x in Members(ts, n, s) <==> exists j :: 0 <= j < n && Chained(ts, j) && StartOf(ts, j) == s && ts[j].id == x
  {
    hide PassedOver, StartOf;
    if n > 0 {
      InMembers(ts, n - 1, s, x);
      if Chained(ts, n - 1) && StartOf(ts, n - 1) == s {
        var m := Members(ts, n - 1, s);
        assert x in m + [ts[n - 1].id] <==> x in m || x == ts[n - 1].id;
      }
    }
  }

  // No stand-alone tunnel is on a chain.
  lemma AloneOffChains(ts: seq<Tunnel>, id: nat, k: nat)
    requires DistinctIds(ts) && Summary(ts).Ok? && id in Summary(ts).scan.alone && k < |Summary(ts).scan.chains|
    ensures id !in Summary(ts).scan.chains[k].ids
  {
    hide PassedOver, Summary, StartOf, Members, FirstChaining;
    SummaryIs(ts);
    StandAloneIff(ts, id);
    var s := Starters(ts, |ts|)[k];
    InMembers(ts, |ts|, s, id);
  }

  lemma {:induction false} PairMembers(ts: seq<Tunnel>, n: nat, s: nat)
    requires n <= |ts| && s < n && Starts(ts, s)
    requires forall j :: s < j < n && Chained(ts, j) && !Starts(ts, j) ==> StartOf(ts, j) != s
    ensures Members(ts, n, s) == [ts[s].id]
  {
    hide PassedOver, FirstChaining;
    if n == s + 1 {
      NoMembers(ts, s, s);
      assert [] + [ts[s].id] == [ts[s].id];
    } else {
      PairMembers(ts, n - 1, s);
      assert [ts[s].id] + [] == [ts[s].id];
    }
  }

  // While the scan does not fail, nothing is put on a pair.
  lemma PairsClosed(ts: seq<Tunnel>, j: nat)
    requires j < |ts| && DistinctIds(ts) && Summary(ts).Ok? && Chained(ts, j) && !Starts(ts, j)
    ensures !ts[StartOf(ts, j)].ipMatch
    decreases j
  {
    hide PassedOver, DistinctIds, HasId, Summary;
    SummaryFailsIff(ts);
    assert !Fails(ts, j);
    ScanMatches(ts, j);
    var i := FirstChaining(ts, j, ts[j].matched);
    assert Chains(ts, i, ts[j].matched);
    if !Starts(ts, i) {
      PairsClosed(ts, i);
    }
  }

  lemma ScanMatches(ts: seq<Tunnel>, j: nat)
    requires j < |ts| && !Fails(ts, j) && Chained(ts, j)
    ensures HasId(ts, ts[j].matched)
  {
  }

  // Every pair is what a tunnel that matches on addresses, and is not passed over,
  // matches, and that tunnel; and every such tunnel has its pair.
  lemma PairsIff(ts: seq<Tunnel>)
    requires DistinctIds(ts) && Summary(ts).Ok?
    ensures var chains := Summary(ts).scan.chains;
            && (forall k :: 0 <= k < |chains| && chains[k].pair ==>
                  exists n :: 0 <= n < |ts| && PairOf(ts, n) && chains[k].ids == [ts[n].matched, ts[n].id])
            && (forall n :: 0 <= n < |ts| && PairOf(ts, n) ==> Chain(true, [ts[n].matched, ts[n].id]) in chains)
  {
    hide PassedOver, Summary, DistinctIds, Members, StartOf, FirstChaining, Rank;
    var chains := Summary(ts).scan.chains;
    SummaryIs(ts);
    forall n | 0 <= n < |ts| && PairOf(ts, n) ensures ChainOf(ts, |ts|, n) == Chain(true, [ts[n].matched, ts[n].id]) {
      forall j | n < j < |ts| && Chained(ts, j) && !Starts(ts, j) ensures StartOf(ts, j) != n {
        PairsClosed(ts, j);
      }
      PairMembers(ts, |ts|, n);
    }
    forall k | 0 <= k < |chains| && chains[k].pair
      ensures exists n :: 0 <= n < |ts| && PairOf(ts, n) && chains[k].ids == [ts[n].matched, ts[n].id]
    {
      var n := Starters(ts, |ts|)[k];
      assert PairOf(ts, n);
    }
    forall n | 0 <= n < |ts| && PairOf(ts, n) ensures Chain(true, [ts[n].matched, ts[n].id]) in chains {
      StarterListed(ts, |ts|, n);
      assert chains[Rank(ts, n)] == ChainOf(ts, |ts|, n);
    }
  }

  predicate PairOf(ts: seq<Tunnel>, n: nat)
    requires n < |ts|
  {
    ts[n].ipMatch && ts[n].matched != 0 && !PassedOver(ts, n)
  }

  lemma {:induction false} StarterListed(ts: seq<Tunnel>, n: nat, s: nat)
    requires s < n <= |ts| && Starts(ts, s)
    ensures Rank(ts, s) < Rank(ts, n) && Starters(ts, n)[Rank(ts, s)] == s
  {
    hide Starts;
    RankGrows(ts, s, n);
    if s < n - 1 {
      StarterListed(ts, n - 1, s);
    }
  }
}
