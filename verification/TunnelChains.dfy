// When the summary is right.
module TunnelChains {
  import opened Seqs
  import opened TunnelSpec

  // The scan after n tunnels of a well ordered table.
  ghost predicate Inv(ts: seq<Tunnel>, n: nat, s: Scan)
    requires n <= |ts|
  {
    && Once(s)
    && Covers(ts, n, s)
    && AllAlone(ts, n, s)
    && AllPaths(ts, n, s)
    && AllSeen(ts, n, s)
  }

  // The first n tunnels are listed and scanned; so is what they match.
  ghost predicate Covers(ts: seq<Tunnel>, n: nat, s: Scan)
    requires n <= |ts|
  {
    && (forall i :: 0 <= i < n ==> Listed(s, ts[i].id) && ts[i].id in s.scanned)
    && (forall i :: 0 <= i < n && ts[i].matched != 0 ==> ts[i].matched in s.scanned)
  }

  ghost predicate AllAlone(ts: seq<Tunnel>, n: nat, s: Scan)
    requires n <= |ts|
  {
    forall i :: 0 <= i < |s.alone| ==> s.alone[i] in s.scanned && AloneTo(ts, n, s.alone[i])
  }

  ghost predicate AllPaths(ts: seq<Tunnel>, n: nat, s: Scan)
    requires n <= |ts|
  {
    && (forall k :: 0 <= k < |s.chains| ==> !s.chains[k].pair && PathTo(ts, n, s.chains[k].ids))
    && (forall k, j :: 0 <= k < |s.chains| && 0 <= j < |s.chains[k].ids| ==> s.chains[k].ids[j] in s.scanned)
  }

  ghost predicate AllSeen(ts: seq<Tunnel>, n: nat, s: Scan)
    requires n <= |ts|
  {
    forall x :: x in s.scanned ==> Seen(ts, n, s.chains, x)
  }

  ghost predicate AloneTo(ts: seq<Tunnel>, n: nat, id: nat)
    requires n <= |ts|
  {
    HeadIn(ts, n, id) && !MatchedBy(ts, n, id)
  }

  // A scanned id is one of the first n, or the head of a chain.
  ghost predicate Seen(ts: seq<Tunnel>, n: nat, chains: seq<Chain>, x: nat)
    requires n <= |ts|
  {
    || (exists i :: 0 <= i < n && ts[i].id == x)
    || (exists k :: 0 <= k < |chains| && chains[k].ids != [] && chains[k].ids[0] == x)
  }

  lemma {:induction false} RemoveFirstIs(s: seq<nat>, x: nat)
    requires forall i, j :: 0 <= i < j < |s| ==> s[i] != s[j]
    ensures forall y :: y in RemoveFirst(s, x) <==> y in s && y != x
    ensures forall i, j :: 0 <= i < j < |RemoveFirst(s, x)| ==> RemoveFirst(s, x)[i] != RemoveFirst(s, x)[j]
  {
    if s != [] {
      RemoveFirstIs(s[1..], x);
      if s[0] != x {
        var r := RemoveFirst(s[1..], x);
        forall i | 0 <= i < |r| ensures r[i] != s[0] {
          assert r[i] in s[1..];
        }
      }
    }
  }

  // Nothing but the new tunnel's own match changes what the first n tunnels match.
  lemma MatchedNext(ts: seq<Tunnel>, n: nat, id: nat)
    requires n < |ts|
    ensures MatchedBy(ts, n + 1, id) <==> MatchedBy(ts, n, id) || (id != 0 && ts[n].matched == id)
  {
  }

  lemma PathNext(ts: seq<Tunnel>, n: nat, c: seq<nat>)
    requires n < |ts| && PathTo(ts, n, c) && (ts[n].matched == 0 || ts[n].matched != c[|c| - 1])
    ensures PathTo(ts, n + 1, c)
  {
    hide MatchedBy, HeadIn;
    MatchedNext(ts, n, c[|c| - 1]);
    forall i, j | 0 <= i < j < |c| && j == i + 1 ensures LinkIn(ts, n + 1, c[i], c[j]) {
      assert LinkIn(ts, n, c[i], c[j]);
    }
  }

  // ----- One turn, case by case -----

  // An id the scan has met already heads a chain.
  lemma SkippedIsHead(ts: seq<Tunnel>, n: nat, s: Scan)
    requires n < |ts| && DistinctIds(ts) && AllSeen(ts, n, s) && AllPaths(ts, n, s) && ts[n].id in s.scanned
    ensures ts[n].matched == 0 && Listed(s, ts[n].id)
  {
    hide LinkIn, MatchedBy;
    var t := ts[n];
    assert Seen(ts, n, s.chains, t.id);
    var k :| 0 <= k < |s.chains| && s.chains[k].ids != [] && s.chains[k].ids[0] == t.id;
    assert HeadIn(ts, |ts|, s.chains[k].ids[0]);
    assert t.id in s.chains[k].ids;
  }

  // The chains a new tunnel does not match stay maximal, and the stand-alone tunnels it
  // does not match stay alone.
  lemma ChainsKept(ts: seq<Tunnel>, n: nat, s: Scan)
    requires n < |ts| && AllAlone(ts, n, s) && AllPaths(ts, n, s) && AllSeen(ts, n, s)
    ensures forall i :: 0 <= i < |s.alone| && (ts[n].matched == 0 || ts[n].matched != s.alone[i]) ==>
              AloneTo(ts, n + 1, s.alone[i])
    ensures forall k :: 0 <= k < |s.chains| && (ts[n].matched == 0 || ts[n].matched !in s.chains[k].ids) ==>
              PathTo(ts, n + 1, s.chains[k].ids)
    ensures forall x :: x in s.scanned ==> Seen(ts, n + 1, s.chains, x)
  {
    hide LinkIn, MatchedBy;
    forall i | 0 <= i < |s.alone| && (ts[n].matched == 0 || ts[n].matched != s.alone[i])
      ensures AloneTo(ts, n + 1, s.alone[i])
    {
      MatchedNext(ts, n, s.alone[i]);
    }
    forall k | 0 <= k < |s.chains| && (ts[n].matched == 0 || ts[n].matched !in s.chains[k].ids)
      ensures PathTo(ts, n + 1, s.chains[k].ids)
    {
      PathNext(ts, n, s.chains[k].ids);
    }
    forall x | x in s.scanned ensures Seen(ts, n + 1, s.chains, x) {
      assert Seen(ts, n, s.chains, x);
    }
  }

  lemma SkipTurn(ts: seq<Tunnel>, n: nat, s: Scan)
    requires n < |ts| && DistinctIds(ts) && Inv(ts, n, s) && ts[n].id in s.scanned
    ensures Inv(ts, n + 1, s)
  {
    hide DistinctIds, Once, PathTo, AloneTo, Seen, Listed;
    SkippedIsHead(ts, n, s);
    ChainsKept(ts, n, s);
  }

  // An unscanned tunnel is matched by none of the first n.
  lemma NotMatchedYet(ts: seq<Tunnel>, n: nat, s: Scan, id: nat)
    requires n <= |ts| && Covers(ts, n, s) && id !in s.scanned
    ensures !MatchedBy(ts, n, id)
  {
  }

  // A tunnel that matches none stands alone.
  lemma AloneTurn(ts: seq<Tunnel>, n: nat, s: Scan)
    requires n < |ts| && Inv(ts, n, s) && ts[n].id !in s.scanned && ts[n].matched == 0
    ensures Inv(ts, n + 1, Scan(s.alone + [ts[n].id], s.chains, s.scanned + [ts[n].id]))
  {
    hide PathTo, Seen, MatchedBy;
    var id := ts[n].id;
    var s1 := Scan(s.alone + [id], s.chains, s.scanned + [id]);
    ChainsKept(ts, n, s);
    NotMatchedYet(ts, n, s, id);
    MatchedNext(ts, n, id);
    assert Seen(ts, n + 1, s.chains, id) by {
      SeenNow(ts, n, s.chains);
    }
    assert s1.alone[|s.alone|] == id;
    forall x | Listed(s, x) ensures Listed(s1, x) {}
  }

  lemma SeenNow(ts: seq<Tunnel>, n: nat, chains: seq<Chain>)
    requires n < |ts|
    ensures Seen(ts, n + 1, chains, ts[n].id)
  {
  }

  // When no chain has the matched tunnel yet, it is a head: it stands alone, or comes later.
  lemma NewHead(ts: seq<Tunnel>, n: nat, s: Scan)
    requires n < |ts| && InOrder(ts) && Covers(ts, n, s) && AllAlone(ts, n, s)
    requires ts[n].matched != 0 && HasId(ts, ts[n].matched) && FirstWith(s.chains, ts[n].matched) == |s.chains|
    ensures HeadIn(ts, |ts|, ts[n].matched) && ts[n].matched != ts[n].id
  {
    var m := ts[n].matched;
    var p :| 0 <= p < |ts| && ts[p].id == m;
    if p < n {
      assert Listed(s, ts[p].id);
      assert !InChain(s.chains, m);
      var i :| 0 <= i < |s.alone| && s.alone[i] == m;
      assert HeadIn(ts, n, s.alone[i]);
    }
  }

  lemma PairPath(ts: seq<Tunnel>, n: nat)
    requires n < |ts| && HeadIn(ts, |ts|, ts[n].matched) && ts[n].matched != 0
    requires !MatchedBy(ts, n, ts[n].id) && ts[n].matched != ts[n].id
    ensures PathTo(ts, n + 1, [ts[n].matched, ts[n].id])
  {
    MatchedNext(ts, n, ts[n].id);
    assert LinkIn(ts, n + 1, ts[n].matched, ts[n].id);
  }

  function NewPair(ts: seq<Tunnel>, n: nat, s: Scan): Scan
    requires n < |ts|
  {
    Scan(RemoveFirst(s.alone, ts[n].matched), s.chains + [Chain(false, [ts[n].matched, ts[n].id])],
         s.scanned + [ts[n].id] + [ts[n].matched])
  }

  lemma PairOnce(ts: seq<Tunnel>, n: nat, s: Scan)
    requires n < |ts| && Once(s) && AllAlone(ts, n, s) && AllPaths(ts, n, s)
    requires FirstWith(s.chains, ts[n].matched) == |s.chains|
    requires ts[n].id !in s.scanned && ts[n].matched != ts[n].id
    ensures Once(NewPair(ts, n, s))
  {
    hide AloneTo, PathTo;
    RemoveFirstIs(s.alone, ts[n].matched);
    var s1 := NewPair(ts, n, s);
    assert forall i :: 0 <= i < |s1.alone| ==> s1.alone[i] in s.alone;
  }

  lemma PairListed(ts: seq<Tunnel>, n: nat, s: Scan)
    requires n < |ts| && Once(s)
    ensures forall x :: Listed(s, x) ==> Listed(NewPair(ts, n, s), x)
    ensures Listed(NewPair(ts, n, s), ts[n].id)
  {
    RemoveFirstIs(s.alone, ts[n].matched);
    var s1 := NewPair(ts, n, s);
    assert s1.chains[|s.chains|].ids == [ts[n].matched, ts[n].id];
    assert InChain(s1.chains, ts[n].matched) && InChain(s1.chains, ts[n].id);
    forall x | InChain(s.chains, x) ensures InChain(s1.chains, x) {
      var k :| 0 <= k < |s.chains| && x in s.chains[k].ids;
      assert x in s1.chains[k].ids;
    }
  }

  lemma PairTurn(ts: seq<Tunnel>, n: nat, s: Scan)
    requires n < |ts| && InOrder(ts) && Inv(ts, n, s)
    requires ts[n].id !in s.scanned && ts[n].matched != 0
    requires HasId(ts, ts[n].matched) && FirstWith(s.chains, ts[n].matched) == |s.chains|
    ensures Inv(ts, n + 1, NewPair(ts, n, s))
  {
    hide InOrder, HasId, PathTo, AloneTo, Seen, MatchedBy, HeadIn, Once, Listed;
    var id, m := ts[n].id, ts[n].matched;
    var s1 := NewPair(ts, n, s);
    NewHead(ts, n, s);
    NotMatchedYet(ts, n, s, id);
    PairPath(ts, n);
    PairOnce(ts, n, s);
    PairListed(ts, n, s);
    ChainsKept(ts, n, s);
    PairAlone(s, m);
    forall x | x in s1.scanned ensures Seen(ts, n + 1, s1.chains, x) {
      PairSeen(ts, n, s, x);
    }
  }

  lemma PairAlone(s: Scan, m: nat)
    requires Once(s)
    ensures forall i :: 0 <= i < |RemoveFirst(s.alone, m)| ==>
              RemoveFirst(s.alone, m)[i] != m && RemoveFirst(s.alone, m)[i] in s.alone
  {
    RemoveFirstIs(s.alone, m);
    var r := RemoveFirst(s.alone, m);
    assert forall i :: 0 <= i < |r| ==> r[i] in r;
  }

  lemma PairSeen(ts: seq<Tunnel>, n: nat, s: Scan, x: nat)
    requires n < |ts| && AllSeen(ts, n, s) && x in NewPair(ts, n, s).scanned
    ensures Seen(ts, n + 1, NewPair(ts, n, s).chains, x)
  {
    var chains := NewPair(ts, n, s).chains;
    assert chains[|s.chains|].ids[0] == ts[n].matched;
    if x in s.scanned {
      assert Seen(ts, n, s.chains, x);
      if k :| 0 <= k < |s.chains| && s.chains[k].ids != [] && s.chains[k].ids[0] == x {
        assert chains[k].ids[0] == x;
      }
    }
  }

  // ----- Growing a chain -----

  // Only the last tunnel of a chain can be matched by a new one.
  lemma MatchesLast(ts: seq<Tunnel>, n: nat, c: seq<nat>)
    requires n < |ts| && InOrder(ts) && PathTo(ts, n, c) && ts[n].matched != 0 && ts[n].matched in c
    ensures ts[n].matched == c[|c| - 1]
  {
    var j :| 0 <= j < |c| && c[j] == ts[n].matched;
    if j < |c| - 1 {
      InnerMatched(ts, n, c, j);
    }
  }

  lemma InnerMatched(ts: seq<Tunnel>, n: nat, c: seq<nat>, j: nat)
    requires n <= |ts| && PathTo(ts, n, c) && j < |c| - 1
    ensures exists i :: 0 <= i < n && ts[i].matched == c[j] != 0
  {
    assert LinkIn(ts, n, c[j], c[j + 1]);
  }

  lemma LongerPath(ts: seq<Tunnel>, n: nat, c: seq<nat>)
    requires n < |ts| && PathTo(ts, n, c) && ts[n].matched != 0 && ts[n].matched == c[|c| - 1]
    requires !MatchedBy(ts, n, ts[n].id) && ts[n].matched != ts[n].id
    ensures PathTo(ts, n + 1, c + [ts[n].id])
  {
    hide HeadIn;
    MatchedNext(ts, n, ts[n].id);
    var d := c + [ts[n].id];
    forall i, j | 0 <= i < j < |d| && j == i + 1 ensures LinkIn(ts, n + 1, d[i], d[j]) {
      if j < |c| {
        assert LinkIn(ts, n, c[i], c[j]);
      }
    }
  }

  function Grown(ts: seq<Tunnel>, n: nat, s: Scan, k: nat): Scan
    requires n < |ts| && k < |s.chains|
  {
    Scan(RemoveFirst(s.alone, ts[n].matched), s.chains[k := Chain(false, s.chains[k].ids + [ts[n].id])],
         s.scanned + [ts[n].id])
  }

  lemma GrowOnce(ts: seq<Tunnel>, n: nat, s: Scan, k: nat)
    requires n < |ts| && k < |s.chains| && Once(s) && AllAlone(ts, n, s) && AllPaths(ts, n, s)
    requires ts[n].id !in s.scanned
    ensures Once(Grown(ts, n, s, k))
  {
    hide AloneTo, PathTo;
    RemoveFirstIs(s.alone, ts[n].matched);
    var s1 := Grown(ts, n, s, k);
    assert forall i :: 0 <= i < |s1.alone| ==> s1.alone[i] in s.alone;
  }

  lemma GrowListed(ts: seq<Tunnel>, n: nat, s: Scan, k: nat)
    requires n < |ts| && k < |s.chains| && Once(s) && ts[n].matched in s.chains[k].ids
    ensures forall x :: Listed(s, x) ==> Listed(Grown(ts, n, s, k), x)
    ensures Listed(Grown(ts, n, s, k), ts[n].id)
  {
    RemoveFirstIs(s.alone, ts[n].matched);
    var s1 := Grown(ts, n, s, k);
    assert ts[n].id in s1.chains[k].ids && ts[n].matched in s1.chains[k].ids;
    forall x | InChain(s.chains, x) ensures InChain(s1.chains, x) {
      var l :| 0 <= l < |s.chains| && x in s.chains[l].ids;
      assert x in s1.chains[l].ids;
    }
  }

  lemma GrowSeen(ts: seq<Tunnel>, n: nat, s: Scan, k: nat, x: nat)
    requires n < |ts| && k < |s.chains| && AllSeen(ts, n, s) && x in Grown(ts, n, s, k).scanned
    ensures Seen(ts, n + 1, Grown(ts, n, s, k).chains, x)
  {
    var chains := Grown(ts, n, s, k).chains;
    if x in s.scanned {
      assert Seen(ts, n, s.chains, x);
      if l :| 0 <= l < |s.chains| && s.chains[l].ids != [] && s.chains[l].ids[0] == x {
        assert chains[l].ids[0] == x;
      }
    }
  }

  lemma GrowTurn(ts: seq<Tunnel>, n: nat, s: Scan, k: nat)
    requires n < |ts| && InOrder(ts) && Inv(ts, n, s)
    requires ts[n].id !in s.scanned && ts[n].matched != 0
    requires k < |s.chains| && k == FirstWith(s.chains, ts[n].matched)
    ensures Inv(ts, n + 1, Grown(ts, n, s, k))
  {
    hide InOrder, PathTo, AloneTo, Seen, MatchedBy, HeadIn, Listed;
    var id, m := ts[n].id, ts[n].matched;
    var s1 := Grown(ts, n, s, k);
    assert m in s.scanned && m != id;
    MatchesLast(ts, n, s.chains[k].ids);
    NotMatchedYet(ts, n, s, id);
    LongerPath(ts, n, s.chains[k].ids);
    GrowOnce(ts, n, s, k);
    GrowListed(ts, n, s, k);
    ChainsKept(ts, n, s);
    PairAlone(s, m);
    SeenNow(ts, n, s1.chains);
    forall x | x in s1.scanned ensures Seen(ts, n + 1, s1.chains, x) {
      GrowSeen(ts, n, s, k, x);
    }
  }

  // ----- The summary is right exactly for tables in order -----

  lemma TurnKeeps(ts: seq<Tunnel>, n: nat, s: Scan)
    requires n < |ts| && DistinctIds(ts) && NoIpMatch(ts) && InOrder(ts) && Inv(ts, n, s)
    ensures Turn(ts, ts[n], s).Ok? && Inv(ts, n + 1, Turn(ts, ts[n], s).scan)
  {
    hide InOrder, DistinctIds, HasId, Inv;
    var t := ts[n];
    var k := FirstWith(s.chains, t.matched);
    if t.id in s.scanned {
      SkipTurn(ts, n, s);
    } else if t.matched == 0 {
      AloneTurn(ts, n, s);
    } else {
      MatchedExists(ts, n);
      if k == |s.chains| {
        PairTurn(ts, n, s);
      } else {
        NotPair(ts, n, s, k);
        GrowTurn(ts, n, s, k);
      }
    }
  }

  lemma NotPair(ts: seq<Tunnel>, n: nat, s: Scan, k: nat)
    requires n <= |ts| && Inv(ts, n, s) && k < |s.chains|
    ensures !s.chains[k].pair
  {
  }

  lemma {:induction false} ScanKeeps(ts: seq<Tunnel>, n: nat)
    requires n <= |ts| && DistinctIds(ts) && NoIpMatch(ts) && InOrder(ts)
    ensures ScanTo(ts, n).Ok? && Inv(ts, n, ScanTo(ts, n).scan)
  {
    hide InOrder, DistinctIds, NoIpMatch, Inv, Turn;
    if n == 0 {
      InvStart(ts);
    } else {
      ScanKeeps(ts, n - 1);
      TurnKeeps(ts, n - 1, ScanTo(ts, n - 1).scan);
    }
  }

  lemma InvStart(ts: seq<Tunnel>)
    ensures Inv(ts, 0, Scan([], [], []))
  {
  }

  lemma MatchedExists(ts: seq<Tunnel>, n: nat)
    requires n < |ts| && InOrder(ts) && ts[n].matched != 0
    ensures HasId(ts, ts[n].matched)
  {
  }

  lemma InvIsCorrect(ts: seq<Tunnel>, s: Scan)
    requires Inv(ts, |ts|, s)
    ensures Correct(ts, s)
  {
    hide Once, PathTo, Listed, Seen;
    assert forall i :: 0 <= i < |s.alone| ==> AloneTo(ts, |ts|, s.alone[i]);
  }

  ghost predicate HasHead(chains: seq<Chain>, x: nat) {
    exists k :: 0 <= k < |chains| && chains[k].ids != [] && chains[k].ids[0] == x
  }

  ghost predicate IsAmong(ts: seq<Tunnel>, n: nat, x: nat)
    requires n <= |ts|
  {
    exists i :: 0 <= i < n && ts[i].id == x
  }

  // What holds of any table without address matching: past their heads the chains hold
  // tunnels the scan has reached, and a tunnel that matches one not reached before it
  // leaves itself or that one as a head.
  ghost predicate Heads(ts: seq<Tunnel>, n: nat, s: Scan)
    requires n <= |ts|
  {
    && (forall k, j :: 0 <= k < |s.chains| && 1 <= j < |s.chains[k].ids| ==> IsAmong(ts, n, s.chains[k].ids[j]))
    && (forall x :: x in s.scanned ==> IsAmong(ts, n, x) || HasHead(s.chains, x))
    && (forall i :: 0 <= i < n && ts[i].matched != 0 && !IsAmong(ts, i, ts[i].matched) ==>
          HasHead(s.chains, ts[i].id) || HasHead(s.chains, ts[i].matched))
  }

  lemma HeadsStay(ts: seq<Tunnel>, t: Tunnel, s: Scan)
    requires Turn(ts, t, s).Ok?
    ensures forall x :: HasHead(s.chains, x) ==> HasHead(Turn(ts, t, s).scan.chains, x)
  {
    var chains := Turn(ts, t, s).scan.chains;
    forall x | HasHead(s.chains, x) ensures HasHead(chains, x) {
      var k :| 0 <= k < |s.chains| && s.chains[k].ids != [] && s.chains[k].ids[0] == x;
      assert chains[k].ids[0] == x;
    }
  }

  // The head left by a tunnel that matches one the scan has not reached.
  lemma HeadLeft(ts: seq<Tunnel>, n: nat, s: Scan)
    requires n < |ts| && DistinctIds(ts) && Heads(ts, n, s) && Turn(ts, ts[n], s).Ok? && !ts[n].ipMatch
    requires ts[n].matched != 0 && !IsAmong(ts, n, ts[n].matched)
    ensures var chains := Turn(ts, ts[n], s).scan.chains; HasHead(chains, ts[n].id) || HasHead(chains, ts[n].matched)
  {
    var t, chains := ts[n], Turn(ts, ts[n], s).scan.chains;
    if t.id in s.scanned {
      assert !IsAmong(ts, n, t.id);
    } else {
      var k := FirstWith(s.chains, t.matched);
      if k == |s.chains| {
        assert chains[k].ids[0] == t.matched;
      } else {
        var j :| 0 <= j < |s.chains[k].ids| && s.chains[k].ids[j] == t.matched;
        assert j == 0;
        assert chains[k].ids[0] == t.matched;
      }
    }
  }

  lemma HeadsTurn(ts: seq<Tunnel>, n: nat, s: Scan)
    requires n < |ts| && DistinctIds(ts) && Heads(ts, n, s) && Turn(ts, ts[n], s).Ok? && !ts[n].ipMatch
    ensures Heads(ts, n + 1, Turn(ts, ts[n], s).scan)
  {
    hide DistinctIds, HasHead;
    var s1 := Turn(ts, ts[n], s).scan;
    HeadsStay(ts, ts[n], s);
    if ts[n].matched != 0 && !IsAmong(ts, n, ts[n].matched) {
      HeadLeft(ts, n, s);
    }
    AmongNext(ts, n);
    Reached(ts, n, s);
    forall x | x in s1.scanned ensures IsAmong(ts, n + 1, x) || HasHead(s1.chains, x) {
      if x in s.scanned {
        assert IsAmong(ts, n, x) || HasHead(s.chains, x);
      } else if x != ts[n].id {
        NewHeadOf(ts, ts[n], s, x);
      }
    }
  }

  lemma AmongNext(ts: seq<Tunnel>, n: nat)
    requires n < |ts|
    ensures forall x :: IsAmong(ts, n, x) ==> IsAmong(ts, n + 1, x)
    ensures IsAmong(ts, n + 1, ts[n].id)
  {
  }

  lemma Reached(ts: seq<Tunnel>, n: nat, s: Scan)
    requires n < |ts| && Heads(ts, n, s) && Turn(ts, ts[n], s).Ok?
    ensures var s1 := Turn(ts, ts[n], s).scan;
            forall k, j :: 0 <= k < |s1.chains| && 1 <= j < |s1.chains[k].ids| ==> IsAmong(ts, n + 1, s1.chains[k].ids[j])
  {
    hide HasHead, IsAmong;
    AmongNext(ts, n);
  }

  lemma NewHeadOf(ts: seq<Tunnel>, t: Tunnel, s: Scan, x: nat)
    requires Turn(ts, t, s).Ok? && x in Turn(ts, t, s).scan.scanned && x !in s.scanned && x != t.id
    ensures HasHead(Turn(ts, t, s).scan.chains, x)
  {
    assert Turn(ts, t, s).scan.chains[|s.chains|].ids[0] == x;
  }

  lemma {:induction false} ScanHeads(ts: seq<Tunnel>, n: nat)
    requires n <= |ts| && DistinctIds(ts) && NoIpMatch(ts) && ScanTo(ts, n).Ok?
    ensures Heads(ts, n, ScanTo(ts, n).scan)
  {
    if n > 0 {
      hide Heads, DistinctIds, Turn;
      ScanHeads(ts, n - 1);
      HeadsTurn(ts, n - 1, ScanTo(ts, n - 1).scan);
    } else {
      assert ScanTo(ts, 0).scan == Scan([], [], []);
    }
  }

  // In a right summary every tunnel that matches another follows it in a chain.
  lemma Follows(ts: seq<Tunnel>, s: Scan, i: nat) returns (k: nat, j: nat)
    requires DistinctIds(ts) && Correct(ts, s) && i < |ts| && ts[i].matched != 0
    ensures k < |s.chains| && 1 <= j < |s.chains[k].ids|
    ensures s.chains[k].ids[j - 1] == ts[i].matched && s.chains[k].ids[j] == ts[i].id
    ensures HasId(ts, ts[i].matched)
  {
    hide Once, MatchedBy;
    assert Listed(s, ts[i].id);
    assert ts[i].id !in s.alone;
    k :| 0 <= k < |s.chains| && ts[i].id in s.chains[k].ids;
    var c := s.chains[k].ids;
    j :| 0 <= j < |c| && c[j] == ts[i].id;
    assert PathTo(ts, |ts|, c);
    assert j != 0;
    assert LinkIn(ts, |ts|, c[j - 1], c[j]);
    if j >= 2 {
      assert LinkIn(ts, |ts|, c[j - 2], c[j - 1]);
    }
  }

  lemma HeadMatchesNone(ts: seq<Tunnel>, s: Scan, i: nat)
    requires DistinctIds(ts) && Correct(ts, s) && i < |ts| && HasHead(s.chains, ts[i].id)
    ensures ts[i].matched == 0
  {
    hide Once, MatchedBy, LinkIn;
    var k :| 0 <= k < |s.chains| && s.chains[k].ids != [] && s.chains[k].ids[0] == ts[i].id;
    assert HeadIn(ts, |ts|, s.chains[k].ids[0]);
  }

  lemma CorrectIsInOrder(ts: seq<Tunnel>, s: Scan)
    requires DistinctIds(ts) && Correct(ts, s) && Heads(ts, |ts|, s)
    ensures InOrder(ts)
  {
    hide Correct, HasHead;
    forall i | 0 <= i < |ts| && ts[i].matched != 0 ensures HasId(ts, ts[i].matched) {
      var k, j := Follows(ts, s, i);
    }
    forall i, j | 0 <= i < j < |ts| && ts[i].matched == ts[j].matched ensures ts[i].matched == 0 {
      if ts[i].matched != 0 {
        OneMatcher(ts, s, i, j);
      }
    }
    forall i, j | 0 <= i < |ts| && 0 <= j < |ts| && ts[i].matched == ts[j].id && ts[i].matched != 0 && ts[j].matched != 0
      ensures j < i
    {
      if j >= i {
        assert !IsAmong(ts, i, ts[i].matched);
        if HasHead(s.chains, ts[i].id) {
          HeadMatchesNone(ts, s, i);
        } else {
          HeadMatchesNone(ts, s, j);
        }
      }
    }
  }

  lemma OneMatcher(ts: seq<Tunnel>, s: Scan, i: nat, j: nat)
    requires DistinctIds(ts) && Correct(ts, s) && i < |ts| && j < |ts|
    requires ts[i].matched == ts[j].matched && ts[i].matched != 0
    ensures i == j
  {
    hide PathTo, Listed;
    var k, p := Follows(ts, s, i);
    var l, q := Follows(ts, s, j);
    assert s.chains[k].ids[p - 1] == s.chains[l].ids[q - 1];
    assert k == l && p - 1 == q - 1;
  }

  // Without address matching, the summary succeeds and is right exactly when the table
  // is in order.
  lemma SummaryRightIff(ts: seq<Tunnel>)
    requires DistinctIds(ts) && NoIpMatch(ts)
    ensures (Summary(ts).Ok? && Correct(ts, Summary(ts).scan)) <==> InOrder(ts)
  {
    hide Correct, InOrder, Inv, Heads;
    if InOrder(ts) {
      ScanKeeps(ts, |ts|);
      InvIsCorrect(ts, Summary(ts).scan);
    }
    if Summary(ts).Ok? && Correct(ts, Summary(ts).scan) {
      ScanHeads(ts, |ts|);
      CorrectIsInOrder(ts, Summary(ts).scan);
    }
  }

  // ----- A table has one right summary -----

  lemma LinkTunnel(ts: seq<Tunnel>, s: Scan, k: nat, j: nat) returns (i: nat)
    requires Correct(ts, s) && k < |s.chains| && 1 <= j < |s.chains[k].ids|
    ensures i < |ts| && ts[i].id == s.chains[k].ids[j] && ts[i].matched == s.chains[k].ids[j - 1] != 0
  {
    hide Once, Listed, MatchedBy, HeadIn;
    var c := s.chains[k].ids;
    assert PathTo(ts, |ts|, c);
    assert LinkIn(ts, |ts|, c[j - 1], c[j]);
    i :| 0 <= i < |ts| && ts[i].id == c[j] && ts[i].matched == c[j - 1];
  }

  lemma HeadTunnel(ts: seq<Tunnel>, s: Scan, k: nat) returns (i: nat)
    requires Correct(ts, s) && k < |s.chains|
    ensures |s.chains[k].ids| >= 2
    ensures i < |ts| && ts[i].id == s.chains[k].ids[0] && ts[i].matched == 0
  {
    hide Once, Listed, MatchedBy, LinkIn;
    var c := s.chains[k].ids;
    assert PathTo(ts, |ts|, c);
    assert HeadIn(ts, |ts|, c[0]);
    i :| 0 <= i < |ts| && ts[i].id == c[0] && ts[i].matched == 0;
  }

  lemma LastUnmatched(ts: seq<Tunnel>, s: Scan, k: nat, i: nat)
    requires Correct(ts, s) && k < |s.chains| && s.chains[k].ids != [] && i < |ts|
    ensures ts[i].matched == 0 || ts[i].matched != Last(s.chains[k].ids)
  {
    hide Once, Listed, LinkIn, HeadIn;
    assert PathTo(ts, |ts|, s.chains[k].ids);
    assert !MatchedBy(ts, |ts|, Last(s.chains[k].ids));
  }

  // The head of a chain of one right summary heads a chain of any other.
  lemma HeadOfOther(ts: seq<Tunnel>, s: Scan, u: Scan, k: nat) returns (l: nat)
    requires DistinctIds(ts) && Correct(ts, s) && Correct(ts, u) && k < |s.chains|
    ensures l < |u.chains| && s.chains[k].ids != [] && u.chains[l].ids != []
    ensures u.chains[l].ids[0] == s.chains[k].ids[0]
  {
    hide Once, PathTo, LinkIn;
    var i := HeadTunnel(ts, s, k);
    var next := LinkTunnel(ts, s, k, 1);
    assert Listed(u, ts[i].id);
    assert MatchedBy(ts, |ts|, ts[i].id);
    assert ts[i].id !in u.alone;
    l :| 0 <= l < |u.chains| && ts[i].id in u.chains[l].ids;
    var j :| 0 <= j < |u.chains[l].ids| && u.chains[l].ids[j] == ts[i].id;
    if j > 0 {
      var q := LinkTunnel(ts, u, l, j);
    }
  }

  // Two chains of right summaries with the same head: one is a prefix of the other.
  lemma {:induction false} SamePrefix(ts: seq<Tunnel>, s: Scan, u: Scan, k: nat, l: nat, n: nat)
    requires DistinctIds(ts) && Correct(ts, s) && Correct(ts, u) && k < |s.chains| && l < |u.chains|
    requires 1 <= n <= |s.chains[k].ids| && u.chains[l].ids != [] && u.chains[l].ids[0] == s.chains[k].ids[0]
    ensures n <= |u.chains[l].ids| && u.chains[l].ids[..n] == s.chains[k].ids[..n]
  {
    hide Correct, DistinctIds;
    var c, d := s.chains[k].ids, u.chains[l].ids;
    if n > 1 {
      SamePrefix(ts, s, u, k, l, n - 1);
      assert d[n - 2] == d[..n - 1][n - 2] == c[..n - 1][n - 2] == c[n - 2];
      var i := LinkTunnel(ts, s, k, n - 1);
      LastUnmatched(ts, u, l, i);
      var j := LinkTunnel(ts, u, l, n - 1);
      OneMatcher(ts, u, i, j);
      assert d[..n] == d[..n - 1] + [d[n - 1]] && c[..n] == c[..n - 1] + [c[n - 1]];
    } else {
      assert c[..1] == [c[0]] && d[..1] == [d[0]];
    }
  }

  // What is right is unique, up to the order of chains and of stand-alone tunnels.
  lemma RightSummaryUnique(ts: seq<Tunnel>, s: Scan, u: Scan)
    requires DistinctIds(ts) && Correct(ts, s) && Correct(ts, u)
    ensures forall k :: 0 <= k < |s.chains| ==> s.chains[k] in u.chains
    ensures forall id :: id in s.alone ==> id in u.alone
  {
    hide DistinctIds, Correct;
    forall k | 0 <= k < |s.chains| ensures s.chains[k] in u.chains {
      SameChain(ts, s, u, k);
    }
    forall id | id in s.alone ensures id in u.alone {
      SameAlone(ts, s, u, id);
    }
  }

  lemma SameChain(ts: seq<Tunnel>, s: Scan, u: Scan, k: nat)
    requires DistinctIds(ts) && Correct(ts, s) && Correct(ts, u) && k < |s.chains|
    ensures s.chains[k] in u.chains
  {
    hide DistinctIds, Correct;
    var l := HeadOfOther(ts, s, u, k);
    var c, d := s.chains[k].ids, u.chains[l].ids;
    SamePrefix(ts, s, u, k, l, |c|);
    SamePrefix(ts, u, s, l, k, |d|);
    assert c[..|c|] == c && d[..|d|] == d;
    NoPair(ts, s, k);
    NoPair(ts, u, l);
    assert s.chains[k] == u.chains[l];
  }

  lemma NoPair(ts: seq<Tunnel>, s: Scan, k: nat)
    requires Correct(ts, s) && k < |s.chains|
    ensures !s.chains[k].pair
  {
  }

  lemma SameAlone(ts: seq<Tunnel>, s: Scan, u: Scan, id: nat)
    requires DistinctIds(ts) && Correct(ts, s) && Correct(ts, u) && id in s.alone
    ensures id in u.alone
  {
    hide Once, PathTo, LinkIn;
    var a :| 0 <= a < |s.alone| && s.alone[a] == id;
    assert HeadIn(ts, |ts|, s.alone[a]) && !MatchedBy(ts, |ts|, s.alone[a]);
    var i :| 0 <= i < |ts| && ts[i].id == id && ts[i].matched == 0;
    assert Listed(u, ts[i].id);
    if id !in u.alone {
      var l :| 0 <= l < |u.chains| && id in u.chains[l].ids;
      var j :| 0 <= j < |u.chains[l].ids| && u.chains[l].ids[j] == id;
      var h := HeadTunnel(ts, u, l);
      if j > 0 {
        var q := LinkTunnel(ts, u, l, j);
      } else {
        var q := LinkTunnel(ts, u, l, 1);
      }
    }
  }

  // ----- Where it is wrong -----

  // 1 matches 2 and 2 matches 3, created in that order: 2 is passed over as already
  // scanned, so 3 is called stand-alone though 2 matches it.
  lemma OutOfOrder()
    ensures var ts := [Tunnel(1, 2, false), Tunnel(2, 3, false), Tunnel(3, 0, false)];
            && Summary(ts) == Ok(Scan([3], [Chain(false, [2, 1])], [1, 2, 3]))
            && !Correct(ts, Summary(ts).scan)
  {
    var ts := [Tunnel(1, 2, false), Tunnel(2, 3, false), Tunnel(3, 0, false)];
    var s1 := Scan([], [Chain(false, [2, 1])], [1, 2]);
    assert ts[1].id == 2;
    assert ScanTo(ts, 1) == Ok(s1);
    assert ScanTo(ts, 2) == Ok(s1);
    assert ScanTo(ts, 3) == Ok(Scan([3], s1.chains, [1, 2, 3]));
    assert ts[1].matched == 3;
    assert MatchedBy(ts, 3, 3);
    assert Scan([3], s1.chains, [1, 2, 3]).alone[0] == 3;
  }

  // ----- Any table, address matching or not -----

  ghost predicate ScannedListed(ts: seq<Tunnel>, n: nat, s: Scan)
    requires n <= |ts|
  {
    && (forall i :: 0 <= i < n ==> ts[i].id in s.scanned)
    && (forall x :: x in s.scanned ==> Listed(s, x))
  }

  lemma {:induction false} RemoveFirstKeeps(s: seq<nat>, x: nat)
    ensures forall y :: y in s && y != x ==> y in RemoveFirst(s, x)
  {
    if s != [] {
      RemoveFirstKeeps(s[1..], x);
    }
  }

  lemma ListedTurn(ts: seq<Tunnel>, t: Tunnel, s: Scan)
    requires Turn(ts, t, s).Ok? && forall x :: x in s.scanned ==> Listed(s, x)
    ensures var s1 := Turn(ts, t, s).scan;
            t.id in s1.scanned && (forall x :: x in s.scanned ==> x in s1.scanned) && (forall x :: x in s1.scanned ==> Listed(s1, x))
  {
    var s1 := Turn(ts, t, s).scan;
    RemoveFirstKeeps(s.alone, t.matched);
    forall x | InChain(s.chains, x) ensures InChain(s1.chains, x) {
      var k :| 0 <= k < |s.chains| && x in s.chains[k].ids;
      assert x in s1.chains[k].ids;
    }
    if t.id !in s.scanned && t.matched != 0 {
      var k := FirstWith(s.chains, t.matched);
      var at := if t.ipMatch || k == |s.chains| then |s.chains| else k;
      assert t.id in s1.chains[at].ids && t.matched in s1.chains[at].ids;
    }
    forall x | x in s1.scanned ensures Listed(s1, x) {
      assert x in s.scanned || x == t.id || x == t.matched;
    }
  }

  lemma {:induction false} ScanLists(ts: seq<Tunnel>, n: nat)
    requires n <= |ts| && ScanTo(ts, n).Ok?
    ensures ScannedListed(ts, n, ScanTo(ts, n).scan)
  {
    hide Turn, Listed;
    if n > 0 {
      ScanLists(ts, n - 1);
      ListedTurn(ts, ts[n - 1], ScanTo(ts, n - 1).scan);
    }
  }

  // A summary that succeeds lists every tunnel.
  lemma NothingDropped(ts: seq<Tunnel>)
    requires Summary(ts).Ok?
    ensures forall i :: 0 <= i < |ts| ==> Listed(Summary(ts).scan, ts[i].id)
  {
    ScanLists(ts, |ts|);
  }

  ghost predicate PairsFrom(ts: seq<Tunnel>, s: Scan) {
    forall k :: 0 <= k < |s.chains| && s.chains[k].pair ==> !NoIpMatch(ts)
  }

  // A failure names a tunnel whose match is missing, or comes of address matching.
  lemma {:induction false} FailureMeans(ts: seq<Tunnel>, n: nat)
    requires n <= |ts|
    ensures match ScanTo(ts, n)
            case Ok(s) => PairsFrom(ts, s)
            case Err(MatchedNotExists(t, m)) =>
              m != 0 && !HasId(ts, m) && exists i :: 0 <= i < n && ts[i].id == t && ts[i].matched == m
            case Err(PairCannotGrow(t)) => !NoIpMatch(ts) && exists i :: 0 <= i < n && ts[i].id == t && !ts[i].ipMatch
  {
    hide HasId;
    if n > 0 {
      FailureMeans(ts, n - 1);
    }
  }
}
