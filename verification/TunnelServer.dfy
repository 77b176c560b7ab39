// The tunnel service: its table, the summary it prints and the streamed statistics.
module TunnelServer {
  import opened Seqs
  import opened Bits
  import opened Chunking
  import opened TunnelSpec
  import opened TunnelChains
  import opened TunnelFailures
  import opened TunnelSummary

  datatype Operation = Create | Update | Other

  // valid: what the field checks of a tunnel say about this one.
  datatype Request = Request(operation: Operation, tunnel: Tunnel, valid: bool)

  // How a stream of requests ends: with a summary (or its failure), or at a request that raises.
  datatype Reply = Summarized(summary: Result) | Raised(at: nat)

  // Position of the tunnel with this id, or the length.
  function IndexOfId(ts: seq<Tunnel>, id: nat): (i: nat)
    ensures i <= |ts| && (i < |ts| ==> ts[i].id == id)
    ensures forall j :: 0 <= j < i ==> ts[j].id != id
  {
    if ts == [] || ts[0].id == id then 0 else 1 + IndexOfId(ts[1..], id)
  }

  // A dictionary keeps the place of a key it has, and appends a new one.
  function Put(ts: seq<Tunnel>, t: Tunnel): seq<Tunnel> {
    var i := IndexOfId(ts, t.id);
    if i < |ts| then ts[i := t] else ts + [t]
  }

  function Pop(ts: seq<Tunnel>, id: nat): seq<Tunnel> {
    var i := IndexOfId(ts, id);
    if i < |ts| then Without(ts, i) else ts
  }

  predicate Raises(ts: seq<Tunnel>, r: Request) {
    (r.operation == Create && !r.valid) || (r.operation == Update && !HasId(ts, r.tunnel.id))
  }

  // An update rewrites IPsec parameters only.
  function Apply(ts: seq<Tunnel>, r: Request): seq<Tunnel> {
    match r.operation
    case Create => Put(ts, r.tunnel)
    case Update => ts
    case Other => Pop(ts, r.tunnel.id)
  }

  // The table after the requests before number n, none of which raised.
  function ApplyTo(ts: seq<Tunnel>, rs: seq<Request>, n: nat): seq<Tunnel>
    requires n <= |rs|
  {
    if n == 0 then ts else Apply(ApplyTo(ts, rs, n - 1), rs[n - 1])
  }

  class IpTunnelService {
    var tunnels: seq<Tunnel>

    constructor ()
      ensures tunnels == []
    {
      tunnels := [];
    }

    // Applies the requests up to the first that raises, whose predecessors stay applied.
    method CreateIpTunnel(requests: seq<Request>) returns (reply: Reply)
      requires DistinctIds(tunnels)
      modifies this
      ensures DistinctIds(tunnels)
      ensures forall i :: 0 <= i < (if reply.Raised? then reply.at else |requests|) ==>
                0 <= i < |requests| && !Raises(ApplyTo(old(tunnels), requests, i), requests[i])
      ensures reply.Raised? ==>
                && reply.at < |requests| && tunnels == ApplyTo(old(tunnels), requests, reply.at)
                && Raises(tunnels, requests[reply.at])
      ensures reply.Summarized? ==>
                && tunnels == ApplyTo(old(tunnels), requests, |requests|)
                && reply.summary == Summary(tunnels)
    {
      hide DistinctIds, Raises, Apply;
      var i: nat := 0;
      while i < |requests|
        invariant i <= |requests| && DistinctIds(tunnels)
        invariant tunnels == ApplyTo(old(tunnels), requests, i)
        invariant forall j :: 0 <= j < i ==> !Raises(ApplyTo(old(tunnels), requests, j), requests[j])
      {
        ApplyDistinct(tunnels, requests[i]);
        var ok := ApplyRequest(requests[i]);
        if !ok {
          return Raised(i);
        }
        i := i + 1;
      }
      var summary := PrintTunnelSummary(tunnels);
      reply := Summarized(summary);
    }

    // One request of the stream; false when it raises.
    method ApplyRequest(request: Request) returns (ok: bool)
      modifies this
      ensures ok <==> !Raises(old(tunnels), request)
      ensures ok <==> (request.operation == Create ==> request.valid)
                      && (request.operation == Update ==> HasId(old(tunnels), request.tunnel.id))
      ensures tunnels == if ok then Apply(old(tunnels), request) else old(tunnels)
    {
      if request.operation == Create {
        if !request.valid {
          return false;
        }
        tunnels := Put(tunnels, request.tunnel);
      } else if request.operation == Update {
        if !HasId(tunnels, request.tunnel.id) {
          return false;
        }
      } else {
        tunnels := Pop(tunnels, request.tunnel.id);
      }
      ok := true;
    }

    // Streams the tunnels in messages of iterationCount; a count of 0 never fills a message.
    method GetAllIpTunnelsStats(iterationCount: nat) returns (messages: seq<seq<Tunnel>>)
      ensures iterationCount >= 1 ==> messages == Chunks(tunnels, iterationCount)
      ensures iterationCount == 0 ==> messages == if tunnels == [] then [] else [tunnels]
    {
      hide Chunks;
      messages := [];
      var toSend: seq<Tunnel> := [];
      var i: nat := 0;
      ChunksEnds(tunnels, iterationCount);
      while i < |tunnels|
        invariant i <= |tunnels| && |toSend| <= i && toSend == tunnels[i - |toSend|..i]
        invariant i == |tunnels| ==> toSend == []
        invariant iterationCount >= 1 ==> |toSend| < iterationCount
        invariant iterationCount >= 1 ==>
            messages + Chunks(tunnels[i - |toSend|..], iterationCount) == Chunks(tunnels, iterationCount)
        invariant iterationCount == 0 ==> messages == (if i == |tunnels| > 0 then [tunnels] else [])
        invariant iterationCount == 0 && i < |tunnels| ==> |toSend| == i
      {
        Fill(tunnels, i, |toSend|);
        toSend := toSend + [tunnels[i]];
        if |toSend| == iterationCount || i == |tunnels| - 1 {
          if iterationCount >= 1 {
            Flush(tunnels, messages, i + 1 - |toSend|, i + 1, iterationCount);
          }
          messages := messages + [toSend];
          toSend := [];
        }
        i := i + 1;
      }
    }
  }

  lemma ChunksEnds<T>(s: seq<T>, k: nat)
    ensures s[0..] == s
    ensures k >= 1 ==> Chunks(s[|s|..], k) == []
  {
  }

  lemma Fill<T>(s: seq<T>, i: nat, m: nat)
    requires m <= i < |s|
    ensures s[i - m..i] + [s[i]] == s[i - m..i + 1]
    ensures m == i == |s| - 1 ==> s[i - m..i + 1] == s
  {
  }

  // Sending s[from..to], which is a full message or the last.
  lemma Flush<T>(s: seq<T>, messages: seq<seq<T>>, from: nat, to: nat, k: nat)
    requires k >= 1 && from < to <= |s| && to - from <= k && (to - from == k || to == |s|)
    ensures messages + [s[from..to]] + Chunks(s[to..], k) == messages + Chunks(s[from..], k)
  {
    hide Chunks;
    ChunksCons(s[from..], k);
    assert s[from..][..to - from] == s[from..to] && s[from..][to - from..] == s[to..];
    assert messages + [s[from..to]] + Chunks(s[to..], k) == messages + ([s[from..to]] + Chunks(s[to..], k));
  }

  // The messages with a positive count: in order they are all the tunnels, every one but
  // the last is full, none is empty, and there are ceil(n / k).
  lemma StatsBatches(ts: seq<Tunnel>, k: nat)
    requires k >= 1
    ensures Flatten(Chunks(ts, k)) == ts && IsCeil(|Chunks(ts, k)|, |ts|, k)
    ensures forall i :: 0 <= i < |Chunks(ts, k)| ==> 1 <= |Chunks(ts, k)[i]| <= k
    ensures forall i :: 0 <= i < |Chunks(ts, k)| - 1 ==> |Chunks(ts, k)[i]| == k
  {
    ChunksShape(ts, k);
  }

  // The one-pass loop itself.
  method PrintTunnelSummary(tunnels: seq<Tunnel>) returns (result: Result)
    ensures result == Summary(tunnels)
    ensures DistinctIds(tunnels) && result.Ok? ==>
              result.scan.alone == AloneIds(tunnels, |tunnels|, |tunnels|) && ChainsAre(tunnels, |tunnels|, result.scan.chains)
  {
    hide ChainsAre, DistinctIds, AloneIds;
    if DistinctIds(tunnels) && Summary(tunnels).Ok? {
      SummaryIs(tunnels);
    }
    var alone: seq<nat>, chains: seq<Chain>, scanned: seq<nat> := [], [], [];
    var n: nat := 0;
    while n < |tunnels|
      invariant n <= |tunnels| && ScanTo(tunnels, n) == Ok(Scan(alone, chains, scanned))
    {
      var tunnel := tunnels[n];
      ghost var before := Scan(alone, chains, scanned);
      n := n + 1;
      if tunnel.id in scanned {
        continue;
      }
      scanned := scanned + [tunnel.id];
      if tunnel.matched == 0 {
        alone := alone + [tunnel.id];
        continue;
      }
      if !HasId(tunnels, tunnel.matched) {
        StaysFailed(tunnels, n);
        return Err(MatchedNotExists(tunnel.id, tunnel.matched));
      }
      var partialChaining := tunnel.ipMatch;
      if tunnel.matched in alone {
        alone := RemoveFirst(alone, tunnel.matched);
      } else {
        RemoveAbsent(alone, tunnel.matched);
      }
      var k := FindChain(chains, tunnel.matched, partialChaining);
      if k < |chains| {
        if chains[k].pair {
          StaysFailed(tunnels, n);
          return Err(PairCannotGrow(tunnel.id));
        }
        chains := chains[k := Chain(false, chains[k].ids + [tunnel.id])];
      } else {
        chains := chains + [Chain(partialChaining, [tunnel.matched, tunnel.id])];
        scanned := scanned + [tunnel.matched];
      }
      assert Turn(tunnels, tunnel, before) == Ok(Scan(alone, chains, scanned));
    }
    result := Ok(Scan(alone, chains, scanned));
  }

  // The inner loop: the first chain that takes the tunnel, or the end.
  method FindChain(chains: seq<Chain>, matched: nat, partialChaining: bool) returns (k: nat)
    ensures k == if partialChaining then |chains| else FirstWith(chains, matched)
  {
    k := 0;
    while k < |chains|
      invariant k <= |chains|
      invariant !partialChaining ==> forall j :: 0 <= j < k ==> matched !in chains[j].ids
    {
      if matched in chains[k].ids && !partialChaining {
        break;
      }
      k := k + 1;
    }
  }

  lemma {:induction false} RemoveAbsent(s: seq<nat>, x: nat)
    requires x !in s
    ensures RemoveFirst(s, x) == s
  {
    if s != [] {
      RemoveAbsent(s[1..], x);
    }
  }

  // ----- What the requests do to the table -----

  lemma ApplyDistinct(ts: seq<Tunnel>, r: Request)
    requires DistinctIds(ts)
    ensures DistinctIds(Apply(ts, r))
  {
  }

  // A request changes the tunnel with its own id and no other.
  lemma ApplyLookup(ts: seq<Tunnel>, r: Request, id: nat)
    requires DistinctIds(ts)
    ensures id != r.tunnel.id ==> forall t: Tunnel :: t.id == id ==> (t in Apply(ts, r) <==> t in ts)
    ensures forall t: Tunnel :: t.id == r.tunnel.id ==>
              (t in Apply(ts, r) <==>
                 match r.operation
                 case Create => t == r.tunnel
                 case Update => t in ts
                 case Other => false)
  {
    var i := IndexOfId(ts, r.tunnel.id);
    var us := Apply(ts, r);
    if i < |ts| {
      match r.operation {
        case Create =>
          assert us[i] == r.tunnel;
          forall t | t in ts && t.id != r.tunnel.id ensures t in us {
            var j :| 0 <= j < |ts| && ts[j] == t;
            assert us[j] == t;
          }
        case Update =>
        case Other =>
          forall t | t in ts && t.id != r.tunnel.id ensures t in us {
            var j :| 0 <= j < |ts| && ts[j] == t;
            assert us[if j < i then j else j - 1] == t;
          }
      }
    } else {
      assert us == (if r.operation == Create then ts + [r.tunnel] else ts);
    }
  }

  function Ids(ts: seq<Tunnel>): (ids: seq<nat>)
    ensures |ids| == |ts|
  {
    seq(|ts|, i requires 0 <= i < |ts| => ts[i].id)
  }

  // The order of the table: a new id comes last, an id created again keeps its place, a
  // removed one leaves the order of the others, and removing an unknown one does nothing.
  lemma ApplyOrder(ts: seq<Tunnel>, r: Request)
    requires DistinctIds(ts)
    ensures r.operation == Create ==>
              Ids(Apply(ts, r)) == if HasId(ts, r.tunnel.id) then Ids(ts) else Ids(ts) + [r.tunnel.id]
    ensures r.operation == Update ==> Apply(ts, r) == ts
    ensures r.operation == Other && !HasId(ts, r.tunnel.id) ==> Apply(ts, r) == ts
    ensures r.operation == Other ==>
              forall i :: 0 <= i < |ts| && ts[i].id == r.tunnel.id ==> Apply(ts, r) == ts[..i] + ts[i + 1..]
  {
  }

  // The tunnel t may be put into ts: it matches none, or one that exists, is matched by no
  // other, and comes before the place of t if it itself matches; and any tunnel matching t
  // comes after that place. The place is t's own, or the end for a new id.
  predicate Fits(ts: seq<Tunnel>, t: Tunnel) {
    var p := IndexOfId(ts, t.id);
    t.matched == 0 || (t.matched != t.id && HasId(ts, t.matched) && forall i :: 0 <= i < |ts| && i != p ==> Beside(ts[i], i, t, p))
  }

  // What t at place p asks of another tunnel u at place i.
  predicate Beside(u: Tunnel, i: nat, t: Tunnel, p: nat) {
    && u.matched != t.matched
    && (u.id == t.matched && u.matched != 0 ==> i < p)
    && (u.matched == t.id && u.matched != 0 ==> p < i)
  }

  // Creating a tunnel, under a new id or one the table has, keeps the table in order
  // exactly when it fits. For a new id that is to match none, or one that exists and is
  // matched by none yet.
  lemma CreateInOrderIff(ts: seq<Tunnel>, t: Tunnel)
    requires DistinctIds(ts) && InOrder(ts)
    ensures InOrder(Put(ts, t)) <==> Fits(ts, t)
    ensures !HasId(ts, t.id) ==>
              (Fits(ts, t) <==> t.matched == 0 || (HasId(ts, t.matched) && !MatchedBy(ts, |ts|, t.matched)))
  {
    hide InOrder, Fits, DistinctIds, MatchedBy;
    if Fits(ts, t) {
      FitsKeeps(ts, t);
    }
    if InOrder(Put(ts, t)) {
      KeepsFits(ts, t);
    }
    if !HasId(ts, t.id) {
      FitsNew(ts, t);
    }
  }

  lemma PutAt(ts: seq<Tunnel>, t: Tunnel)
    ensures var p, us := IndexOfId(ts, t.id), Put(ts, t);
            && p < |us| && us[p] == t && |ts| <= |us| <= |ts| + 1 && (p < |ts| ==> |us| == |ts|)
            && forall i :: 0 <= i < |us| && i != p ==> i < |ts| && us[i] == ts[i]
    ensures forall id :: HasId(Put(ts, t), id) <==> HasId(ts, id) || id == t.id
  {
    var p, us := IndexOfId(ts, t.id), Put(ts, t);
    assert us[p] == t;
    forall id | HasId(ts, id) ensures HasId(us, id) {
      var i :| 0 <= i < |ts| && ts[i].id == id;
      assert us[i].id == id;
    }
  }

  lemma FitsKeeps(ts: seq<Tunnel>, t: Tunnel)
    requires InOrder(ts) && Fits(ts, t)
    ensures InOrder(Put(ts, t))
  {
    hide Put, HasId;
    var p, us := IndexOfId(ts, t.id), Put(ts, t);
    PutAt(ts, t);
    assert t.matched != 0 ==> forall i :: 0 <= i < |ts| && i != p ==> Beside(ts[i], i, t, p);
  }

  lemma KeepsFits(ts: seq<Tunnel>, t: Tunnel)
    requires InOrder(Put(ts, t))
    ensures Fits(ts, t)
  {
    hide Put, HasId;
    var p, us := IndexOfId(ts, t.id), Put(ts, t);
    PutAt(ts, t);
    if t.matched != 0 {
      assert us[p] == t;
      forall i | 0 <= i < |ts| && i != p ensures Beside(ts[i], i, t, p) {
        assert us[i] == ts[i];
      }
    }
  }

  lemma FitsNew(ts: seq<Tunnel>, t: Tunnel)
    requires InOrder(ts) && !HasId(ts, t.id)
    ensures Fits(ts, t) <==> t.matched == 0 || (HasId(ts, t.matched) && !MatchedBy(ts, |ts|, t.matched))
  {
    var p := IndexOfId(ts, t.id);
    assert p == |ts|;
    forall i | 0 <= i < |ts| && ts[i].matched != 0 ensures ts[i].matched != t.id {
      assert HasId(ts, ts[i].matched);
    }
    if t.matched != 0 && HasId(ts, t.matched) && !MatchedBy(ts, |ts|, t.matched) {
      forall i | 0 <= i < |ts| ensures Beside(ts[i], i, t, p) {}
    }
  }

  // Removing a tunnel keeps the table in order exactly when none matches it.
  lemma RemoveInOrderIff(ts: seq<Tunnel>, id: nat)
    requires DistinctIds(ts) && InOrder(ts) && HasId(ts, id)
    ensures InOrder(Pop(ts, id)) <==> !MatchedBy(ts, |ts|, id)
  {
    hide InOrder, MatchedBy, Pop, DistinctIds;
    if MatchedBy(ts, |ts|, id) {
      RemovedMissing(ts, id);
    } else {
      RemovedUnused(ts, id);
    }
  }

  lemma RemovedMissing(ts: seq<Tunnel>, id: nat)
    requires DistinctIds(ts) && InOrder(ts) && HasId(ts, id) && MatchedBy(ts, |ts|, id)
    ensures !InOrder(Pop(ts, id))
  {
    var p, us := IndexOfId(ts, id), Pop(ts, id);
    assert forall i :: 0 <= i < |us| ==> us[i] == ts[if i < p then i else i + 1];
    var i :| 0 <= i < |ts| && ts[i].matched == id;
    assert i != p;
    var k := if i < p then i else i - 1;
    assert us[k].matched == id && !HasId(us, id);
  }

  lemma RemovedUnused(ts: seq<Tunnel>, id: nat)
    requires DistinctIds(ts) && InOrder(ts) && HasId(ts, id) && !MatchedBy(ts, |ts|, id)
    ensures InOrder(Pop(ts, id))
  {
    hide DistinctIds;
    var p, us := IndexOfId(ts, id), Pop(ts, id);
    forall i | 0 <= i < |us| ensures us[i] == ts[if i < p then i else i + 1] {}
    MatchesKept(ts, id);
    assert forall i, j :: 0 <= i < j < |us| && us[i].matched == us[j].matched ==> us[i].matched == 0;
  }

  lemma MatchesKept(ts: seq<Tunnel>, id: nat)
    requires InOrder(ts) && HasId(ts, id) && !MatchedBy(ts, |ts|, id)
    ensures var us := Pop(ts, id); forall i :: 0 <= i < |us| && us[i].matched != 0 ==> HasId(us, us[i].matched)
  {
    var p, us := IndexOfId(ts, id), Pop(ts, id);
    forall i | 0 <= i < |us| && us[i].matched != 0 ensures HasId(us, us[i].matched) {
      assert us[i] == ts[if i < p then i else i + 1];
      StillThere(ts, id, us[i].matched);
    }
  }

  lemma StillThere(ts: seq<Tunnel>, id: nat, other: nat)
    requires HasId(ts, other) && other != id
    ensures HasId(Pop(ts, id), other)
  {
    var p, us := IndexOfId(ts, id), Pop(ts, id);
    var j :| 0 <= j < |ts| && ts[j].id == other;
    if p < |ts| {
      assert us[if j < p then j else j - 1] == ts[j];
    }
  }

  // With a right summary before, and no address matching, the summary after a creation
  // is right exactly when the tunnel fits.
  lemma CreateRightIff(ts: seq<Tunnel>, t: Tunnel)
    requires DistinctIds(ts) && NoIpMatch(ts) && !t.ipMatch
    requires Summary(ts).Ok? && Correct(ts, Summary(ts).scan)
    ensures Summary(Put(ts, t)).Ok? && Correct(Put(ts, t), Summary(Put(ts, t)).scan) <==> Fits(ts, t)
  {
    hide Correct, InOrder, Summary, Put, Fits;
    SummaryRightIff(ts);
    CreateInOrderIff(ts, t);
    PutNoIp(ts, t);
    SummaryRightIff(Put(ts, t));
  }

  lemma PutNoIp(ts: seq<Tunnel>, t: Tunnel)
    requires DistinctIds(ts) && NoIpMatch(ts) && !t.ipMatch
    ensures NoIpMatch(Put(ts, t)) && DistinctIds(Put(ts, t))
  {
  }
}
