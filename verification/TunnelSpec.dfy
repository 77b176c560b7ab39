// The one-pass summary of tunnel chains, and what a right summary is.
module TunnelSpec {

  // matched is 0 when the tunnel does not match on another one; ipMatch says whether it
  // also matches on a source address.
  datatype Tunnel = Tunnel(id: nat, matched: nat, ipMatch: bool)

  // A chain, or a pair that might be one because it also matches on addresses.
  datatype Chain = Chain(pair: bool, ids: seq<nat>)

  datatype Scan = Scan(alone: seq<nat>, chains: seq<Chain>, scanned: seq<nat>)

  datatype Failure =
    | MatchedNotExists(tunnel: nat, matched: nat)
    | PairCannotGrow(tunnel: nat)

  datatype Result = Ok(scan: Scan) | Err(failure: Failure)

  predicate HasId(ts: seq<Tunnel>, id: nat) {
    exists i :: 0 <= i < |ts| && ts[i].id == id
  }

  function FirstWith(chains: seq<Chain>, id: nat): (k: nat)
    ensures k <= |chains| && (k < |chains| ==> id in chains[k].ids)
    ensures forall j :: 0 <= j < k ==> id !in chains[j].ids
  {
    if chains == [] || id in chains[0].ids then 0 else 1 + FirstWith(chains[1..], id)
  }

  function RemoveFirst(s: seq<nat>, x: nat): seq<nat> {
    if s == [] then []
    else if s[0] == x then s[1..]
    else [s[0]] + RemoveFirst(s[1..], x)
  }

  // The loop's turn for one tunnel.
  function Turn(ts: seq<Tunnel>, t: Tunnel, s: Scan): Result {
    if t.id in s.scanned then Ok(s)
    else if t.matched == 0 then Ok(Scan(s.alone + [t.id], s.chains, s.scanned + [t.id]))
    else if !HasId(ts, t.matched) then Err(MatchedNotExists(t.id, t.matched))
    else
      var alone, k := RemoveFirst(s.alone, t.matched), FirstWith(s.chains, t.matched);
      if t.ipMatch || k == |s.chains| then
        Ok(Scan(alone, s.chains + [Chain(t.ipMatch, [t.matched, t.id])], s.scanned + [t.id] + [t.matched]))
      else if s.chains[k].pair then Err(PairCannotGrow(t.id))
      else Ok(Scan(alone, s.chains[k := Chain(false, s.chains[k].ids + [t.id])], s.scanned + [t.id]))
  }

  // The scan after the first n tunnels.
  function ScanTo(ts: seq<Tunnel>, n: nat): Result
    requires n <= |ts|
  {
    if n == 0 then Ok(Scan([], [], []))
    else
      match ScanTo(ts, n - 1)
      case Ok(s) => Turn(ts, ts[n - 1], s)
      case Err(e) => Err(e)
  }

  function Summary(ts: seq<Tunnel>): Result {
    ScanTo(ts, |ts|)
  }

  // ----- What is right -----

  ghost predicate DistinctIds(ts: seq<Tunnel>) {
    forall i, j :: 0 <= i < j < |ts| ==> ts[i].id != ts[j].id
  }

  predicate NoIpMatch(ts: seq<Tunnel>) {
    forall i :: 0 <= i < |ts| ==> !ts[i].ipMatch
  }

  // One of the first n tunnels matches this one.
  predicate MatchedBy(ts: seq<Tunnel>, n: nat, id: nat)
    requires n <= |ts|
  {
    id != 0 && exists i :: 0 <= i < n && ts[i].matched == id
  }

  // One of the first n tunnels has this id, and matches none.
  predicate HeadIn(ts: seq<Tunnel>, n: nat, id: nat)
    requires n <= |ts|
  {
    exists i :: 0 <= i < n && ts[i].id == id && ts[i].matched == 0
  }

  // One of the first n tunnels has id b and matches a.
  predicate LinkIn(ts: seq<Tunnel>, n: nat, a: nat, b: nat)
    requires n <= |ts|
  {
    a != 0 && exists i :: 0 <= i < n && ts[i].id == b && ts[i].matched == a
  }

  // A path of two or more tunnels, each matching the one before, that cannot be extended
  // by any of the first n.
  ghost predicate PathTo(ts: seq<Tunnel>, n: nat, c: seq<nat>)
    requires n <= |ts|
  {
    && |c| >= 2
    && HeadIn(ts, |ts|, c[0])
    && (forall i, j :: 0 <= i < j < |c| && j == i + 1 ==> LinkIn(ts, n, c[i], c[j]))
    && !MatchedBy(ts, n, c[|c| - 1])
  }

  // No tunnel is listed twice.
  ghost predicate Once(s: Scan) {
    && (forall i, j :: 0 <= i < j < |s.alone| ==> s.alone[i] != s.alone[j])
    && (forall k, l, i, j ::
          (0 <= k < |s.chains| && 0 <= l < |s.chains| && 0 <= i < |s.chains[k].ids| && 0 <= j < |s.chains[l].ids|
           && s.chains[k].ids[i] == s.chains[l].ids[j]) ==> k == l && i == j)
    && (forall i, k, j :: 0 <= i < |s.alone| && 0 <= k < |s.chains| && 0 <= j < |s.chains[k].ids| ==>
          s.alone[i] != s.chains[k].ids[j])
  }

  predicate Listed(s: Scan, id: nat) {
    id in s.alone || InChain(s.chains, id)
  }

  predicate InChain(chains: seq<Chain>, id: nat) {
    exists k :: 0 <= k < |chains| && id in chains[k].ids
  }

  // Every tunnel is listed once: the stand-alone ones are those that match none and are
  // matched by none, and every chain is a maximal match path, in order.
  ghost predicate Correct(ts: seq<Tunnel>, s: Scan) {
    && Once(s)
    && (forall i :: 0 <= i < |ts| ==> Listed(s, ts[i].id))
    && (forall i :: 0 <= i < |s.alone| ==> HeadIn(ts, |ts|, s.alone[i]) && !MatchedBy(ts, |ts|, s.alone[i]))
    && (forall k :: 0 <= k < |s.chains| ==> !s.chains[k].pair && PathTo(ts, |ts|, s.chains[k].ids))
  }

  // Every matched tunnel exists, none is matched by two, and one that itself matches
  // another comes before the one matching it.
  ghost predicate InOrder(ts: seq<Tunnel>) {
    && (forall i :: 0 <= i < |ts| && ts[i].matched != 0 ==> HasId(ts, ts[i].matched))
    && (forall i, j :: 0 <= i < j < |ts| && ts[i].matched == ts[j].matched ==> ts[i].matched == 0)
    && (forall i, j ::
          (0 <= i < |ts| && 0 <= j < |ts| && ts[i].matched == ts[j].id && ts[i].matched != 0 && ts[j].matched != 0) ==> j < i)
  }
}
