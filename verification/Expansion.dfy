// HASH_EXPAND_BUCKETS, chain by chain: every node of the old buckets is moved to the
// front of its new bucket while the expansion accounts are kept.
module Expansion {
  import opened Seqs
  import opened Bits
  import opened Redistribution
  import opened Links

  // The accounts of a partly filled new bucket array.
  ghost predicate Accounts<T>(bkts: seq<Bucket>, cs: seq<seq<T>>, ideal: nat, nonideal: nat)
    requires ideal >= 1
  {
    && |bkts| == |cs|
    && nonideal == Excess(cs, ideal)
    && (forall b :: 0 <= b < |cs| ==> bkts[b].expandMult == ExpandMult(|cs[b]|, ideal))
  }

  function ToBkt(hashv: nat, numBkts: nat): nat
    requires numBkts >= 1
  {
    And(hashv, numBkts - 1)
  }

  // The accounts after one more node in chain b.
  lemma AccountsPush<T>(bks: seq<Bucket>, bks': seq<Bucket>, cs: seq<seq<T>>, ideal: nat,
                        nonideal: nat, nonideal': nat, b: nat, x: T)
    requires ideal >= 1 && Accounts(bks, cs, ideal, nonideal) && b < |cs| && |bks'| == |bks|
    requires forall k :: 0 <= k < |cs| && k != b ==> bks'[k].expandMult == bks[k].expandMult
    requires nonideal' == if |cs[b]| + 1 > ideal then nonideal + 1 else nonideal
    requires bks'[b].expandMult ==
             if |cs[b]| + 1 > ideal && |cs[b]| + 1 > bks[b].expandMult * ideal
             then bks[b].expandMult + 1 else bks[b].expandMult
    ensures Accounts(bks', cs[b := [x] + cs[b]], ideal, nonideal')
  {
    ExcessPush(cs, ideal, b, x);
    ExpandMultStep(|cs[b]|, ideal);
  }

  // One node moved: count it, account for it, push it.
  method MoveNode(n: Node, bkts: array<Bucket>, b: nat, ideal: nat, nonideal: nat, ghost cs: seq<seq<Node>>)
    returns (nonideal': nat)
    requires BucketsOk(bkts, cs) && ideal >= 1 && Accounts(bkts[..], cs, ideal, nonideal)
    requires b < |cs| && n !in cs[b] && NoDup(cs[b])
    requires forall k :: 0 <= k < |cs| && k != b ==> n !in cs[k] && (cs[b] != [] ==> cs[b][0] !in cs[k])
    modifies bkts, n`hhPrev, n`hhNext, (if cs[b] == [] then {} else {cs[b][0]})`hhPrev
    ensures BucketsOk(bkts, cs[b := [n] + cs[b]])
    ensures Accounts(bkts[..], cs[b := [n] + cs[b]], ideal, nonideal')
  {
    nonideal' := nonideal;
    ghost var bks := bkts[..];
    var count, mult := bkts[b].count + 1, bkts[b].expandMult;
    if count > ideal {
      nonideal' := nonideal' + 1;
      if count > mult * ideal {
        mult := mult + 1;
      }
    }
    assert forall k :: 0 <= k < |cs| ==> BucketOk(bkts[k], cs[k]);
    bkts[b] := bkts[b].(count := count, expandMult := mult);
    PushCounted(bkts, b, n, cs);
    AccountsPush(bks, bkts[..], cs, ideal, nonideal, nonideal', b, n);
  }

  // What moving n needs to know about the nodes moved before it.
  lemma MoveFacts(done: seq<Node>, n: Node, cs: seq<seq<Node>>, home: Node -> nat)
    requires NoDup(done) && n !in done && home(n) < |cs|
    requires forall x :: x in done ==> home(x) < |cs|
    requires cs == Dist(done, |cs|, home)
    ensures Movable(n, done, cs, home(n))
    ensures cs[home(n) := [n] + cs[home(n)]] == Dist(done + [n], |cs|, home)
  {
    DistHomed(done, |cs|, home);
    MovableIfHomed(n, done, cs, home);
    assert Front(done + [n]) == done;
  }

  ghost predicate Movable(n: Node, done: seq<Node>, cs: seq<seq<Node>>, b: nat) {
    && b < |cs| && NoDup(cs[b]) && n !in cs[b]
    && (cs[b] != [] ==> cs[b][0] in done)
    && (forall k :: 0 <= k < |cs| && k != b ==> n !in cs[k] && (cs[b] != [] ==> cs[b][0] !in cs[k]))
  }

  lemma MovableIfHomed(n: Node, done: seq<Node>, cs: seq<seq<Node>>, home: Node -> nat)
    requires Homed(cs, done, home) && n !in done && home(n) < |cs|
    ensures Movable(n, done, cs, home(n))
  {
    var b := home(n);
    forall k | 0 <= k < |cs| && k != b ensures n !in cs[k] && (cs[b] != [] ==> cs[b][0] !in cs[k]) {
      if cs[b] != [] {
        assert cs[b][0] in cs[b];
        Elsewhere(cs, done, home, cs[b][0], k);
      }
    }
  }

  // The hhNext links of the part of a chain not walked yet.
  ghost predicate NextIntact(s: seq<Node>)
    reads s`hhNext
  {
    && (s != [] ==> s[|s| - 1].hhNext == null)
    && (forall i, j {:trigger s[i], s[j]} :: 0 <= i < |s| && j == i + 1 && j < |s| ==> s[i].hhNext == s[j])
  }

  // The new buckets after the nodes of `done` have been moved, in that order.
  ghost predicate Partial(bkts: array<Bucket>, cs: seq<seq<Node>>, done: seq<Node>, home: Node -> nat,
                          ideal: nat, nonideal: nat)
    reads bkts, NodesOf(cs)`hhPrev, NodesOf(cs)`hhNext
  {
    && ideal >= 1
    && BucketsOk(bkts, cs)
    && Accounts(bkts[..], cs, ideal, nonideal)
    && (forall x :: x in done ==> home(x) < |cs|)
    && cs == Dist(done, |cs|, home)
  }

  // The body of the inner loop.
  method RehashOne(n: Node, bkts: array<Bucket>, ideal: nat, nonideal: nat, ghost log2: nat,
      ghost done: seq<Node>, ghost cs: seq<seq<Node>>, ghost home: Node -> nat, ghost region: set<Node>)
    returns (nonideal': nat, ghost cs': seq<seq<Node>>)
    requires Partial(bkts, cs, done, home, ideal, nonideal)
    requires |cs| == Pow2(log2) && home(n) == n.hashv % |cs|
    requires NoDup(done) && n !in done
    requires n in region && forall x :: x in done ==> x in region
    modifies bkts, region`hhPrev, n`hhNext
    ensures |cs'| == |cs| && Partial(bkts, cs', done + [n], home, ideal, nonideal')
  {
    MaskIsMod(n.hashv, log2);
    var b := ToBkt(n.hashv, bkts.Length);
    MoveFacts(done, n, cs, home);
    assert b == home(n);
    nonideal' := MoveNode(n, bkts, b, ideal, nonideal, cs);
    cs' := cs[b := [n] + cs[b]];
  }

  // The inner loop: one old chain walked through its saved next pointers.
  method RehashChain(first: Node?, bkts: array<Bucket>, ideal: nat, nonideal: nat, ghost log2: nat,
      ghost s: seq<Node>, ghost done: seq<Node>, ghost cs: seq<seq<Node>>, ghost home: Node -> nat,
      ghost region: set<Node>)
    returns (nonideal': nat, ghost cs': seq<seq<Node>>)
    requires Partial(bkts, cs, done, home, ideal, nonideal)
    requires |cs| == Pow2(log2)
    requires NoDup(done + s) && first == First(s) && NextIntact(s)
    requires forall x :: x in s ==> home(x) == x.hashv % |cs|
    requires forall x :: x in done + s ==> x in region
    modifies bkts, region`hhPrev, s`hhNext
    ensures |cs'| == |cs| && Partial(bkts, cs', done + s, home, ideal, nonideal')
  {
    nonideal', cs' := nonideal, cs;
    var thh := first;
    hide Partial;
    ghost var moved, rest := done, s;
    while thh != null
      invariant moved + rest == done + s && thh == First(rest) && NextIntact(rest)
      invariant forall x :: x in rest ==> x in s
      invariant forall x :: x in moved ==> x in region
      invariant |cs'| == |cs| && Partial(bkts, cs', moved, home, ideal, nonideal')
      decreases |rest|
    {
      var nxt := thh.hhNext;
      PopFacts(moved, rest);
      assert thh == rest[0] && thh in s && thh in region;
      nonideal', cs' := RehashOne(thh, bkts, ideal, nonideal', log2, moved, cs', home, region);
      thh := nxt;
      moved, rest := moved + [rest[0]], rest[1..];
    }
    assert moved + [] == moved;
  }

  lemma PopFacts(moved: seq<Node>, rest: seq<Node>)
    requires NoDup(moved + rest) && rest != []
    ensures NoDup(moved) && rest[0] !in moved && rest[0] !in rest[1..]
    ensures (moved + [rest[0]]) + rest[1..] == moved + rest
    ensures forall x :: x in moved ==> x in moved + rest
  {
    var all := moved + rest;
    assert moved == all[..|moved|] && all[|moved|] == rest[0];
    assert rest[1..] == all[|moved| + 1..];
  }

  // The buckets head chains whose hhNext links are whole.
  ghost predicate Unwalked(bkts: array<Bucket>, cs: seq<seq<Node>>)
    reads bkts, NodesOf(cs)`hhNext
  {
    && bkts.Length == |cs|
    && (forall k :: 0 <= k < |cs| ==> (InNodesOf(cs, k); bkts[k].hhHead == First(cs[k]) && NextIntact(cs[k])))
  }

  // The outer loop: all old chains, in bucket order.
  method RehashAll(old_: array<Bucket>, bkts: array<Bucket>, ideal: nat, ghost log2: nat,
      ghost cs: seq<seq<Node>>, ghost home: Node -> nat, ghost region: set<Node>)
    returns (nonideal: nat, ghost cs': seq<seq<Node>>)
    requires old_ != bkts && bkts.Length == Pow2(log2) && ideal >= 1
    requires Unwalked(old_, cs) && NoDup(Flatten(cs))
    requires forall b :: 0 <= b < bkts.Length ==> bkts[b] == Bucket(null, 0, 0)
    requires forall x :: x in Flatten(cs) ==> home(x) == x.hashv % bkts.Length && x in region
    modifies bkts, region`hhPrev, region`hhNext
    ensures |cs'| == bkts.Length && Partial(bkts, cs', Flatten(cs), home, ideal, nonideal)
  {
    cs' := seq(bkts.Length, _ => []);
    nonideal := 0;
    ExcessEmpty(cs', ideal);
    var i := 0;
    while i < old_.Length
      invariant i <= |cs|
      invariant |cs'| == bkts.Length && Partial(bkts, cs', Flatten(cs[..i]), home, ideal, nonideal)
      invariant forall n :: n in region && n !in Flatten(cs[..i]) ==> n.hhNext == old(n.hhNext)
    {
      ghost var done := Flatten(cs[..i]);
      FlattenPrefix(cs, i);
      NoDupApart(done, cs[i]);
      assert old(NextIntact(cs[i]));
      nonideal, cs' := RehashChain(old_[i].hhHead, bkts, ideal, nonideal, log2, cs[i], done, cs', home, region);
      i := i + 1;
    }
    assert cs[..i] == cs;
  }
}
