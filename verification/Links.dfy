// Records, and the two doubly linked structures every record is threaded on:
// the application-order list (prev, next) and its bucket's chain (hhPrev, hhNext).
module Links {
  import opened Seqs

  datatype SessionState = Established | Closing1 | Closing2 | Closed | UnknownState

  datatype CloseCode = NotClosed | FinAck | Rst | Timeout | UnknownCloseCode

  // The part of record_t the table and its callers look at.
  datatype Record = Record(sessionId: nat, sessionState: SessionState, sessionClose: CloseCode)

  class Node {
    const rec: Record
    var hashv: nat
    var prev: Node?
    var next: Node?
    var hhPrev: Node?
    var hhNext: Node?

    constructor (rec: Record)
      ensures this.rec == rec
    {
      this.rec := rec;
    }
  }

  datatype Bucket = Bucket(hhHead: Node?, count: nat, expandMult: nat)

  function First(s: seq<Node>): Node? {
    if |s| == 0 then null else s[0]
  }

  function Final(s: seq<Node>): Node? {
    if |s| == 0 then null else s[|s| - 1]
  }

  ghost predicate ListLinks(s: seq<Node>)
    reads s`prev, s`next
  {
    && (s != [] ==> s[0].prev == null && s[|s| - 1].next == null)
    && (forall i, j {:trigger s[i], s[j]} :: 0 <= i < |s| && j == i + 1 && j < |s| ==>
          s[i].next == s[j] && s[j].prev == s[i])
  }

  ghost predicate Chain(s: seq<Node>)
    reads s`hhPrev, s`hhNext
  {
    && (s != [] ==> s[0].hhPrev == null && s[|s| - 1].hhNext == null)
    && (forall i, j {:trigger s[i], s[j]} :: 0 <= i < |s| && j == i + 1 && j < |s| ==>
          s[i].hhNext == s[j] && s[j].hhPrev == s[i])
  }

  ghost predicate BucketOk(bk: Bucket, s: seq<Node>)
    reads s`hhPrev, s`hhNext
  {
    bk.hhHead == First(s) && bk.count == |s| && Chain(s)
  }

  ghost function NodesOf(cs: seq<seq<Node>>): set<Node> {
    set b, n | 0 <= b < |cs| && n in cs[b] :: n
  }

  lemma InNodesOf(cs: seq<seq<Node>>, b: nat)
    requires b < |cs|
    ensures forall n :: n in cs[b] ==> n in NodesOf(cs)
  {
  }

  // Every bucket heads the chain listed for it and counts it.
  ghost predicate BucketsOk(bkts: array<Bucket>, cs: seq<seq<Node>>)
    reads bkts, NodesOf(cs)`hhPrev, NodesOf(cs)`hhNext
  {
    && bkts.Length == |cs|
    && (forall b :: 0 <= b < |cs| ==> (InNodesOf(cs, b); BucketOk(bkts[b], cs[b])))
  }

  // Threads n in front of chain s.
  method LinkFront(head: Node?, n: Node, ghost s: seq<Node>)
    requires Chain(s) && head == First(s) && NoDup(s) && n !in s
    modifies n`hhPrev, n`hhNext, (if head == null then {} else {head})`hhPrev
    ensures Chain([n] + s)
  {
    n.hhNext := head;
    n.hhPrev := null;
    if head != null {
      head.hhPrev := n;
    }
  }

  // Takes s[j] out of chain s.
  method Unlink(n: Node, ghost s: seq<Node>, ghost j: nat)
    requires Chain(s) && NoDup(s) && j < |s| && s[j] == n
    modifies (if j == 0 then {} else {s[j - 1]})`hhNext, (if j + 1 == |s| then {} else {s[j + 1]})`hhPrev
    ensures Chain(Without(s, j))
  {
    if n.hhPrev != null {
      n.hhPrev.hhNext := n.hhNext;
    }
    if n.hhNext != null {
      n.hhNext.hhPrev := n.hhPrev;
    }
  }

  // Splices add in before s[i] in application order.
  method SpliceLinks(add: Node, iter: Node, ghost s: seq<Node>, ghost i: nat)
    requires ListLinks(s) && NoDup(s) && add !in s && i < |s| && s[i] == iter
    modifies add`prev, add`next, iter`prev, (if i == 0 then {} else {s[i - 1]})`next
    ensures ListLinks(s[..i] + [add] + s[i..]) && add.prev == old(iter.prev)
  {
    add.next := iter;
    add.prev := iter.prev;
    if add.prev != null {
      add.prev.next := add;
    }
    iter.prev := add;
  }

  // Takes s[i] out of application order.
  method UnlinkLinks(del: Node, ghost s: seq<Node>, ghost i: nat)
    requires ListLinks(s) && NoDup(s) && i < |s| && s[i] == del
    modifies (if i == 0 then {} else {s[i - 1]})`next, (if i + 1 == |s| then {} else {s[i + 1]})`prev
    ensures ListLinks(Without(s, i))
  {
    if del.prev != null {
      del.prev.next := del.next;
    }
    if del.next != null {
      del.next.prev := del.prev;
    }
  }

  lemma EndsNull(s: seq<Node>, i: nat)
    requires ListLinks(s) && i < |s|
    ensures s[i].prev == null <==> i == 0
    ensures s[i].next == null <==> i == |s| - 1
    ensures i > 0 ==> s[i].prev == s[i - 1]
    ensures i < |s| - 1 ==> s[i].next == s[i + 1]
  {
    assert i > 0 ==> s[i - 1].next == s[i];
    assert i + 1 < |s| ==> s[i + 1].prev == s[i];
  }

  // Pushes n on bucket b, whose count already includes it.
  method PushCounted(bkts: array<Bucket>, b: nat, n: Node, ghost cs: seq<seq<Node>>)
    requires bkts.Length == |cs| && b < |cs|
    requires bkts[b].count == |cs[b]| + 1 && bkts[b].hhHead == First(cs[b]) && Chain(cs[b])
    requires forall k :: 0 <= k < |cs| && k != b ==> BucketOk(bkts[k], cs[k])
    requires n !in cs[b] && NoDup(cs[b])
    requires forall k :: 0 <= k < |cs| && k != b ==> n !in cs[k] && (cs[b] != [] ==> cs[b][0] !in cs[k])
    modifies bkts, n`hhPrev, n`hhNext, (if cs[b] == [] then {} else {cs[b][0]})`hhPrev
    ensures BucketsOk(bkts, cs[b := [n] + cs[b]])
    ensures forall k :: 0 <= k < |cs| ==> bkts[k].expandMult == old(bkts[k].expandMult)
  {
    var head := bkts[b].hhHead;
    LinkFront(head, n, cs[b]);
    bkts[b] := bkts[b].(hhHead := n);
    ghost var cs' := cs[b := [n] + cs[b]];
    forall k | 0 <= k < |cs| ensures BucketOk(bkts[k], cs'[k]) {
      if k != b {
        assert old(BucketOk(bkts[k], cs[k]));
        assert n !in cs[k] && (cs[b] != [] ==> cs[b][0] !in cs[k]);
      }
    }
  }

  // HASH_ADD_TO_BKT without the expansion test: count, then push in front.
  method AddToBucket(bkts: array<Bucket>, b: nat, n: Node, ghost cs: seq<seq<Node>>)
    requires BucketsOk(bkts, cs)
    requires b < |cs| && n !in cs[b] && NoDup(cs[b])
    requires forall k :: 0 <= k < |cs| && k != b ==> n !in cs[k] && (cs[b] != [] ==> cs[b][0] !in cs[k])
    modifies bkts, n`hhPrev, n`hhNext, (if cs[b] == [] then {} else {cs[b][0]})`hhPrev
    ensures BucketsOk(bkts, cs[b := [n] + cs[b]])
    ensures forall k :: 0 <= k < |cs| ==> bkts[k].expandMult == old(bkts[k].expandMult)
  {
    assert forall k :: 0 <= k < |cs| ==> BucketOk(bkts[k], cs[k]);
    bkts[b] := bkts[b].(count := bkts[b].count + 1);
    PushCounted(bkts, b, n, cs);
  }

  // HASH_DEL_IN_BKT.
  method DelInBucket(bkts: array<Bucket>, b: nat, n: Node, ghost cs: seq<seq<Node>>, ghost j: nat)
    requires BucketsOk(bkts, cs)
    requires b < |cs| && NoDup(cs[b]) && j < |cs[b]| && cs[b][j] == n
    requires j > 0 ==> forall k :: 0 <= k < |cs| && k != b ==> cs[b][j - 1] !in cs[k]
    requires j + 1 < |cs[b]| ==> forall k :: 0 <= k < |cs| && k != b ==> cs[b][j + 1] !in cs[k]
    modifies bkts
    modifies (if j == 0 then {} else {cs[b][j - 1]})`hhNext, (if j + 1 == |cs[b]| then {} else {cs[b][j + 1]})`hhPrev
    ensures BucketsOk(bkts, cs[b := Without(cs[b], j)])
    ensures forall k :: 0 <= k < |cs| && k != b ==> bkts[k] == old(bkts[k])
    ensures bkts[b].expandMult == old(bkts[b].expandMult)
  {
    bkts[b] := bkts[b].(count := bkts[b].count - 1);
    if bkts[b].hhHead == n {
      bkts[b] := bkts[b].(hhHead := n.hhNext);
    }
    Unlink(n, cs[b], j);
    ghost var cs' := cs[b := Without(cs[b], j)];
    forall k | 0 <= k < |cs| ensures BucketOk(bkts[k], cs'[k]) {
      if k != b {
        assert old(BucketOk(bkts[k], cs[k]));
        assert j > 0 ==> cs[b][j - 1] !in cs[k];
        assert j + 1 < |cs[b]| ==> cs[b][j + 1] !in cs[k];
      }
    }
  }
}
