// The hash table of uthash.h: every node is threaded on the application-order list and
// on the chain of the bucket its hash selects.
module UtHash {
  import opened Seqs
  import opened Bits
  import opened Redistribution
  import opened Links
  import opened Expansion
  import opened MergeSort
  import opened ListSort

  const INITIAL_NUM_BUCKETS: nat := 32
  const INITIAL_NUM_BUCKETS_LOG2: nat := 5
  const BKT_CAPACITY_THRESH: nat := 10

  function KeyHash(hash: nat -> nat): Node -> nat {
    (n: Node) => hash(n.rec.sessionId)
  }

  ghost predicate DistinctKeys(s: seq<Node>) {
    forall i, j :: 0 <= i < j < |s| ==> s[i].rec.sessionId != s[j].rec.sessionId
  }

  // How many of the latest expansions in a row were ineffective.
  function Trailing(history: seq<bool>): nat {
    if history == [] || !Last(history) then 0 else 1 + Trailing(Front(history))
  }

  // HASH_FIND_IN_BKT: the first node of the chain with this hash and this key.
  method FindInBkt(first: Node?, key: nat, hashval: nat, ghost s: seq<Node>) returns (out: Node?)
    requires first == First(s) && NextIntact(s)
    requires forall n :: n in s && n.rec.sessionId == key ==> n.hashv == hashval
    ensures out == null ==> forall n :: n in s ==> n.rec.sessionId != key
    ensures out != null ==> out in s && out.rec.sessionId == key
  {
    out := first;
    ghost var j := 0;
    while out != null && !(out.hashv == hashval && out.rec.sessionId == key)
      invariant j <= |s| && out == (if j < |s| then s[j] else null)
      invariant forall k :: 0 <= k < j ==> s[k].rec.sessionId != key
      decreases |s| - j
    {
      out := out.hhNext;
      j := j + 1;
    }
  }

  // The position of the first element comparing greater than add.
  function InsertPos(s: seq<Node>, add: Node, cmp: Comparator): (i: nat)
    ensures i <= |s|
  {
    if s == [] || cmp(s[0].rec, add.rec) > 0 then 0 else 1 + InsertPos(s[1..], add, cmp)
  }

  lemma {:induction false} InsertPosIs(s: seq<Node>, add: Node, cmp: Comparator, i: nat)
    requires i <= |s| && forall k :: 0 <= k < i ==> cmp(s[k].rec, add.rec) <= 0
    requires i < |s| ==> cmp(s[i].rec, add.rec) > 0
    ensures InsertPos(s, add, cmp) == i
  {
    if i > 0 {
      InsertPosIs(s[1..], add, cmp, i - 1);
    }
  }

  lemma KeysSnoc(s: seq<Node>, add: Node)
    requires DistinctKeys(s) && forall n :: n in s ==> n.rec.sessionId != add.rec.sessionId
    ensures DistinctKeys(s + [add])
  {
  }

  lemma KeysOfPermutation(s: seq<Node>, t: seq<Node>)
    requires DistinctKeys(s) && NoDup(t) && forall n :: n in t ==> n in s
    ensures DistinctKeys(t)
  {
    forall i, j | 0 <= i < j < |t| ensures t[i].rec.sessionId != t[j].rec.sessionId {
      assert t[i] in s && t[j] in s;
    }
  }

  lemma ChainNodes(cs: seq<seq<Node>>, members: seq<Node>, home: Node -> nat)
    requires Homed(cs, members, home)
    ensures forall n :: n in NodesOf(cs) ==> n in members
  {
  }

  lemma WithoutLength(s: seq<Node>, i: nat)
    requires i < |s|
    ensures |Without(s, i)| == |s| - 1
  {
  }

  lemma InsertedMembers(s: seq<Node>, i: nat, x: Node)
    requires i <= |s|
    ensures forall y :: y in s[..i] + [x] + s[i..] <==> y in s + [x]
  {
    assert s == s[..i] + s[i..];
  }

  // Where members[i] sits in its chain, and that its neighbours there are in no other chain.
  lemma Removable<T>(cs: seq<seq<T>>, members: seq<T>, home: T -> nat, i: nat) returns (j: nat)
    requires Homed(cs, members, home) && i < |members|
    ensures home(members[i]) < |cs|
    ensures var b := home(members[i]);
            && NoDup(cs[b]) && j < |cs[b]| && cs[b][j] == members[i]
            && (j > 0 ==> cs[b][j - 1] in members && forall k :: 0 <= k < |cs| && k != b ==> cs[b][j - 1] !in cs[k])
            && (j + 1 < |cs[b]| ==>
                  cs[b][j + 1] in members && forall k :: 0 <= k < |cs| && k != b ==> cs[b][j + 1] !in cs[k])
  {
    var x := members[i];
    assert x in members;
    var b := home(x);
    j :| 0 <= j < |cs[b]| && cs[b][j] == x;
    if j > 0 {
      OnlyHere(cs, members, home, b, j - 1);
    }
    if j + 1 < |cs[b]| {
      OnlyHere(cs, members, home, b, j + 1);
    }
  }

  lemma OnlyHere<T>(cs: seq<seq<T>>, members: seq<T>, home: T -> nat, b: nat, j: nat)
    requires Homed(cs, members, home) && b < |cs| && j < |cs[b]|
    ensures cs[b][j] in members
    ensures forall k :: 0 <= k < |cs| && k != b ==> cs[b][j] !in cs[k]
  {
    var m := cs[b][j];
    assert m in cs[b];
    forall k | 0 <= k < |cs| && k != b ensures m !in cs[k] {
      Elsewhere(cs, members, home, m, k);
    }
  }

  // The back links of the first n nodes of a chain, or of the list, lead to the node before.
  ghost predicate HhBack(s: seq<Node>, n: nat)
    requires n <= |s|
    reads s`hhPrev
  {
    && (n > 0 ==> s[0].hhPrev == null)
    && (forall i, j {:trigger s[i], s[j]} :: 0 <= i < n && j == i + 1 && j < n ==> s[j].hhPrev == s[i])
  }

  ghost predicate ListBack(s: seq<Node>, n: nat)
    requires n <= |s|
    reads s`prev
  {
    && (n > 0 ==> s[0].prev == null)
    && (forall i, j {:trigger s[i], s[j]} :: 0 <= i < n && j == i + 1 && j < n ==> s[j].prev == s[i])
  }

  lemma BackLinks(s: seq<Node>)
    ensures Chain(s) <==> NextIntact(s) && HhBack(s, |s|)
    ensures ListLinks(s) <==> NextOk(s) && ListBack(s, |s|)
  {
  }

  lemma BackStep(s: seq<Node>, n: nat)
    requires n < |s|
    ensures HhBack(s, n + 1) <==> HhBack(s, n) && s[n].hhPrev == if n > 0 then s[n - 1] else null
    ensures ListBack(s, n + 1) <==> ListBack(s, n) && s[n].prev == if n > 0 then s[n - 1] else null
  {
  }

  // Walks a chain forward, comparing each back link with the node walked before.
  method WalkChain(first: Node?, ghost s: seq<Node>) returns (count: nat, good: bool)
    requires first == First(s) && NextIntact(s)
    ensures count == |s| && (good <==> HhBack(s, |s|))
  {
    count, good := 0, true;
    var prev: Node?, thh := null, first;
    while thh != null
      invariant count <= |s| && thh == (if count < |s| then s[count] else null)
      invariant prev == (if count > 0 then s[count - 1] else null)
      invariant good <==> HhBack(s, count)
      decreases |s| - count
    {
      BackStep(s, count);
      good := good && prev == thh.hhPrev;
      count := count + 1;
      prev := thh;
      thh := thh.hhNext;
    }
  }

  method WalkList(first: Node?, ghost s: seq<Node>) returns (count: nat, good: bool)
    requires first == First(s) && NextOk(s)
    ensures count == |s| && (good <==> ListBack(s, |s|))
  {
    count, good := 0, true;
    var prev: Node?, thh := null, first;
    while thh != null
      invariant count <= |s| && thh == (if count < |s| then s[count] else null)
      invariant prev == (if count > 0 then s[count - 1] else null)
      invariant good <==> ListBack(s, count)
      decreases |s| - count
    {
      BackStep(s, count);
      good := good && prev == thh.prev;
      count := count + 1;
      prev := thh;
      thh := thh.next;
    }
  }

  // What the integrity check finds at each bucket.
  ghost predicate BucketSound(bk: Bucket, s: seq<Node>)
    reads s`hhPrev
  {
    bk.count == |s| && HhBack(s, |s|)
  }

  method EmptyBuckets(n: nat) returns (bkts: array<Bucket>, ghost cs: seq<seq<Node>>)
    ensures fresh(bkts) && bkts.Length == |cs| == n && BucketsOk(bkts, cs)
    ensures forall b :: 0 <= b < n ==> cs[b] == [] && bkts[b].expandMult == 0
  {
    bkts := new Bucket[n](_ => Bucket(null, 0, 0));
    cs := seq(n, _ => []);
  }

  function MultsOf(bks: seq<Bucket>): (mults: seq<nat>)
    ensures |mults| == |bks|
    ensures forall b :: 0 <= b < |bks| ==> mults[b] == bks[b].expandMult
  {
    seq(|bks|, b requires 0 <= b < |bks| => bks[b].expandMult)
  }

  lemma SameMults(a: seq<Bucket>, b: seq<Bucket>)
    requires |a| == |b| && forall k :: 0 <= k < |a| ==> a[k].expandMult == b[k].expandMult
    ensures MultsOf(a) == MultsOf(b)
  {
  }

  // While there has been no expansion, multipliers are 0 and chains shorter than 10.
  ghost predicate ShortChains(history: seq<bool>, chains: seq<seq<Node>>, mults: seq<nat>) {
    history == [] ==> |mults| == |chains| && forall b :: 0 <= b < |chains| ==> mults[b] == 0 && |chains[b]| < 10
  }

  lemma PushShort(history: seq<bool>, chains: seq<seq<Node>>, mults: seq<nat>, b: nat, add: Node)
    requires ShortChains(history, chains, mults) && b < |chains| == |mults|
    requires history == [] ==> |chains[b]| + 1 < (mults[b] + 1) * BKT_CAPACITY_THRESH
    ensures ShortChains(history, chains[b := [add] + chains[b]], mults)
  {
  }

  lemma RemoveShort(history: seq<bool>, chains: seq<seq<Node>>, mults: seq<nat>, b: nat, j: nat)
    requires ShortChains(history, chains, mults) && b < |chains| && j < |chains[b]|
    ensures ShortChains(history, chains[b := Without(chains[b], j)], mults)
  {
  }

  // What only an expansion changes.
  datatype Sizing = Sizing(numBuckets: nat, multipliers: seq<nat>, idealChainMaxlen: nat, nonidealItems: nat,
                           ineffExpands: nat, noexpand: bool)

  class HashTable {
    const hash: nat -> nat

    var head: Node?
    var tail: Node?
    var buckets: array<Bucket>
    var numBuckets: nat
    var log2NumBuckets: nat
    var numItems: nat
    var idealChainMaxlen: nat
    var nonidealItems: nat
    var ineffExpands: nat
    var noexpand: bool

    ghost var app: seq<Node>           // the elements in application order
    ghost var chains: seq<seq<Node>>   // the elements of each bucket, front first
    ghost var history: seq<bool>       // for each expansion since the table was made: was it ineffective?

    ghost function Home(): Node -> nat
      requires numBuckets >= 1
      reads this`numBuckets
    {
      HomeFn<Node>(KeyHash(hash), numBuckets)
    }

    ghost predicate ListOk()
      reads this`head, this`tail, this`app, app`prev, app`next
    {
      head == First(app) && (app != [] ==> tail == Final(app)) && NoDup(app) && ListLinks(app)
    }

    // Growth bookkeeping: the bucket count doubles with each expansion, and expansion
    // is inhibited exactly when the last two were ineffective.
    ghost predicate GrowthOk()
      reads this`numBuckets, this`log2NumBuckets, this`ineffExpands, this`noexpand, this`history
    {
      && numBuckets == Pow2(log2NumBuckets)
      && log2NumBuckets == INITIAL_NUM_BUCKETS_LOG2 + |history|
      && ineffExpands == Trailing(history) <= 2
      && (noexpand <==> ineffExpands == 2)
    }

    // The buckets hold exactly `members`.
    ghost predicate BktOk(members: seq<Node>)
      reads this`buckets, this`chains, this`numBuckets, buckets
      reads members`hhPrev, members`hhNext, members`hashv
    {
      && |chains| == numBuckets == buckets.Length >= 1
      && Homed(chains, members, Home())
      && (ChainNodes(chains, members, Home()); BucketsOk(buckets, chains))
      && (forall n :: n in members ==> n.hashv == hash(n.rec.sessionId))
    }

    ghost function Size(): Sizing
      reads this`numBuckets, this`buckets, buckets, this`idealChainMaxlen, this`nonidealItems
      reads this`ineffExpands, this`noexpand
    {
      Sizing(numBuckets, MultsOf(buckets[..]), idealChainMaxlen, nonidealItems, ineffExpands, noexpand)
    }

    ghost predicate Unexpanded()
      reads this`history, this`chains, this`buckets, buckets
    {
      ShortChains(history, chains, MultsOf(buckets[..]))
    }

    ghost predicate Valid()
      reads this, buckets, app
    {
      && ListOk()
      && DistinctKeys(app)
      && (app != [] ==> BktOk(app) && GrowthOk() && Unexpanded() && numItems == |app|)
    }

    // Every object an operation may write.
    ghost function Footprint(): set<object>
      reads this`buckets, this`app
    {
      {this, buckets} + set n | n in app
    }

    constructor (hash: nat -> nat)
      ensures Valid() && app == [] && head == null && this.hash == hash && fresh(buckets)
    {
      this.hash := hash;
      head, tail := null, null;
      buckets := new Bucket[0];
      app, chains, history := [], [], [];
    }

    // HASH_MAKE_TABLE
    method MakeTable(add: Node)
      modifies this`tail, this`buckets, this`numBuckets, this`log2NumBuckets, this`numItems
      modifies this`idealChainMaxlen, this`nonidealItems, this`ineffExpands, this`noexpand
      modifies this`chains, this`history
      ensures BktOk([]) && GrowthOk() && numItems == 0 && tail == add && fresh(buckets)
      ensures history == [] && numBuckets == INITIAL_NUM_BUCKETS && Unexpanded()
      ensures forall b :: 0 <= b < |chains| ==> chains[b] == []
    {
      hide Homed, HomeFn, Pow2, BucketsOk, Trailing;
      InitialSize();
      TrailingEmpty();
      numItems, idealChainMaxlen, nonidealItems, ineffExpands, noexpand := 0, 0, 0, 0, false;
      tail := add;
      numBuckets, log2NumBuckets := INITIAL_NUM_BUCKETS, INITIAL_NUM_BUCKETS_LOG2;
      buckets, chains := EmptyBuckets(INITIAL_NUM_BUCKETS);
      history := [];
      EmptyHomed<Node>(chains, Home());
    }

    // HASH_APPEND_LIST
    method AppendList(add: Node)
      requires ListOk() && app != [] && add !in app
      modifies this`tail, this`app, add`prev, add`next, tail`next
      ensures ListOk() && app == old(app) + [add]
    {
      add.next := null;
      add.prev := tail;
      tail.next := add;
      tail := add;
      app := app + [add];
    }

    // HASH_FIND_BYHASHVALUE
    method FindByHashValue(key: nat, hashval: nat) returns (out: Node?)
      requires Valid() && hashval == hash(key)
      ensures out == null ==> forall n :: n in app ==> n.rec.sessionId != key
      ensures out != null ==> out in app && out.rec.sessionId == key
    {
      out := null;
      if head != null {
        hide Homed;
        MaskIsMod(hashval, log2NumBuckets);
        var bkt := ToBkt(hashval, numBuckets);
        ghost var s := chains[bkt];
        ChainHolds(chains, app, Home(), bkt);
        assert BucketOk(buckets[bkt], s);
        out := FindInBkt(buckets[bkt].hhHead, key, hashval, s);
        assert forall n :: n in app && n.rec.sessionId == key ==> Home()(n) == bkt;
      }
    }

    // An add under this key is to expand the table.
    ghost predicate Due(key: nat)
      reads this`noexpand, this`chains, this`numBuckets, this`buckets, buckets
    {
      && numBuckets >= 1 && !noexpand
      && var b := hash(key) % numBuckets;
         b < |chains| && b < buckets.Length
         && |chains[b]| + 1 >= (buckets[b].expandMult + 1) * BKT_CAPACITY_THRESH
    }

    lemma DueAt(add: Node)
      requires numBuckets >= 1
      ensures var b := Home()(add);
              Due(add.rec.sessionId) <==>
                !noexpand && b < |chains| && b < buckets.Length
                && |chains[b]| + 1 >= (buckets[b].expandMult + 1) * BKT_CAPACITY_THRESH
    {
    }

    // The accounts an expansion leaves.
    ghost predicate ExpansionOk()
      reads this`idealChainMaxlen, this`numItems, this`numBuckets, this`nonidealItems, this`chains, this`buckets, buckets
    {
      && IsCeil(idealChainMaxlen, numItems, numBuckets) && idealChainMaxlen >= 1
      && Accounts(buckets[..], chains, idealChainMaxlen, nonidealItems)
    }

    method ExpandBuckets(ghost members: seq<Node>)
      requires BktOk(members) && GrowthOk() && NoDup(members) && numItems == |members| >= 1 && !noexpand
      modifies this`buckets, this`numBuckets, this`log2NumBuckets, this`idealChainMaxlen, this`nonidealItems
      modifies this`ineffExpands, this`noexpand, this`chains, this`history
      modifies members`hhPrev, members`hhNext
      ensures BktOk(members) && GrowthOk() && Unexpanded() && fresh(buckets)
      ensures numBuckets == 2 * old(numBuckets)
      ensures forall b :: 0 <= b < numBuckets ==>
                chains[b] == RehashedChain(old(chains), KeyHash(hash), b)
      ensures ExpansionOk()
      ensures history == old(history) + [nonidealItems > numItems / 2]
    {
      hide Homed, Accounts, RehashedChain, HomeFn, IsCeil, IdealChainMaxlen;
      var ideal := IdealChainMaxlen(numItems, numBuckets, log2NumBuckets);
      idealChainMaxlen := ideal;
      var newBuckets, nonideal;
      ghost var cs;
      newBuckets, nonideal, cs := Doubled(buckets, ideal, log2NumBuckets, chains, members, hash);
      nonidealItems := nonideal;
      numBuckets := numBuckets * 2;
      log2NumBuckets := log2NumBuckets + 1;
      buckets := newBuckets;
      chains := cs;
      JudgeExpansion();
    }

    // HASH_ADD_TO_TABLE and HASH_ADD_TO_BKT: count the item, push it on its bucket, and
    // expand when the bucket is due and expansion is not inhibited.
    method AddToTable(add: Node, ghost members: seq<Node>)
      requires BktOk(members) && GrowthOk() && numItems == |members|
      requires NoDup(members) && add !in members && add.hashv == hash(add.rec.sessionId)
      requires Home()(add) < |chains| && Unexpanded()
      modifies this`buckets, this`numBuckets, this`log2NumBuckets, this`idealChainMaxlen, this`nonidealItems
      modifies this`numItems, this`ineffExpands, this`noexpand, this`chains, this`history
      modifies buckets, members`hhPrev, members`hhNext, add`hhPrev, add`hhNext
      ensures BktOk(members + [add]) && GrowthOk() && Unexpanded() && numItems == |members| + 1
      ensures buckets == old(buckets) || fresh(buckets)
      ensures old(Due(add.rec.sessionId)) ==>
                numBuckets == 2 * old(numBuckets) && ExpansionOk() && history == old(history) + [nonidealItems > numItems / 2]
      ensures !old(Due(add.rec.sessionId)) ==> Size() == old(Size()) && history == old(history)
    {
      hide Homed, HomeFn, ExpansionOk, Due, ShortChains, MultsOf;
      DueAt(add);
      NeverJudged();
      ghost var cs := chains;
      ghost var all := members + [add];
      assert NoDup(all) && forall n :: n in members ==> n in all;
      numItems := numItems + 1;
      var bkt := PushOnBucket(add, members);
      if buckets[bkt].count >= (buckets[bkt].expandMult + 1) * BKT_CAPACITY_THRESH && !noexpand {
        ExpandBuckets(all);
      } else {
        PushShort(history, cs, MultsOf(buckets[..]), bkt, add);
      }
    }

    lemma NeverJudged()
      requires GrowthOk()
      ensures history == [] ==> !noexpand
    {
    }

    lemma InRange(n: Node)
      requires |chains| == numBuckets >= 1
      ensures Home()(n) < |chains|
    {
    }

    method PushOnBucket(add: Node, ghost members: seq<Node>) returns (bkt: nat)
      requires BktOk(members) && numBuckets == Pow2(log2NumBuckets)
      requires NoDup(members) && add !in members && add.hashv == hash(add.rec.sessionId)
      modifies this`chains, buckets, members`hhPrev, members`hhNext, add`hhPrev, add`hhNext
      ensures BktOk(members + [add]) && bkt == Home()(add) < buckets.Length
      ensures buckets[bkt].count == |old(chains)[bkt]| + 1 && MultsOf(buckets[..]) == old(MultsOf(buckets[..]))
      ensures chains == old(chains)[bkt := [add] + old(chains)[bkt]]
    {
      hide Homed;
      MaskIsMod(add.hashv, log2NumBuckets);
      bkt := ToBkt(add.hashv, numBuckets);
      assert bkt == Home()(add);
      MovableIfHomed(add, members, chains, Home());
      PushHomed(chains, members, Home(), add);
      AddToBucket(buckets, bkt, add, chains);
      chains := chains[bkt := [add] + chains[bkt]];
    }

    // HASH_ADD_KEYPTR_BYHASHVALUE
    method Add(add: Node, hashval: nat)
      requires Valid() && add !in app && hashval == hash(add.rec.sessionId)
      requires forall n :: n in app ==> n.rec.sessionId != add.rec.sessionId
      modifies this, buckets, app, add
      ensures Valid() && app == old(app) + [add]
      ensures buckets == old(buckets) || fresh(buckets)
      ensures old(app) == [] ==> numBuckets == INITIAL_NUM_BUCKETS && history == []
      ensures old(app) != [] && old(Due(add.rec.sessionId)) ==>
                numBuckets == 2 * old(numBuckets) && ExpansionOk() && history == old(history) + [nonidealItems > numItems / 2]
      ensures old(app) != [] && !old(Due(add.rec.sessionId)) ==> Size() == old(Size()) && history == old(history)
    {
      hide Homed, HomeFn, Pow2, ExpansionOk, Due, ShortChains, MultsOf;
      add.hashv := hashval;
      ghost var s := app;
      if head == null {
        StartTable(add);
      } else {
        AppendList(add);
      }
      assert app == s + [add];
      FileNew(add, s);
    }

    // HASH_ADD_KEYPTR_BYHASHVALUE_INORDER: before the first element that compares greater.
    method AddInorder(add: Node, hashval: nat, cmp: Comparator)
      requires Valid() && add !in app && hashval == hash(add.rec.sessionId)
      requires forall n :: n in app ==> n.rec.sessionId != add.rec.sessionId
      modifies this, buckets, app, add
      ensures Valid()
      ensures var i := InsertPos(old(app), add, cmp); app == old(app)[..i] + [add] + old(app)[i..]
      ensures buckets == old(buckets) || fresh(buckets)
      ensures old(app) == [] ==> numBuckets == INITIAL_NUM_BUCKETS && history == []
      ensures old(app) != [] && old(Due(add.rec.sessionId)) ==>
                numBuckets == 2 * old(numBuckets) && ExpansionOk() && history == old(history) + [nonidealItems > numItems / 2]
      ensures old(app) != [] && !old(Due(add.rec.sessionId)) ==> Size() == old(Size()) && history == old(history)
    {
      hide Homed, HomeFn, Pow2, InsertPos, DistinctKeys, ListLinks, ExpansionOk, Due, ShortChains, MultsOf;
      add.hashv := hashval;
      ghost var s := app;
      ghost var i := InsertPos(s, add, cmp);
      if head == null {
        StartTable(add);
      } else {
        InsertList(add, cmp);
      }
      InsertedMembers(s, i, add);
      FileNew(add, s);
    }

    // The first element makes the table.
    method StartTable(add: Node)
      requires app == []
      modifies this, add`next, add`prev
      ensures ListOk() && app == [add] && BktOk([]) && GrowthOk() && Unexpanded() && numItems == 0 && fresh(buckets)
      ensures history == [] && numBuckets == INITIAL_NUM_BUCKETS && !Due(add.rec.sessionId)
    {
      hide Homed, HomeFn, Pow2;
      add.next := null;
      add.prev := null;
      MakeTable(add);
      head := add;
      app := [add];
      NoneDue(add);
    }

    // A table without elements is not to be expanded.
    lemma NoneDue(add: Node)
      requires numBuckets >= 1 && forall b :: 0 <= b < |chains| ==> chains[b] == []
      ensures !Due(add.rec.sessionId)
    {
      DueAt(add);
    }

    // Once the list holds add besides s, the table part completes the addition.
    method FileNew(add: Node, ghost s: seq<Node>)
      requires ListOk() && BktOk(s) && GrowthOk() && Unexpanded() && numItems == |s| == |app| - 1
      requires add !in s && (forall n :: n in s + [add] <==> n in app)
      requires NoDup(s) && DistinctKeys(s) && add.hashv == hash(add.rec.sessionId)
      requires forall n :: n in s ==> n.rec.sessionId != add.rec.sessionId
      modifies this`buckets, this`numBuckets, this`log2NumBuckets, this`idealChainMaxlen, this`nonidealItems
      modifies this`numItems, this`ineffExpands, this`noexpand, this`chains, this`history
      modifies buckets, s`hhPrev, s`hhNext, add`hhPrev, add`hhNext
      ensures Valid()
      ensures buckets == old(buckets) || fresh(buckets)
      ensures old(Due(add.rec.sessionId)) ==>
                numBuckets == 2 * old(numBuckets) && ExpansionOk() && history == old(history) + [nonidealItems > numItems / 2]
      ensures !old(Due(add.rec.sessionId)) ==> Size() == old(Size()) && history == old(history)
    {
      hide Homed, HomeFn, Pow2, ListLinks, DistinctKeys, GrowthOk, ExpansionOk, Due, ShortChains, MultsOf;
      InRange(add);
      AddToTable(add, s);
      HomedSameMembers(chains, s + [add], app, Home());
      KeysSnoc(s, add);
      KeysOfPermutation(s + [add], app);
    }

    // The list half of the in-order add: walk, then splice in or append.
    method InsertList(add: Node, cmp: Comparator)
      requires ListOk() && app != [] && add !in app
      modifies this`head, this`tail, this`app, add`prev, add`next, app`prev, app`next
      ensures ListOk()
      ensures var i := InsertPos(old(app), add, cmp); app == old(app)[..i] + [add] + old(app)[i..]
    {
      var iter := head;
      ghost var i := 0;
      while iter != null && cmp(iter.rec, add.rec) <= 0
        invariant i <= |app| && iter == (if i < |app| then app[i] else null)
        invariant forall k :: 0 <= k < i ==> cmp(app[k].rec, add.rec) <= 0
        decreases |app| - i
      {
        iter := iter.next;
        i := i + 1;
      }
      InsertPosIs(app, add, cmp, i);
      if iter != null {
        SpliceBefore(add, iter, i);
      } else {
        assert app[..i] + [add] + app[i..] == app + [add];
        AppendList(add);
      }
    }

    method SpliceBefore(add: Node, iter: Node, ghost i: nat)
      requires ListOk() && add !in app && i < |app| && app[i] == iter
      modifies this`head, this`app, add`prev, add`next, app`prev, app`next
      ensures ListOk() && app == old(app)[..i] + [add] + old(app)[i..]
    {
      EndsNull(app, i);
      SpliceLinks(add, iter, app, i);
      if add.prev == null {
        head := add;
      }
      app := app[..i] + [add] + app[i..];
      assert First(app) == (if i == 0 then add else old(app)[0]) && app[|app| - 1] == old(app)[|old(app)| - 1];
    }

    // HASH_DELETE_HH: the table itself goes with its last element.
    method Delete(del: Node)
      requires Valid() && del in app
      modifies this, buckets, app
      ensures Valid()
      ensures exists i :: 0 <= i < |old(app)| && old(app)[i] == del && app == Without(old(app), i)
      ensures buckets == old(buckets)
      ensures app != [] ==> Size() == old(Size()) && history == old(history)
    {
      hide Homed, BktOk, GrowthOk, ShortChains, MultsOf;
      ghost var i :| 0 <= i < |app| && app[i] == del;
      EndsNull(app, i);
      if del.prev == null && del.next == null {
        head := null;
        app := [];
        assert Without(old(app), i) == [];
      } else {
        DeleteShared(del, i);
      }
    }

    // The case that leaves other elements behind.
    method DeleteShared(del: Node, ghost i: nat)
      requires Valid() && i < |app| && app[i] == del && |app| > 1
      modifies this`head, this`tail, this`app, this`numItems, this`chains, buckets, app
      ensures Valid() && app == Without(old(app), i) && Size() == old(Size())
    {
      hide Homed, HomeFn, Pow2, Without, NoDup, DistinctKeys, ListLinks, ShortChains, MultsOf, BktOk, GrowthOk, Unexpanded;
      ghost var s := app;
      ListNoDup();
      WithoutMembers(s, i);
      KeysOfPermutation(s, Without(s, i));
      UnlinkList(del, i);
      UnlinkBucket(del, s, i);
      numItems := numItems - 1;
      WithoutLength(s, i);
    }

    lemma ListNoDup()
      requires ListOk()
      ensures NoDup(app)
    {
    }

    method UnlinkList(del: Node, ghost i: nat)
      requires ListOk() && i < |app| && app[i] == del && |app| > 1
      modifies this`head, this`tail, this`app, app`prev, app`next
      ensures ListOk() && app == Without(old(app), i)
    {
      EndsNull(app, i);
      if del == tail {
        tail := del.prev;
      }
      if del.prev == null {
        head := del.next;
      }
      UnlinkLinks(del, app, i);
      app := Without(app, i);
    }

    method UnlinkBucket(del: Node, ghost members: seq<Node>, ghost i: nat)
      requires BktOk(members) && NoDup(members) && i < |members| && members[i] == del
      requires GrowthOk() && Unexpanded()
      modifies this`chains, buckets, members`hhPrev, members`hhNext
      ensures BktOk(Without(members, i)) && Unexpanded()
      ensures MultsOf(buckets[..]) == old(MultsOf(buckets[..]))
    {
      hide Homed, ShortChains, MultsOf;
      ghost var was := buckets[..];
      MaskIsMod(del.hashv, log2NumBuckets);
      var bkt := ToBkt(del.hashv, numBuckets);
      assert bkt == Home()(del);
      ghost var j := Removable(chains, members, Home(), i);
      RemoveHomed(chains, members, Home(), i, j);
      WithoutMembers(members, i);
      RemoveShort(history, chains, MultsOf(buckets[..]), bkt, j);
      DelInBucket(buckets, bkt, del, chains, j);
      SameMults(was, buckets[..]);
      chains := chains[bkt := Without(chains[bkt], j)];
    }

    // HASH_SRT: only the list is relinked, so no chain and no bucket changes.
    method Sort(cmp: Comparator)
      requires Valid()
      modifies this`head, this`tail, this`app, app`prev, app`next
      ensures Valid() && app == SortFrom(old(app), 1, cmp)
    {
      EmptySort(cmp);
      hide SortFrom, Homed, HomeFn, Pow2, ListLinks, DistinctKeys, ShortChains, MultsOf;
      if head != null {
        ghost var s := app;
        SortPermutes(s, 1, cmp);
        SameMultiset(s, SortFrom(s, 1, cmp));
        SortList(cmp);
        KeysOfPermutation(s, app);
        HomedSameMembers(chains, s, app, Home());
      }
    }

    method SortList(cmp: Comparator)
      requires ListOk() && head != null
      modifies this`head, this`tail, this`app, app`prev, app`next
      ensures ListOk() && app == SortFrom(old(app), 1, cmp)
    {
      ghost var s := app;
      ghost var region := set n | n in s;
      assert NextOk(s);
      head, tail := SortNodes(head, cmp, s, region);
      app := SortFrom(s, 1, cmp);
    }

    // The forward links lead through the chains and the list, whatever the back links
    // and the counts say.
    ghost predicate ForwardOk()
      reads this, buckets, app, NodesOf(chains)
    {
      && head == First(app) && NextOk(app)
      && (app != [] ==> numBuckets == buckets.Length && Unwalked(buckets, chains))
    }

    // HASH_FSCK finds nothing exactly when every back link and every count is right.
    method Fsck() returns (ok: bool)
      requires ForwardOk()
      ensures ok <==> app == [] || (BucketsOk(buckets, chains) && |Flatten(chains)| == numItems == |app| && ListLinks(app))
    {
      ok := true;
      if head != null {
        hide Flatten;
        var count, i := 0, 0;
        FlattenNone(chains);
        while i < numBuckets
          invariant i <= numBuckets == |chains| && count == |Flatten(chains[..i])|
          invariant ok <==> forall b :: 0 <= b < i ==> (InNodesOf(chains, b); BucketSound(buckets[b], chains[b]))
        {
          var bktCount, good := WalkChain(buckets[i].hhHead, chains[i]);
          FlattenTake(chains, i);
          count := count + bktCount;
          ok := ok && good && buckets[i].count == bktCount;
          i := i + 1;
        }
        SoundBuckets();
        assert chains[..i] == chains;
        BackLinks(app);
        var appCount, good := WalkList(head, app);
        ok := ok && count == numItems && good && appCount == numItems;
      }
    }

    lemma SoundBuckets()
      requires Unwalked(buckets, chains)
      ensures BucketsOk(buckets, chains)
              <==> forall b :: 0 <= b < |chains| ==> (InNodesOf(chains, b); BucketSound(buckets[b], chains[b]))
    {
      hide NextIntact, HhBack, Chain;
      forall b | 0 <= b < |chains|
        ensures (InNodesOf(chains, b); BucketOk(buckets[b], chains[b]) <==> BucketSound(buckets[b], chains[b]))
      {
        BackLinks(chains[b]);
      }
    }

    // So the check never finds anything in a table that the operations have built.
    lemma ValidPassesFsck()
      requires Valid()
      ensures ForwardOk()
      ensures app == [] || (BucketsOk(buckets, chains) && |Flatten(chains)| == numItems == |app| && ListLinks(app))
    {
      hide Homed, HomeFn, Pow2;
      LinksNext(app);
      if app != [] {
        Walkable(buckets, chains);
        FlattenHomed(chains, app, Home());
        SameMembersSameLength(Flatten(chains), app);
      }
    }

    // HASH_CNT
    method Count() returns (n: nat)
      requires Valid()
      ensures n == |app|
    {
      n := if head != null then numItems else 0;
    }

    // An expansion is ineffective when more than half the items sit beyond the ideal length.
    method JudgeExpansion()
      requires ineffExpands == Trailing(history) <= 1 && !noexpand
      modifies this`ineffExpands, this`noexpand, this`history
      ensures history == old(history) + [nonidealItems > numItems / 2]
      ensures ineffExpands == Trailing(history) <= 2 && (noexpand <==> ineffExpands == 2)
    {
      ShrIsDiv(numItems, 1);
      TrailingSnoc(history, nonidealItems > numItems / 2);
      ineffExpands := if nonidealItems > Shr(numItems, 1) then ineffExpands + 1 else 0;
      if ineffExpands > 1 {
        noexpand := true;
      }
      history := history + [nonidealItems > numItems / 2];
    }
  }

  // ceil(n / 2b) by shift and mask.
  function IdealChainMaxlen(numItems: nat, numBuckets: nat, log2: nat): (r: nat)
    requires numBuckets == Pow2(log2)
    ensures IsCeil(r, numItems, 2 * numBuckets)
    ensures numItems >= 1 ==> r >= 1
  {
    ShiftMaskCeil(numItems, log2 + 1);
    assert 0 * (2 * numBuckets) == 0;
    Shr(numItems, log2 + 1) + if And(numItems, numBuckets * 2 - 1) != 0 then 1 else 0
  }

  lemma FlattenNone<T>(ss: seq<seq<T>>)
    ensures Flatten(ss[..0]) == []
  {
  }

  lemma Walkable(bkts: array<Bucket>, cs: seq<seq<Node>>)
    requires BucketsOk(bkts, cs)
    ensures Unwalked(bkts, cs)
  {
    forall k | 0 <= k < |cs| ensures bkts[k].hhHead == First(cs[k]) && NextIntact(cs[k]) {
      assert BucketOk(bkts[k], cs[k]);
    }
  }

  // Over the life of a table: expansion is inhibited exactly when the last two expansions
  // were both ineffective, and the bucket count says how many there were.
  lemma NoexpandIff(t: HashTable)
    requires t.GrowthOk()
    ensures t.noexpand <==> |t.history| >= 2 && Last(t.history) && Last(Front(t.history))
    ensures t.numBuckets == INITIAL_NUM_BUCKETS * Pow2(|t.history|)
  {
    var h := t.history;
    if |h| >= 2 {
      assert Trailing(h) == if !Last(h) then 0 else if !Last(Front(h)) then 1 else 2 + Trailing(Front(Front(h)));
    } else if |h| == 1 {
      assert Front(h) == [] && Trailing(Front(h)) == 0;
    }
    Pow2Sum(INITIAL_NUM_BUCKETS_LOG2, |h|);
    InitialSize();
  }

  lemma {:induction false} Pow2Sum(a: nat, b: nat)
    ensures Pow2(a + b) == Pow2(a) * Pow2(b)
  {
    if b > 0 {
      Pow2Sum(a, b - 1);
      assert Pow2(a) * (2 * Pow2(b - 1)) == 2 * (Pow2(a) * Pow2(b - 1));
    }
  }

  // An in-order add into a sorted list keeps it sorted and goes after every element that
  // compares equal.
  lemma InorderKeepsSorted(s: seq<Node>, add: Node, cmp: Comparator)
    requires TotalPreorder(cmp) && Sorted(s, cmp)
    ensures var i := InsertPos(s, add, cmp);
            && Sorted(s[..i] + [add] + s[i..], cmp)
            && (forall k :: 0 <= k < i ==> cmp(s[k].rec, add.rec) <= 0)
            && (forall k :: i <= k < |s| ==> cmp(s[k].rec, add.rec) > 0)
  {
    var i := InsertPos(s, add, cmp);
    InsertPosBounds(s, add, cmp);
    forall k | i <= k < |s| ensures cmp(s[k].rec, add.rec) > 0 {
      assert k > i ==> cmp(s[i].rec, s[k].rec) <= 0;
    }
    SortedInsert(s, i, add, cmp);
  }

  lemma SortedInsert(s: seq<Node>, i: nat, x: Node, cmp: Comparator)
    requires Sorted(s, cmp) && i <= |s|
    requires forall k :: 0 <= k < i ==> cmp(s[k].rec, x.rec) <= 0
    requires forall k :: i <= k < |s| ==> cmp(x.rec, s[k].rec) <= 0
    ensures Sorted(s[..i] + [x] + s[i..], cmp)
  {
    var t := s[..i] + [x] + s[i..];
    forall a, b | 0 <= a < b < |t| ensures cmp(t[a].rec, t[b].rec) <= 0 {
      var a', b' := if a < i then a else a - 1, if b < i then b else b - 1;
      if a == i {
        assert t[b] == s[b'];
      } else if b == i {
        assert t[a] == s[a'];
      } else {
        assert t[a] == s[a'] && t[b] == s[b'];
      }
    }
  }

  lemma {:induction false} InsertPosBounds(s: seq<Node>, add: Node, cmp: Comparator)
    ensures var i := InsertPos(s, add, cmp);
            && (forall k :: 0 <= k < i ==> cmp(s[k].rec, add.rec) <= 0)
            && (i < |s| ==> cmp(s[i].rec, add.rec) > 0)
  {
    if s != [] && cmp(s[0].rec, add.rec) <= 0 {
      InsertPosBounds(s[1..], add, cmp);
    }
  }

  lemma TrailingEmpty()
    ensures Trailing([]) == 0
  {
  }

  lemma InitialSize()
    ensures Pow2(INITIAL_NUM_BUCKETS_LOG2) == INITIAL_NUM_BUCKETS
  {
    assert Pow2(5) == 32;
  }

  lemma TrailingSnoc(history: seq<bool>, b: bool)
    ensures Trailing(history + [b]) == if b then Trailing(history) + 1 else 0
  {
    assert Front(history + [b]) == history;
  }

  // The doubled bucket array, filled from the old one.
  method Doubled(old_: array<Bucket>, ideal: nat, ghost log2: nat, ghost chains: seq<seq<Node>>, ghost members: seq<Node>,
                 ghost hash: nat -> nat)
    returns (bkts: array<Bucket>, nonideal: nat, ghost cs: seq<seq<Node>>)
    requires BucketsOk(old_, chains) && old_.Length == Pow2(log2) && ideal >= 1
    requires Homed(chains, members, HomeFn<Node>(KeyHash(hash), |chains|))
    requires forall n :: n in members ==> n.hashv == hash(n.rec.sessionId)
    modifies members`hhPrev, members`hhNext
    ensures fresh(bkts) && bkts.Length == |cs| == 2 * |chains| && BucketsOk(bkts, cs)
    ensures Homed(cs, members, HomeFn<Node>(KeyHash(hash), 2 * |chains|))
    ensures forall b :: 0 <= b < |cs| ==> cs[b] == RehashedChain(chains, KeyHash(hash), b)
    ensures Accounts(bkts[..], cs, ideal, nonideal)
  {
    hide Homed, Dist, RehashedChain;
    bkts := new Bucket[2 * old_.Length](_ => Bucket(null, 0, 0));
    ghost var home' := HomeFn<Node>(KeyHash(hash), 2 * |chains|);
    ghost var region := set n | n in members;
    Walkable(old_, chains);
    ExpansionPreserves(chains, members, KeyHash(hash));
    Rehomed(Flatten(chains), members, hash, 2 * |chains|);
    nonideal, cs := RehashAll(old_, bkts, ideal, log2 + 1, chains, home', region);
  }

  lemma Rehomed(flat: seq<Node>, members: seq<Node>, hash: nat -> nat, nb: nat)
    requires nb >= 1 && forall x :: x in flat ==> x in members
    requires forall n :: n in members ==> n.hashv == hash(n.rec.sessionId)
    ensures forall x :: x in flat ==> HomeFn<Node>(KeyHash(hash), nb)(x) == x.hashv % nb
  {
  }
}
