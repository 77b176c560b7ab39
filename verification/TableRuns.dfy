// Whole runs of the hash table against its specification.
module TableRuns {
  import opened Seqs
  import opened Bits
  import opened Redistribution
  import opened Links
  import opened TableSpec
  import opened UtHash

  datatype Op = AddOp(rec: Record) | DeleteOp(id: nat) | FindOp(id: nat)

  // What one operation does to the ordered sequence, and what it answers.
  function SpecStep(s: seq<Record>, op: Op): (seq<Record>, Option<Record>) {
    match op
    case AddOp(rec) =>
      if Lookup(s, rec.sessionId).Some? then (s, Lookup(s, rec.sessionId)) else (s + [rec], None)
    case DeleteOp(id) => (Remove(s, id), Lookup(s, id))
    case FindOp(id) => (s, Lookup(s, id))
  }

  function SpecRun(s: seq<Record>, ops: seq<Op>): (seq<Record>, seq<Option<Record>>) {
    if ops == [] then (s, [])
    else
      var (s1, answers) := SpecRun(s, Front(ops));
      var (s2, a) := SpecStep(s1, Last(ops));
      (s2, answers + [a])
  }

  lemma RecsAt(app: seq<Node>, n: Node)
    requires DistinctKeys(app) && n in app
    ensures Lookup(Recs(app), n.rec.sessionId) == Some(n.rec)
  {
    var i :| 0 <= i < |app| && app[i] == n;
    IndexOfUnique(Recs(app), n.rec.sessionId, i);
  }

  lemma RecsDistinct(app: seq<Node>)
    requires DistinctKeys(app)
    ensures DistinctIds(Recs(app))
  {
  }

  lemma RecsWithout(app: seq<Node>, i: nat)
    requires DistinctKeys(app) && i < |app|
    ensures Recs(Without(app, i)) == Remove(Recs(app), app[i].rec.sessionId)
  {
    RecsDistinct(app);
    IndexOfUnique(Recs(app), app[i].rec.sessionId, i);
    RecsSkip(app, i);
  }

  lemma RecsSkip(app: seq<Node>, i: nat)
    requires i < |app|
    ensures Recs(Without(app, i)) == Without(Recs(app), i)
  {
  }

  lemma NodeIndex(app: seq<Node>, i: nat)
    requires DistinctKeys(app) && i < |app|
    ensures |Recs(app)| == |app| && IndexOf(Recs(app), app[i].rec.sessionId) == i
  {
    IndexOfUnique(Recs(app), app[i].rec.sessionId, i);
  }

  lemma RecsAppend(app: seq<Node>, n: Node)
    ensures Recs(app + [n]) == Recs(app) + [n.rec]
  {
  }

  lemma ValidKeys(t: HashTable)
    requires t.Valid()
    ensures DistinctKeys(t.app) && DistinctIds(Recs(t.app))
  {
    RecsDistinct(t.app);
  }

  lemma AbsentKey(t: HashTable, id: nat)
    requires t.Valid() && Lookup(Recs(t.app), id) == None
    ensures forall m :: m in t.app ==> m.rec.sessionId != id
  {
    forall m | m in t.app ensures m.rec.sessionId != id {
      RecsAt(t.app, m);
    }
  }

  // HASH_FIND with the key's own hash, answering with the record.
  method Find(t: HashTable, id: nat) returns (out: Node?)
    requires t.Valid()
    ensures out == null ==> Lookup(Recs(t.app), id) == None
    ensures out != null ==> out in t.app && out.rec.sessionId == id && Lookup(Recs(t.app), id) == Some(out.rec)
  {
    out := t.FindByHashValue(id, t.hash(id));
    if out != null {
      RecsAt(t.app, out);
    }
  }

  // HASH_ADD of a record whose id is absent.
  method AddRecord(t: HashTable, rec: Record) returns (n: Node)
    requires t.Valid() && Lookup(Recs(t.app), rec.sessionId) == None
    modifies t.Footprint()
    ensures t.Valid() && fresh(n) && n.rec == rec && t.app == old(t.app) + [n]
    ensures Recs(t.app) == Recs(old(t.app)) + [rec]
    ensures old(t.app) == [] ==> t.numBuckets == INITIAL_NUM_BUCKETS && t.history == []
    ensures old(t.app) != [] && old(t.Due(rec.sessionId)) ==>
              && t.numBuckets == 2 * old(t.numBuckets) && t.ExpansionOk()
              && t.history == old(t.history) + [t.nonidealItems > t.numItems / 2]
    ensures old(t.app) != [] && !old(t.Due(rec.sessionId)) ==> t.Size() == old(t.Size()) && t.history == old(t.history)
    ensures fresh(t.Footprint() - old(t.Footprint()))
  {
    hide HashTable.Valid, HashTable.Due, HashTable.ExpansionOk, MultsOf, Lookup, Recs;
    AbsentKey(t, rec.sessionId);
    ghost var s := t.app;
    n := new Node(rec);
    RecsAppend(s, n);
    t.Add(n, t.hash(rec.sessionId));
  }

  // HASH_DEL of an element of the table.
  method DeleteNode(t: HashTable, n: Node)
    requires t.Valid() && n in t.app
    modifies t.Footprint()
    ensures t.Valid() && t.Footprint() <= old(t.Footprint())
    ensures Recs(t.app) == Remove(Recs(old(t.app)), n.rec.sessionId)
    ensures t.app != [] ==> t.Size() == old(t.Size()) && t.history == old(t.history)
    ensures var i := IndexOf(Recs(old(t.app)), n.rec.sessionId);
            i < |old(t.app)| && old(t.app)[i] == n && t.app == Without(old(t.app), i)
  {
    hide HashTable.Valid, MultsOf, Recs, Remove;
    ghost var s := t.app;
    ValidKeys(t);
    t.Delete(n);
    ghost var i :| 0 <= i < |s| && s[i] == n && t.app == Without(s, i);
    RecsWithout(s, i);
    NodeIndex(s, i);
  }

  // What the growth of a table can be seen by, between operations.
  datatype Growth = Gone | Growth(numBuckets: nat, numItems: nat, nonidealItems: nat, noexpand: bool)

  function GrowthOf(t: HashTable): Growth
    reads t`head, t`numBuckets, t`numItems, t`nonidealItems, t`noexpand
  {
    if t.head == null then Gone else Growth(t.numBuckets, t.numItems, t.nonidealItems, t.noexpand)
  }

  // What one operation does to it: a new table has its first size, and one that stays
  // keeps its size or, unless inhibited, doubles it.
  predicate Grows(a: Growth, b: Growth) {
    || b.Gone?
    || (a.Gone? && b.numBuckets == INITIAL_NUM_BUCKETS && !b.noexpand)
    || (a.Growth? && b.numBuckets == a.numBuckets && b.noexpand == a.noexpand)
    || (a.Growth? && !a.noexpand && b.numBuckets == 2 * a.numBuckets && b.numItems == a.numItems + 1)
  }

  // Was the expansion of this operation, if it was one, ineffective?
  function Verdict(a: Growth, b: Growth): seq<bool>
    requires a.Growth? && b.Growth?
  {
    if a.numBuckets == b.numBuckets then [] else [b.nonidealItems > b.numItems / 2]
  }

  // The verdicts on the expansions of the table that stands at the end of a trace, in
  // order; start is what the first table of the trace brought with it.
  function Verdicts(start: seq<bool>, trace: seq<Growth>): seq<bool>
    requires trace != []
  {
    if |trace| == 1 then start
    else
      var a, b := Last(Front(trace)), Last(trace);
      if a.Gone? || b.Gone? then [] else Verdicts(start, Front(trace)) + Verdict(a, b)
  }

  // ----- How full the buckets are -----

  // How many records of s hash to bucket b of nb.
  function Load(s: seq<Record>, hash: nat -> nat, nb: nat, b: nat): nat
    requires nb >= 1
  {
    |Filter(s, (r: Record) => hash(r.sessionId) % nb == b)|
  }

  function InBucket(hash: nat -> nat, nb: nat, b: nat): Node -> bool
    requires nb >= 1
  {
    (n: Node) => hash(n.rec.sessionId) % nb == b
  }

  lemma {:induction false} LoadOfNodes(app: seq<Node>, hash: nat -> nat, nb: nat, b: nat)
    requires nb >= 1 && NoDup(app)
    ensures var p := InBucket(hash, nb, b);
            NoDup(Filter(app, p)) && |Filter(app, p)| == Load(Recs(app), hash, nb, b)
  {
    if app != [] {
      assert Front(Recs(app)) == Recs(Front(app)) && Last(Recs(app)) == Last(app).rec;
      assert forall i :: 0 <= i < |app| - 1 ==> Front(app)[i] == app[i];
      LoadOfNodes(Front(app), hash, nb, b);
      var p := InBucket(hash, nb, b);
      var f := Filter(Front(app), p);
      if p(Last(app)) {
        LastNotIn(app);
        assert Filter(app, p) == f + [Last(app)];
      } else {
        assert Filter(app, p) == f + [];
        assert f + [] == f;
      }
    }
  }

  lemma LastNotIn<T>(s: seq<T>)
    requires NoDup(s) && s != []
    ensures Last(s) !in Front(s)
  {
  }

  // A chain is as long as its bucket's load.
  lemma ChainIsLoad(t: HashTable, b: nat)
    requires t.Valid() && t.app != [] && b < t.numBuckets
    ensures b < |t.chains| && |t.chains[b]| == Load(Recs(t.app), t.hash, t.numBuckets, b)
  {
    hide HashTable.Valid, Homed, Load, Recs;
    ValidHomed(t);
    LoadOfNodes(t.app, t.hash, t.numBuckets, b);
    HomedFilter(t.chains, t.app, t.Home(), InBucket(t.hash, t.numBuckets, b), b);
  }

  lemma ValidHomed(t: HashTable)
    requires t.Valid() && t.app != []
    ensures |t.chains| == t.numBuckets >= 1 && NoDup(t.app) && Homed(t.chains, t.app, t.Home())
    ensures forall n :: n in t.app ==> t.Home()(n) == t.hash(n.rec.sessionId) % t.numBuckets
  {
    hide Homed, Pow2, ShortChains, MultsOf, BucketsOk, DistinctKeys, ListLinks;
  }

  lemma HomedFilter<T>(cs: seq<seq<T>>, members: seq<T>, home: T -> nat, p: T -> bool, b: nat)
    requires Homed(cs, members, home) && b < |cs| && NoDup(Filter(members, p))
    requires forall x :: x in members ==> p(x) == (home(x) == b)
    ensures |cs[b]| == |Filter(members, p)|
  {
    SameMembersSameLength(cs[b], Filter(members, p));
  }

  // A table that has not been expanded has 32 buckets, none with 10 records, and the add
  // that expands it is the one that brings a bucket to 10.
  lemma FirstExpansion(t: HashTable, key: nat)
    requires t.Valid() && t.app != [] && t.history == []
    ensures t.numBuckets == 32
    ensures forall b :: 0 <= b < 32 ==> Load(Recs(t.app), t.hash, 32, b) < 10
    ensures t.Due(key) <==> Load(Recs(t.app), t.hash, 32, t.hash(key) % 32) == 9
  {
    hide Load, Recs;
    UnexpandedIs(t, key);
    forall b | 0 <= b < 32 ensures Load(Recs(t.app), t.hash, 32, b) == |t.chains[b]| {
      ChainIsLoad(t, b);
    }
  }

  lemma UnexpandedIs(t: HashTable, key: nat)
    requires t.Valid() && t.app != [] && t.history == []
    ensures t.numBuckets == 32 == |t.chains| && forall b :: 0 <= b < 32 ==> |t.chains[b]| < 10
    ensures t.Due(key) <==> |t.chains[t.hash(key) % 32]| == 9
  {
    hide Homed, HomeFn, BucketsOk, ListLinks, DistinctKeys;
    NoexpandIff(t);
    assert Pow2(0) == 1;
  }

  // An add that brings a bucket of 32 to 10 records.
  predicate Fills(s: seq<Record>, op: Op, hash: nat -> nat) {
    op.AddOp? && Lookup(s, op.rec.sessionId) == None && Load(s, hash, 32, hash(op.rec.sessionId) % 32) == 9
  }

  // One guarded operation.
  method Apply(t: HashTable, op: Op) returns (answer: Option<Record>)
    requires t.Valid()
    modifies t.Footprint()
    ensures t.Valid() && fresh(t.Footprint() - old(t.Footprint()))
    ensures (Recs(t.app), answer) == SpecStep(Recs(old(t.app)), op)
    ensures Grows(old(GrowthOf(t)), GrowthOf(t))
    ensures GrowthOf(t).Growth? ==>
              t.history == if old(GrowthOf(t)).Gone? then [] else old(t.history) + Verdict(old(GrowthOf(t)), GrowthOf(t))
    ensures old(GrowthOf(t)).Growth? && old(t.history) == [] && GrowthOf(t).Growth? ==>
              GrowthOf(t).numBuckets == if Fills(Recs(old(t.app)), op, t.hash) then 64 else 32
  {
    hide Load, HashTable.GrowthOk, Lookup, Remove, Recs, HashTable.Valid, HashTable.Due, HashTable.ExpansionOk;
    GrowthFacts(t);
    if t.app != [] && t.history == [] {
      FirstExpansion(t, 0);
    }
    var out;
    match op {
      case AddOp(rec) =>
        out := Find(t, rec.sessionId);
        if out == null {
          NotDue(t, rec.sessionId);
          if t.app != [] && t.history == [] {
            FirstExpansion(t, rec.sessionId);
          }
          var n := AddRecord(t, rec);
        }
      case DeleteOp(id) =>
        out := Find(t, id);
        if out == null {
          RemoveAbsent(Recs(t.app), id);
        } else {
          DeleteNode(t, out);
        }
      case FindOp(id) =>
        out := Find(t, id);
    }
    GrowthFacts(t);
    answer := if out == null then None else Some(out.rec);
  }

  lemma GrowthFacts(t: HashTable)
    requires t.Valid()
    ensures GrowthOf(t).Gone? <==> t.app == []
    ensures t.app != [] ==> t.GrowthOk() && t.numBuckets >= 1 && t.numItems == |t.app|
    ensures t.app != [] && t.history == [] ==> !t.noexpand
  {
  }

  lemma NotDue(t: HashTable, key: nat)
    ensures t.Due(key) ==> !t.noexpand
  {
  }

  // Any sequence of adds (each guarded by a find), deletes and finds leaves the table
  // valid, holding the records the specification holds, and gives its answers. A table
  // standing at the end is inhibited exactly when the last two expansions of its life
  // were both ineffective, and its size counts them; once inhibited it keeps its size,
  // for as long as it is not emptied.
  method Run(t: HashTable, ops: seq<Op>) returns (answers: seq<Option<Record>>, ghost trace: seq<Growth>)
    requires t.Valid()
    modifies t.Footprint()
    ensures t.Valid() && fresh(t.Footprint() - old(t.Footprint()))
    ensures (Recs(t.app), answers) == SpecRun(Recs(old(t.app)), ops)
    ensures Traces(trace, Recs(old(t.app)), ops) && trace[0] == old(GrowthOf(t)) && trace[|ops|] == GrowthOf(t)
    ensures GrowthOf(t).Growth? ==>
              var v := Verdicts(old(t.history), trace);
              && (t.noexpand <==> |v| >= 2 && Last(v) && Last(Front(v)))
              && t.numBuckets == INITIAL_NUM_BUCKETS * Pow2(|v|)
    ensures forall i :: 0 <= i <= |ops| ==> YoungAt(old(t.history), trace, Recs(old(t.app)), ops, t.hash, i)
    ensures old(t.noexpand) && NeverEmpty(Recs(old(t.app)), ops) ==> t.noexpand && t.numBuckets == old(t.numBuckets)
  {
    hide HashTable.Valid, HashTable.GrowthOk, Recs, SpecStep, GrowthOf, Grows, Verdict, Verdicts, Traces, NeverEmpty,
         YoungAt, Fills, Load;
    answers := [];
    var i := 0;
    ghost var s := Recs(t.app);
    trace := [GrowthOf(t)];
    TraceStart(t, ops);
    GrowthOfIs(t);
    YoungStart(t, ops);
    while i < |ops|
      invariant i <= |ops| && t.Valid()
      invariant fresh(t.Footprint() - old(t.Footprint()))
      invariant (Recs(t.app), answers) == SpecRun(s, ops[..i])
      invariant Traces(trace, s, ops[..i]) && |trace| == i + 1 && trace[0] == old(GrowthOf(t)) && trace[i] == GrowthOf(t)
      invariant GrowthOf(t).Growth? ==> t.history == Verdicts(old(t.history), trace)
      invariant forall j :: 0 <= j <= i ==> YoungAt(old(t.history), trace, s, ops, t.hash, j)
    {
      ghost var before := GrowthOf(t);
      var a := Apply(t, ops[i]);
      answers := answers + [a];
      assert Front(ops[..i + 1]) == ops[..i];
      TraceStep(t, before, trace, s, ops, i);
      VerdictsStep(old(t.history), trace, GrowthOf(t));
      YoungStep(t, old(t.history), trace, s, ops, i);
      trace := trace + [GrowthOf(t)];
      i := i + 1;
    }
    assert ops[..i] == ops;
    StandingTable(t);
    if old(t.noexpand) && NeverEmpty(s, ops) {
      InhibitedStays(trace, s, ops, |ops|);
      GrowthOfIs(t);
    }
  }

  // At the end of this part of a run: a table not expanded in its life has 32 buckets, none
  // with 10 records; and one not expanded before the last operation has been by it exactly
  // when that brought a bucket to 10.
  ghost predicate Young(start: seq<bool>, trace: seq<Growth>, s: seq<Record>, ops: seq<Op>, hash: nat -> nat) {
    && |trace| == |ops| + 1
    && (Last(trace).Growth? && Verdicts(start, trace) == [] ==>
          Last(trace).numBuckets == 32 && forall b :: 0 <= b < 32 ==> Load(SpecRun(s, ops).0, hash, 32, b) < 10)
    && (|trace| >= 2 && Last(trace).Growth? && Last(Front(trace)).Growth? && Verdicts(start, Front(trace)) == [] ==>
          Last(trace).numBuckets == if Fills(SpecRun(s, Front(ops)).0, Last(ops), hash) then 64 else 32)
  }

  ghost predicate YoungAt(start: seq<bool>, trace: seq<Growth>, s: seq<Record>, ops: seq<Op>, hash: nat -> nat, i: nat) {
    i < |trace| && i <= |ops| && Young(start, trace[..i + 1], s, ops[..i], hash)
  }

  lemma YoungStart(t: HashTable, ops: seq<Op>)
    requires t.Valid()
    ensures YoungAt(t.history, [GrowthOf(t)], Recs(t.app), ops, t.hash, 0)
  {
    assert [GrowthOf(t)][..1] == [GrowthOf(t)] && ops[..0] == [];
    hide Load, Recs, HashTable.Valid;
    GrowthFacts(t);
    if t.app != [] && t.history == [] {
      FirstExpansion(t, 0);
    }
  }

  lemma YoungStep(t: HashTable, start: seq<bool>, trace: seq<Growth>, s: seq<Record>, ops: seq<Op>, i: nat)
    requires t.Valid() && i < |ops| && |trace| == i + 1
    requires Recs(t.app) == SpecRun(s, ops[..i + 1]).0
    requires GrowthOf(t).Growth? ==> t.history == Verdicts(start, trace + [GrowthOf(t)])
    requires trace[i].Growth? && GrowthOf(t).Growth? && Verdicts(start, trace) == [] ==>
               GrowthOf(t).numBuckets == if Fills(SpecRun(s, ops[..i]).0, ops[i], t.hash) then 64 else 32
    requires forall j :: 0 <= j <= i ==> YoungAt(start, trace, s, ops, t.hash, j)
    ensures forall j :: 0 <= j <= i + 1 ==> YoungAt(start, trace + [GrowthOf(t)], s, ops, t.hash, j)
  {
    hide Load, Fills, Recs, HashTable.Valid, SpecRun, Verdicts;
    GrowthFacts(t);
    if t.app != [] && t.history == [] {
      FirstExpansion(t, 0);
    }
    var trace' := trace + [GrowthOf(t)];
    assert trace'[..i + 2] == trace' && Front(trace') == trace;
    assert Front(ops[..i + 1]) == ops[..i];
    forall j | 0 <= j <= i + 1 ensures YoungAt(start, trace', s, ops, t.hash, j) {
      if j <= i {
        assert trace'[..j + 1] == trace[..j + 1];
        assert YoungAt(start, trace, s, ops, t.hash, j);
      }
    }
  }

  // The trace of a run: before each operation and after the last, in step with the
  // specification.
  ghost predicate Traces(trace: seq<Growth>, s: seq<Record>, ops: seq<Op>) {
    && |trace| == |ops| + 1
    && (forall i :: 0 <= i <= |ops| ==> Counts(trace[i], SpecRun(s, ops[..i]).0))
    && (forall i, j :: 0 <= i < |ops| && j == i + 1 ==> Grows(trace[i], trace[j]))
  }

  predicate Counts(g: Growth, s: seq<Record>) {
    (g.Gone? <==> s == []) && (g.Growth? ==> g.numItems == |s|)
  }

  lemma TraceStart(t: HashTable, ops: seq<Op>)
    requires t.Valid()
    ensures Traces([GrowthOf(t)], Recs(t.app), ops[..0])
    ensures Verdicts(t.history, [GrowthOf(t)]) == t.history
  {
    GrowthFacts(t);
    RecsEmpty(t.app);
    assert ops[..0][..0] == [];
  }

  lemma TraceStep(t: HashTable, before: Growth, trace: seq<Growth>, s: seq<Record>, ops: seq<Op>, i: nat)
    requires t.Valid() && i < |ops| && Traces(trace, s, ops[..i]) && trace[i] == before
    requires Grows(before, GrowthOf(t)) && Recs(t.app) == SpecRun(s, ops[..i + 1]).0
    ensures Traces(trace + [GrowthOf(t)], s, ops[..i + 1])
  {
    hide Grows, SpecRun, HashTable.Valid;
    GrowthFacts(t);
    RecsEmpty(t.app);
    var trace' := trace + [GrowthOf(t)];
    forall k | 0 <= k <= i + 1 ensures Counts(trace'[k], SpecRun(s, ops[..i + 1][..k]).0) {
      assert ops[..i + 1][..k] == ops[..k];
      if k <= i {
        assert ops[..i][..k] == ops[..k];
      }
    }
  }

  lemma VerdictsStep(start: seq<bool>, trace: seq<Growth>, g: Growth)
    requires trace != []
    ensures Verdicts(start, trace + [g]) ==
            if Last(trace).Gone? || g.Gone? then [] else Verdicts(start, trace) + Verdict(Last(trace), g)
  {
    assert Front(trace + [g]) == trace;
  }

  lemma StandingTable(t: HashTable)
    requires t.Valid()
    ensures GrowthOf(t).Growth? ==>
              && (t.noexpand <==> |t.history| >= 2 && Last(t.history) && Last(Front(t.history)))
              && t.numBuckets == INITIAL_NUM_BUCKETS * Pow2(|t.history|)
  {
    GrowthFacts(t);
    if GrowthOf(t).Growth? {
      NoexpandIff(t);
    }
  }

  lemma GrowthOfIs(t: HashTable)
    ensures GrowthOf(t).Growth? ==> GrowthOf(t).noexpand == t.noexpand && GrowthOf(t).numBuckets == t.numBuckets
  {
  }

  // Inhibition lasts, and the size with it, until the table is emptied.
  lemma {:induction false} InhibitedStays(trace: seq<Growth>, s: seq<Record>, ops: seq<Op>, i: nat)
    requires Traces(trace, s, ops) && NeverEmpty(s, ops) && i <= |ops|
    ensures trace[0].Growth? && trace[i].Growth?
    ensures trace[0].noexpand ==> trace[i].noexpand && trace[i].numBuckets == trace[0].numBuckets
  {
    hide SpecRun;
    assert Counts(trace[i], SpecRun(s, ops[..i]).0);
    if i > 0 {
      InhibitedStays(trace, s, ops, i - 1);
      assert Grows(trace[i - 1], trace[i]);
    }
  }

  lemma RemoveAbsent(s: seq<Record>, id: nat)
    requires Lookup(s, id) == None
    ensures Remove(s, id) == s
  {
  }

  // No operation of the run leaves the table empty, and it does not start empty.
  ghost predicate NeverEmpty(s: seq<Record>, ops: seq<Op>) {
    forall j :: 0 <= j <= |ops| ==> SpecRun(s, ops[..j]).0 != []
  }

  lemma RecsEmpty(app: seq<Node>)
    ensures Recs(app) == [] <==> app == []
  {
  }
}
