// HASH_SRT on the linked list: passes that relink next and prev in place and never
// touch the bucket chains.
module ListSort {
  import opened Seqs
  import opened Links
  import opened MergeSort

  // Consecutive next links, saying nothing about where the last one leads.
  ghost predicate NextIn(s: seq<Node>)
    reads s`next
  {
    forall i, j {:trigger s[i], s[j]} :: 0 <= i < |s| && j == i + 1 && j < |s| ==> s[i].next == s[j]
  }

  // The same, ending in null.
  ghost predicate NextOk(s: seq<Node>)
    reads s`next
  {
    NextIn(s) && (s != [] ==> s[|s| - 1].next == null)
  }

  // A list under construction: both directions linked, its last next still open.
  ghost predicate OutLinks(s: seq<Node>)
    reads s`prev, s`next
  {
    && (s != [] ==> s[0].prev == null)
    && (forall i, j {:trigger s[i], s[j]} :: 0 <= i < |s| && j == i + 1 && j < |s| ==>
          s[i].next == s[j] && s[j].prev == s[i])
  }

  // Appends e to the list under construction.
  method Emit(e: Node, list: Node?, tail: Node?, ghost out: seq<Node>) returns (list': Node?)
    requires OutLinks(out) && NoDup(out) && e !in out && list == First(out) && tail == Final(out)
    modifies e`prev, (if tail == null then {} else {tail})`next
    ensures OutLinks(out + [e]) && list' == First(out + [e])
  {
    list' := list;
    if tail != null {
      tail.next := e;
    } else {
      list' := e;
    }
    e.prev := tail;
  }

  // The state of the inner loop: `out` is linked, the run p and the run q (with what
  // follows it) still have their old next links.
  ghost predicate Merging(out: seq<Node>, p: seq<Node>, qr: seq<Node>, list: Node?, tail: Node?)
    reads out`prev, out`next, p`next, qr`next
  {
    && NoDup(out + (p + qr))
    && OutLinks(out) && list == First(out) && tail == Final(out)
    && NextIn(p) && NextOk(qr)
  }

  // Emits the head of the left run.
  method EmitLeft(list: Node?, tail: Node?, ghost out: seq<Node>, e: Node, ghost p: seq<Node>, ghost qr: seq<Node>)
    returns (list': Node?)
    requires Merging(out, p, qr, list, tail) && p != [] && p[0] == e
    modifies e`prev, (if tail == null then {} else {tail})`next
    ensures Merging(out + [e], p[1..], qr, list', e)
  {
    EmitApart(out, p, qr);
    assert NextIn(p[1..]);
    list' := Emit(e, list, tail, out);
  }

  // Emits the head of the right run.
  method EmitRight(list: Node?, tail: Node?, ghost out: seq<Node>, e: Node, ghost p: seq<Node>, ghost qr: seq<Node>)
    returns (list': Node?)
    requires Merging(out, p, qr, list, tail) && qr != [] && qr[0] == e
    modifies e`prev, (if tail == null then {} else {tail})`next
    ensures Merging(out + [e], p, qr[1..], list', e)
  {
    EmitApartRight(out, p, qr);
    assert NextOk(qr[1..]);
    list' := Emit(e, list, tail, out);
  }

  lemma EmitApart(out: seq<Node>, p: seq<Node>, qr: seq<Node>)
    requires NoDup(out + (p + qr)) && p != []
    ensures NoDup(out) && p[0] !in out && NoDup(out + [p[0]] + (p[1..] + qr))
    ensures out != [] ==> Final(out) !in p && Final(out) !in qr
  {
    var all := out + (p + qr);
    assert out + [p[0]] + (p[1..] + qr) == all;
    NoDupPrefix(out, p + qr);
    NoDupApart(out, p + qr);
    assert p[0] in p + qr;
    LastApart(out, p, qr);
  }

  lemma LastApart(out: seq<Node>, p: seq<Node>, qr: seq<Node>)
    requires NoDup(out + (p + qr))
    ensures out != [] ==> Final(out) !in p && Final(out) !in qr
  {
    NoDupApart(out, p + qr);
    if out != [] {
      assert Final(out) in out;
      assert forall x :: x in p ==> x in p + qr;
      assert forall x :: x in qr ==> x in p + qr;
    }
  }

  lemma EmitApartRight(out: seq<Node>, p: seq<Node>, qr: seq<Node>)
    requires NoDup(out + (p + qr)) && qr != []
    ensures NoDup(out) && qr[0] !in out && NoDup(out + [qr[0]] + (p + qr[1..]))
    ensures out != [] ==> Final(out) !in p && Final(out) !in qr
  {
    NoDupPrefix(out, p + qr);
    NoDupApart(out, p + qr);
    LastApart(out, p, qr);
    NoDupSuffix(out, p + qr);
    NoDupPrefix(p, qr);
    NoDupSuffix(p, qr);
    NoDupApart(p, qr);
    assert qr == [qr[0]] + qr[1..];
    NoDupSuffix([qr[0]], qr[1..]);
    NoDupApart([qr[0]], qr[1..]);
    NoDupAppend(out, [qr[0]]);
    NoDupAppend(p, qr[1..]);
    NoDupAppend(out + [qr[0]], p + qr[1..]);
  }


  // Emitting the head of one run, as the merge does.
  lemma MergeStepLeft(out: seq<Node>, p: seq<Node>, q: seq<Node>, cmp: Comparator)
    requires p != [] && (q == [] || cmp(p[0].rec, q[0].rec) <= 0)
    ensures out + Merge(p, q, cmp) == out + [p[0]] + Merge(p[1..], q, cmp)
  {
    if q == [] {
      assert Merge(p[1..], q, cmp) == p[1..];
      assert out + p == out + [p[0]] + p[1..];
    } else {
      assert out + ([p[0]] + Merge(p[1..], q, cmp)) == out + [p[0]] + Merge(p[1..], q, cmp);
    }
  }

  lemma MergeStepRight(out: seq<Node>, p: seq<Node>, q: seq<Node>, cmp: Comparator)
    requires q != [] && (p == [] || cmp(p[0].rec, q[0].rec) > 0)
    ensures out + Merge(p, q, cmp) == out + [q[0]] + Merge(p, q[1..], cmp)
  {
    if p == [] {
      assert out + q == out + [q[0]] + q[1..];
    } else {
      assert out + ([q[0]] + Merge(p, q[1..], cmp)) == out + [q[0]] + Merge(p, q[1..], cmp);
    }
  }

  method TakeLeft(list: Node?, tail: Node?, e: Node, ghost out: seq<Node>, ghost p: seq<Node>, ghost qr: seq<Node>)
    returns (p': Node?, list': Node?)
    requires Merging(out, p, qr, list, tail) && p != [] && p[0] == e
    modifies e`prev, (if tail == null then {} else {tail})`next
    ensures Merging(out + [e], p[1..], qr, list', e)
    ensures |p| > 1 ==> p' == p[1]
  {
    p' := e.next;
    assert |p| > 1 ==> p[0].next == p[1];
    list' := EmitLeft(list, tail, out, e, p, qr);
  }

  method TakeRight(list: Node?, tail: Node?, e: Node, ghost out: seq<Node>, ghost p: seq<Node>, ghost qr: seq<Node>)
    returns (q': Node?, list': Node?)
    requires Merging(out, p, qr, list, tail) && qr != [] && qr[0] == e
    modifies e`prev, (if tail == null then {} else {tail})`next
    ensures Merging(out + [e], p, qr[1..], list', e)
    ensures q' == First(qr[1..])
  {
    q' := e.next;
    assert |qr| > 1 ==> qr[0].next == qr[1];
    list' := EmitRight(list, tail, out, e, p, qr);
  }

  // The inner loop: merges the left run ps with the right run qs, leaving r.
  method MergeRuns(p0: Node, psize0: nat, q0: Node?, insize: nat, list0: Node?, tail0: Node?, cmp: Comparator,
      ghost out0: seq<Node>, ghost ps: seq<Node>, ghost qs: seq<Node>, ghost r: seq<Node>, ghost region: set<Node>)
    returns (list: Node?, tail: Node?, q: Node?, ghost out: seq<Node>)
    requires Merging(out0, ps, qs + r, list0, tail0) && tail0 == Final(out0)
    requires psize0 == |ps| >= 1 && p0 == ps[0] && q0 == First(qs + r)
    requires |qs| <= insize && (|qs| < insize ==> r == [])
    requires forall n :: n in out0 + (ps + (qs + r)) ==> n in region
    modifies region`prev, region`next
    ensures out == out0 + Merge(ps, qs, cmp) && q == First(r)
    ensures Merging(out, [], r, list, tail) && tail == Final(out)
  {
    hide Merging, Merge;
    var p: Node?, psize, qsize := p0, psize0, insize;
    list, tail, q, out := list0, tail0, q0, out0;
    ghost var pr, qr := ps, qs;
    while psize != 0 || (qsize != 0 && q != null)
      invariant psize == |pr| && (pr != [] ==> p == pr[0])
      invariant q == First(qr + r) && |qr| <= qsize && (|qr| < qsize ==> r == [])
      invariant Merging(out, pr, qr + r, list, tail) && tail == Final(out)
      invariant out + Merge(pr, qr, cmp) == out0 + Merge(ps, qs, cmp)
      invariant forall n :: n in out || n in pr || n in qr + r ==> n in region
      decreases |pr| + |qr|
    {
      // Right when the left run is spent or, with both runs left, when left compares greater.
      if psize == 0 || (qsize != 0 && q != null && cmp(p.rec, q.rec) > 0) {
        MergeStepRight(out, pr, qr, cmp);
        assert (qr + r)[1..] == qr[1..] + r;
        var e := q;
        q, list := TakeRight(list, tail, e, out, pr, qr + r);
        qsize := qsize - 1;
        out, qr, tail := out + [e], qr[1..], e;
      } else {
        MergeStepLeft(out, pr, qr, cmp);
        var e := p;
        p, list := TakeLeft(list, tail, e, out, pr, qr + r);
        psize := psize - 1;
        out, pr, tail := out + [e], pr[1..], e;
      }
    }
    MergeDone(pr, qr, cmp);
    assert out + [] == out && [] + r == r;
  }

  lemma MergeDone(p: seq<Node>, q: seq<Node>, cmp: Comparator)
    ensures p == [] && q == [] ==> Merge(p, q, cmp) == []
  {
  }

  // Steps q past the left run, counting its size.
  method FindRight(p: Node, insize: nat, ghost s: seq<Node>) returns (psize: nat, q: Node?)
    requires insize >= 1 && NextOk(s) && s != [] && p == s[0]
    ensures psize == Min(insize, |s|) && q == First(s[psize..])
  {
    q := p;
    psize := 0;
    var i := 0;
    while i < insize
      invariant i == psize <= insize && psize <= |s|
      invariant if psize < |s| then q == s[psize] else q == null
      invariant psize < |s| || i == insize
    {
      psize := psize + 1;
      assert psize < |s| ==> s[psize - 1].next == s[psize];
      q := q.next;
      if q == null {
        break;
      }
      i := i + 1;
    }
  }

  lemma SplitMerging(out: seq<Node>, s: seq<Node>, p: nat, m: nat, list: Node?, tail: Node?)
    requires Merging(out, [], s, list, tail) && p <= m <= |s|
    ensures s[p..m] + s[m..] == s[p..]
    ensures Merging(out, s[..p], s[p..m] + s[m..], list, tail)
  {
    SplitRest(out, s, p, m);
    SliceNext(s, p);
    hide NextIn, OutLinks, NoDup;
  }

  lemma SplitRest(out: seq<Node>, s: seq<Node>, p: nat, m: nat)
    requires p <= m <= |s|
    ensures s[p..m] + s[m..] == s[p..]
    ensures out + (s[..p] + (s[p..m] + s[m..])) == out + ([] + s)
  {
    var t := s[p..m] + s[m..];
    assert t == s[p..];
    assert [] + s == s;
    assert s[..p] + t == s;
  }

  lemma SliceNext(s: seq<Node>, p: nat)
    requires NextOk(s) && p <= |s|
    ensures NextIn(s[..p]) && NextOk(s[p..])
  {
  }

  // `out` and a pass over what is left make up the pass over s.
  ghost predicate Sofar(out: seq<Node>, rest: seq<Node>, s: seq<Node>, k: nat, cmp: Comparator)
    requires k >= 1
  {
    out + Pass(rest, k, cmp) == Pass(s, k, cmp)
  }

  lemma SofarStart(s: seq<Node>, k: nat, cmp: Comparator)
    requires k >= 1
    ensures Sofar([], s, s, k, cmp)
  {
    assert [] + Pass(s, k, cmp) == Pass(s, k, cmp);
  }

  lemma SofarStep(out: seq<Node>, rest: seq<Node>, s: seq<Node>, k: nat, cmp: Comparator)
    requires k >= 1 && rest != [] && Sofar(out, rest, s, k, cmp)
    ensures var p, m := Min(k, |rest|), Min(2 * k, |rest|);
            Sofar(out + Merge(rest[..p], rest[p..m], cmp), rest[m..], s, k, cmp)
  {
    hide Merge;
    var p, m := Min(k, |rest|), Min(2 * k, |rest|);
    Assoc(out, Merge(rest[..p], rest[p..m], cmp), Pass(rest[m..], k, cmp));
  }

  lemma Assoc<T>(a: seq<T>, b: seq<T>, c: seq<T>)
    ensures a + (b + c) == a + b + c
  {
  }

  lemma MergeKeeps(s: seq<Node>, p: nat, m: nat, cmp: Comparator)
    requires p <= m <= |s|
    ensures forall n :: n in Merge(s[..p], s[p..m], cmp) ==> n in s
  {
    MergeMembers(s[..p], s[p..m], cmp);
    hide Merge;
    forall n | n in Merge(s[..p], s[p..m], cmp) ensures n in s {
      assert n in multiset(Merge(s[..p], s[p..m], cmp));
    }
  }

  lemma SofarEnd(out: seq<Node>, rest: seq<Node>, s: seq<Node>, k: nat, cmp: Comparator)
    requires k >= 1 && |rest| == 0 && Sofar(out, rest, s, k, cmp)
    ensures out == Pass(s, k, cmp)
  {
    assert out + [] == out;
  }

  ghost predicate Within(s: seq<Node>, region: set<Node>) {
    forall n :: n in s ==> n in region
  }

  lemma WithinStep(out: seq<Node>, rest: seq<Node>, m: nat, merged: seq<Node>, region: set<Node>)
    requires Within(out, region) && Within(rest, region) && m <= |rest|
    requires forall n :: n in merged ==> n in rest
    ensures Within(out + merged, region) && Within(rest[m..], region)
  {
  }

  // The state between two merges of a pass over s.
  ghost predicate Passing(p: Node?, list: Node?, tail: Node?, out: seq<Node>, rest: seq<Node>, s: seq<Node>,
                          insize: nat, cmp: Comparator, region: set<Node>)
    requires insize >= 1
    reads out`prev, out`next, rest`next
  {
    && p == First(rest)
    && Merging(out, [], rest, list, tail) && tail == Final(out)
    && Sofar(out, rest, s, insize, cmp)
    && Within(out, region) && Within(rest, region)
  }

  // Finds the next pair of runs and merges it.
  method MergeNext(p: Node, insize: nat, list0: Node?, tail0: Node?, cmp: Comparator,
      ghost out0: seq<Node>, ghost rest0: seq<Node>, ghost s: seq<Node>, ghost region: set<Node>)
    returns (list: Node?, tail: Node?, q: Node?, ghost out: seq<Node>, ghost rest: seq<Node>)
    requires insize >= 1 && Passing(p, list0, tail0, out0, rest0, s, insize, cmp, region)
    modifies region`prev, region`next
    ensures |rest0| >= 1 && rest == rest0[Min(2 * insize, |rest0|)..]
    ensures Passing(q, list, tail, out, rest, s, insize, cmp, region)
  {
    ghost var m := Min(2 * insize, |rest0|);
    assert NextOk(rest0) && rest0 != [];
    var psize, right := FindRight(p, insize, rest0);
    SplitMerging(out0, rest0, psize, m, list0, tail0);
    SofarStep(out0, rest0, s, insize, cmp);
    MergeKeeps(rest0, psize, m, cmp);
    WithinStep(out0, rest0, m, Merge(rest0[..psize], rest0[psize..m], cmp), region);
    hide Merging, Merge, Sofar;
    rest := rest0[m..];
    list, tail, q, out := MergeRuns(p, psize, right, insize, list0, tail0, cmp,
      out0, rest0[..psize], rest0[psize..m], rest, region);
  }

  // One pass over the whole list.
  method MergePass(first: Node, insize: nat, cmp: Comparator, ghost s: seq<Node>, ghost region: set<Node>)
    returns (list: Node?, tail: Node?, nmerges: nat)
    requires insize >= 1 && s != [] && first == s[0] && NoDup(s) && NextOk(s)
    requires Within(s, region)
    modifies region`prev, region`next
    ensures ListLinks(Pass(s, insize, cmp)) && NoDup(Pass(s, insize, cmp))
    ensures list == First(Pass(s, insize, cmp)) && tail == Final(Pass(s, insize, cmp))
    ensures nmerges <= 1 <==> |s| <= 2 * insize
  {
    list, tail, nmerges := null, null, 0;
    var p: Node? := first;
    ghost var out: seq<Node>, rest := [], s;
    StartMerging(s);
    SofarStart(s, insize, cmp);
    assert Passing(p, list, tail, out, rest, s, insize, cmp, region) && Counted(0, |s|, |s|, insize);
    hide Passing, Merging, Pass, Counted, NextOk, ListLinks, NoDup;
    while p != null
      invariant p == null <==> |rest| == 0
      invariant Passing(p, list, tail, out, rest, s, insize, cmp, region)
      invariant Counted(nmerges, |rest|, |s|, insize)
      decreases |rest|
    {
      CountStep(nmerges, |rest|, |s|, insize);
      nmerges := nmerges + 1;
      list, tail, p, out, rest := MergeNext(p, insize, list, tail, cmp, out, rest, s, region);
      PassingFirst(p, list, tail, out, rest, s, insize, cmp, region);
    }
    CountEnd(nmerges, |s|, insize);
    EndPassing(p, list, tail, out, rest, s, insize, cmp, region);
    CloseList(out, tail, region);
  }

  lemma PassingFirst(p: Node?, list: Node?, tail: Node?, out: seq<Node>, rest: seq<Node>, s: seq<Node>,
                     insize: nat, cmp: Comparator, region: set<Node>)
    requires insize >= 1 && Passing(p, list, tail, out, rest, s, insize, cmp, region)
    ensures p == null <==> |rest| == 0
  {
  }

  lemma EndPassing(p: Node?, list: Node?, tail: Node?, out: seq<Node>, rest: seq<Node>, s: seq<Node>,
                   insize: nat, cmp: Comparator, region: set<Node>)
    requires insize >= 1 && Passing(p, list, tail, out, rest, s, insize, cmp, region) && |rest| == 0
    ensures out == Pass(s, insize, cmp) && OutLinks(out) && NoDup(out)
    ensures list == First(out) && tail == Final(out) && Within(out, region)
  {
    SofarEnd(out, rest, s, insize, cmp);
    EndMerging(out, rest, list, tail);
  }

  // Merges so far against elements left over.
  ghost predicate Counted(nmerges: nat, left: nat, all: nat, insize: nat) {
    && (nmerges == 0 ==> left == all)
    && (nmerges == 1 ==> left == all - Min(2 * insize, all))
    && (nmerges >= 2 ==> all > 2 * insize)
  }

  lemma CountStep(nmerges: nat, left: nat, all: nat, insize: nat)
    requires Counted(nmerges, left, all, insize) && left >= 1
    ensures Counted(nmerges + 1, left - Min(2 * insize, left), all, insize)
  {
  }

  lemma CountEnd(nmerges: nat, all: nat, insize: nat)
    requires Counted(nmerges, 0, all, insize) && all >= 1
    ensures nmerges <= 1 <==> all <= 2 * insize
  {
  }

  lemma StartMerging(s: seq<Node>)
    requires NoDup(s) && NextOk(s)
    ensures Merging([], [], s, null, null)
  {
    assert [] + ([] + s) == s;
  }

  lemma EndMerging(out: seq<Node>, rest: seq<Node>, list: Node?, tail: Node?)
    requires Merging(out, [], rest, list, tail) && |rest| == 0
    ensures OutLinks(out) && NoDup(out) && list == First(out)
  {
    assert out + ([] + rest) == out;
  }

  // Ends the list built so far.
  method CloseList(ghost out: seq<Node>, tail: Node?, ghost region: set<Node>)
    requires OutLinks(out) && NoDup(out) && tail == Final(out)
    requires Within(out, region)
    modifies region`next
    ensures ListLinks(out)
  {
    if tail != null {
      tail.next := null;
    }
  }

  lemma SameMultiset(s: seq<Node>, t: seq<Node>)
    requires multiset(t) == multiset(s)
    ensures |s| == |t|
    ensures forall n :: n in s ==> n in t
    ensures forall n :: n in t ==> n in s
  {
    assert |multiset(s)| == |multiset(t)|;
    forall n | n in s ensures n in t {
      assert n in multiset(s);
    }
    forall n | n in t ensures n in s {
      assert n in multiset(t);
    }
  }

  lemma PassWithin(s: seq<Node>, k: nat, cmp: Comparator, region: set<Node>)
    requires k >= 1 && Within(s, region)
    ensures Within(Pass(s, k, cmp), region)
  {
    PassMembers(s, k, cmp);
    SameMultiset(s, Pass(s, k, cmp));
  }

  lemma LinksNext(s: seq<Node>)
    requires ListLinks(s)
    ensures NextOk(s)
  {
  }

  // Passes of doubling run size, until one of them merged at most one pair.
  method SortNodes(first: Node, cmp: Comparator, ghost s: seq<Node>, ghost region: set<Node>)
    returns (list: Node?, tail: Node?)
    requires s != [] && first == s[0] && NoDup(s) && NextOk(s) && Within(s, region)
    modifies region`prev, region`next
    ensures ListLinks(SortFrom(s, 1, cmp)) && NoDup(SortFrom(s, 1, cmp))
    ensures list == First(SortFrom(s, 1, cmp)) && tail == Final(SortFrom(s, 1, cmp))
  {
    var insize, looping := 1, true;
    list, tail := first, null;
    ghost var cur := s;
    hide Pass, Merge, NextOk, ListLinks, NoDup, Within;
    while looping
      invariant insize >= 1 && |cur| == |s| && list != null && list == First(cur)
      invariant NextOk(cur) && NoDup(cur) && Within(cur, region)
      invariant looping ==> SortFrom(cur, insize, cmp) == SortFrom(s, 1, cmp)
      invariant !looping ==> cur == SortFrom(s, 1, cmp) && ListLinks(cur) && tail == Final(cur)
      decreases looping, |cur| - insize
    {
      var nmerges;
      PassWithin(cur, insize, cmp, region);
      list, tail, nmerges := MergePass(list, insize, cmp, cur, region);
      cur := Pass(cur, insize, cmp);
      LinksNext(cur);
      if nmerges <= 1 {
        looping := false;
      }
      insize := insize * 2;
    }
  }
}
