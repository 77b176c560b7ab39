// What bucket expansion does to the chains, on values: every element of the old
// chains is pushed on the front of the chain its new bucket number selects.
module Redistribution {
  import opened Seqs
  import opened Bits

  // Every member sits once, in the chain its home names, and nothing else does.
  ghost predicate Homed<T>(cs: seq<seq<T>>, members: seq<T>, home: T -> nat) {
    && (forall b :: 0 <= b < |cs| ==> NoDup(cs[b]))
    && (forall b, x :: 0 <= b < |cs| && x in cs[b] ==> x in members && home(x) == b)
    && (forall x :: x in members ==> home(x) < |cs| && x in cs[home(x)])
  }

  lemma EmptyHomed<T>(cs: seq<seq<T>>, home: T -> nat)
    requires forall b :: 0 <= b < |cs| ==> cs[b] == []
    ensures Homed(cs, [], home)
  {
  }

  // Chain b holds the members at home in b.
  lemma ChainHolds<T>(cs: seq<seq<T>>, members: seq<T>, home: T -> nat, b: nat)
    requires Homed(cs, members, home) && b < |cs|
    ensures NoDup(cs[b])
    ensures forall x :: x in cs[b] ==> x in members
    ensures forall x :: x in members && home(x) == b ==> x in cs[b]
  {
  }

  function Dist<T>(flat: seq<T>, nb: nat, home: T -> nat): (r: seq<seq<T>>)
    requires forall x :: x in flat ==> home(x) < nb
    ensures |r| == nb
  {
    if flat == [] then seq(nb, _ => [])
    else
      var r := Dist(Front(flat), nb, home);
      var x := Last(flat);
      r[home(x) := [x] + r[home(x)]]
  }

  lemma {:induction false} DistIsReversedFilter<T>(flat: seq<T>, nb: nat, home: T -> nat, b: nat)
    requires forall x :: x in flat ==> home(x) < nb
    requires b < nb
    ensures Dist(flat, nb, home)[b] == Reverse(Filter(flat, x => home(x) == b))
  {
    if flat != [] {
      DistIsReversedFilter(Front(flat), nb, home, b);
      var p := x => home(x) == b;
      var f := Filter(Front(flat), p);
      if home(Last(flat)) == b {
        assert Front(f + [Last(flat)]) == f;
      } else {
        assert f + [] == f;
      }
    }
  }

  lemma {:induction false} DistHomed<T>(flat: seq<T>, nb: nat, home: T -> nat)
    requires NoDup(flat)
    requires forall x :: x in flat ==> home(x) < nb
    ensures Homed(Dist(flat, nb, home), flat, home)
  {
    if flat != [] {
      var x, f := Last(flat), Front(flat);
      DistHomed(f, nb, home);
      assert x !in f;
      assert forall y :: y in flat <==> y in f || y == x;
      PushHomed(Dist(f, nb, home), f, home, x);
      HomedSameMembers(Dist(flat, nb, home), f + [x], flat, home);
    }
  }

  lemma HomedSameMembers<T>(cs: seq<seq<T>>, s: seq<T>, t: seq<T>, home: T -> nat)
    requires Homed(cs, s, home)
    requires forall x :: x in s <==> x in t
    ensures Homed(cs, t, home)
  {
  }

  lemma PushHomed<T>(cs: seq<seq<T>>, members: seq<T>, home: T -> nat, x: T)
    requires Homed(cs, members, home) && x !in members && home(x) < |cs|
    ensures Homed(cs[home(x) := [x] + cs[home(x)]], members + [x], home)
  {
    var b := home(x);
    var cs' := cs[b := [x] + cs[b]];
    assert x !in cs[b];
    forall k, y | 0 <= k < |cs'| && y in cs'[k] ensures y in members + [x] && home(y) == k {
      if y != x {
        assert y in cs[k];
      }
    }
    forall y | y in members + [x] ensures home(y) < |cs'| && y in cs'[home(y)] {
      if y == x {
        assert cs'[b][0] == x;
      } else {
        assert y in members;
      }
    }
  }

  lemma RemoveHomed<T>(cs: seq<seq<T>>, members: seq<T>, home: T -> nat, i: nat, j: nat)
    requires Homed(cs, members, home) && NoDup(members) && i < |members|
    requires home(members[i]) < |cs| && j < |cs[home(members[i])]| && cs[home(members[i])][j] == members[i]
    ensures Homed(cs[home(members[i]) := Without(cs[home(members[i])], j)], Without(members, i), home)
  {
    var x := members[i];
    var b := home(x);
    WithoutMembers(members, i);
    WithoutMembers(cs[b], j);
  }

  // Nodes of one chain are in no other.
  lemma Elsewhere<T>(cs: seq<seq<T>>, members: seq<T>, home: T -> nat, x: T, k: nat)
    requires Homed(cs, members, home)
    requires k < |cs| && home(x) != k
    ensures x !in cs[k]
  {
  }

  lemma {:induction false} FlattenHomed<T>(cs: seq<seq<T>>, members: seq<T>, home: T -> nat)
    requires Homed(cs, members, home)
    ensures NoDup(Flatten(cs))
    ensures forall x :: x in Flatten(cs) ==> x in members
    ensures forall x :: x in members ==> x in Flatten(cs)
  {
    FlattenNoDup(cs, home);
    forall x | x in Flatten(cs) ensures x in members {
      InFlatten(cs, x);
    }
    forall x | x in members ensures x in Flatten(cs) {
      InFlatten(cs, x);
      assert x in cs[home(x)];
    }
  }

  lemma {:induction false} FlattenNoDup<T>(cs: seq<seq<T>>, home: T -> nat)
    requires forall b :: 0 <= b < |cs| ==> NoDup(cs[b])
    requires forall b, x :: 0 <= b < |cs| && x in cs[b] ==> home(x) == b
    ensures NoDup(Flatten(cs))
  {
    if cs != [] {
      var f := Front(cs);
      assert forall b :: 0 <= b < |f| ==> f[b] == cs[b];
      FlattenNoDup(f, home);
      forall x | x in Last(cs) ensures home(x) == |cs| - 1 {
        assert x in cs[|cs| - 1];
      }
      forall x | x in Flatten(f) ensures x !in Last(cs) {
        InFlatten(f, x);
        var b :| 0 <= b < |f| && x in f[b];
        assert x in cs[b] && home(x) == b;
      }
      NoDupAppend(Flatten(f), Last(cs));
    }
  }

  // Filtering all the chains for one doubled bucket meets only the chain it came from.
  lemma {:induction false} FilterFlatten<T>(cs: seq<seq<T>>, old_: T -> nat, p: T -> bool, src: nat)
    requires forall b, x :: 0 <= b < |cs| && x in cs[b] ==> old_(x) == b
    requires forall x :: p(x) ==> old_(x) == src
    ensures Filter(Flatten(cs), p) == if src < |cs| then Filter(cs[src], p) else []
  {
    if cs != [] {
      var f := Front(cs);
      assert forall b :: 0 <= b < |f| ==> f[b] == cs[b];
      FilterFlatten(f, old_, p, src);
      FilterAppend(Flatten(f), Last(cs), p);
      var b := |cs| - 1;
      if src != b {
        FilterNone(Last(cs), p);
      } else {
        assert src >= |f|;
        assert Filter(Flatten(f), p) == [];
      }
    }
  }

  lemma {:induction false} FilterNone<T>(s: seq<T>, p: T -> bool)
    requires forall x :: x in s ==> !p(x)
    ensures Filter(s, p) == []
  {
    if s != [] {
      FilterNone(Front(s), p);
    }
  }

  // The number of elements beyond the ideal chain length, over all chains.
  function Excess<T>(cs: seq<seq<T>>, ideal: nat): nat {
    if cs == [] then 0
    else Excess(Front(cs), ideal) + if |Last(cs)| > ideal then |Last(cs)| - ideal else 0
  }

  lemma {:induction false} ExcessPush<T>(cs: seq<seq<T>>, ideal: nat, b: nat, x: T)
    requires b < |cs|
    ensures Excess(cs[b := [x] + cs[b]], ideal) == Excess(cs, ideal) + if |cs[b]| + 1 > ideal then 1 else 0
  {
    var cs' := cs[b := [x] + cs[b]];
    if b == |cs| - 1 {
      assert Front(cs') == Front(cs);
    } else {
      assert Front(cs') == Front(cs)[b := [x] + Front(cs)[b]];
      ExcessPush(Front(cs), ideal, b, x);
    }
  }

  lemma {:induction false} ExcessEmpty<T>(cs: seq<seq<T>>, ideal: nat)
    requires forall b :: 0 <= b < |cs| ==> cs[b] == []
    ensures Excess(cs, ideal) == 0
  {
    if cs != [] {
      ExcessEmpty(Front(cs), ideal);
    }
  }

  // The multiplier a bucket of `count` elements ends with, in closed form.
  function ExpandMult(count: nat, ideal: nat): nat
    requires ideal >= 1
  {
    if count <= ideal then 0
    else if ideal == 1 then count - 1
    else if count == ideal + 1 then 1
    else (count + ideal - 1) / ideal
  }

  lemma ExpandMultStep(count: nat, ideal: nat)
    requires ideal >= 1
    ensures ExpandMult(count + 1, ideal) ==
            if count + 1 > ideal && count + 1 > ExpandMult(count, ideal) * ideal
            then ExpandMult(count, ideal) + 1 else ExpandMult(count, ideal)
  {
    if count + 1 > ideal && ideal >= 2 && count >= ideal + 1 {
      var m := (count + ideal - 1) / ideal;
      var m' := (count + ideal) / ideal;
      CeilUp(count, ideal);
      if count == ideal + 1 {
        ModIs(count + ideal, ideal, 2, 1);
      }
    } else if ideal >= 2 && count == ideal {
    }
  }

  // ceil((c + 1) / d) exceeds ceil(c / d) by one exactly when d divides c.
  lemma CeilUp(c: nat, d: nat)
    requires d >= 2
    ensures var m, m' := (c + d - 1) / d, (c + d) / d;
            && IsCeil(m, c, d)
            && m' == if c + 1 > m * d then m + 1 else m
  {
    var m, r := (c + d - 1) / d, (c + d - 1) % d;
    assert c + d - 1 == m * d + r;
    assert (m - 1) * d == m * d - d && (m + 1) * d == m * d + d;
    if r == d - 1 {
      ModIs(c + d, d, m + 1, 0);
    } else {
      ModIs(c + d, d, m, r + 1);
    }
  }

  // How far a chain may outgrow the ideal for a given multiplier.
  lemma ExpandMultBounds(count: nat, ideal: nat)
    requires ideal >= 1
    ensures ExpandMult(count, ideal) == 0 <==> count <= ideal
    ensures count > ideal ==>
              (ExpandMult(count, ideal) - 1) * ideal < count <= ExpandMult(count, ideal) * ideal + 1
  {
    if count > ideal + 1 && ideal >= 2 {
      CeilUp(count, ideal);
      var m := ExpandMult(count, ideal);
      assert m == 0 ==> m * ideal == 0;
    }
  }

  // The bucket a hash value selects among nb buckets.
  function HomeFn<T>(h: T -> nat, nb: nat): T -> nat
    requires nb >= 1
  {
    x => h(x) % nb
  }

  // Chain b after doubling: what old chain b % nb held for it, in reverse.
  function RehashedChain<T>(cs: seq<seq<T>>, h: T -> nat, b: nat): seq<T>
    requires |cs| >= 1
  {
    Reverse(Filter(cs[b % |cs|], x => HomeFn(h, 2 * |cs|)(x) == b))
  }

  // Doubling the bucket count keeps every member in exactly one chain, and the new
  // chain b holds, in reverse, exactly those elements of old chain b % nb that hash to b.
  lemma ExpansionPreserves<T>(cs: seq<seq<T>>, members: seq<T>, h: T -> nat)
    requires |cs| >= 1 && Homed(cs, members, HomeFn(h, |cs|))
    ensures NoDup(Flatten(cs))
    ensures forall x :: x in Flatten(cs) ==> x in members
    ensures forall x :: x in members ==> x in Flatten(cs)
    ensures forall x :: x in Flatten(cs) ==> HomeFn(h, 2 * |cs|)(x) < 2 * |cs|
    ensures var new_ := Dist(Flatten(cs), 2 * |cs|, HomeFn(h, 2 * |cs|));
            && Homed(new_, members, HomeFn(h, 2 * |cs|))
            && forall b :: 0 <= b < 2 * |cs| ==> new_[b] == RehashedChain(cs, h, b)
  {
    var nb := |cs|;
    var home, home' := HomeFn(h, nb), HomeFn(h, 2 * nb);
    var flat := Flatten(cs);
    FlattenHomed(cs, members, home);
    DistHomed(flat, 2 * nb, home');
    var new_ := Dist(flat, 2 * nb, home');
    HomedSameMembers(new_, flat, members, home');
    forall b | 0 <= b < 2 * nb ensures new_[b] == RehashedChain(cs, h, b) {
      DistIsReversedFilter(flat, 2 * nb, home', b);
      var p := x => home'(x) == b;
      forall x | p(x) ensures home(x) == b % nb {
        SplitMod(h(x), nb);
      }
      FilterFlatten(cs, home, p, b % nb);
    }
  }
}
