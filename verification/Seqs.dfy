// Sequence vocabulary shared by the models.
module Seqs {

  ghost predicate NoDup<T>(s: seq<T>) {
    forall i, j :: 0 <= i < j < |s| ==> s[i] != s[j]
  }

  function Last<T>(s: seq<T>): T
    requires s != []
  {
    s[|s| - 1]
  }

  function Front<T>(s: seq<T>): seq<T>
    requires s != []
  {
    s[..|s| - 1]
  }

  function Without<T>(s: seq<T>, i: nat): seq<T>
    requires i < |s|
  {
    s[..i] + s[i + 1..]
  }

  function Take<T>(s: seq<T>, n: nat): seq<T> {
    if n < |s| then s[..n] else s
  }

  function Drop<T>(s: seq<T>, n: nat): seq<T> {
    if n < |s| then s[n..] else []
  }

  // s is a and b, each in its order, shuffled together.
  predicate Interleaved<T(==)>(s: seq<T>, a: seq<T>, b: seq<T>) {
    && |s| == |a| + |b|
    && (|| s == []
        || (a != [] && a[0] == s[0] && Interleaved(s[1..], a[1..], b))
        || (b != [] && b[0] == s[0] && Interleaved(s[1..], a, b[1..])))
  }

  function Flatten<T>(ss: seq<seq<T>>): seq<T> {
    if ss == [] then [] else Flatten(Front(ss)) + Last(ss)
  }

  function Reverse<T>(s: seq<T>): seq<T> {
    if s == [] then [] else [Last(s)] + Reverse(Front(s))
  }

  function Filter<T>(s: seq<T>, p: T -> bool): (r: seq<T>)
    ensures forall x :: x in r ==> x in s && p(x)
    ensures forall x :: x in s ==> p(x) ==> x in r
    ensures |r| <= |s|
  {
    if s == [] then [] else Filter(Front(s), p) + if p(Last(s)) then [Last(s)] else []
  }

  lemma FilterAppend<T>(s: seq<T>, t: seq<T>, p: T -> bool)
    ensures Filter(s + t, p) == Filter(s, p) + Filter(t, p)
  {
    if t == [] {
      assert s + t == s;
    } else {
      assert Front(s + t) == s + Front(t);
      FilterAppend(s, Front(t), p);
      var e := if p(Last(t)) then [Last(t)] else [];
      assert Filter(s, p) + (Filter(Front(t), p) + e) == Filter(s, p) + Filter(Front(t), p) + e;
    }
  }

  lemma FilterOne<T>(x: T, p: T -> bool)
    ensures Filter([x], p) == if p(x) then [x] else []
  {
    assert Front([x]) == [] && Last([x]) == x;
    assert Filter(Front([x]), p) == [];
  }

  lemma FilterCons<T>(x: T, s: seq<T>, p: T -> bool)
    ensures Filter([x] + s, p) == (if p(x) then [x] else []) + Filter(s, p)
  {
    hide Filter;
    FilterAppend([x], s, p);
    FilterOne(x, p);
  }

  // A sequence is what a filter keeps and what it drops, shuffled together.
  lemma {:induction false} FilterInterleaves<T>(s: seq<T>, p: T -> bool, q: T -> bool)
    requires forall x :: x in s ==> q(x) == !p(x)
    ensures Interleaved(s, Filter(s, p), Filter(s, q))
  {
    if s != [] {
      var rest := s[1..];
      forall x | x in rest ensures x in s {}
      FilterInterleaves(rest, p, q);
      FilterCons(s[0], rest, p);
      FilterCons(s[0], rest, q);
      assert [s[0]] + rest == s;
      hide Filter;
      if p(s[0]) {
        assert Filter(s, p)[1..] == Filter(rest, p) && Filter(s, q) == Filter(rest, q);
      } else {
        assert Filter(s, q)[1..] == Filter(rest, q) && Filter(s, p) == Filter(rest, p);
      }
    }
  }

  lemma FlattenSnoc<T>(ss: seq<seq<T>>, s: seq<T>)
    ensures Flatten(ss + [s]) == Flatten(ss) + s
  {
    assert Front(ss + [s]) == ss;
  }

  lemma FlattenAppend<T>(ss: seq<seq<T>>, tt: seq<seq<T>>)
    ensures Flatten(ss + tt) == Flatten(ss) + Flatten(tt)
  {
    if tt == [] {
      assert ss + tt == ss;
    } else {
      assert Front(ss + tt) == ss + Front(tt);
      FlattenAppend(ss, Front(tt));
      assert Flatten(ss) + (Flatten(Front(tt)) + Last(tt)) == Flatten(ss) + Flatten(Front(tt)) + Last(tt);
    }
  }

  // Membership in a flattened sequence.
  lemma {:induction false} InFlatten<T>(ss: seq<seq<T>>, x: T)
    ensures x in Flatten(ss) <==> exists b :: 0 <= b < |ss| && x in ss[b]
  {
    if ss != [] {
      InFlatten(Front(ss), x);
      if x in Last(ss) {
        assert x in ss[|ss| - 1];
      }
      if exists b :: 0 <= b < |ss| && x in ss[b] {
        var b :| 0 <= b < |ss| && x in ss[b];
        if b < |ss| - 1 {
          assert x in Front(ss)[b];
        }
      }
    }
  }

  lemma NoDupAppend<T>(s: seq<T>, t: seq<T>)
    requires NoDup(s) && NoDup(t)
    requires forall x :: x in s ==> x !in t
    ensures NoDup(s + t)
  {
    forall i, j | 0 <= i < j < |s + t| ensures (s + t)[i] != (s + t)[j] {
      if i < |s| <= j {
        assert s[i] in s && t[j - |s|] in t;
      }
    }
  }

  // Two duplicate-free sequences with the same members are equally long.
  lemma SameMembersSameLength<T>(s: seq<T>, t: seq<T>)
    requires NoDup(s) && NoDup(t)
    requires forall x :: x in s <==> x in t
    ensures |s| == |t|
  {
    var a, b := set x | x in s, set x | x in t;
    NoDupSetSize(s);
    NoDupSetSize(t);
    assert a == b;
  }

  lemma {:induction false} NoDupSetSize<T>(s: seq<T>)
    requires NoDup(s)
    ensures |set x | x in s| == |s|
  {
    if s != [] {
      NoDupSetSize(Front(s));
      assert (set x | x in s) == (set x | x in Front(s)) + {Last(s)};
    }
  }

  lemma WithoutMembers<T>(s: seq<T>, i: nat)
    requires NoDup(s) && i < |s|
    ensures NoDup(Without(s, i))
    ensures forall x :: x in Without(s, i) ==> x in s && x != s[i]
    ensures forall x :: x in s && x != s[i] ==> x in Without(s, i)
  {
    forall x | x in s && x != s[i] ensures x in Without(s, i) {
      var k :| 0 <= k < |s| && s[k] == x;
      if k < i {
        assert Without(s, i)[k] == x;
      } else {
        assert Without(s, i)[k - 1] == x;
      }
    }
  }

  lemma NoDupPrefix<T>(s: seq<T>, t: seq<T>)
    requires NoDup(s + t)
    ensures NoDup(s)
    ensures forall x :: x in s ==> x in s + t
  {
    forall i, j | 0 <= i < j < |s| ensures s[i] != s[j] {
      assert (s + t)[i] == s[i] && (s + t)[j] == s[j];
    }
  }

  lemma FlattenTake<T>(ss: seq<seq<T>>, i: nat)
    requires i < |ss|
    ensures Flatten(ss[..i + 1]) == Flatten(ss[..i]) + ss[i]
  {
    assert ss[..i + 1] == ss[..i] + [ss[i]];
    FlattenSnoc(ss[..i], ss[i]);
  }

  lemma FlattenSplit<T>(ss: seq<seq<T>>, i: nat)
    requires i <= |ss|
    ensures Flatten(ss) == Flatten(ss[..i]) + Flatten(ss[i..])
  {
    assert ss == ss[..i] + ss[i..];
    FlattenAppend(ss[..i], ss[i..]);
  }

  lemma FlattenPrefix<T>(ss: seq<seq<T>>, i: nat)
    requires i < |ss| && NoDup(Flatten(ss))
    ensures Flatten(ss[..i + 1]) == Flatten(ss[..i]) + ss[i]
    ensures NoDup(Flatten(ss[..i + 1]))
    ensures forall x :: x in Flatten(ss[..i + 1]) ==> x in Flatten(ss)
  {
    FlattenTake(ss, i);
    FlattenSplit(ss, i + 1);
    NoDupPrefix(Flatten(ss[..i + 1]), Flatten(ss[i + 1..]));
  }

  lemma NoDupApart<T>(s: seq<T>, t: seq<T>)
    requires NoDup(s + t)
    ensures forall x :: x in t ==> x !in s
  {
    forall i, j | 0 <= i < |s| && 0 <= j < |t| ensures s[i] != t[j] {
      assert (s + t)[i] == s[i] && (s + t)[|s| + j] == t[j];
    }
  }

  lemma NoDupSuffix<T>(s: seq<T>, t: seq<T>)
    requires NoDup(s + t)
    ensures NoDup(t)
    ensures forall x :: x in t ==> x in s + t
  {
    forall i, j | 0 <= i < j < |t| ensures t[i] != t[j] {
      assert (s + t)[|s| + i] == t[i] && (s + t)[|s| + j] == t[j];
    }
  }
}
