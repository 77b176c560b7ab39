// Cutting a sequence into pages of k.
module Chunking {
  import opened Seqs
  import opened Bits

  function Chunks<T>(s: seq<T>, k: nat): seq<seq<T>>
    requires k >= 1
  {
    if s == [] then []
    else if |s| <= k then [s]
    else [s[..k]] + Chunks(s[k..], k)
  }

  lemma FlattenCons<T>(x: seq<T>, ss: seq<seq<T>>)
    ensures Flatten([x] + ss) == x + Flatten(ss)
  {
    FlattenAppend([x], ss);
    assert Front([x]) == [] && Last([x]) == x;
    assert Flatten([x]) == [] + x == x;
  }

  // The pages make up the sequence; all but the last are full; there are ceil(n / k).
  lemma {:induction false} ChunksShape<T>(s: seq<T>, k: nat)
    requires k >= 1
    ensures Flatten(Chunks(s, k)) == s
    ensures forall i :: 0 <= i < |Chunks(s, k)| ==> 1 <= |Chunks(s, k)[i]| <= k
    ensures forall i :: 0 <= i < |Chunks(s, k)| - 1 ==> |Chunks(s, k)[i]| == k
    ensures IsCeil(|Chunks(s, k)|, |s|, k)
    decreases |s|
  {
    if s == [] {
      assert 0 * k == 0;
    } else if |s| <= k {
      FlattenCons(s, []);
      assert [s] + [] == [s];
      assert 0 * k == 0 && 1 * k == k;
    } else {
      var rest := Chunks(s[k..], k);
      ChunksShape(s[k..], k);
      hide Chunks, IsCeil, Flatten;
      FlattenCons(s[..k], rest);
      assert s[..k] + s[k..] == s;
      CeilStep(|rest|, |s| - k, k);
    }
  }

  lemma CeilStep(q: nat, n: nat, k: nat)
    requires IsCeil(q, n, k)
    ensures IsCeil(q + 1, n + k, k)
  {
    assert (q + 1 - 1) * k == (q - 1) * k + k && (q + 1) * k == q * k + k;
  }

  // Page number i (from 0) is the slice from i * k.
  lemma {:induction false} ChunkAt<T>(s: seq<T>, k: nat, i: nat)
    requires k >= 1
    ensures i * k < |s| <==> i < |Chunks(s, k)|
    ensures i * k < |s| ==> Chunks(s, k)[i] == s[i * k..if i * k + k < |s| then i * k + k else |s|]
    decreases i
  {
    if i == 0 {
      assert s[..|s|] == s;
    } else {
      var o := (i - 1) * k;
      assert i * k == o + k;
      if |s| > k {
        ChunkAt(s[k..], k, i - 1);
        assert Chunks(s, k)[1..] == Chunks(s[k..], k);
        SliceShift(s, k, o);
      }
    }
  }

  lemma SliceShift<T>(s: seq<T>, k: nat, o: nat)
    requires k <= |s|
    ensures forall m :: o <= m <= |s| - k ==> s[k..][o..m] == s[o + k..m + k]
  {
  }

  // Prepending a full page.
  lemma ChunksCons<T>(s: seq<T>, k: nat)
    requires k >= 1 && s != []
    ensures var m := if k < |s| then k else |s|; Chunks(s, k) == [s[..m]] + Chunks(s[m..], k)
  {
    if |s| <= k {
      assert s[..|s|] == s && [s] + [] == [s];
    }
  }
}
