// The simple thing the hash table refines: an ordered sequence of records with
// distinct ids, read as a map from id to record.
module TableSpec {
  import opened Seqs
  import opened Links

  datatype Option<+T> = None | Some(value: T)

  ghost predicate DistinctIds(s: seq<Record>) {
    forall i, j :: 0 <= i < j < |s| ==> s[i].sessionId != s[j].sessionId
  }

  // Position of the record with this id, or the length when there is none.
  function IndexOf(s: seq<Record>, id: nat): (i: nat)
    ensures i <= |s|
    ensures i < |s| ==> s[i].sessionId == id
    ensures forall k :: 0 <= k < i ==> s[k].sessionId != id
  {
    if s == [] || s[0].sessionId == id then 0 else 1 + IndexOf(s[1..], id)
  }

  function Lookup(s: seq<Record>, id: nat): Option<Record> {
    var i := IndexOf(s, id);
    if i < |s| then Some(s[i]) else None
  }

  function Remove(s: seq<Record>, id: nat): seq<Record> {
    var i := IndexOf(s, id);
    if i < |s| then Without(s, i) else s
  }

  // The map view.
  function AsMap(s: seq<Record>): map<nat, Record> {
    if s == [] then map[] else AsMap(Front(s))[Last(s).sessionId := Last(s)]
  }

  lemma {:induction false} AsMapHolds(s: seq<Record>)
    requires DistinctIds(s)
    ensures Indexes(AsMap(s), s)
  {
    if s != [] {
      var f, l := Front(s), Last(s);
      AsMapHolds(f);
      assert s == f + [l];
      forall r | r in f ensures r.sessionId != l.sessionId {
        var i :| 0 <= i < |f| && f[i] == r;
        assert s[i] == r && s[|s| - 1] == l;
      }
    }
  }

  // find, add and delete are the map's lookup, update and removal.
  lemma LookupIsMap(s: seq<Record>, id: nat)
    requires DistinctIds(s)
    ensures Lookup(s, id) == if id in AsMap(s) then Some(AsMap(s)[id]) else None
  {
    AsMapHolds(s);
    var i := IndexOf(s, id);
    if i < |s| {
      assert s[i] in s;
    } else {
      assert forall r :: r in s ==> r.sessionId != id;
    }
  }

  lemma AddIsMap(s: seq<Record>, r: Record)
    requires Lookup(s, r.sessionId) == None && DistinctIds(s)
    ensures AsMap(s + [r]) == AsMap(s)[r.sessionId := r] && DistinctIds(s + [r])
  {
    assert Front(s + [r]) == s;
  }

  lemma RemoveIsMap(s: seq<Record>, id: nat)
    requires DistinctIds(s)
    ensures DistinctIds(Remove(s, id)) && AsMap(Remove(s, id)) == AsMap(s) - {id}
  {
    var t := Remove(s, id);
    RemoveKeeps(s, id);
    AsMapHolds(s);
    AsMapHolds(t);
    MapMinus(AsMap(s), AsMap(t), s, t, id);
  }

  ghost predicate Indexes(m: map<nat, Record>, s: seq<Record>) {
    && (forall r :: r in s ==> r.sessionId in m && m[r.sessionId] == r)
    && (forall id :: id in m ==> m[id] in s && m[id].sessionId == id)
  }

  lemma MapMinus(m: map<nat, Record>, m': map<nat, Record>, s: seq<Record>, t: seq<Record>, id: nat)
    requires Indexes(m, s) && Indexes(m', t)
    requires forall r :: r in t <==> r in s && r.sessionId != id
    ensures m' == m - {id}
  {
    forall x | x in m && x != id ensures x in m' && m'[x] == m[x] {
      assert m[x] in t;
    }
    forall x | x in m' ensures x in m && x != id {
      assert m'[x] in s;
    }
  }

  lemma RemoveKeeps(s: seq<Record>, id: nat)
    requires DistinctIds(s)
    ensures DistinctIds(Remove(s, id))
    ensures forall r :: r in Remove(s, id) <==> r in s && r.sessionId != id
  {
    var i := IndexOf(s, id);
    if i < |s| {
      assert NoDup(s);
      WithoutMembers(s, i);
    }
  }

  lemma IndexOfUnique(s: seq<Record>, id: nat, i: nat)
    requires DistinctIds(s) && i < |s| && s[i].sessionId == id
    ensures IndexOf(s, id) == i
  {
  }

  // Nodes to records.
  function Recs(app: seq<Node>): (r: seq<Record>)
    ensures |r| == |app|
  {
    seq(|app|, i requires 0 <= i < |app| => app[i].rec)
  }
}
