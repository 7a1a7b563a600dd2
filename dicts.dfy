/** Python dictionaries from strings to cell values. A Python dict remembers insertion
    order, and the reconciliation code depends on that order ("the first key that matches
    case-insensitively", the order of reported conflicts), so a dict is an association
    list: a lookup finds the first entry with the key, and an assignment replaces that
    entry in place or appends a new one. */
module Dicts {
  import opened Values

  type Dict = seq<(string, Cell)>

  function Keys(d: Dict): set<string>
  {
    if d == [] then {} else {d[0].0} + Keys(d[1..])
  }

  predicate HasKey(d: Dict, k: string)
  {
    k in Keys(d)
  }

  /** Every key occurs once, as in a real Python dict. */
  predicate DistinctKeys(d: Dict)
  {
    d == [] || (d[0].0 !in Keys(d[1..]) && DistinctKeys(d[1..]))
  }

  lemma {:induction false} KeysAt(d: Dict, k: string)
    ensures k in Keys(d) <==> exists i :: 0 <= i < |d| && d[i].0 == k
  {
    if d != [] {
      KeysAt(d[1..], k);
      if k in Keys(d[1..]) {
        var i :| 0 <= i < |d[1..]| && d[1..][i].0 == k;
        assert d[i + 1].0 == k;
      }
      if exists i :: 0 <= i < |d| && d[i].0 == k {
        var i :| 0 <= i < |d| && d[i].0 == k;
        if i > 0 { assert d[1..][i - 1].0 == k; }
      }
    }
  }

  /** Entry `i` is the first entry of `d` with key `k`. */
  predicate FirstEntry(d: Dict, k: string, i: int)
  {
    0 <= i < |d| && d[i].0 == k && forall j :: 0 <= j < i ==> d[j].0 != k
  }

  /** The position of the first entry with key `k`. */
  function KeyIndex(d: Dict, k: string): (i: nat)
    requires HasKey(d, k)
    ensures FirstEntry(d, k, i)
  {
    if d[0].0 == k then 0
    else
      var i := KeyIndex(d[1..], k);
      assert d[i + 1] == d[1..][i];
      assert forall j :: 1 <= j < i + 1 ==> d[j] == d[1..][j - 1];
      i + 1
  }

  /** `d.get(k)`, with None for a missing key. */
  function Get(d: Dict, k: string): (r: Option<Cell>)
    ensures r.Some? <==> HasKey(d, k)
    ensures r.Some? ==> r.value == d[KeyIndex(d, k)].1
  {
    if d == [] then None
    else if d[0].0 == k then Some(d[0].1)
    else Get(d[1..], k)
  }

  /** `d.get(k)` where a missing key reads as None. */
  function ValueOr(d: Dict, k: string): (v: Cell)
    ensures HasKey(d, k) ==> v == d[KeyIndex(d, k)].1
    ensures !HasKey(d, k) ==> v == Null
  {
    match Get(d, k)
    case None => Null
    case Some(v) => v
  }

  /** `d[k] = v`: replaces the entry of `k` where it stands, or appends one. */
  function Put(d: Dict, k: string, v: Cell): (r: Dict)
    ensures Get(r, k) == Some(v)
    ensures forall k' :: k' != k ==> Get(r, k') == Get(d, k')
    ensures Keys(r) == Keys(d) + {k}
    ensures HasKey(d, k) ==> r == d[KeyIndex(d, k) := (k, v)]
    ensures !HasKey(d, k) ==> r == d + [(k, v)]
    ensures DistinctKeys(d) ==> DistinctKeys(r)
  {
    if d == [] then [(k, v)]
    else if d[0].0 == k then [(k, v)] + d[1..]
    else
      var p := Put(d[1..], k, v);
      PutConsLookup(d, k, v, p);
      PutConsShape(d, k, v, p);
      [d[0]] + p
  }

  /** Lookups in `d[0]` followed by the updated tail of `d`. */
  lemma PutConsLookup(d: Dict, k: string, v: Cell, p: Dict)
    requires d != [] && d[0].0 != k
    requires Get(p, k) == Some(v)
    requires forall k' :: k' != k ==> Get(p, k') == Get(d[1..], k')
    ensures Get([d[0]] + p, k) == Some(v)
    ensures forall k' :: k' != k ==> Get([d[0]] + p, k') == Get(d, k')
  {
    assert ([d[0]] + p)[1..] == p;
  }

  /** The keys and the shape of `d[0]` followed by the updated tail of `d`. */
  lemma PutConsShape(d: Dict, k: string, v: Cell, p: Dict)
    requires d != [] && d[0].0 != k
    requires Keys(p) == Keys(d[1..]) + {k}
    requires HasKey(d[1..], k) ==> p == d[1..][KeyIndex(d[1..], k) := (k, v)]
    requires !HasKey(d[1..], k) ==> p == d[1..] + [(k, v)]
    requires DistinctKeys(d[1..]) ==> DistinctKeys(p)
    ensures Keys([d[0]] + p) == Keys(d) + {k}
    ensures HasKey(d, k) ==> [d[0]] + p == d[KeyIndex(d, k) := (k, v)]
    ensures !HasKey(d, k) ==> [d[0]] + p == d + [(k, v)]
    ensures DistinctKeys(d) ==> DistinctKeys([d[0]] + p)
  {
    var r := [d[0]] + p;
    assert r[1..] == p;
    if HasKey(d, k) {
      var i := KeyIndex(d[1..], k);
      assert KeyIndex(d, k) == i + 1;
      assert r == d[i + 1 := (k, v)];
    } else {
      assert r == [d[0]] + (d[1..] + [(k, v)]);
      assert d == [d[0]] + d[1..];
    }
  }

  /** Drops every entry of `k`; the other entries keep their order. */
  function Remove(d: Dict, k: string): (r: Dict)
    ensures !HasKey(r, k)
    ensures forall k' :: k' != k ==> Get(r, k') == Get(d, k')
    ensures Keys(r) == Keys(d) - {k}
    ensures DistinctKeys(d) ==> DistinctKeys(r)
  {
    if d == [] then []
    else if d[0].0 == k then Remove(d[1..], k)
    else
      var r := [d[0]] + Remove(d[1..], k);
      assert r[1..] == Remove(d[1..], k);
      r
  }
}
