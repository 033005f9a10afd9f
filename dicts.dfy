/**
 * Python's insertion-ordered `dict` of strings, as a sequence of key/value
 * pairs with distinct keys. Assigning `d[k] = v` overwrites the value of a
 * present key in its slot (so its place in iteration order is kept) and
 * appends a new key at the end.
 */
module Dicts {
  import opened Wrappers

  type Dict = seq<(string, string)>

  function Keys(d: Dict): (ks: seq<string>)
    ensures |ks| == |d|
    ensures forall i :: 0 <= i < |d| ==> ks[i] == d[i].0
  {
    seq(|d|, i requires 0 <= i < |d| => d[i].0)
  }

  predicate DistinctKeys(d: Dict) {
    forall i, j :: 0 <= i < j < |d| ==> d[i].0 != d[j].0
  }

  /** Slot of key `k`, or `|d|` when `k` is absent. */
  function Slot(d: Dict, k: string): (i: nat)
    ensures i <= |d|
    ensures i < |d| ==> d[i].0 == k
    ensures forall j :: 0 <= j < i ==> d[j].0 != k
  {
    if d == [] then 0 else if d[0].0 == k then 0 else 1 + Slot(d[1..], k)
  }

  /** The slot is determined by the two properties above. */
  lemma {:induction false} SlotUnique(d: Dict, k: string, i: nat)
    requires i <= |d| && (i < |d| ==> d[i].0 == k)
    requires forall j :: 0 <= j < i ==> d[j].0 != k
    ensures Slot(d, k) == i
  {
  }

  /** `d.get(k)` */
  function Get(d: Dict, k: string): (r: Option<string>)
  {
    var i := Slot(d, k);
    if i < |d| then Some(d[i].1) else None
  }

  /** `d[k] = v` */
  function Put(d: Dict, k: string, v: string): (r: Dict)
    ensures |r| == if k in Keys(d) then |d| else |d| + 1
  {
    var i := Slot(d, k);
    if i < |d| then d[i := (k, v)] else d + [(k, v)]
  }

  /**
   * `d[k] = v` keeps the key order (appending a new key), makes `k` map to
   * `v`, leaves every other key alone and keeps the keys distinct.
   */
  lemma {:induction false} PutSpec(d: Dict, k: string, v: string)
    ensures k in Keys(d) ==> Keys(Put(d, k, v)) == Keys(d)
    ensures k !in Keys(d) ==> Keys(Put(d, k, v)) == Keys(d) + [k]
    ensures Get(Put(d, k, v), k) == Some(v)
    ensures forall k' :: k' != k ==> Get(Put(d, k, v), k') == Get(d, k')
    ensures DistinctKeys(d) ==> DistinctKeys(Put(d, k, v))
  {
    PutKeys(d, k, v);
    PutHit(d, k, v);
    forall k' | k' != k ensures Get(Put(d, k, v), k') == Get(d, k') {
      PutMiss(d, k, v, k');
    }
  }

  lemma {:induction false} PutKeys(d: Dict, k: string, v: string)
    ensures k in Keys(d) ==> Keys(Put(d, k, v)) == Keys(d)
    ensures k !in Keys(d) ==> Keys(Put(d, k, v)) == Keys(d) + [k]
  {
    var i := Slot(d, k);
    if i < |d| {
      assert Keys(d)[i] == k;
    }
  }

  lemma {:induction false} PutHit(d: Dict, k: string, v: string)
    ensures Get(Put(d, k, v), k) == Some(v)
  {
    SlotUnique(Put(d, k, v), k, Slot(d, k));
  }

  lemma {:induction false} PutMiss(d: Dict, k: string, v: string, k': string)
    requires k' != k
    ensures Get(Put(d, k, v), k') == Get(d, k')
  {
    var r := Put(d, k, v);
    var j := Slot(d, k');
    if j == |d| {
      SlotUnique(r, k', |r|);
    } else {
      SlotUnique(r, k', j);
    }
  }

  /** The dictionary built by assigning the pairs one after the other. */
  function PutAll(ps: seq<(string, string)>): (d: Dict)
  {
    if ps == [] then [] else Put(PutAll(ps[..|ps| - 1]), ps[|ps| - 1].0, ps[|ps| - 1].1)
  }

  lemma {:induction false} PutAllDistinct(ps: seq<(string, string)>)
    ensures DistinctKeys(PutAll(ps))
  {
    if ps != [] {
      PutAllDistinct(ps[..|ps| - 1]);
      PutSpec(PutAll(ps[..|ps| - 1]), ps[|ps| - 1].0, ps[|ps| - 1].1);
    }
  }

  /** Index of the last pair that assigns `k`, if any. */
  function LastAssignment(ps: seq<(string, string)>, k: string): (r: Option<nat>)
    ensures r.Some? ==> r.value < |ps| && ps[r.value].0 == k && forall j :: r.value < j < |ps| ==> ps[j].0 != k
    ensures r.None? ==> forall j :: 0 <= j < |ps| ==> ps[j].0 != k
  {
    if ps == [] then None
    else if ps[|ps| - 1].0 == k then Some(|ps| - 1)
    else LastAssignment(ps[..|ps| - 1], k)
  }

  lemma LastAssignmentUnique(ps: seq<(string, string)>, k: string, r: Option<nat>)
    requires r.Some? ==> r.value < |ps| && ps[r.value].0 == k && forall j :: r.value < j < |ps| ==> ps[j].0 != k
    requires r.None? ==> forall j :: 0 <= j < |ps| ==> ps[j].0 != k
    ensures LastAssignment(ps, k) == r
  {
  }

  /**
   * After assigning the pairs `ps` in order, a key is present exactly when
   * some pair assigns it, and its value is the one the LAST such pair gives.
   */
  lemma {:induction false} PutAllLastWins(ps: seq<(string, string)>, k: string)
    ensures Get(PutAll(ps), k) ==
      if LastAssignment(ps, k).Some? then Some(ps[LastAssignment(ps, k).value].1) else None
  {
    if ps != [] {
      var init := ps[..|ps| - 1];
      var last := ps[|ps| - 1];
      PutAllLastWins(init, k);
      if last.0 == k {
        PutHit(PutAll(init), last.0, last.1);
      } else {
        PutMiss(PutAll(init), last.0, last.1, k);
        if LastAssignment(init, k).Some? {
          assert ps[LastAssignment(init, k).value] == init[LastAssignment(init, k).value];
        }
      }
    }
  }

  /** Index of the first pair that assigns `k`, or `|ps|`. */
  function FirstAssignment(ps: seq<(string, string)>, k: string): (i: nat)
    ensures i <= |ps|
    ensures i < |ps| ==> ps[i].0 == k
    ensures forall j :: 0 <= j < i ==> ps[j].0 != k
  {
    Slot(ps, k)
  }

  lemma {:induction false} FirstAssignmentSnoc(ps: seq<(string, string)>, p: (string, string), k: string)
    ensures FirstAssignment(ps + [p], k) ==
      if FirstAssignment(ps, k) < |ps| then FirstAssignment(ps, k) else if p.0 == k then |ps| else |ps| + 1
  {
    var j := FirstAssignment(ps, k);
    if j < |ps| {
      SlotUnique(ps + [p], k, j);
    } else if p.0 == k {
      SlotUnique(ps + [p], k, |ps|);
    } else {
      SlotUnique(ps + [p], k, |ps| + 1);
    }
  }

  /**
   * The keys of the built dictionary are the assigned keys, each once, in
   * the order of their FIRST assignment (a later assignment keeps the slot).
   */
  lemma {:induction false} PutAllFirstOrder(ps: seq<(string, string)>)
    ensures forall k :: k in Keys(PutAll(ps)) <==> FirstAssignment(ps, k) < |ps|
    ensures forall a, b :: 0 <= a < b < |PutAll(ps)| ==>
      FirstAssignment(ps, PutAll(ps)[a].0) < FirstAssignment(ps, PutAll(ps)[b].0)
  {
    if ps != [] {
      var init := ps[..|ps| - 1];
      var last := ps[|ps| - 1];
      assert ps == init + [last];
      PutAllFirstOrder(init);
      var d := PutAll(ps);
      forall k ensures k in Keys(d) <==> FirstAssignment(ps, k) < |ps| {
        PutAllKeysStep(init, last, k);
      }
      forall a, b | 0 <= a < b < |d|
        ensures FirstAssignment(ps, d[a].0) < FirstAssignment(ps, d[b].0)
      {
        PutAllOrderStep(init, last, a, b);
      }
    }
  }

  lemma {:induction false} PutAllKeysStep(init: seq<(string, string)>, last: (string, string), k: string)
    requires forall k :: k in Keys(PutAll(init)) <==> FirstAssignment(init, k) < |init|
    ensures k in Keys(PutAll(init + [last])) <==> FirstAssignment(init + [last], k) < |init + [last]|
  {
    var ps := init + [last];
    assert ps[..|ps| - 1] == init;
    PutKeys(PutAll(init), last.0, last.1);
    FirstAssignmentSnoc(init, last, k);
  }

  lemma {:induction false} PutAllOrderStep(init: seq<(string, string)>, last: (string, string), a: nat, b: nat)
    requires forall k :: k in Keys(PutAll(init)) <==> FirstAssignment(init, k) < |init|
    requires forall a, b :: 0 <= a < b < |PutAll(init)| ==>
      FirstAssignment(init, PutAll(init)[a].0) < FirstAssignment(init, PutAll(init)[b].0)
    requires a < b < |PutAll(init + [last])|
    ensures FirstAssignment(init + [last], PutAll(init + [last])[a].0) <
            FirstAssignment(init + [last], PutAll(init + [last])[b].0)
  {
    var ps := init + [last];
    assert ps[..|ps| - 1] == init;
    var d0 := PutAll(init);
    var d := PutAll(ps);
    PutKeys(d0, last.0, last.1);
    assert Keys(d)[a] == d[a].0 && Keys(d)[b] == d[b].0;
    FirstAssignmentSnoc(init, last, d[a].0);
    FirstAssignmentSnoc(init, last, d[b].0);
    if last.0 in Keys(d0) {
      assert Keys(d0)[a] == d0[a].0 && Keys(d0)[b] == d0[b].0;
    } else {
      assert Keys(d0)[a] == d0[a].0;
      assert d0[a].0 in Keys(d0);
      if b < |d0| {
        assert Keys(d0)[b] == d0[b].0;
      }
    }
  }
}
