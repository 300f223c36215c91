/** Doubly linked lists as sequences (kernel/include/stewieos/linkedlist.h): list_add puts an item at the
    front, list_rem takes it out. */
module Lists {
  /** list_rem; nothing happens to an item that is in no list. */
  function Remove(q: seq<nat>, t: nat): (r: seq<nat>)
    ensures t !in q ==> r == q
    ensures t in q ==> |r| == |q| - 1
    ensures forall u :: u in r ==> u in q
  {
    if q == [] then [] else if q[0] == t then q[1..] else [q[0]] + Remove(q[1..], t)
  }

  ghost predicate Distinct(q: seq<nat>)
  {
    forall i, j :: 0 <= i < j < |q| ==> q[i] != q[j]
  }

  lemma {:induction false} RemoveFacts(q: seq<nat>, t: nat)
    requires Distinct(q)
    ensures Distinct(Remove(q, t)) && forall u :: u in Remove(q, t) <==> u in q && u != t
  {
    if q != [] {
      var rest := q[1..];
      assert Distinct(rest);
      assert forall u :: u in q <==> u == q[0] || u in rest;
      assert q[0] !in rest;
      if q[0] != t {
        RemoveFacts(rest, t);
        var r := Remove(rest, t);
        assert q[0] !in r;
        assert Remove(q, t) == [q[0]] + r;
      }
    }
  }

  lemma PushFacts(q: seq<nat>, t: nat)
    requires Distinct(q) && t !in q
    ensures Distinct([t] + q) && forall u :: u in [t] + q <==> u == t || u in q
  {
    var r := [t] + q;
    assert forall i :: 0 < i < |r| ==> r[i] == q[i - 1];
  }

  /** Where an item is. */
  function IndexOf<T(==)>(q: seq<T>, t: T): (i: nat)
    requires t in q
    ensures i < |q| && q[i] == t
  {
    if q[0] == t then 0 else 1 + IndexOf(q[1..], t)
  }
}
