/** What both `parse_table` loops and the cleaning loop do with rows: the rows below
    the header row are read in order, and those that yield a record are kept, in order. */
module Rows {
  import opened Collections

  /** The present values, in order. */
  function Present<T(==)>(os: seq<Option<T>>): (rs: seq<T>)
    ensures |rs| <= |os|
    ensures forall r :: r in rs ==> Some(r) in os
  {
    if os == [] then []
    else
      var prefix := Present(os[..|os| - 1]);
      assert os == os[..|os| - 1] + [os[|os| - 1]];
      match os[|os| - 1]
      case Some(r) => prefix + [r]
      case None => prefix
  }

  /** The positions of the present values, in order. */
  function PresentAt<T>(os: seq<Option<T>>): seq<nat> {
    if os == [] then []
    else
      var prefix := PresentAt(os[..|os| - 1]);
      if os[|os| - 1].Some? then prefix + [|os| - 1] else prefix
  }

  /** `Present` lists exactly the present values, in order: value `k` sits at position
      `PresentAt[k]`, those positions increase, and every position left out is empty. */
  lemma {:induction false} PresentInOrder<T>(os: seq<Option<T>>)
    ensures InOrder(os, Present(os), PresentAt(os))
  {
    if os != [] {
      var n := |os| - 1;
      PresentInOrder(os[..n]);
      PresentStep(os[..n], os[n]);
      assert os[..n] + [os[n]] == os;
    }
  }

  /** `rs` lists the present values of `os`, each from position `ks[k]`, in order. */
  ghost predicate InOrder<T>(os: seq<Option<T>>, rs: seq<T>, ks: seq<nat>) {
    && |rs| == |ks|
    && (forall k :: 0 <= k < |ks| ==> ks[k] < |os| && os[ks[k]] == Some(rs[k]))
    && (forall k, l :: 0 <= k < l < |ks| ==> ks[k] < ks[l])
    && (forall i :: 0 <= i < |os| && i !in ks ==> os[i].None?)
  }

  lemma PresentStep<T>(p: seq<Option<T>>, o: Option<T>)
    requires InOrder(p, Present(p), PresentAt(p))
    ensures InOrder(p + [o], Present(p + [o]), PresentAt(p + [o]))
  {
    var os := p + [o];
    assert os[..|p|] == p;
    var rs0, ks0 := Present(p), PresentAt(p);
    if o.Some? {
      assert Present(os) == rs0 + [o.value] && PresentAt(os) == ks0 + [|p|];
      InOrderSome(p, o.value, rs0, ks0);
    } else {
      assert Present(os) == rs0 && PresentAt(os) == ks0;
      InOrderNone(p, rs0, ks0);
    }
  }

  lemma InOrderSome<T>(p: seq<Option<T>>, r: T, rs: seq<T>, ks: seq<nat>)
    requires InOrder(p, rs, ks)
    ensures InOrder(p + [Some(r)], rs + [r], ks + [|p|])
  {
  }

  lemma InOrderNone<T>(p: seq<Option<T>>, rs: seq<T>, ks: seq<nat>)
    requires InOrder(p, rs, ks)
    ensures InOrder(p + [None], rs, ks)
  {
  }

  /** The rows below the header row (`find_all("tr")[1:]`). */
  function Body<T>(rows: seq<T>): (b: seq<T>)
    ensures |b| == if rows == [] then 0 else |rows| - 1
    ensures forall i :: 0 <= i < |b| ==> b[i] == rows[i + 1]
  {
    if rows == [] then [] else rows[1..]
  }
}
