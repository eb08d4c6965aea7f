/** The two collection behaviours the scrapers rely on: de-duplication in
    first-seen order, and Python's insertion-ordered `dict`. */
module Collections {

  datatype Option<T> = None | Some(value: T)

  /** The outcome of reading a table: its rows, or the error the scrapers raise when a
      column they need has no header, carrying the lower-cased headers it looked at. */
  datatype Result<T> = Ok(value: T) | MissingColumn(headers: seq<string>)

  /** Python's `Dict[str, str]`, kept as an association list so that insertion order is visible. */
  type Dict = seq<(string, string)>

  /** Position of the first occurrence of `x` in `xs`. */
  function FirstIndex(xs: seq<string>, x: string): (r: nat)
    requires x in xs
    ensures r < |xs| && xs[r] == x && x !in xs[..r]
  {
    if xs[0] == x then 0 else 1 + FirstIndex(xs[1..], x)
  }

  /** Appending an element does not move the first occurrence of one already present. */
  lemma {:induction false} FirstIndexAppend(xs: seq<string>, y: string, x: string)
    requires x in xs
    ensures FirstIndex(xs + [y], x) == FirstIndex(xs, x)
  {
    if xs[0] != x {
      assert (xs + [y])[1..] == xs[1..] + [y];
      FirstIndexAppend(xs[1..], y, x);
    }
  }

  /** The elements of `xs`, each kept at its first occurrence only. Defined from the
      end, one appended element at a time, the way a "seen" loop builds it. */
  function Dedup(xs: seq<string>): (r: seq<string>)
    ensures forall x :: x in r <==> x in xs
    ensures forall i, j :: 0 <= i < j < |r| ==> r[i] != r[j]
  {
    if xs == [] then []
    else
      var d := Dedup(xs[..|xs| - 1]);
      var last := xs[|xs| - 1];
      assert xs == xs[..|xs| - 1] + [last];
      if last in d then d else d + [last]
  }

  /** Dedup keeps the order of first occurrence: an element listed earlier in the
      result was seen earlier in the input. */
  lemma {:induction false} DedupFirstSeenOrder(xs: seq<string>)
    ensures forall i, j :: 0 <= i < j < |Dedup(xs)| ==>
      FirstIndex(xs, Dedup(xs)[i]) < FirstIndex(xs, Dedup(xs)[j])
  {
    if xs != [] {
      var p, last := xs[..|xs| - 1], xs[|xs| - 1];
      assert xs == p + [last];
      DedupFirstSeenOrder(p);
      var d, r := Dedup(p), Dedup(xs);
      forall i, j | 0 <= i < j < |r| ensures FirstIndex(xs, r[i]) < FirstIndex(xs, r[j]) {
        FirstIndexAppend(p, last, r[i]);
        if j < |d| {
          FirstIndexAppend(p, last, r[j]);
        } else {
          assert r[j] == last && last !in p;
          assert xs[..|p|] == p;
        }
      }
    }
  }

  /** An insertion-ordered dictionary, as Python's `dict`: an association list whose keys
      are distinct. */
  predicate KeysUnique(d: Dict) {
    forall i, j :: 0 <= i < j < |d| ==> d[i].0 != d[j].0
  }

  /** The keys in insertion order. */
  function Keys(d: Dict): (ks: seq<string>)
    ensures |ks| == |d| && forall i :: 0 <= i < |d| ==> ks[i] == d[i].0
  {
    seq(|d|, i requires 0 <= i < |d| => d[i].0)
  }

  /** `d.get(k)`. */
  function Get(d: Dict, k: string): (r: Option<string>)
    ensures r.None? <==> k !in Keys(d)
    ensures r.Some? ==> exists i :: 0 <= i < |d| && d[i] == (k, r.value)
  {
    if d == [] then None
    else if d[0].0 == k then Some(d[0].1)
    else
      var r := Get(d[1..], k);
      assert Keys(d) == [d[0].0] + Keys(d[1..]);
      assert r.Some? ==> exists i :: 0 <= i < |d| && d[i] == (k, r.value) by {
        if r.Some? {
          var i :| 0 <= i < |d[1..]| && d[1..][i] == (k, r.value);
          assert d[i + 1] == (k, r.value);
        }
      }
      r
  }

  /** In a dictionary with distinct keys, the entry holding `k` is what `Get` finds. */
  lemma {:induction false} GetAt(d: Dict, i: nat)
    requires KeysUnique(d) && i < |d|
    ensures Get(d, d[i].0) == Some(d[i].1)
  {
    if i > 0 {
      GetAt(d[1..], i - 1);
    }
  }

  /** `d[k] = v`: an existing key keeps its position and takes the new value, a new key
      is appended. */
  function Put(d: Dict, k: string, v: string): (r: Dict)
    requires KeysUnique(d)
    ensures KeysUnique(r)
    ensures Keys(r) == if k in Keys(d) then Keys(d) else Keys(d) + [k]
    ensures Get(r, k) == Some(v)
    ensures forall k' :: k' != k ==> Get(r, k') == Get(d, k')
    ensures forall e :: e in r ==> e in d || e == (k, v)
  {
    if k in Keys(d) then
      var i := FirstIndex(Keys(d), k);
      var r := d[i := (k, v)];
      assert Keys(r) == Keys(d);
      GetAt(r, i);
      GetOther(d, i, v);
      r
    else
      var r := d + [(k, v)];
      assert Keys(r) == Keys(d) + [k];
      GetAt(r, |d|);
      GetAppendOther(d, k, v);
      r
  }

  /** Overwriting the value at position `i` leaves every other key's lookup alone. */
  lemma {:induction false} GetOther(d: Dict, i: nat, v: string)
    requires i < |d|
    ensures forall k' :: k' != d[i].0 ==> Get(d[i := (d[i].0, v)], k') == Get(d, k')
  {
    if i > 0 {
      GetOther(d[1..], i - 1, v);
      assert d[i := (d[i].0, v)][1..] == d[1..][i - 1 := (d[i].0, v)];
    }
  }

  /** Appending a new key leaves every other key's lookup alone. */
  lemma {:induction false} GetAppendOther(d: Dict, k: string, v: string)
    ensures forall k' :: k' != k ==> Get(d + [(k, v)], k') == Get(d, k')
  {
    if d != [] {
      assert (d + [(k, v)])[1..] == d[1..] + [(k, v)];
      GetAppendOther(d[1..], k, v);
    }
  }
}
