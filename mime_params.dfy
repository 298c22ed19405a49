/**
 * MIME parameters as an insertion-ordered map with distinct keys (a Kotlin
 * `LinkedHashMap<String, String>`), and Kotlin's `toMap` over a list of pairs.
 */
module MimeParams {
  import opened Wrappers

  type Pair = (string, string)

  predicate HasKey(ps: seq<Pair>, k: string)
  {
    exists i :: 0 <= i < |ps| && ps[i].0 == k
  }

  predicate DistinctKeys(ps: seq<Pair>)
  {
    forall i, j :: 0 <= i < j < |ps| ==> ps[i].0 != ps[j].0
  }

  /** A map from parameter names to values; the sequence order is the iteration order. */
  type Params = ps: seq<Pair> | DistinctKeys(ps)

  /** Position of the first pair named `k`. */
  function IndexOf(ps: seq<Pair>, k: string): (r: Option<nat>)
    ensures r.Some? ==> r.value < |ps| && ps[r.value].0 == k
    ensures r.Some? ==> forall j :: 0 <= j < r.value ==> ps[j].0 != k
    ensures r.None? <==> !HasKey(ps, k)
  {
    if ps == [] then None
    else if ps[0].0 == k then Some(0)
    else
      match IndexOf(ps[1..], k)
      case None => None
      case Some(i) => Some(i + 1)
  }

  /** `map[k]`. */
  function Get(ps: Params, k: string): (r: Option<string>)
    ensures r.Some? <==> HasKey(ps, k)
    ensures forall i :: 0 <= i < |ps| && ps[i].0 == k ==> r == Some(ps[i].1)
  {
    match IndexOf(ps, k)
    case None => None
    case Some(i) => Some(ps[i].1)
  }

  /** `map[k] = v`: an existing key keeps its position and takes the new value; a new key goes last. */
  function Put(ps: Params, k: string, v: string): (r: Params)
    ensures HasKey(ps, k) ==> |r| == |ps|
    ensures !HasKey(ps, k) ==> r == ps + [(k, v)]
    ensures forall i :: 0 <= i < |ps| ==> r[i].0 == ps[i].0
    ensures forall i :: 0 <= i < |ps| && ps[i].0 != k ==> r[i] == ps[i]
    ensures Get(r, k) == Some(v)
  {
    match IndexOf(ps, k)
    case Some(i) => ps[i := (k, v)]
    case None =>
      var r := ps + [(k, v)];
      assert r[|ps|].0 == k;
      r
  }

  /** `map - k`: every pair except the one named `k`, in order. */
  function Remove(ps: Params, k: string): (r: Params)
    ensures !HasKey(r, k)
    ensures forall i :: 0 <= i < |r| ==> r[i] in ps
    ensures forall i :: 0 <= i < |ps| && ps[i].0 != k ==> ps[i] in r
    ensures !HasKey(ps, k) ==> r == ps
  {
    if ps == [] then []
    else
      var rest: Params := ps[1..];
      var tail := Remove(rest, k);
      if ps[0].0 == k then tail
      else
        ConsDistinct(ps, tail);
        [ps[0]] + tail
  }

  /** The head of a map may go in front of any selection of the rest. */
  lemma ConsDistinct(ps: Params, tail: Params)
    requires |ps| > 0
    requires forall i :: 0 <= i < |tail| ==> tail[i] in ps[1..]
    ensures DistinctKeys([ps[0]] + tail)
  {
    forall i | 0 <= i < |tail| ensures tail[i].0 != ps[0].0 {
      var j :| 0 <= j < |ps[1..]| && ps[1..][j] == tail[i];
      assert ps[j + 1] == tail[i];
    }
    var r := [ps[0]] + tail;
    forall i, j | 0 <= i < j < |r| ensures r[i].0 != r[j].0 {
      if i == 0 {
        assert r[j] == tail[j - 1];
      } else {
        assert r[i] == tail[i - 1] && r[j] == tail[j - 1];
      }
    }
  }

  /** Removing a key cuts its one pair out and keeps the others in their order. */
  lemma {:induction false} RemoveSplice(ps: Params, k: string)
    requires HasKey(ps, k)
    ensures IndexOf(ps, k).Some?
    ensures Remove(ps, k) == ps[..IndexOf(ps, k).value] + ps[IndexOf(ps, k).value + 1..]
  {
    var rest: Params := ps[1..];
    RemoveStep(ps, k);
    if ps[0].0 == k {
      KeyOnlyAtHead(ps);
      assert ps[..0] + ps[1..] == rest;
    } else {
      HasKeyInTail(ps, k);
      RemoveSplice(rest, k);
      SpliceCons(ps, IndexOf(rest, k).value);
    }
  }

  lemma HasKeyInTail(ps: seq<Pair>, k: string)
    requires HasKey(ps, k) && ps[0].0 != k
    ensures HasKey(ps[1..], k)
  {
    var j :| 0 <= j < |ps| && ps[j].0 == k;
    assert ps[1..][j - 1] == ps[j];
  }

  /** Cutting element `i` out of the tail is cutting element `i + 1` out of the whole. */
  lemma SpliceCons<T>(xs: seq<T>, i: nat)
    requires i + 1 < |xs|
    ensures [xs[0]] + (xs[1..][..i] + xs[1..][i + 1..]) == xs[..i + 1] + xs[i + 2..]
  {
    assert [xs[0]] + xs[1..][..i] == xs[..i + 1];
    assert xs[1..][i + 1..] == xs[i + 2..];
  }

  /** One step of `Remove`, and of `IndexOf`, at the head of the map. */
  lemma RemoveStep(ps: Params, k: string)
    requires ps != []
    ensures ps[0].0 == k ==> Remove(ps, k) == Remove(ps[1..], k) && IndexOf(ps, k) == Some(0)
    ensures ps[0].0 != k ==> Remove(ps, k) == [ps[0]] + Remove(ps[1..], k)
    ensures ps[0].0 != k && IndexOf(ps[1..], k).Some? ==> IndexOf(ps, k) == Some(IndexOf(ps[1..], k).value + 1)
  {
  }

  /** The key of the head occurs nowhere else in the map. */
  lemma KeyOnlyAtHead(ps: Params)
    requires ps != []
    ensures !HasKey(ps[1..], ps[0].0)
  {
    forall j | 0 <= j < |ps| - 1 ensures ps[1..][j].0 != ps[0].0 {
      assert ps[1..][j] == ps[j + 1];
    }
  }

  /** The value of the last pair named `k`: the reference meaning of `toMap` for one key. */
  function LastValue(pairs: seq<Pair>, k: string): Option<string>
  {
    if pairs == [] then None
    else if pairs[|pairs| - 1].0 == k then Some(pairs[|pairs| - 1].1)
    else LastValue(pairs[..|pairs| - 1], k)
  }

  /** Kotlin `toMap`: pairs are put in order, so a repeated key keeps its first position and its last value. */
  function ToMap(pairs: seq<Pair>): (r: Params)
    ensures forall k :: HasKey(r, k) <==> HasKey(pairs, k)
    ensures forall i :: 0 <= i < |r| ==> LastValue(pairs, r[i].0) == Some(r[i].1)
    ensures forall i :: 0 <= i < |r| ==> r[i] in pairs
  {
    if pairs == [] then []
    else
      var n := |pairs| - 1;
      var prev := ToMap(pairs[..n]);
      var r := Put(prev, pairs[n].0, pairs[n].1);
      ToMapStep(pairs, prev, r);
      r
  }

  /** One step of `toMap`: putting the last pair into the map of the others. */
  lemma ToMapStep(pairs: seq<Pair>, prev: Params, r: Params)
    requires |pairs| > 0
    requires forall k :: HasKey(prev, k) <==> HasKey(pairs[..|pairs| - 1], k)
    requires forall i :: 0 <= i < |prev| ==> LastValue(pairs[..|pairs| - 1], prev[i].0) == Some(prev[i].1)
    requires forall i :: 0 <= i < |prev| ==> prev[i] in pairs[..|pairs| - 1]
    requires r == Put(prev, pairs[|pairs| - 1].0, pairs[|pairs| - 1].1)
    ensures forall k :: HasKey(r, k) <==> HasKey(pairs, k)
    ensures forall i :: 0 <= i < |r| ==> LastValue(pairs, r[i].0) == Some(r[i].1)
    ensures forall i :: 0 <= i < |r| ==> r[i] in pairs
  {
    var n := |pairs| - 1;
    var last := pairs[n];
    HasKeySnoc(pairs);
    HasKeyPut(prev, last.0, last.1);
    forall i | 0 <= i < |r| ensures LastValue(pairs, r[i].0) == Some(r[i].1) && r[i] in pairs {
      if r[i].0 == last.0 {
        assert Get(r, last.0) == Some(r[i].1);
        assert r[i] == last;
      } else {
        assert i < |prev| && r[i] == prev[i];
        assert prev[i] in pairs[..n];
      }
    }
  }

  lemma HasKeySnoc(pairs: seq<Pair>)
    requires |pairs| > 0
    ensures forall k :: HasKey(pairs, k) <==> HasKey(pairs[..|pairs| - 1], k) || pairs[|pairs| - 1].0 == k
  {
    var n := |pairs| - 1;
    forall k ensures HasKey(pairs, k) <==> HasKey(pairs[..n], k) || pairs[n].0 == k {
      if HasKey(pairs, k) {
        var i :| 0 <= i < |pairs| && pairs[i].0 == k;
        if i < n { assert pairs[..n][i] == pairs[i]; }
      }
      if HasKey(pairs[..n], k) {
        var i :| 0 <= i < n && pairs[..n][i].0 == k;
        assert pairs[i] == pairs[..n][i];
      }
    }
  }

  lemma HasKeyPut(ps: Params, k: string, v: string)
    ensures forall k' :: HasKey(Put(ps, k, v), k') <==> HasKey(ps, k') || k == k'
  {
    var r := Put(ps, k, v);
    forall k' ensures HasKey(r, k') <==> HasKey(ps, k') || k == k' {
      if HasKey(r, k') {
        var i :| 0 <= i < |r| && r[i].0 == k';
        if i < |ps| { assert ps[i].0 == k'; }
      }
      if HasKey(ps, k') {
        var i :| 0 <= i < |ps| && ps[i].0 == k';
        assert r[i].0 == k';
      }
      if k == k' {
        assert Get(r, k).Some?;
      }
    }
  }

  /** The position of the first pair named `k`. */
  function FirstIndex(pairs: seq<Pair>, k: string): (r: nat)
    requires HasKey(pairs, k)
    ensures r < |pairs| && pairs[r].0 == k
    ensures forall j :: 0 <= j < r ==> pairs[j].0 != k
  {
    IndexOf(pairs, k).value
  }

  /** `toMap` orders the keys by their first occurrence. */
  lemma {:induction false} ToMapKeyOrder(pairs: seq<Pair>, i: nat, j: nat)
    requires i < j < |ToMap(pairs)|
    ensures HasKey(pairs, ToMap(pairs)[i].0) && HasKey(pairs, ToMap(pairs)[j].0)
    ensures FirstIndex(pairs, ToMap(pairs)[i].0) < FirstIndex(pairs, ToMap(pairs)[j].0)
    decreases |pairs|
  {
    var r := ToMap(pairs);
    var n := |pairs| - 1;
    var prefix := pairs[..n];
    var prev := ToMap(prefix);
    ToMapLast(pairs);
    assert HasKey(r, r[i].0) && HasKey(r, r[j].0);
    assert HasKey(prev, prev[i].0);
    if j < |prev| {
      ToMapKeyOrder(prefix, i, j);
      assert r[i].0 == prev[i].0 && r[j].0 == prev[j].0;
      KeyOrderKept(pairs, n, prev[i].0, prev[j].0);
    } else {
      KeyOrderAppended(pairs, prev, r, i, j);
    }
  }

  /** Two keys of a prefix keep the order of their first occurrences in the whole sequence. */
  lemma KeyOrderKept(pairs: seq<Pair>, n: nat, a: string, b: string)
    requires n <= |pairs|
    requires HasKey(pairs[..n], a) && HasKey(pairs[..n], b)
    requires FirstIndex(pairs[..n], a) < FirstIndex(pairs[..n], b)
    requires HasKey(pairs, a) && HasKey(pairs, b)
    ensures FirstIndex(pairs, a) < FirstIndex(pairs, b)
  {
    FirstIndexPrefix(pairs, n, a);
    FirstIndexPrefix(pairs, n, b);
  }

  /** A key appended by the last pair comes after every key of the prefix. */
  lemma KeyOrderAppended(pairs: seq<Pair>, prev: Params, r: Params, i: nat, j: nat)
    requires pairs != [] && i < j < |r| && |prev| <= j
    requires forall k :: HasKey(prev, k) <==> HasKey(pairs[..|pairs| - 1], k)
    requires r == Put(prev, pairs[|pairs| - 1].0, pairs[|pairs| - 1].1)
    requires HasKey(pairs, r[i].0) && HasKey(pairs, r[j].0)
    ensures FirstIndex(pairs, r[i].0) < FirstIndex(pairs, r[j].0)
  {
    var n := |pairs| - 1;
    var k := pairs[n].0;
    assert !HasKey(prev, k) && r == prev + [(k, pairs[n].1)];
    assert r[j].0 == k && r[i].0 == prev[i].0;
    assert HasKey(prev, prev[i].0);
    FirstIndexPrefix(pairs, n, prev[i].0);
    FirstIndexPrefix(pairs, n, k);
  }

  /** The first occurrence of a key already present in a prefix lies in that prefix. */
  lemma FirstIndexPrefix(pairs: seq<Pair>, n: nat, k: string)
    requires n <= |pairs| && HasKey(pairs, k)
    ensures HasKey(pairs[..n], k) ==> FirstIndex(pairs, k) < n && FirstIndex(pairs[..n], k) == FirstIndex(pairs, k)
    ensures !HasKey(pairs[..n], k) ==> FirstIndex(pairs, k) >= n
  {
    var f := FirstIndex(pairs, k);
    if HasKey(pairs[..n], k) {
      var g := FirstIndex(pairs[..n], k);
      assert pairs[g].0 == k;
      if f < n { assert pairs[..n][f].0 == k; }
    } else {
      forall j | 0 <= j < n ensures pairs[j].0 != k {
        assert pairs[..n][j] == pairs[j];
      }
    }
  }

  /** Dropping the last pair keeps keys distinct, and its key is not among the others. */
  lemma DistinctPrefix(pairs: seq<Pair>)
    requires DistinctKeys(pairs) && pairs != []
    ensures DistinctKeys(pairs[..|pairs| - 1])
    ensures !HasKey(pairs[..|pairs| - 1], pairs[|pairs| - 1].0)
  {
    var prefix := pairs[..|pairs| - 1];
    forall i | 0 <= i < |prefix| ensures prefix[i] == pairs[i] {
    }
  }

  /** On pairs whose keys are already distinct, `toMap` changes nothing. */
  lemma {:induction false} ToMapDistinct(pairs: seq<Pair>)
    requires DistinctKeys(pairs)
    ensures ToMap(pairs) == pairs
    decreases |pairs|
  {
    if pairs != [] {
      var n := |pairs| - 1;
      var prefix := pairs[..n];
      DistinctPrefix(pairs);
      ToMapDistinct(prefix);
      ToMapLast(pairs);
      calc {
        ToMap(pairs);
        Put(ToMap(prefix), pairs[n].0, pairs[n].1);
        Put(prefix, pairs[n].0, pairs[n].1);
        prefix + [(pairs[n].0, pairs[n].1)];
        pairs;
      }
    }
  }

  /** `toMap` puts the last pair into the map of the others. */
  lemma ToMapLast(pairs: seq<Pair>)
    requires pairs != []
    ensures ToMap(pairs) == Put(ToMap(pairs[..|pairs| - 1]), pairs[|pairs| - 1].0, pairs[|pairs| - 1].1)
  {
  }

}
