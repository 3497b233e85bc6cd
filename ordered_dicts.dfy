/**
 * Python dictionaries keep their keys in insertion order. A dictionary is
 * modelled as the sequence of its (key, value) entries; assigning to a key
 * that is already present replaces the value and keeps the entry where it
 * was, assigning to a new key appends an entry at the end.
 */
module OrderedDicts {

  type Dict<V> = seq<(string, V)>

  /** The keys in iteration order (`for k in d`). */
  function Keys<V>(d: Dict<V>): (r: seq<string>)
  {
    seq(|d|, i requires 0 <= i < |d| => d[i].0)
  }

  /** `k in d`; also used on any list of pairs, keys repeated or not. */
  predicate HasKey<V>(d: Dict<V>, k: string)
  {
    exists i :: 0 <= i < |d| && d[i].0 == k
  }

  /** No key occurs in two entries: what every real dictionary satisfies. */
  predicate UniqueKeys<V>(d: Dict<V>)
  {
    forall i, j :: 0 <= i < j < |d| ==> d[i].0 != d[j].0
  }

  /** The position of the first entry whose key is `k`. */
  function IndexOf<V>(d: Dict<V>, k: string): (i: nat)
    requires HasKey(d, k)
    ensures i < |d| && d[i].0 == k
    ensures forall j :: 0 <= j < i ==> d[j].0 != k
  {
    if d[0].0 == k then 0
    else
      assert HasKey(d[1..], k) by {
        var j :| 0 <= j < |d| && d[j].0 == k;
        assert d[1..][j - 1].0 == k;
      }
      IndexOf(d[1..], k) + 1
  }

  /** `d[k]`. */
  function Get<V>(d: Dict<V>, k: string): (r: V)
    requires HasKey(d, k)
  {
    d[IndexOf(d, k)].1
  }

  /** `d[k] = v`: the value is replaced in place, or a new entry is appended. */
  function Put<V>(d: Dict<V>, k: string, v: V): (r: Dict<V>)
  {
    if HasKey(d, k) then d[IndexOf(d, k) := (k, v)] else d + [(k, v)]
  }

  /**
   * After `d[k] = v`, `k` maps to `v`, every other key keeps its value, an
   * existing key keeps its position and a new key comes last.
   */
  lemma PutFacts<V>(d: Dict<V>, k: string, v: V)
    ensures HasKey(Put(d, k, v), k) && Get(Put(d, k, v), k) == v
    ensures forall j :: HasKey(Put(d, k, v), j) <==> HasKey(d, j) || j == k
    ensures forall j :: j != k && HasKey(d, j) ==> Get(Put(d, k, v), j) == Get(d, j)
    ensures Keys(Put(d, k, v)) == if HasKey(d, k) then Keys(d) else Keys(d) + [k]
    ensures UniqueKeys(d) ==> UniqueKeys(Put(d, k, v))
  {
    var r := Put(d, k, v);
    if HasKey(d, k) {
      PutExisting(d, k, v);
      assert Keys(r) == Keys(d);
    } else {
      PutNew(d, k, v);
      assert Keys(r) == Keys(d) + [k];
    }
  }

  /** Replacing the value of a present key keeps every key where it was. */
  lemma PutExisting<V>(d: Dict<V>, k: string, v: V)
    requires HasKey(d, k)
    ensures Put(d, k, v) == d[IndexOf(d, k) := (k, v)]
    ensures forall j :: HasKey(Put(d, k, v), j) <==> HasKey(d, j)
    ensures forall j :: HasKey(d, j) ==> IndexOf(Put(d, k, v), j) == IndexOf(d, j)
    ensures HasKey(Put(d, k, v), k) && Get(Put(d, k, v), k) == v
    ensures forall j :: j != k && HasKey(d, j) ==> Get(Put(d, k, v), j) == Get(d, j)
  {
    var r := Put(d, k, v);
    forall j ensures HasKey(r, j) <==> HasKey(d, j) {
      if HasKey(r, j) {
        var i :| 0 <= i < |r| && r[i].0 == j;
        assert d[i].0 == j;
      }
      if HasKey(d, j) {
        var i :| 0 <= i < |d| && d[i].0 == j;
        assert r[i].0 == j;
      }
    }
    forall j | HasKey(d, j) ensures IndexOf(r, j) == IndexOf(d, j) {
      IndexOfUnique(r, j, IndexOf(d, j));
    }
  }

  /** A new key goes at the end and leaves the other keys where they were. */
  lemma PutNew<V>(d: Dict<V>, k: string, v: V)
    requires !HasKey(d, k)
    ensures Put(d, k, v) == d + [(k, v)]
    ensures forall j :: HasKey(Put(d, k, v), j) <==> HasKey(d, j) || j == k
    ensures forall j :: HasKey(d, j) ==> IndexOf(Put(d, k, v), j) == IndexOf(d, j)
    ensures HasKey(Put(d, k, v), k) && Get(Put(d, k, v), k) == v
    ensures forall j :: j != k && HasKey(d, j) ==> Get(Put(d, k, v), j) == Get(d, j)
  {
    var r := Put(d, k, v);
    forall j ensures HasKey(r, j) <==> HasKey(d, j) || j == k {
      HasKeySnoc(d, (k, v), j);
    }
    forall j | HasKey(d, j) ensures IndexOf(r, j) == IndexOf(d, j) {
      IndexOfSnoc(d, (k, v), j);
    }
    IndexOfUnique(r, k, |d|);
  }

  /** The first entry with key `k` is the one at position `i`. */
  lemma IndexOfUnique<V>(d: Dict<V>, k: string, i: nat)
    requires i < |d| && d[i].0 == k
    requires forall j :: 0 <= j < i ==> d[j].0 != k
    ensures HasKey(d, k) && IndexOf(d, k) == i
  {
  }

  /** An entry in front of a dictionary adds its key to the keys of the rest. */
  lemma HasKeyCons<V>(x: (string, V), d: Dict<V>, j: string)
    ensures HasKey([x] + d, j) <==> j == x.0 || HasKey(d, j)
  {
    if HasKey([x] + d, j) && j != x.0 {
      var i :| 0 <= i < |[x] + d| && ([x] + d)[i].0 == j;
      assert d[i - 1].0 == j;
    }
    if HasKey(d, j) {
      var i :| 0 <= i < |d| && d[i].0 == j;
      assert ([x] + d)[i + 1].0 == j;
    }
    if j == x.0 {
      assert ([x] + d)[0].0 == j;
    }
  }

  /** An entry in front whose key the rest lacks keeps keys unique. */
  lemma UniqueCons<V>(x: (string, V), d: Dict<V>)
    requires UniqueKeys(d) && !HasKey(d, x.0)
    ensures UniqueKeys([x] + d)
  {
    forall i, j | 0 <= i < j < |[x] + d| ensures ([x] + d)[i].0 != ([x] + d)[j].0 {
      if i == 0 {
        assert ([x] + d)[j].0 == d[j - 1].0;
      }
    }
  }

  /** An entry in front with another key does not change what a key maps to. */
  lemma GetCons<V>(x: (string, V), d: Dict<V>, j: string)
    requires j != x.0 && HasKey(d, j)
    ensures HasKey([x] + d, j) && Get([x] + d, j) == Get(d, j)
  {
    IndexOfUnique([x] + d, j, IndexOf(d, j) + 1);
  }

  /** An entry at the end adds its key to the keys before it. */
  lemma HasKeySnoc<V>(d: Dict<V>, x: (string, V), j: string)
    ensures HasKey(d + [x], j) <==> HasKey(d, j) || j == x.0
  {
    if HasKey(d + [x], j) && j != x.0 {
      var i :| 0 <= i < |d + [x]| && (d + [x])[i].0 == j;
      assert d[i].0 == j;
    }
    if HasKey(d, j) {
      var i :| 0 <= i < |d| && d[i].0 == j;
      assert (d + [x])[i].0 == j;
    }
    if j == x.0 {
      assert (d + [x])[|d|].0 == j;
    }
  }

  /** An entry at the end does not move the first occurrence of a key already present. */
  lemma IndexOfSnoc<V>(d: Dict<V>, x: (string, V), j: string)
    requires HasKey(d, j)
    ensures HasKey(d + [x], j) && IndexOf(d + [x], j) == IndexOf(d, j)
  {
    IndexOfUnique(d + [x], j, IndexOf(d, j));
  }

  /** `del d[k]` for a key that may be absent: the entries with key `k` are left out. */
  function Remove<V>(d: Dict<V>, k: string): (r: Dict<V>)
  {
    if |d| == 0 then []
    else if d[0].0 == k then Remove(d[1..], k)
    else [d[0]] + Remove(d[1..], k)
  }

  /** Removing a key keeps every other key, with its value, and keeps keys unique. */
  lemma {:induction false} RemoveFacts<V>(d: Dict<V>, k: string)
    ensures forall j :: HasKey(Remove(d, k), j) <==> HasKey(d, j) && j != k
    ensures forall j :: j != k && HasKey(d, j) ==> Get(Remove(d, k), j) == Get(d, j)
    ensures UniqueKeys(d) ==> UniqueKeys(Remove(d, k))
  {
    if |d| > 0 {
      var x, tail := d[0], d[1..];
      assert d == [x] + tail;
      var rest := Remove(tail, k);
      RemoveFacts(tail, k);
      forall j ensures HasKey(d, j) <==> j == x.0 || HasKey(tail, j) {
        HasKeyCons(x, tail, j);
      }
      forall j | j != x.0 && HasKey(d, j) ensures Get(d, j) == Get(tail, j) {
        GetCons(x, tail, j);
      }
      IndexOfUnique(d, x.0, 0);
      if x.0 != k {
        var r := [x] + rest;
        IndexOfUnique(r, x.0, 0);
        forall j ensures HasKey(r, j) <==> j == x.0 || HasKey(rest, j) {
          HasKeyCons(x, rest, j);
        }
        forall j | j != x.0 && HasKey(rest, j) ensures Get(r, j) == Get(rest, j) {
          GetCons(x, rest, j);
        }
        if UniqueKeys(d) {
          forall i | 0 <= i < |tail| ensures tail[i].0 != x.0 {
            assert tail[i] == d[i + 1];
          }
          UniqueCons(x, rest);
        }
      }
    }
  }

  /** `d[k] = v` seen from one key `j`. */
  lemma PutAt<V>(d: Dict<V>, k: string, v: V, j: string)
    ensures HasKey(Put(d, k, v), j) <==> HasKey(d, j) || j == k
    ensures HasKey(Put(d, k, v), j) ==> Get(Put(d, k, v), j) == if j == k then v else Get(d, j)
  {
    PutFacts(d, k, v);
  }

  /** `del d[k]` seen from one key `j`. */
  lemma RemoveAt<V>(d: Dict<V>, k: string, j: string)
    ensures HasKey(Remove(d, k), j) <==> HasKey(d, j) && j != k
    ensures HasKey(Remove(d, k), j) ==> Get(Remove(d, k), j) == Get(d, j)
  {
    RemoveFacts(d, k);
  }

  /**
   * The dictionary that a loop `d[k] = v` over the pairs `ps`, started from
   * an empty dictionary, builds.
   */
  function FromPairs<V>(ps: seq<(string, V)>): (r: Dict<V>)
  {
    if |ps| == 0 then [] else Put(FromPairs(ps[..|ps| - 1]), ps[|ps| - 1].0, ps[|ps| - 1].1)
  }

  /**
   * The keys of `r` all occur among the pairs `ps`, and they come in the
   * order of their first occurrence there.
   */
  predicate InFirstOccurrenceOrder<V, W>(r: Dict<V>, ps: seq<(string, W)>)
  {
    (forall i :: 0 <= i < |r| ==> HasKey(ps, r[i].0)) &&
    forall i, j :: 0 <= i < j < |r| ==> IndexOf(ps, r[i].0) < IndexOf(ps, r[j].0)
  }

  /** First-occurrence order only depends on the keys of the pairs, not on their values. */
  lemma OrderTransfer<V, W, U>(r: Dict<V>, a: seq<(string, W)>, b: seq<(string, U)>)
    requires |a| == |b| && forall i :: 0 <= i < |a| ==> a[i].0 == b[i].0
    requires InFirstOccurrenceOrder(r, a)
    ensures InFirstOccurrenceOrder(r, b)
  {
    forall i | 0 <= i < |r| ensures HasKey(b, r[i].0) && IndexOf(b, r[i].0) == IndexOf(a, r[i].0) {
      var n := IndexOf(a, r[i].0);
      IndexOfUnique(b, r[i].0, n);
    }
  }

  /**
   * The built dictionary has each key of the pairs exactly once, and no other;
   * its keys come in the order of their first occurrence among the pairs.
   */
  lemma {:induction false} FromPairsKeys<V>(ps: seq<(string, V)>)
    ensures UniqueKeys(FromPairs(ps))
    ensures forall k :: HasKey(FromPairs(ps), k) <==> HasKey(ps, k)
    ensures InFirstOccurrenceOrder(FromPairs(ps), ps)
  {
    if |ps| > 0 {
      var n := |ps| - 1;
      var init, x := ps[..n], ps[n];
      FromPairsKeys(init);
      PutFacts(FromPairs(init), x.0, x.1);
      assert ps == init + [x];
      forall j ensures HasKey(ps, j) <==> HasKey(init, j) || j == x.0 {
        HasKeySnoc(init, x, j);
      }
      FromPairsOrderStep(init, x);
    }
  }

  /** The step of FromPairsKeys's order argument: appending a pair keeps the order. */
  lemma FromPairsOrderStep<V>(init: seq<(string, V)>, x: (string, V))
    requires forall k :: HasKey(FromPairs(init), k) <==> HasKey(init, k)
    requires InFirstOccurrenceOrder(FromPairs(init), init)
    ensures InFirstOccurrenceOrder(FromPairs(init + [x]), init + [x])
  {
    var ps := init + [x];
    assert ps[..|ps| - 1] == init;
    var r := FromPairs(init);
    assert FromPairs(ps) == Put(r, x.0, x.1);
    PutFacts(r, x.0, x.1);
    if HasKey(r, x.0) {
      OrderAfterReplace(r, init, x);
    } else {
      OrderAfterAppend(r, init, x);
    }
  }

  /** Replacing a value keeps the keys, so the order is kept. */
  lemma OrderAfterReplace<V>(r: Dict<V>, init: seq<(string, V)>, x: (string, V))
    requires HasKey(r, x.0)
    requires forall k :: HasKey(r, k) <==> HasKey(init, k)
    requires InFirstOccurrenceOrder(r, init)
    ensures InFirstOccurrenceOrder(Put(r, x.0, x.1), init + [x])
  {
    var r' := Put(r, x.0, x.1);
    PutFacts(r, x.0, x.1);
    assert Keys(r') == Keys(r);
    forall i | 0 <= i < |r'| ensures r'[i].0 == r[i].0 && HasKey(init + [x], r'[i].0)
      && IndexOf(init + [x], r'[i].0) == IndexOf(init, r[i].0)
    {
      assert r'[i].0 == Keys(r')[i] && r[i].0 == Keys(r)[i];
      IndexOfSnoc(init, x, r[i].0);
    }
  }

  /** A new key goes last, after every earlier first occurrence. */
  lemma OrderAfterAppend<V>(r: Dict<V>, init: seq<(string, V)>, x: (string, V))
    requires !HasKey(r, x.0)
    requires forall k :: HasKey(r, k) <==> HasKey(init, k)
    requires InFirstOccurrenceOrder(r, init)
    ensures InFirstOccurrenceOrder(Put(r, x.0, x.1), init + [x])
  {
    var r' := Put(r, x.0, x.1);
    var ps := init + [x];
    assert r' == r + [x];
    IndexOfUnique(ps, x.0, |init|);
    forall i | 0 <= i < |r| ensures HasKey(ps, r'[i].0) && IndexOf(ps, r'[i].0) == IndexOf(init, r[i].0) < |init|
    {
      assert r'[i] == r[i];
      assert HasKey(r, r[i].0);
      IndexOfSnoc(init, x, r[i].0);
    }
    assert r'[|r|].0 == x.0;
    forall i, j | 0 <= i < j < |r'| ensures IndexOf(ps, r'[i].0) < IndexOf(ps, r'[j].0) {
      if j < |r| {
        assert IndexOf(init, r[i].0) < IndexOf(init, r[j].0);
      }
    }
  }

  /** Every entry of the built dictionary is one of the pairs. */
  lemma {:induction false} FromPairsEntry<V>(ps: seq<(string, V)>, i: nat) returns (j: nat)
    requires i < |FromPairs(ps)|
    ensures j < |ps| && FromPairs(ps)[i] == ps[j]
  {
    var n := |ps| - 1;
    var r := FromPairs(ps[..n]);
    if HasKey(r, ps[n].0) {
      assert FromPairs(ps) == r[IndexOf(r, ps[n].0) := ps[n]];
    } else {
      assert FromPairs(ps) == r + [ps[n]];
    }
    if i < |r| && FromPairs(ps)[i] == r[i] {
      j := FromPairsEntry(ps[..n], i);
    } else {
      j := n;
    }
  }

  /** The value a key ends up with is the one of its last occurrence among the pairs. */
  lemma {:induction false} FromPairsGet<V>(ps: seq<(string, V)>, k: string, i: nat)
    requires i < |ps| && ps[i].0 == k
    requires forall j :: i < j < |ps| ==> ps[j].0 != k
    ensures HasKey(FromPairs(ps), k) && Get(FromPairs(ps), k) == ps[i].1
  {
    var n := |ps| - 1;
    assert FromPairs(ps) == Put(FromPairs(ps[..n]), ps[n].0, ps[n].1);
    PutFacts(FromPairs(ps[..n]), ps[n].0, ps[n].1);
    if i < n {
      var init := ps[..n];
      assert init[i] == ps[i];
      assert forall j :: i < j < |init| ==> init[j].0 != k by {
        forall j | i < j < |init| ensures init[j].0 != k {
          assert init[j] == ps[j];
        }
      }
      FromPairsGet(init, k, i);
      assert ps[n].0 != k;
    }
  }

  /** Building from the entries of a dictionary gives back that dictionary. */
  lemma {:induction false} FromPairsOfDict<V>(d: Dict<V>)
    requires UniqueKeys(d)
    ensures FromPairs(d) == d
  {
    if |d| > 0 {
      var n := |d| - 1;
      FromPairsOfDict(d[..n]);
      assert !HasKey(d[..n], d[n].0);
      assert d == d[..n] + [d[n]];
    }
  }
}
