/** Python's `dict` with string keys, which remembers insertion order: a
    sequence of (key, value) pairs. Assigning to a present key keeps its
    position; assigning to a new key appends it. */
module Dicts {
  import opened Wrappers

  type Dict<V> = seq<(string, V)>

  function Keys<V>(d: Dict<V>): (r: seq<string>)
    ensures |r| == |d|
    ensures forall i :: 0 <= i < |d| ==> r[i] == d[i].0
  {
    seq(|d|, i requires 0 <= i < |d| => d[i].0)
  }

  predicate HasKey<V>(d: Dict<V>, k: string) {
    k in Keys(d)
  }

  /** What every Python dict satisfies: no key twice. */
  predicate DistinctKeys<V>(d: Dict<V>) {
    forall i, j :: 0 <= i < j < |d| ==> d[i].0 != d[j].0
  }

  /** `d.get(k)`. */
  function Get<V>(d: Dict<V>, k: string): Option<V> {
    if |d| == 0 then None
    else if d[0].0 == k then Some(d[0].1)
    else Get(d[1..], k)
  }

  /** `d.get(k, default)`. */
  function GetOr<V>(d: Dict<V>, k: string, default: V): V {
    match Get(d, k)
    case Some(v) => v
    case None => default
  }

  /** `d[k] = v`. */
  function Put<V>(d: Dict<V>, k: string, v: V): Dict<V> {
    if |d| == 0 then [(k, v)]
    else if d[0].0 == k then [(k, v)] + d[1..]
    else [d[0]] + Put(d[1..], k, v)
  }

  /** `d.pop(k, None)`: the entry for `k` is removed if there is one. */
  function Pop<V>(d: Dict<V>, k: string): Dict<V> {
    if |d| == 0 then []
    else if d[0].0 == k then d[1..]
    else [d[0]] + Pop(d[1..], k)
  }

  /** `d[k] = v` for every pair of `ps` in turn (`d.update(ps)`, `{**d, **ps}`). */
  function PutAll<V>(d: Dict<V>, ps: seq<(string, V)>): Dict<V> {
    if |ps| == 0 then d
    else Put(PutAll(d, ps[..|ps| - 1]), ps[|ps| - 1].0, ps[|ps| - 1].1)
  }

  /** `d.pop(k, None)` for every key of `ks` in turn. */
  function PopAll<V>(d: Dict<V>, ks: seq<string>): Dict<V> {
    if |ks| == 0 then d else Pop(PopAll(d, ks[..|ks| - 1]), ks[|ks| - 1])
  }

  /** No value is stored under two keys (a dict of distinct objects). */
  ghost predicate DistinctValues<V>(d: Dict<V>) {
    forall i, j :: 0 <= i < j < |d| ==> d[i].1 != d[j].1
  }

  /** The value of the last pair of `ps` whose key is `k`. */
  function LastValue<V>(ps: seq<(string, V)>, k: string): Option<V> {
    if |ps| == 0 then None
    else if ps[|ps| - 1].0 == k then Some(ps[|ps| - 1].1)
    else LastValue(ps[..|ps| - 1], k)
  }

  // ----- facts -----

  lemma {:induction false} GetSomeIffHasKey<V>(d: Dict<V>, k: string)
    ensures Get(d, k).Some? <==> HasKey(d, k)
  {
    if |d| > 0 {
      GetSomeIffHasKey(d[1..], k);
      assert Keys(d) == [d[0].0] + Keys(d[1..]);
    }
  }

  /** Reading back after `d[k] = v`. */
  lemma {:induction false} GetPut<V>(d: Dict<V>, k: string, v: V, k': string)
    ensures Get(Put(d, k, v), k') == if k' == k then Some(v) else Get(d, k')
  {
    if |d| > 0 && d[0].0 != k {
      GetPut(d[1..], k, v, k');
    }
  }

  /** `d[k] = v` keeps the key order, appending `k` only when it is new. */
  lemma {:induction false} KeysPut<V>(d: Dict<V>, k: string, v: V)
    ensures Keys(Put(d, k, v)) == if HasKey(d, k) then Keys(d) else Keys(d) + [k]
  {
    if |d| > 0 {
      var p := Put(d, k, v);
      KeysCons(d);
      KeysCons(p);
      if d[0].0 != k {
        KeysPut(d[1..], k, v);
        assert p[1..] == Put(d[1..], k, v);
      } else {
        assert p[1..] == d[1..];
      }
    }
  }

  lemma {:induction false} PutKeepsDistinct<V>(d: Dict<V>, k: string, v: V)
    requires DistinctKeys(d)
    ensures DistinctKeys(Put(d, k, v))
  {
    if |d| > 0 && d[0].0 != k {
      PutKeepsDistinct(d[1..], k, v);
      KeysPut(d[1..], k, v);
      var t := Put(d[1..], k, v);
      forall j | 0 < j < |[d[0]] + t| ensures ([d[0]] + t)[j].0 != d[0].0 {
        assert Keys(t)[j - 1] == t[j - 1].0;
        assert t[j - 1].0 in Keys(d[1..]) + [k];
      }
    }
  }

  /** After `d.pop(k)` on a dict without repeated keys, `k` is gone and
      every other entry is kept. */
  lemma {:induction false} GetPop<V>(d: Dict<V>, k: string, k': string)
    requires DistinctKeys(d)
    ensures Get(Pop(d, k), k') == if k' == k then None else Get(d, k')
  {
    if |d| > 0 {
      if d[0].0 == k {
        if k' == k {
          NotKeyOfTail(d, k);
        }
      } else {
        GetPop(d[1..], k, k');
      }
    }
  }

  lemma {:induction false} NotKeyOfTail<V>(d: Dict<V>, k: string)
    requires DistinctKeys(d) && |d| > 0 && d[0].0 == k
    ensures Get(d[1..], k) == None
  {
    GetSomeIffHasKey(d[1..], k);
  }

  /** `d.pop(k)` removes exactly `k` from the keys. */
  lemma {:induction false} KeysPop<V>(d: Dict<V>, k: string)
    requires DistinctKeys(d)
    ensures DistinctKeys(Pop(d, k))
    ensures forall k' :: HasKey(Pop(d, k), k') <==> HasKey(d, k') && k' != k
  {
    forall k' ensures HasKey(Pop(d, k), k') <==> HasKey(d, k') && k' != k {
      GetPop(d, k, k');
      GetSomeIffHasKey(d, k');
      GetSomeIffHasKey(Pop(d, k), k');
    }
    PopSubsequence(d, k);
  }

  lemma {:induction false} PopSubsequence<V>(d: Dict<V>, k: string)
    requires DistinctKeys(d)
    ensures DistinctKeys(Pop(d, k))
    ensures forall p :: p in Pop(d, k) ==> p in d
  {
    if |d| > 0 && d[0].0 != k {
      PopSubsequence(d[1..], k);
      var t := Pop(d[1..], k);
      forall j | 0 < j < |[d[0]] + t| ensures ([d[0]] + t)[j].0 != d[0].0 {
        assert t[j - 1] in d[1..];
      }
    }
  }

  /** Assigning every pair of `ps` in turn: the last assignment to a key wins,
      keys not assigned keep their value. */
  lemma {:induction false} GetPutAll<V>(d: Dict<V>, ps: seq<(string, V)>, k: string)
    ensures Get(PutAll(d, ps), k) == match LastValue(ps, k) case Some(v) => Some(v) case None => Get(d, k)
  {
    if |ps| > 0 {
      GetPutAll(d, ps[..|ps| - 1], k);
      GetPut(PutAll(d, ps[..|ps| - 1]), ps[|ps| - 1].0, ps[|ps| - 1].1, k);
    }
  }

  /** The keys after assigning every pair of `ps` are those of `d` and those of `ps`. */
  lemma {:induction false} HasKeyPutAll<V>(d: Dict<V>, ps: seq<(string, V)>, k: string)
    ensures HasKey(PutAll(d, ps), k) <==> HasKey(d, k) || k in Keys(ps)
  {
    GetPutAll(d, ps, k);
    GetSomeIffHasKey(PutAll(d, ps), k);
    GetSomeIffHasKey(d, k);
    LastValueSomeIffKey(ps, k);
  }

  /** Assigning one more pair after the others. */
  lemma PutAllAppend<V>(d: Dict<V>, ps: seq<(string, V)>, p: (string, V))
    ensures PutAll(d, ps + [p]) == Put(PutAll(d, ps), p.0, p.1)
  {
    assert (ps + [p])[..|ps|] == ps;
  }

  /** Assigning two runs of pairs one after the other. */
  lemma {:induction false} PutAllConcat<V>(d: Dict<V>, a: seq<(string, V)>, b: seq<(string, V)>)
    ensures PutAll(d, a + b) == PutAll(PutAll(d, a), b)
  {
    if |b| == 0 {
      assert a + b == a;
    } else {
      assert (a + b)[..|a + b| - 1] == a + b[..|b| - 1];
      PutAllConcat(d, a, b[..|b| - 1]);
    }
  }

  /** Pairs assigned later take precedence over earlier ones. */
  lemma {:induction false} LastValueConcat<V>(a: seq<(string, V)>, b: seq<(string, V)>, k: string)
    ensures LastValue(a + b, k) == if LastValue(b, k).Some? then LastValue(b, k) else LastValue(a, k)
  {
    if |b| == 0 {
      assert a + b == a;
    } else {
      assert (a + b)[..|a + b| - 1] == a + b[..|b| - 1];
      LastValueConcat(a, b[..|b| - 1], k);
    }
  }

  /** Looking up a key of a dict with one more pair at the end. */
  lemma {:induction false} GetAppend<V>(d: Dict<V>, p: (string, V), k: string)
    ensures Get(d + [p], k) == if HasKey(d, k) then Get(d, k) else if p.0 == k then Some(p.1) else None
  {
    GetSomeIffHasKey(d, k);
    if |d| > 0 {
      assert (d + [p])[1..] == d[1..] + [p];
      GetAppend(d[1..], p, k);
      assert Keys(d) == [d[0].0] + Keys(d[1..]);
    }
  }

  /** In a genuine dict the last pair for a key is its only pair. */
  lemma {:induction false} LastValueOfDict<V>(d: Dict<V>, k: string)
    requires DistinctKeys(d)
    ensures LastValue(d, k) == Get(d, k)
  {
    if |d| > 0 {
      var front := d[..|d| - 1];
      var last := d[|d| - 1];
      assert d == front + [last];
      LastValueOfDict(front, k);
      GetAppend(front, last, k);
      GetSomeIffHasKey(front, k);
      if last.0 == k {
        assert forall i :: 0 <= i < |front| ==> front[i].0 != last.0 by {
          forall i | 0 <= i < |front| ensures front[i].0 != last.0 {
            assert front[i] == d[i];
          }
        }
        assert k !in Keys(front);
      }
    }
  }

  /** The last value assigned to a key is one of the assigned pairs. */
  lemma {:induction false} LastValueIn<V>(ps: seq<(string, V)>, k: string)
    requires LastValue(ps, k).Some?
    ensures (k, LastValue(ps, k).value) in ps
  {
    if ps[|ps| - 1].0 != k {
      LastValueIn(ps[..|ps| - 1], k);
    }
  }

  lemma KeysConcat<V>(a: seq<(string, V)>, b: seq<(string, V)>)
    ensures Keys(a + b) == Keys(a) + Keys(b)
  {
    assert forall i :: 0 <= i < |a + b| ==> Keys(a + b)[i] == (Keys(a) + Keys(b))[i];
  }

  lemma KeysCons<V>(d: Dict<V>)
    requires |d| > 0
    ensures Keys(d) == [d[0].0] + Keys(d[1..])
  {
    assert forall i :: 0 <= i < |d| ==> Keys(d)[i] == ([d[0].0] + Keys(d[1..]))[i];
  }

  /** A key of a non-empty list of pairs is a key of its front or its last key. */
  lemma KeysOfFront<V>(ps: seq<(string, V)>, k: string)
    requires |ps| > 0
    ensures k in Keys(ps) <==> k in Keys(ps[..|ps| - 1]) || k == ps[|ps| - 1].0
  {
    var front := ps[..|ps| - 1];
    var all := Keys(ps);
    var keys := Keys(front);
    assert all == keys + [ps[|ps| - 1].0] by {
      forall i | 0 <= i < |keys| ensures keys[i] == all[i] {
        assert front[i] == ps[i];
      }
    }
  }

  lemma {:induction false} LastValueSomeIffKey<V>(ps: seq<(string, V)>, k: string)
    ensures LastValue(ps, k).Some? <==> k in Keys(ps)
  {
    if |ps| > 0 {
      LastValueSomeIffKey(ps[..|ps| - 1], k);
      KeysOfFront(ps, k);
    }
  }

  lemma {:induction false} PutAllKeepsDistinct<V>(d: Dict<V>, ps: seq<(string, V)>)
    requires DistinctKeys(d)
    ensures DistinctKeys(PutAll(d, ps))
  {
    if |ps| > 0 {
      PutAllKeepsDistinct(d, ps[..|ps| - 1]);
      PutKeepsDistinct(PutAll(d, ps[..|ps| - 1]), ps[|ps| - 1].0, ps[|ps| - 1].1);
    }
  }

  /** `d[k] = v` leaves only pairs of `d` and the new pair. */
  lemma {:induction false} PutPairs<V>(d: Dict<V>, k: string, v: V)
    ensures forall p :: p in Put(d, k, v) ==> p == (k, v) || p in d
  {
    if |d| > 0 && d[0].0 != k {
      PutPairs(d[1..], k, v);
    }
  }

  /** Storing a value not yet stored keeps every value stored once. */
  lemma {:induction false} PutNewValueKeepsDistinctValues<V>(d: Dict<V>, k: string, v: V)
    requires DistinctValues(d)
    requires forall p :: p in d ==> p.1 != v
    ensures DistinctValues(Put(d, k, v))
  {
    if |d| > 0 && d[0].0 != k {
      PutNewValueKeepsDistinctValues(d[1..], k, v);
      PutPairs(d[1..], k, v);
      var t := Put(d[1..], k, v);
      forall j | 0 < j < |[d[0]] + t| ensures ([d[0]] + t)[j].1 != d[0].1 {
        assert t[j - 1] in t;
        if t[j - 1] != (k, v) {
          var i :| 0 <= i < |d[1..]| && d[1..][i] == t[j - 1];
          assert d[i + 1] == t[j - 1];
        }
      }
    } else if |d| > 0 {
      forall j | 0 < j < |d| ensures d[j].1 != v {
        assert d[j] in d;
      }
    }
  }

  /** `d.pop(k)` keeps every value stored once. */
  lemma {:induction false} PopKeepsDistinctValues<V>(d: Dict<V>, k: string)
    requires DistinctValues(d)
    ensures DistinctValues(Pop(d, k))
    ensures forall p :: p in Pop(d, k) ==> p in d
  {
    if |d| > 0 && d[0].0 != k {
      PopKeepsDistinctValues(d[1..], k);
      var t := Pop(d[1..], k);
      forall j | 0 < j < |[d[0]] + t| ensures ([d[0]] + t)[j].1 != d[0].1 {
        assert t[j - 1] in d[1..];
        var i :| 0 <= i < |d[1..]| && d[1..][i] == t[j - 1];
        assert d[i + 1] == t[j - 1];
      }
    }
  }

  /** Popping several keys from a dict: exactly those keys are gone, every
      other key keeps its value, and no key appears twice. */
  lemma {:induction false} PopAllEffect<V>(d: Dict<V>, ks: seq<string>, k: string)
    requires DistinctKeys(d)
    ensures DistinctKeys(PopAll(d, ks))
    ensures Get(PopAll(d, ks), k) == if k in ks then None else Get(d, k)
  {
    if |ks| > 0 {
      var front := ks[..|ks| - 1];
      PopAllEffect(d, front, k);
      KeysPop(PopAll(d, front), ks[|ks| - 1]);
      GetPop(PopAll(d, front), ks[|ks| - 1], k);
      assert ks == front + [ks[|ks| - 1]];
    }
  }

  /** Popping several keys keeps every value stored once and adds no pair. */
  lemma {:induction false} PopAllKeepsDistinctValues<V>(d: Dict<V>, ks: seq<string>)
    requires DistinctValues(d)
    ensures DistinctValues(PopAll(d, ks))
    ensures forall p :: p in PopAll(d, ks) ==> p in d
  {
    if |ks| > 0 {
      PopAllKeepsDistinctValues(d, ks[..|ks| - 1]);
      PopKeepsDistinctValues(PopAll(d, ks[..|ks| - 1]), ks[|ks| - 1]);
    }
  }
}
