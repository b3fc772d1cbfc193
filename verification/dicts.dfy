/** Python dicts: insertion-ordered association lists with string keys. */
module Dicts {
  import opened Wrappers

  /** A Python dict: keys in insertion order, each with its value. */
  type Dict<V> = seq<(string, V)>

  function Keys<V>(d: Dict<V>): (ks: seq<string>)
    ensures |ks| == |d|
    ensures forall i :: 0 <= i < |d| ==> ks[i] == d[i].0
  {
    if |d| == 0 then [] else [d[0].0] + Keys(d[1..])
  }

  /** `d.values()`, in insertion order. */
  function Values<V>(d: Dict<V>): (vs: seq<V>)
    ensures |vs| == |d|
    ensures forall i :: 0 <= i < |d| ==> vs[i] == d[i].1
  {
    if |d| == 0 then [] else [d[0].1] + Values(d[1..])
  }

  /** `d.get(k)`. */
  function Lookup<V>(d: Dict<V>, k: string): (r: Option<V>)
    ensures r.None? <==> k !in Keys(d)
    ensures r.Some? ==> (k, r.value) in d
  {
    if |d| == 0 then None else if d[0].0 == k then Some(d[0].1) else Lookup(d[1..], k)
  }

  /** How the dict functions see an entry put in front of a dict. */
  lemma ConsKeys<V>(x: (string, V), rest: Dict<V>)
    ensures Keys([x] + rest) == [x.0] + Keys(rest)
  {
    assert ([x] + rest)[1..] == rest;
  }

  lemma ConsLookup<V>(x: (string, V), rest: Dict<V>, k: string)
    ensures Lookup([x] + rest, k) == if x.0 == k then Some(x.1) else Lookup(rest, k)
  {
    assert ([x] + rest)[1..] == rest;
  }

  /** Every entry of `[d[0]] + r` is an entry of `d`, or the new one, when every entry of `r` is. */
  lemma EntriesBehind<V>(d: Dict<V>, r: Dict<V>, added: (string, V))
    requires |d| > 0
    requires forall e :: e in r ==> e in d[1..] || e == added
    ensures forall e :: e in [d[0]] + r ==> e in d || e == added
  {
    forall e | e in [d[0]] + r
      ensures e in d || e == added
    {
      if e != d[0] {
        assert e in r;
        if e != added {
          var i :| 0 <= i < |d| - 1 && d[1..][i] == e;
          assert d[i + 1] == e;
        }
      }
    }
  }

  /** The key list `Put` promises carries over to a dict whose first entry has another key. */
  lemma KeysBehind<V>(d: Dict<V>, k: string, r: Dict<V>)
    requires |d| > 0 && d[0].0 != k
    requires k in Keys(d[1..]) ==> Keys(r) == Keys(d[1..])
    requires k !in Keys(d[1..]) ==> Keys(r) == Keys(d[1..]) + [k]
    ensures k in Keys(d) ==> Keys([d[0]] + r) == Keys(d)
    ensures k !in Keys(d) ==> Keys([d[0]] + r) == Keys(d) + [k]
  {
    ConsKeys(d[0], r);
    PrependKey(d[0].0, k, Keys(d[1..]), Keys(r));
  }

  /** The key-list facts of `Put`, carried past a first key other than `k`. */
  lemma PrependKey(a: string, k: string, before: seq<string>, after: seq<string>)
    requires a != k
    requires k in before ==> after == before
    requires k !in before ==> after == before + [k]
    ensures k in [a] + before ==> [a] + after == [a] + before
    ensures k !in [a] + before ==> [a] + after == [a] + before + [k]
  {
    assert k in [a] + before <==> k in before;
  }

  /** The facts `Put` promises, for a dict whose first entry has the key being set. */
  lemma PutFront<V>(d: Dict<V>, k: string, v: V)
    requires |d| > 0 && d[0].0 == k
    ensures Lookup([(k, v)] + d[1..], k) == Some(v)
    ensures k in Keys(d) && Keys([(k, v)] + d[1..]) == Keys(d)
    ensures forall e :: e in [(k, v)] + d[1..] ==> e in d || e == (k, v)
  {
    ConsKeys((k, v), d[1..]);
    ConsLookup((k, v), d[1..], k);
    EntriesBehind(d, d[1..], (k, v));
    assert ([(k, v)] + d[1..])[0] == (k, v);
    assert forall e :: e in [(k, v)] + d[1..] ==> e == (k, v) || e in [d[0]] + d[1..];
  }

  /** `d[k] = v`: an existing key keeps its place and takes the new value; a new key goes last. */
  function Put<V>(d: Dict<V>, k: string, v: V): (r: Dict<V>)
    ensures Lookup(r, k) == Some(v)
    ensures k in Keys(d) ==> Keys(r) == Keys(d)
    ensures k !in Keys(d) ==> Keys(r) == Keys(d) + [k]
    ensures forall e :: e in r ==> e in d || e == (k, v)
    decreases |d|
  {
    if |d| == 0 then [(k, v)]
    else if d[0].0 == k then
      PutFront(d, k, v);
      [(k, v)] + d[1..]
    else
      var rest := Put(d[1..], k, v);
      ConsLookup(d[0], rest, k);
      KeysBehind(d, k, rest);
      EntriesBehind(d, rest, (k, v));
      [d[0]] + rest
  }

  /** Setting one key leaves every other key's value as it was. */
  lemma {:induction false} PutOther<V>(d: Dict<V>, k: string, v: V, other: string)
    requires other != k
    ensures Lookup(Put(d, k, v), other) == Lookup(d, other)
    decreases |d|
  {
    if |d| > 0 && d[0].0 != k {
      PutOther(d[1..], k, v, other);
    }
  }

  /** No key is listed twice. */
  predicate DistinctKeys<V>(d: Dict<V>)
  {
    forall i, j :: 0 <= i < j < |d| ==> d[i].0 != d[j].0
  }

  /** Setting a key never lists a key twice. */
  lemma PutDistinct<V>(d: Dict<V>, k: string, v: V)
    requires DistinctKeys(d)
    ensures DistinctKeys(Put(d, k, v))
  {
    var r := Put(d, k, v);
    var ks, kd := Keys(r), Keys(d);
    forall i, j | 0 <= i < j < |r|
      ensures r[i].0 != r[j].0
    {
      assert r[i].0 == ks[i] && r[j].0 == ks[j];
      if j < |d| {
        assert ks[i] == kd[i] == d[i].0 && ks[j] == kd[j] == d[j].0;
      } else {
        assert ks[i] == kd[i] == d[i].0;
        assert ks[j] == k && k !in kd;
      }
    }
  }

  /** With distinct keys, looking up a listed key finds its own entry. */
  lemma {:induction false} LookupDistinct<V>(d: Dict<V>, i: nat)
    requires DistinctKeys(d) && i < |d|
    ensures Lookup(d, d[i].0) == Some(d[i].1)
    decreases i
  {
    if i > 0 {
      assert d[1..][i - 1] == d[i];
      LookupDistinct(d[1..], i - 1);
    }
  }
}
