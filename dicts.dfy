/** Python dicts with string keys, kept in insertion order: the order decides which inline
    value error and which extra-field error the compiler reports first. */
module Dicts {

  type Dict<V> = seq<(string, V)>

  function Keys<V>(d: Dict<V>): (ks: seq<string>)
    ensures |ks| == |d| && forall i :: 0 <= i < |d| ==> ks[i] == d[i].0
  {
    seq(|d|, i requires 0 <= i < |d| => d[i].0)
  }

  /** `k in d`. */
  predicate HasKey<V>(d: Dict<V>, k: string) {
    exists i :: 0 <= i < |d| && d[i].0 == k
  }

  /** A dict never holds a key twice. */
  predicate DistinctKeys<V>(d: Dict<V>) {
    forall i, j :: 0 <= i < j < |d| ==> d[i].0 != d[j].0
  }

  /** The position of `k` in insertion order. */
  function IndexOfKey<V>(d: Dict<V>, k: string): (i: nat)
    requires HasKey(d, k)
    ensures i < |d| && d[i].0 == k
    ensures forall j :: 0 <= j < i ==> d[j].0 != k
  {
    if d[0].0 == k then 0
    else
      var w :| 0 <= w < |d| && d[w].0 == k;
      assert d[1..][w - 1].0 == k;
      1 + IndexOfKey(d[1..], k)
  }

  /** `d[k]`. */
  function Get<V>(d: Dict<V>, k: string): V
    requires HasKey(d, k)
  {
    d[IndexOfKey(d, k)].1
  }

  /** The first position holding `k` is `IndexOfKey`. */
  lemma IndexOfKeyIs<V>(d: Dict<V>, k: string, i: nat)
    requires i < |d| && d[i].0 == k
    requires forall j :: 0 <= j < i ==> d[j].0 != k
    ensures IndexOfKey(d, k) == i
  {
  }

  lemma HasKeyCons<V>(d: Dict<V>, k: string)
    requires |d| > 0
    ensures HasKey(d, k) <==> d[0].0 == k || HasKey(d[1..], k)
  {
    if HasKey(d, k) && d[0].0 != k {
      var w :| 0 <= w < |d| && d[w].0 == k;
      assert d[1..][w - 1].0 == k;
    }
    if HasKey(d[1..], k) {
      var w :| 0 <= w < |d[1..]| && d[1..][w].0 == k;
      assert d[w + 1].0 == k;
    }
  }

  lemma GetCons<V>(d: Dict<V>, k: string)
    requires |d| > 0 && d[0].0 != k && HasKey(d, k)
    ensures HasKey(d[1..], k) && Get(d, k) == Get(d[1..], k)
  {
    HasKeyCons(d, k);
    var i := IndexOfKey(d[1..], k);
    IndexOfKeyIs(d, k, i + 1);
  }

  /** `d[k] = v`: the value is replaced in place when `k` is present, appended otherwise. */
  function Put<V>(d: Dict<V>, k: string, v: V): (r: Dict<V>)
    ensures HasKey(r, k) && Get(r, k) == v
    ensures forall k' :: k' != k ==> (HasKey(r, k') <==> HasKey(d, k'))
    ensures forall k' :: k' != k && HasKey(d, k') ==> Get(r, k') == Get(d, k')
    ensures DistinctKeys(d) ==> DistinctKeys(r)
  {
    if HasKey(d, k) then
      var i := IndexOfKey(d, k);
      var r := d[i := (k, v)];
      assert forall j :: 0 <= j < |r| ==> r[j].0 == d[j].0;
      IndexOfKeyIs(r, k, i);
      forall k' | k' != k && HasKey(d, k') ensures Get(r, k') == Get(d, k') {
        IndexOfKeyIs(r, k', IndexOfKey(d, k'));
      }
      r
    else
      var r := d + [(k, v)];
      assert r[|d|].0 == k;
      IndexOfKeyIs(r, k, |d|);
      forall k' | k' != k && HasKey(d, k') ensures HasKey(r, k') && Get(r, k') == Get(d, k') {
        var i := IndexOfKey(d, k');
        assert r[i].0 == k';
        IndexOfKeyIs(r, k', i);
      }
      r
  }

  /** Writing a key keeps the insertion order: an existing key keeps its place, a new one goes
      last. */
  lemma PutKeys<V>(d: Dict<V>, k: string, v: V)
    ensures Keys(Put(d, k, v)) == if HasKey(d, k) then Keys(d) else Keys(d) + [k]
  {
  }

  /** `{**d, **extra}`: every entry of `extra`, in order, written into `d`. */
  function Update<V>(d: Dict<V>, extra: Dict<V>): Dict<V>
    decreases |extra|
  {
    if |extra| == 0 then d else Update(Put(d, extra[0].0, extra[0].1), extra[1..])
  }

  /** The keys of `{**d, **extra}` are those of either dict; values from `extra` win. */
  lemma {:induction false} UpdateMeaning<V>(d: Dict<V>, extra: Dict<V>, k: string)
    requires DistinctKeys(extra)
    ensures HasKey(Update(d, extra), k) <==> HasKey(d, k) || HasKey(extra, k)
    ensures HasKey(extra, k) ==> Get(Update(d, extra), k) == Get(extra, k)
    ensures HasKey(d, k) && !HasKey(extra, k) ==> Get(Update(d, extra), k) == Get(d, k)
    decreases |extra|
  {
    if |extra| > 0 {
      var d' := Put(d, extra[0].0, extra[0].1);
      var rest := extra[1..];
      assert DistinctKeys(rest) by {
        forall i, j | 0 <= i < j < |rest| ensures rest[i].0 != rest[j].0 {
          assert rest[i] == extra[i + 1] && rest[j] == extra[j + 1];
        }
      }
      UpdateMeaning(d', rest, k);
      HasKeyCons(extra, k);
      if k == extra[0].0 {
        IndexOfKeyIs(extra, k, 0);
        assert !HasKey(rest, k) by {
          forall j | 0 <= j < |rest| ensures rest[j].0 != k {
            assert rest[j] == extra[j + 1];
          }
        }
      } else if HasKey(extra, k) {
        GetCons(extra, k);
      }
    }
  }

  /** `{**d, **extra}` never holds a key twice when `d` does not. */
  lemma {:induction false} UpdateDistinct<V>(d: Dict<V>, extra: Dict<V>)
    requires DistinctKeys(d)
    ensures DistinctKeys(Update(d, extra))
    decreases |extra|
  {
    if |extra| > 0 {
      UpdateDistinct(Put(d, extra[0].0, extra[0].1), extra[1..]);
    }
  }
}
