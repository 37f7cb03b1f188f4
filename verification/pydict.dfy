/** Python's dict, as a sequence of entries in insertion order. Assigning to
    a key that is already present replaces its value and keeps its original
    position; a new key goes at the end. */
module PyDict {
  import opened Wrappers

  datatype Dict<K(==, !new), V> = Dict(entries: seq<(K, V)>)

  /** The keys in iteration order */
  function Keys<K(==, !new), V>(d: Dict<K, V>): (r: seq<K>)
    ensures |r| == |d.entries|
    ensures forall i :: 0 <= i < |r| ==> r[i] == d.entries[i].0
  {
    seq(|d.entries|, i requires 0 <= i < |d.entries| => d.entries[i].0)
  }

  /** No key appears twice */
  ghost predicate Valid<K(!new), V>(d: Dict<K, V>) {
    forall i, j :: 0 <= i < j < |d.entries| ==> d.entries[i].0 != d.entries[j].0
  }

  /** Position of the first entry whose key is `k` */
  function IndexOf<K(==, !new), V>(d: Dict<K, V>, k: K): (r: Option<nat>)
    ensures r.Some? ==> r.value < |d.entries| && d.entries[r.value].0 == k
    ensures r.Some? ==> forall j :: 0 <= j < r.value ==> d.entries[j].0 != k
    ensures r.None? ==> forall j :: 0 <= j < |d.entries| ==> d.entries[j].0 != k
    decreases |d.entries|
  {
    if |d.entries| == 0 then None
    else if d.entries[0].0 == k then Some(0)
    else
      match IndexOf(Dict(d.entries[1..]), k)
      case None => None
      case Some(i) => Some(i + 1)
  }

  /** The first-match characterisation determines the position. */
  lemma {:induction false} IndexOfUnique<K(!new), V>(d: Dict<K, V>, k: K, i: nat)
    requires i < |d.entries| && d.entries[i].0 == k
    requires forall j :: 0 <= j < i ==> d.entries[j].0 != k
    ensures IndexOf(d, k) == Some(i)
  {
  }

  lemma {:induction false} IndexOfAbsent<K(!new), V>(d: Dict<K, V>, k: K)
    requires forall j :: 0 <= j < |d.entries| ==> d.entries[j].0 != k
    ensures IndexOf(d, k) == None
  {
  }

  /** `d.get(k)` */
  function Get<K(==, !new), V>(d: Dict<K, V>, k: K): (r: Option<V>)
    ensures r.None? <==> k !in Keys(d)
    ensures r.Some? ==> (k, r.value) in d.entries
  {
    match IndexOf(d, k)
    case None => None
    case Some(i) => Some(d.entries[i].1)
  }

  /** Appending a new key leaves every other key's lookup as it was. */
  lemma {:induction false} AppendFrame<K(!new), V>(d: Dict<K, V>, k: K, v: V)
    requires k !in Keys(d)
    ensures Get(Dict(d.entries + [(k, v)]), k) == Some(v)
    ensures forall k' :: k' != k ==> Get(Dict(d.entries + [(k, v)]), k') == Get(d, k')
  {
    var r := Dict(d.entries + [(k, v)]);
    IndexOfUnique(r, k, |d.entries|);
    forall k' | k' != k
      ensures Get(r, k') == Get(d, k')
    {
      match IndexOf(d, k')
      case None => IndexOfAbsent(r, k');
      case Some(i) => IndexOfUnique(r, k', i);
    }
  }

  /** Overwriting the first entry of a key leaves every other key's lookup as
      it was. */
  lemma {:induction false} ReplaceFrame<K(!new), V>(d: Dict<K, V>, k: K, v: V, i: nat)
    requires IndexOf(d, k) == Some(i)
    ensures Get(Dict(d.entries[i := (k, v)]), k) == Some(v)
    ensures forall k' :: k' != k ==> Get(Dict(d.entries[i := (k, v)]), k') == Get(d, k')
  {
    var r := Dict(d.entries[i := (k, v)]);
    IndexOfUnique(r, k, i);
    forall k' | k' != k
      ensures Get(r, k') == Get(d, k')
    {
      match IndexOf(d, k')
      case None => IndexOfAbsent(r, k');
      case Some(i') => IndexOfUnique(r, k', i');
    }
  }

  /** `d[k] = v` */
  function Put<K(==, !new), V>(d: Dict<K, V>, k: K, v: V): (r: Dict<K, V>)
    ensures Keys(r) == if k in Keys(d) then Keys(d) else Keys(d) + [k]
    ensures Get(r, k) == Some(v)
    ensures forall k' :: k' != k ==> Get(r, k') == Get(d, k')
    ensures Valid(d) ==> Valid(r)
  {
    match IndexOf(d, k)
    case None =>
      AppendFrame(d, k, v);
      Dict(d.entries + [(k, v)])
    case Some(i) =>
      ReplaceFrame(d, k, v, i);
      Dict(d.entries[i := (k, v)])
  }

  /** The distinct keys of `keys`, each at the place of its first
      occurrence: the key order that assigning them in turn leaves. */
  function FirstOccurrences<K(==)>(keys: seq<K>): (r: seq<K>)
    decreases |keys|
  {
    if |keys| == 0 then
      []
    else
      var prev := FirstOccurrences(keys[..|keys| - 1]);
      var k := keys[|keys| - 1];
      if k in prev then prev else prev + [k]
  }

  /** The first occurrences are exactly the keys written, none twice. */
  lemma {:induction false} FirstOccurrencesSpec<K>(keys: seq<K>)
    ensures forall k :: k in FirstOccurrences(keys) ==> k in keys
    ensures forall k :: k in keys ==> k in FirstOccurrences(keys)
    ensures forall i, j :: 0 <= i < j < |FirstOccurrences(keys)| ==> FirstOccurrences(keys)[i] != FirstOccurrences(keys)[j]
    decreases |keys|
  {
    if |keys| > 0 {
      var n := |keys| - 1;
      FirstOccurrencesSpec(keys[..n]);
      assert keys == keys[..n] + [keys[n]];
    }
  }

  /** A key comes before another in the first occurrences exactly when it
      is written first. */
  lemma {:induction false} FirstOccurrencesOrder<K>(keys: seq<K>, i: nat, j: nat)
    requires i < j < |FirstOccurrences(keys)|
    ensures exists m :: 0 <= m < |keys| && keys[m] == FirstOccurrences(keys)[i]
                        && forall m' :: 0 <= m' <= m ==> keys[m'] != FirstOccurrences(keys)[j]
    decreases |keys|
  {
    var n := |keys| - 1;
    var prefix := keys[..n];
    var prev := FirstOccurrences(prefix);
    var r := FirstOccurrences(keys);
    FirstOccurrencesSpec(prefix);
    if j < |prev| {
      FirstOccurrencesOrder(prefix, i, j);
      var m :| 0 <= m < |prefix| && prefix[m] == prev[i] && forall m' :: 0 <= m' <= m ==> prefix[m'] != prev[j];
      assert keys[m] == r[i];
      forall m' | 0 <= m' <= m
        ensures keys[m'] != r[j]
      {
        assert keys[m'] == prefix[m'];
      }
    } else {
      assert r[i] == prev[i] && r[j] == keys[n] && keys[n] !in prev;
      assert i < |prev| && prev[i] in prev && prev[i] in prefix;
      var m :| 0 <= m < |prefix| && prefix[m] == prev[i];
      forall m' | 0 <= m' <= m
        ensures keys[m'] != r[j]
      {
        assert keys[m'] == prefix[m'] && prefix[m'] in prev;
      }
    }
  }

  /** `d` is what assigning `vals[m]` to `keys[m]`, for m in order, leaves:
      a valid dict whose keys are exactly those written and in which each key
      holds the value of its last write. `PutKeyOrder` adds the order of the
      keys. */
  ghost predicate HoldsLastWrites<K(!new), V>(d: Dict<K, V>, keys: seq<K>, vals: seq<V>)
    requires |keys| == |vals|
  {
    && Valid(d)
    && (forall k :: k in Keys(d) <==> k in keys)
    && (forall m :: 0 <= m < |keys| && LastWrite(keys, m) ==> Get(d, keys[m]) == Some(vals[m]))
  }

  /** No later write goes to the key written at `m` */
  ghost predicate LastWrite<K>(keys: seq<K>, m: nat)
    requires m < |keys|
  {
    forall m' :: m < m' < |keys| ==> keys[m'] != keys[m]
  }

  /** One more assignment keeps `HoldsLastWrites`. */
  lemma {:induction false} PutLastWrite<K(!new), V>(d: Dict<K, V>, keys: seq<K>, vals: seq<V>, k: K, v: V)
    requires |keys| == |vals| && HoldsLastWrites(d, keys, vals)
    ensures HoldsLastWrites(Put(d, k, v), keys + [k], vals + [v])
  {
    var d' := Put(d, k, v);
    var keys', vals' := keys + [k], vals + [v];
    forall m | 0 <= m < |keys'| && LastWrite(keys', m)
      ensures Get(d', keys'[m]) == Some(vals'[m])
    {
      if m < |keys| {
        assert keys'[m] == keys[m] && vals'[m] == vals[m];
        assert keys'[|keys|] == k;
        forall m' | m < m' < |keys|
          ensures keys[m'] != keys[m]
        {
          assert keys'[m'] == keys[m'];
        }
      }
    }
  }

  /** One more assignment keeps the keys in the order of their first write. */
  lemma {:induction false} PutKeyOrder<K(!new), V>(d: Dict<K, V>, keys: seq<K>, k: K, v: V)
    requires Keys(d) == FirstOccurrences(keys)
    ensures Keys(Put(d, k, v)) == FirstOccurrences(keys + [k])
  {
  }

  /** In a valid dict, an entry is what lookup of its key finds. */
  lemma {:induction false} GetEntry<K(!new), V>(d: Dict<K, V>, i: nat)
    requires Valid(d) && i < |d.entries|
    ensures Get(d, d.entries[i].0) == Some(d.entries[i].1)
  {
    IndexOfUnique(d, d.entries[i].0, i);
  }

  /** The position of the last write to `k` */
  function LastIndexOf<K(==)>(keys: seq<K>, k: K): (m: nat)
    requires k in keys
    ensures m < |keys| && keys[m] == k && LastWrite(keys, m)
    decreases |keys|
  {
    if keys[|keys| - 1] == k then
      |keys| - 1
    else
      var m := LastIndexOf(keys[..|keys| - 1], k);
      assert forall m' :: m < m' < |keys| - 1 ==> keys[m'] == keys[..|keys| - 1][m'];
      m
  }

  /** Every value a last-writes dict holds is one of the values written,
      under the key it was written to. */
  lemma {:induction false} HoldsLastWritesValues<K(!new), V>(d: Dict<K, V>, keys: seq<K>, vals: seq<V>, i: nat)
    requires |keys| == |vals| && HoldsLastWrites(d, keys, vals) && i < |d.entries|
    ensures exists m :: 0 <= m < |keys| && keys[m] == d.entries[i].0 && vals[m] == d.entries[i].1
  {
    var k := d.entries[i].0;
    GetEntry(d, i);
    assert k in Keys(d);
    var m := LastIndexOf(keys, k);
    assert Get(d, keys[m]) == Some(vals[m]);
  }
}
