/** Python's `dict` as the library uses it: string keys, iteration in
    insertion order, and assignment to an existing key replacing the value
    in place without moving the key. A dictionary is an association list;
    `UniqueKeys` is the representation invariant the operations keep. */
module OrderedDict {
  import opened Basics

  type Dict<V> = seq<(string, V)>

  function KeySet<V>(d: Dict<V>): set<string> {
    set i | 0 <= i < |d| :: d[i].0
  }

  predicate UniqueKeys<V>(d: Dict<V>) {
    forall i, j | 0 <= i < j < |d| :: d[i].0 != d[j].0
  }

  /** Position of the first entry, in iteration order, that satisfies `p`:
      the `for ... in d.items(): if ...: break` search. */
  function FindFirst<V>(d: Dict<V>, p: ((string, V)) -> bool): (r: Option<nat>)
    ensures r.Some? ==> r.value < |d| && p(d[r.value])
    ensures r.Some? ==> forall j | 0 <= j < r.value :: !p(d[j])
    ensures r.None? ==> forall j | 0 <= j < |d| :: !p(d[j])
  {
    if |d| == 0 then None
    else if p(d[0]) then Some(0)
    else match FindFirst(d[1..], p)
      case None => None
      case Some(i) => Some(i + 1)
  }

  /** Position of key `k`. */
  function IndexOf<V>(d: Dict<V>, k: string): (r: Option<nat>)
    ensures r.Some? <==> k in KeySet(d)
    ensures r.Some? ==> r.value < |d| && d[r.value].0 == k
    ensures r.Some? ==> forall j | 0 <= j < r.value :: d[j].0 != k
  {
    FindFirst(d, (e: (string, V)) => e.0 == k)
  }

  /** `d[k]`, with a missing key as `None`. */
  function Get<V>(d: Dict<V>, k: string): (r: Option<V>)
    ensures r.Some? <==> k in KeySet(d)
    ensures UniqueKeys(d) ==> forall i | 0 <= i < |d| && d[i].0 == k :: r == Some(d[i].1)
  {
    match IndexOf(d, k)
    case None => None
    case Some(i) => Some(d[i].1)
  }

  /** `d[k] = v`: replaces in place when `k` is present, appends otherwise. */
  function Put<V>(d: Dict<V>, k: string, v: V): (r: Dict<V>)
    ensures KeySet(r) == KeySet(d) + {k}
    ensures k in KeySet(d) ==> |r| == |d| && forall i | 0 <= i < |d| :: r[i].0 == d[i].0
    ensures k !in KeySet(d) ==> r == d + [(k, v)]
    ensures |d| <= |r|
    ensures forall i | 0 <= i < |d| && d[i].0 != k :: r[i] == d[i]
    ensures forall i | 0 <= i < |r| :: r[i] == (k, v) || (i < |d| && r[i] == d[i])
    ensures UniqueKeys(d) ==> UniqueKeys(r) && Get(r, k) == Some(v)
  {
    match IndexOf(d, k)
    case None => KeySetAppend(d, (k, v)); d + [(k, v)]
    case Some(i) => KeySetSameKeys(d, d[i := (k, v)]); d[i := (k, v)]
  }

  lemma KeySetAppend<V>(d: Dict<V>, e: (string, V))
    ensures KeySet(d + [e]) == KeySet(d) + {e.0}
  {
    var r := d + [e];
    forall x | x in KeySet(r) ensures x in KeySet(d) + {e.0} {
      var i :| 0 <= i < |r| && r[i].0 == x;
      if i < |d| { assert r[i] == d[i]; }
    }
    assert r[|d|] == e;
    forall x | x in KeySet(d) ensures x in KeySet(r) {
      var i :| 0 <= i < |d| && d[i].0 == x;
      assert r[i] == d[i];
    }
  }

  /** An entry appended at the end is not seen by a search it fails. */
  lemma FindFirstAppend<V>(d: Dict<V>, e: (string, V), p: ((string, V)) -> bool)
    requires !p(e)
    ensures FindFirst(d + [e], p) == FindFirst(d, p)
  {
    var a := FindFirst(d + [e], p);
    var b := FindFirst(d, p);
    assert (d + [e])[|d|] == e;
    if a.Some? {
      assert (d + [e])[a.value] == d[a.value];
    }
    if b.Some? {
      assert (d + [e])[b.value] == d[b.value];
      forall j | 0 <= j < b.value ensures !p((d + [e])[j]) {
        assert (d + [e])[j] == d[j];
      }
    } else {
      forall j | 0 <= j < |d| ensures !p((d + [e])[j]) {
        assert (d + [e])[j] == d[j];
      }
    }
  }

  /** Appending under another key leaves a lookup as it was. */
  lemma GetAppend<V>(d: Dict<V>, e: (string, V), k: string)
    requires e.0 != k
    ensures Get(d + [e], k) == Get(d, k)
  {
    KeySetAppend(d, e);
    var a := IndexOf(d + [e], k);
    var b := IndexOf(d, k);
    assert (d + [e])[|d|] == e;
    if b.Some? {
      assert (d + [e])[b.value] == d[b.value];
      assert (d + [e])[a.value] == d[a.value];
      assert a.value == b.value;
    }
  }

  lemma KeySetSameKeys<V>(d: Dict<V>, r: Dict<V>)
    requires |r| == |d| && forall i | 0 <= i < |d| :: r[i].0 == d[i].0
    ensures KeySet(r) == KeySet(d)
  {
    forall x | x in KeySet(r) ensures x in KeySet(d) {
      var i :| 0 <= i < |r| && r[i].0 == x;
    }
    forall x | x in KeySet(d) ensures x in KeySet(r) {
      var i :| 0 <= i < |d| && d[i].0 == x;
    }
  }

  /** `r` is `d` with some entries left out and the others in their
      original relative order. */
  predicate Subsequence<T(==)>(r: seq<T>, d: seq<T>)
    decreases |d|
  {
    if |d| == 0 then r == []
    else (|r| > 0 && r[0] == d[0] && Subsequence(r[1..], d[1..])) || Subsequence(r, d[1..])
  }

  lemma SubsequenceCons<T>(x: T, r: seq<T>, d: seq<T>)
    requires |d| > 0 && d[0] == x && Subsequence(r, d[1..])
    ensures Subsequence([x] + r, d)
  {
    assert ([x] + r)[1..] == r;
  }

  lemma SubsequenceSkip<T>(r: seq<T>, d: seq<T>)
    requires |d| > 0 && Subsequence(r, d[1..])
    ensures Subsequence(r, d)
  {
  }

  /** The entries satisfying `keep`, in their original order: the
      comprehension-then-`del` loop the library uses to drop entries. */
  function Filter<V(==)>(d: Dict<V>, keep: ((string, V)) -> bool): (r: Dict<V>)
    ensures |r| <= |d|
    ensures Subsequence(r, d)
    ensures forall i | 0 <= i < |r| :: r[i] in d && keep(r[i])
    ensures forall i | 0 <= i < |d| && keep(d[i]) :: d[i] in r
    ensures UniqueKeys(d) ==> UniqueKeys(r)
  {
    if |d| == 0 then []
    else
      var rest := Filter(d[1..], keep);
      assert UniqueKeys(d) ==> forall j | 0 <= j < |rest| :: rest[j].0 != d[0].0 by {
        if UniqueKeys(d) {
          forall j | 0 <= j < |rest| ensures rest[j].0 != d[0].0 {
            var m :| 0 <= m < |d[1..]| && d[1..][m] == rest[j];
            assert d[m + 1] == rest[j];
          }
        }
      }
      if keep(d[0]) then
        assert ([d[0]] + rest)[1..] == rest;
        [d[0]] + rest
      else rest
  }

  /** Filtering works entry by entry: filtering a concatenation filters
      each part, so no kept entry moves past another. */
  lemma {:induction false} FilterConcat<V>(a: Dict<V>, b: Dict<V>, keep: ((string, V)) -> bool)
    ensures Filter(a + b, keep) == Filter(a, keep) + Filter(b, keep)
    decreases |a|
  {
    if |a| == 0 {
      assert a + b == b;
    } else {
      assert (a + b)[0] == a[0];
      assert (a + b)[1..] == a[1..] + b;
      FilterConcat(a[1..], b, keep);
    }
  }

  /** `del d[k]`. */
  function Remove<V(==)>(d: Dict<V>, k: string): (r: Dict<V>)
    ensures Subsequence(r, d)
    ensures forall i | 0 <= i < |r| :: r[i] in d && r[i].0 != k
    ensures forall i | 0 <= i < |d| && d[i].0 != k :: d[i] in r
    ensures KeySet(r) == KeySet(d) - {k}
    ensures UniqueKeys(d) ==> UniqueKeys(r)
  {
    var r := Filter(d, (e: (string, V)) => e.0 != k);
    assert KeySet(r) == KeySet(d) - {k} by {
      forall x | x in KeySet(d) - {k} ensures x in KeySet(r) {
        var i :| 0 <= i < |d| && d[i].0 == x;
        assert d[i] in r;
      }
      forall x | x in KeySet(r) ensures x in KeySet(d) - {k} {
        var i :| 0 <= i < |r| && r[i].0 == x;
        assert r[i] in d;
      }
    }
    r
  }
}
