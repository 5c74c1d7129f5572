/** Python's `dict`, which remembers insertion order.

    The order matters here: it fixes the key order of every table row and the
    order of the column definitions. A dict is its entries in insertion order.
    `Set` is `d[k] = v` (an existing key keeps its place, a new one goes to the
    end), `Del` is `del d[k]`, `Lookup` is `d[k]`, `Merge(a, b)` is
    `{**a, **b}` and `FromEntries` is a dict comprehension (the last value of a
    repeated key wins, at the place of its first occurrence).
 */
module PyDict {
  import opened Wrappers

  type Dict<V> = seq<(string, V)>

  function Keys<V>(d: Dict<V>): seq<string> {
    seq(|d|, i requires 0 <= i < |d| => d[i].0)
  }

  /** No key occurs twice: every dict Python builds has this property. */
  predicate Distinct<V>(d: Dict<V>) {
    forall i, j :: 0 <= i < j < |d| ==> d[i].0 != d[j].0
  }

  function Get<V>(d: Dict<V>, k: string): Option<V> {
    if d == [] then None else if d[0].0 == k then Some(d[0].1) else Get(d[1..], k)
  }

  /** `d[k]` */
  function Lookup<V>(d: Dict<V>, k: string): (r: Result<V>)
    ensures r.Failure? <==> k !in Keys(d)
    ensures r.Failure? ==> r.error == KeyError(k)
    ensures r.Success? ==> Get(d, k) == Some(r.value)
  {
    GetPresence(d, k);
    match Get(d, k)
    case Some(v) => Success(v)
    case None => Failure(KeyError(k))
  }

  /** `d[k] = v` */
  function Set<V>(d: Dict<V>, k: string, v: V): Dict<V> {
    if d == [] then [(k, v)]
    else if d[0].0 == k then [(k, v)] + d[1..]
    else [d[0]] + Set(d[1..], k, v)
  }

  function Remove<V>(d: Dict<V>, k: string): Dict<V> {
    if d == [] then []
    else if d[0].0 == k then d[1..]
    else [d[0]] + Remove(d[1..], k)
  }

  /** `del d[k]` */
  function Del<V>(d: Dict<V>, k: string): Result<Dict<V>> {
    if k in Keys(d) then Success(Remove(d, k)) else Failure(KeyError(k))
  }

  /** `{**a, **b}`: the entries of `b` set one by one into `a`. */
  function Merge<V>(a: Dict<V>, b: Dict<V>): Dict<V>
    decreases |b|
  {
    if b == [] then a else Merge(Set(a, b[0].0, b[0].1), b[1..])
  }

  /** `{k: v for k, v in es}` */
  function FromEntries<V>(es: seq<(string, V)>): Dict<V> {
    Merge([], es)
  }

  /** The keys of `ks` not in `seen`, each once, in first-occurrence order. */
  function Fresh(ks: seq<string>, seen: seq<string>): seq<string> {
    if ks == [] then []
    else if ks[0] in seen then Fresh(ks[1..], seen)
    else [ks[0]] + Fresh(ks[1..], seen + [ks[0]])
  }

  // ---------------------------------------------------------------------------
  // Keys and Get

  lemma KeysCons<V>(d: Dict<V>)
    requires d != []
    ensures Keys(d) == [d[0].0] + Keys(d[1..])
  {
  }

  lemma KeysAppend<V>(a: Dict<V>, b: Dict<V>)
    ensures Keys(a + b) == Keys(a) + Keys(b)
  {
  }

  lemma {:induction false} GetPresence<V>(d: Dict<V>, k: string)
    ensures Get(d, k).Some? <==> k in Keys(d)
  {
    if d != [] {
      KeysCons(d);
      GetPresence(d[1..], k);
    }
  }

  /** In a dict, the value found under a key is the one stored with it. */
  lemma {:induction false} GetAt<V>(d: Dict<V>, i: int)
    requires Distinct(d) && 0 <= i < |d|
    ensures Get(d, d[i].0) == Some(d[i].1)
  {
    if i > 0 {
      GetAt(d[1..], i - 1);
    }
  }

  /** A value found is one of the values the dict holds. */
  lemma {:induction false} GetAmong<V>(d: Dict<V>, k: string, vs: set<V>)
    requires forall i :: 0 <= i < |d| ==> d[i].1 in vs
    requires Get(d, k).Some?
    ensures Get(d, k).value in vs
  {
    if d[0].0 != k {
      forall i | 0 <= i < |d[1..]| ensures d[1..][i].1 in vs {
        assert d[1..][i] == d[i + 1];
      }
      GetAmong(d[1..], k, vs);
    }
  }

  // ---------------------------------------------------------------------------
  // d[k] = v

  /** `d[k] = v` keeps the key order, adding `k` at the end when it is new. */
  lemma {:induction false} SetKeys<V>(d: Dict<V>, k: string, v: V)
    ensures Keys(Set(d, k, v)) == if k in Keys(d) then Keys(d) else Keys(d) + [k]
  {
    if d != [] {
      KeysCons(d);
      SetKeys(d[1..], k, v);
      if d[0].0 == k {
        KeysCons(Set(d, k, v));
      } else {
        KeysCons(Set(d, k, v));
        assert Set(d, k, v)[1..] == Set(d[1..], k, v);
      }
    }
  }

  /** After `d[k] = v`, `k` holds `v` and every other key holds what it held. */
  lemma {:induction false} GetSet<V>(d: Dict<V>, k: string, v: V, j: string)
    ensures Get(Set(d, k, v), j) == if j == k then Some(v) else Get(d, j)
  {
    if d != [] && d[0].0 != k {
      GetSet(d[1..], k, v, j);
      assert Set(d, k, v)[1..] == Set(d[1..], k, v);
    }
  }

  /** `d[k] = v` on an existing key rewrites that entry in its place. */
  lemma {:induction false} SetAt<V>(d: Dict<V>, i: int, v: V)
    requires Distinct(d) && 0 <= i < |d|
    ensures Set(d, d[i].0, v) == d[i := (d[i].0, v)]
  {
    if i > 0 {
      var t := d[1..];
      assert Distinct(t) by {
        forall p, q | 0 <= p < q < |t| ensures t[p].0 != t[q].0 {
          assert t[p] == d[p + 1] && t[q] == d[q + 1];
        }
      }
      assert t[i - 1] == d[i];
      assert d[0].0 != d[i].0;
      SetAt(t, i - 1, v);
      assert [d[0]] + t[i - 1 := (d[i].0, v)] == d[i := (d[i].0, v)];
    }
  }

  /** `d[k] = v` on a new key appends the entry. */
  lemma {:induction false} SetAbsent<V>(d: Dict<V>, k: string, v: V)
    requires k !in Keys(d)
    ensures Set(d, k, v) == d + [(k, v)]
  {
    if d != [] {
      KeysCons(d);
      SetAbsent(d[1..], k, v);
    }
  }

  lemma SetDistinct<V>(d: Dict<V>, k: string, v: V)
    requires Distinct(d)
    ensures Distinct(Set(d, k, v))
  {
    if k in Keys(d) {
      var i :| 0 <= i < |d| && d[i].0 == k;
      SetAt(d, i, v);
    } else {
      SetAbsent(d, k, v);
    }
  }

  // ---------------------------------------------------------------------------
  // del d[k]

  /** `del d[k]` drops exactly the entry of `k`. */
  lemma {:induction false} RemoveAt<V>(d: Dict<V>, i: int)
    requires Distinct(d) && 0 <= i < |d|
    ensures Remove(d, d[i].0) == d[..i] + d[i + 1..]
  {
    if i > 0 {
      RemoveAt(d[1..], i - 1);
      assert d[1..][..i - 1] == d[1..i];
      assert d[1..][i..] == d[i + 1..];
    }
  }

  /** `del d[k]` on a dict leaves a dict. */
  lemma DelDistinct<V>(d: Dict<V>, k: string)
    requires Distinct(d) && Del(d, k).Success?
    ensures Del(d, k).value == d[..IndexOf(d, k)] + d[IndexOf(d, k) + 1..]
    ensures Distinct(Del(d, k).value)
  {
    var i := IndexOf(d, k);
    RemoveAt(d, i);
    var r := d[..i] + d[i + 1..];
    forall p, q | 0 <= p < q < |r| ensures r[p].0 != r[q].0 {
      var p' := if p < i then p else p + 1;
      var q' := if q < i then q else q + 1;
      assert r[p] == d[p'] && r[q] == d[q'];
    }
  }

  /** After `del d[k]`, `k` is gone and every other key holds what it held. */
  lemma DelGet<V>(d: Dict<V>, k: string, j: string)
    requires Distinct(d) && Del(d, k).Success?
    ensures Get(Del(d, k).value, j) == if j == k then None else Get(d, j)
  {
    DelDistinct(d, k);
    var i := IndexOf(d, k);
    var r := Del(d, k).value;
    GetPresence(r, j);
    if j == k {
      forall t | 0 <= t < |r| ensures r[t].0 != k {
        var t' := if t < i then t else t + 1;
        assert r[t] == d[t'];
      }
    } else {
      DelGetOther(d, i, r, j);
    }
  }

  lemma DelGetOther<V>(d: Dict<V>, i: int, r: Dict<V>, j: string)
    requires Distinct(d) && Distinct(r) && 0 <= i < |d| && d[i].0 != j
    requires r == d[..i] + d[i + 1..]
    ensures Get(r, j) == Get(d, j)
  {
    GetPresence(d, j);
    GetPresence(r, j);
    if Get(d, j).Some? {
      var t :| 0 <= t < |d| && d[t].0 == j;
      GetAt(d, t);
      var t' := if t < i then t else t - 1;
      assert r[t'] == d[t];
      GetAt(r, t');
    } else {
      forall t | 0 <= t < |r| ensures r[t].0 != j {
        var t' := if t < i then t else t + 1;
        assert r[t] == d[t'] && Keys(d)[t'] == d[t'].0;
      }
    }
  }

  function IndexOf<V>(d: Dict<V>, k: string): (i: nat)
    requires k in Keys(d)
    ensures i < |d| && d[i].0 == k
  {
    if d[0].0 == k then 0 else KeysCons(d); IndexOf(d[1..], k) + 1
  }

  // ---------------------------------------------------------------------------
  // {**a, **b}

  /** When no key repeats, `{**a, **b}` is `a` followed by `b`. */
  lemma {:induction false} MergeDisjoint<V>(a: Dict<V>, b: Dict<V>)
    requires Distinct(a + b)
    ensures Merge(a, b) == a + b
    decreases |b|
  {
    if b != [] {
      assert b[0] == (a + b)[|a|];
      assert b[0].0 !in Keys(a) by {
        forall t | 0 <= t < |a| ensures a[t].0 != b[0].0 {
          assert a[t] == (a + b)[t];
        }
      }
      SetAbsent(a, b[0].0, b[0].1);
      assert a + [b[0]] + b[1..] == a + b;
      MergeDisjoint(a + [b[0]], b[1..]);
    }
  }

  /** The keys of `{**a, **b}`: those of `a` in their order, then the new keys
      of `b` in their first-occurrence order. */
  lemma {:induction false} MergeKeys<V>(a: Dict<V>, b: Dict<V>)
    ensures Keys(Merge(a, b)) == Keys(a) + Fresh(Keys(b), Keys(a))
    decreases |b|
  {
    if b != [] {
      var a' := Set(a, b[0].0, b[0].1);
      SetKeys(a, b[0].0, b[0].1);
      KeysCons(b);
      MergeKeys(a', b[1..]);
    }
  }

  /** In `{**a, **b}` the value of `b` wins on a shared key. */
  lemma {:induction false} MergeGet<V>(a: Dict<V>, b: Dict<V>, k: string)
    requires Distinct(b)
    ensures Get(Merge(a, b), k) == if k in Keys(b) then Get(b, k) else Get(a, k)
    decreases |b|
  {
    if b != [] {
      var a' := Set(a, b[0].0, b[0].1);
      KeysCons(b);
      MergeGet(a', b[1..], k);
      GetSet(a, b[0].0, b[0].1, k);
      if k == b[0].0 {
        assert k !in Keys(b[1..]);
      }
    }
  }

  lemma {:induction false} MergeDistinct<V>(a: Dict<V>, b: Dict<V>)
    requires Distinct(a)
    ensures Distinct(Merge(a, b))
    decreases |b|
  {
    if b != [] {
      SetDistinct(a, b[0].0, b[0].1);
      MergeDistinct(Set(a, b[0].0, b[0].1), b[1..]);
    }
  }

  /** `{**a, **b}` starts with the entries of `a`, in their places. */
  lemma MergePrefixKeys<V>(a: Dict<V>, b: Dict<V>)
    ensures |Merge(a, b)| >= |a|
    ensures Keys(Merge(a, b))[..|a|] == Keys(a)
  {
    MergeKeys(a, b);
  }

  /** A dict comprehension never repeats a key. */
  lemma FromEntriesDistinct<V>(es: seq<(string, V)>)
    ensures Distinct(FromEntries(es))
  {
    MergeDistinct([], es);
  }

  lemma {:induction false} FreshMembers(ks: seq<string>, seen: seq<string>, k: string)
    ensures k in Fresh(ks, seen) <==> k in ks && k !in seen
  {
    if ks != [] {
      FreshMembers(ks[1..], if ks[0] in seen then seen else seen + [ks[0]], k);
      assert ks == [ks[0]] + ks[1..];
    }
  }
}
