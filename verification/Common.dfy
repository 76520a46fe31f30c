/** Machine types, results and sums that the components share. */
module Common {
  const TWO32: int := 0x1_0000_0000
  const TWO31: int := 0x8000_0000
  const TWO64: int := 0x1_0000_0000_0000_0000

  type byte = x: int | 0 <= x < 0x100
  type u16 = x: int | 0 <= x < 0x1_0000
  type u32 = x: int | 0 <= x < TWO32

  datatype Option<+T> = None | Some(value: T)

  /** The library's error codes, as far as the modelled functions return them. */
  datatype Error = TruncatedHeader | MalformedPacket

  datatype Result<+T> = Ok(value: T) | Err(error: Error)

  function Last<T>(s: seq<T>): T
    requires s != []
  {
    s[|s| - 1]
  }

  function Init<T>(s: seq<T>): seq<T>
    requires s != []
  {
    s[..|s| - 1]
  }

  function Flatten<T>(ss: seq<seq<T>>): seq<T> {
    if ss == [] then [] else Flatten(Init(ss)) + Last(ss)
  }

  lemma SliceJoin<T>(s: seq<T>, a: nat, b: nat, c: nat)
    requires a <= b <= c <= |s|
    ensures s[a..b] + s[b..c] == s[a..c]
  {
  }

  lemma SliceOfSlice<T>(s: seq<T>, a: nat, b: nat, i: nat, j: nat)
    requires a <= b <= |s| && i <= j <= b - a
    ensures s[a..b][i..j] == s[a + i..a + j]
  {
    forall k | 0 <= k < j - i
      ensures s[a..b][i..j][k] == s[a + i..a + j][k]
    {
      assert s[a..b][i..j][k] == s[a..b][i + k];
    }
  }

  lemma CutAndJoin<T>(a: seq<T>, b: seq<T>, at: nat)
    requires at <= |a|
    ensures a[..at] + (a[at..] + b) == a + b
  {
  }

  lemma ConcatAssociates<T>(a: seq<T>, b: seq<T>, c: seq<T>)
    ensures (a + b) + c == a + (b + c)
  {
  }

  /** Sum of the values of a map. */
  ghost function Sum<K>(m: map<K, nat>): nat {
    if m == map[] then 0 else
      var k :| k in m;
      m[k] + Sum(m - {k})
  }

  /** The sum does not depend on the order in which the keys are taken. */
  lemma {:induction false} SumTakeOut<K>(m: map<K, nat>, k: K)
    requires k in m
    ensures Sum(m) == m[k] + Sum(m - {k})
    decreases |m|
  {
    var j :| j in m && Sum(m) == m[j] + Sum(m - {j});
    if j != k {
      SumTakeOut(m - {j}, k);
      SumTakeOut(m - {k}, j);
      assert m - {j} - {k} == m - {k} - {j};
    }
  }

  lemma SumPut<K>(m: map<K, nat>, k: K, v: nat)
    ensures Sum(m[k := v]) == v + Sum(m) - (if k in m then m[k] else 0)
  {
    SumTakeOut(m[k := v], k);
    if k in m {
      assert m[k := v] - {k} == m - {k};
      SumTakeOut(m, k);
    } else {
      assert m[k := v] - {k} == m;
    }
  }

  lemma {:induction false} SumSplit<K>(m: map<K, nat>, keys: set<K>)
    ensures Sum(m) == Sum(m - keys) + Sum(map k | k in m && k in keys :: m[k])
    decreases |m|
  {
    var inside := map k | k in m && k in keys :: m[k];
    if m == map[] {
      assert m - keys == map[] && inside == map[];
    } else {
      var k :| k in m;
      SumTakeOut(m, k);
      SumSplit(m - {k}, keys);
      var insideRest := map j | j in m - {k} && j in keys :: (m - {k})[j];
      if k in keys {
        SumTakeOut(inside, k);
        assert inside - {k} == insideRest && m - keys == m - {k} - keys;
      } else {
        SumTakeOut(m - keys, k);
        assert m - keys - {k} == m - {k} - keys && inside == insideRest;
      }
    }
  }

  ghost function Sizes<K, T>(m: map<K, seq<T>>): map<K, nat> {
    map k | k in m :: |m[k]|
  }

  /** Total number of elements stored in a map of sequences. */
  ghost function SumSizes<K, T>(m: map<K, seq<T>>): nat {
    Sum(Sizes(m))
  }

  lemma SumSizesPut<K, T>(m: map<K, seq<T>>, k: K, v: seq<T>)
    ensures SumSizes(m[k := v]) == |v| + SumSizes(m) - (if k in m then |m[k]| else 0)
  {
    assert Sizes(m[k := v]) == Sizes(m)[k := |v|];
    SumPut(Sizes(m), k, |v|);
  }

  lemma SumSizesTakeOut<K, T>(m: map<K, seq<T>>, k: K)
    requires k in m
    ensures SumSizes(m) == |m[k]| + SumSizes(m - {k})
  {
    assert Sizes(m - {k}) == Sizes(m) - {k};
    SumTakeOut(Sizes(m), k);
  }
}
