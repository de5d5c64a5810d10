/** The one PHP array idiom both components use: a map from a directive to an
    ordered array keyed by its own values, written `$a[$k][$v] = $v`.
    The inner array is a duplicate-free `seq<string>` in first-insertion order. */
module PhpArrays {

  /** No value occurs twice. */
  predicate NoDup<T(==)>(s: seq<T>) {
    forall i, j :: 0 <= i < j < |s| ==> s[i] != s[j]
  }

  /** The inner array under `k`, or the empty array when `k` is absent. */
  function Lookup<K>(m: map<K, seq<string>>, k: K): seq<string> {
    if k in m then m[k] else []
  }

  /** `$arr[$v] = $v`: a new value goes to the end; an existing one keeps its place. */
  function Insert(vs: seq<string>, v: string): (r: seq<string>)
    ensures v in r
    ensures forall x :: x in r <==> x in vs || x == v
    ensures |vs| <= |r| && r[..|vs|] == vs
    ensures v in vs ==> r == vs
    ensures NoDup(vs) ==> NoDup(r)
  {
    if v in vs then vs else vs + [v]
  }

  /** `$m[$k][$v] = $v`, creating `$m[$k]` when it is absent; every other key is untouched. */
  function StoreValue<K>(m: map<K, seq<string>>, k: K, v: string): (r: map<K, seq<string>>)
    ensures r.Keys == m.Keys + {k}
    ensures r[k] == Insert(Lookup(m, k), v)
    ensures forall k' :: k' in m && k' != k ==> r[k'] == m[k']
  {
    m[k := Insert(Lookup(m, k), v)]
  }

  /** Storing the same value twice is the same as storing it once. */
  lemma StoreValueIdempotent<K>(m: map<K, seq<string>>, k: K, v: string)
    ensures StoreValue(StoreValue(m, k, v), k, v) == StoreValue(m, k, v)
  {
  }

  /** Under a duplicate-free array, a stored value occurs exactly once. */
  lemma {:induction false} StoredOnce<K>(m: map<K, seq<string>>, k: K, v: string)
    requires NoDup(Lookup(m, k))
    ensures multiset(StoreValue(m, k, v)[k])[v] == 1
  {
    var vs := Lookup(m, k);
    var r := StoreValue(m, k, v)[k];
    assert NoDup(r);
    NoDupCount(r, v);
  }

  /** The two halves of a duplicate-free concatenation share no value. */
  lemma NoDupAppend<T>(a: seq<T>, b: seq<T>)
    requires NoDup(a + b) && b != []
    ensures b[0] !in a
  {
    forall i | 0 <= i < |a|
      ensures a[i] != b[0]
    {
      assert (a + b)[i] == a[i] && (a + b)[|a|] == b[0];
    }
  }

  /** In a duplicate-free sequence every member occurs exactly once. */
  lemma {:induction false} NoDupCount<T>(s: seq<T>, v: T)
    requires NoDup(s) && v in s
    ensures multiset(s)[v] == 1
  {
    if s[0] == v {
      assert v !in s[1..];
      assert s == [s[0]] + s[1..];
    } else {
      assert NoDup(s[1..]);
      NoDupCount(s[1..], v);
      assert s == [s[0]] + s[1..];
    }
  }
}
