/** The two list idioms the table code is built from: projecting every element
  * to its key (`xs.map(x => x.id)`) and dropping the elements with a given key
  * (`xs.filter(x => x.id !== k)`). */
module Seqs {

  /** The key of every element, in order. */
  function Keys<T, K>(s: seq<T>, key: T -> K): (r: seq<K>)
    ensures |r| == |s|
    ensures forall i :: 0 <= i < |s| ==> r[i] == key(s[i])
  {
    seq(|s|, i requires 0 <= i < |s| => key(s[i]))
  }

  /** No key occurs twice. */
  predicate Distinct<K(==)>(s: seq<K>) {
    forall i, j :: 0 <= i < j < |s| ==> s[i] != s[j]
  }

  /** The elements whose key differs from `k`, in their original order. */
  function RemoveKey<T(!new), K(==)>(s: seq<T>, key: T -> K, k: K): (r: seq<T>)
    ensures |r| <= |s|
    ensures forall x :: x in r <==> x in s && key(x) != k
  {
    if s == [] then []
    else if key(s[0]) != k then [s[0]] + RemoveKey(s[1..], key, k)
    else RemoveKey(s[1..], key, k)
  }

  lemma KeysAppend<T, K>(a: seq<T>, b: seq<T>, key: T -> K)
    ensures Keys(a + b, key) == Keys(a, key) + Keys(b, key)
  {
  }

  /** Dropping a key that does not occur changes nothing. */
  lemma {:induction false} RemoveKeyAbsent<T(!new), K>(s: seq<T>, key: T -> K, k: K)
    requires k !in Keys(s, key)
    ensures RemoveKey(s, key, k) == s
  {
    if s != [] {
      assert key(s[0]) == Keys(s, key)[0];
      assert Keys(s[1..], key) == Keys(s, key)[1..];
      RemoveKeyAbsent(s[1..], key, k);
      assert [s[0]] + s[1..] == s;
    }
  }

  /** Dropping the same key twice is dropping it once. */
  lemma RemoveKeyIdempotent<T(!new), K>(s: seq<T>, key: T -> K, k: K)
    ensures RemoveKey(RemoveKey(s, key, k), key, k) == RemoveKey(s, key, k)
  {
    var r := RemoveKey(s, key, k);
    assert forall i :: 0 <= i < |r| ==> r[i] in r;
    RemoveKeyAbsent(r, key, k);
  }

  /** Filtering distributes over concatenation: the order of what is kept is the original order. */
  lemma {:induction false} RemoveKeyAppend<T(!new), K>(a: seq<T>, b: seq<T>, key: T -> K, k: K)
    ensures RemoveKey(a + b, key, k) == RemoveKey(a, key, k) + RemoveKey(b, key, k)
  {
    if a != [] {
      assert (a + b)[1..] == a[1..] + b;
      RemoveKeyAppend(a[1..], b, key, k);
    } else {
      assert a + b == b;
    }
  }

  /** The keys left are the old keys with every occurrence of `k` taken out. */
  lemma {:induction false} RemoveKeyKeys<T(!new), K>(s: seq<T>, key: T -> K, k: K)
    ensures multiset(Keys(RemoveKey(s, key, k), key)) == multiset(Keys(s, key))[k := 0]
  {
    if s != [] {
      var rest := RemoveKey(s[1..], key, k);
      RemoveKeyKeys(s[1..], key, k);
      KeysCons(s[0], s[1..], key);
      assert [s[0]] + s[1..] == s;
      if key(s[0]) != k {
        KeysCons(s[0], rest, key);
        MultisetConsDrop(key(s[0]), Keys(s[1..], key), k);
      } else {
        MultisetConsDrop(key(s[0]), Keys(s[1..], key), k);
      }
    }
  }

  lemma KeysCons<T, K>(x: T, s: seq<T>, key: T -> K)
    ensures Keys([x] + s, key) == [key(x)] + Keys(s, key)
  {
  }

  lemma MultisetConsDrop<K>(x: K, s: seq<K>, k: K)
    ensures multiset([x] + s)[k := 0] == if x == k then multiset(s)[k := 0] else multiset([x]) + multiset(s)[k := 0]
  {
  }

  /** With distinct keys, dropping a present key removes exactly one element. */
  lemma {:induction false} RemoveKeyOne<T(!new), K>(s: seq<T>, key: T -> K, k: K)
    requires Distinct(Keys(s, key)) && k in Keys(s, key)
    ensures |RemoveKey(s, key, k)| == |s| - 1
  {
    assert Keys(s[1..], key) == Keys(s, key)[1..];
    if key(s[0]) == k {
      assert k !in Keys(s[1..], key);
      RemoveKeyAbsent(s[1..], key, k);
    } else {
      RemoveKeyOne(s[1..], key, k);
    }
  }

  /** Dropping elements keeps the remaining keys distinct. */
  lemma {:induction false} RemoveKeyDistinct<T(!new), K>(s: seq<T>, key: T -> K, k: K)
    requires Distinct(Keys(s, key))
    ensures Distinct(Keys(RemoveKey(s, key, k), key))
  {
    if s != [] {
      assert Keys(s[1..], key) == Keys(s, key)[1..];
      RemoveKeyDistinct(s[1..], key, k);
      var rest := RemoveKey(s[1..], key, k);
      if key(s[0]) != k {
        forall x | x in rest ensures key(x) != key(s[0]) {
          var i :| 0 <= i < |s[1..]| && s[1..][i] == x;
          assert Keys(s, key)[i + 1] == key(x);
        }
        assert Keys([s[0]] + rest, key) == [key(s[0])] + Keys(rest, key);
        forall j | 0 < j < |rest| + 1 ensures Keys([s[0]] + rest, key)[j] != key(s[0]) {
          assert rest[j - 1] in rest;
        }
      }
    }
  }
}
