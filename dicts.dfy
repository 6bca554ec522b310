/** Python dicts with insertion order, as sequences of (key, value) pairs:
    assigning to a present key keeps its place, a new key goes last. */
module Dicts {
  import opened Wrappers

  type Dict = seq<(string, string)>

  /** `d.get(k)`: the value of the last pair with key k. */
  function Lookup(d: Dict, k: string): Option<string>
    decreases |d|
  {
    if |d| == 0 then None
    else if d[|d| - 1].0 == k then Some(d[|d| - 1].1)
    else Lookup(d[..|d| - 1], k)
  }

  predicate KeysUnique(d: Dict) {
    forall i, j :: 0 <= i < j < |d| ==> d[i].0 != d[j].0
  }

  predicate HasKey(d: Dict, k: string) {
    exists i :: 0 <= i < |d| && d[i].0 == k
  }

  /** `d[k] = v`: a present key keeps its place, a new key goes last. */
  function Put(d: Dict, k: string, v: string): Dict {
    if HasKey(d, k) then seq(|d|, i requires 0 <= i < |d| => if d[i].0 == k then (k, v) else d[i])
    else d + [(k, v)]
  }

  lemma {:induction false} LookupAbsent(d: Dict, k: string)
    requires !HasKey(d, k)
    ensures Lookup(d, k) == None
    decreases |d|
  {
    if |d| > 0 {
      assert !HasKey(d[..|d| - 1], k) by {
        forall i | 0 <= i < |d| - 1 ensures d[i].0 != k {
          assert d[i].0 != k;
        }
      }
      LookupAbsent(d[..|d| - 1], k);
    }
  }

  lemma {:induction false} LookupAt(d: Dict, k: string, i: nat)
    requires KeysUnique(d) && i < |d| && d[i].0 == k
    ensures Lookup(d, k) == Some(d[i].1)
    decreases |d|
  {
    if i < |d| - 1 {
      assert d[|d| - 1].0 != k;
      LookupAt(d[..|d| - 1], k, i);
    }
  }

  lemma KeysUniquePrefix(d: Dict, n: nat)
    requires KeysUnique(d) && n <= |d|
    ensures KeysUnique(d[..n])
  {
    forall a, b | 0 <= a < b < n ensures d[..n][a].0 != d[..n][b].0 {
      assert d[..n][a] == d[a] && d[..n][b] == d[b];
    }
  }

  /** Assigning a key sets its value, leaves every other key alone and keeps
      the keys distinct. */
  lemma PutSpec(d: Dict, k: string, v: string)
    requires KeysUnique(d)
    ensures KeysUnique(Put(d, k, v))
    ensures forall k' :: Lookup(Put(d, k, v), k') == if k' == k then Some(v) else Lookup(d, k')
  {
    var r := Put(d, k, v);
    if HasKey(d, k) {
      forall i, j | 0 <= i < j < |r| ensures r[i].0 != r[j].0 {
        assert r[i].0 == d[i].0 && r[j].0 == d[j].0;
      }
      forall k' ensures Lookup(r, k') == if k' == k then Some(v) else Lookup(d, k') {
        if HasKey(d, k') {
          var i :| 0 <= i < |d| && d[i].0 == k';
          LookupAt(r, k', i);
          LookupAt(d, k', i);
        } else {
          assert !HasKey(r, k') by {
            forall i | 0 <= i < |r| ensures r[i].0 != k' {
              assert r[i].0 == d[i].0;
            }
          }
          LookupAbsent(r, k');
          LookupAbsent(d, k');
        }
      }
    } else {
      assert r[..|r| - 1] == d;
      forall k' ensures Lookup(r, k') == if k' == k then Some(v) else Lookup(d, k') {
      }
    }
  }

  /** Where Put leaves the keys: a present key keeps every key in place, a
      new one is appended. */
  lemma PutKeys(d: Dict, k: string, v: string)
    ensures HasKey(d, k) ==> |Put(d, k, v)| == |d| && forall i :: 0 <= i < |d| ==> Put(d, k, v)[i].0 == d[i].0
    ensures !HasKey(d, k) ==> Put(d, k, v) == d + [(k, v)]
  {
  }
}
