/** Grouping rows by a key column into sets of values, as the source does
    with `defaultdict(set)` loops and `groupby(...)[col].apply(set)`. */

module Groups {

  /** The state of a grouping pass over the first |vals| rows, where row j
      has key keys[j] and value vals[j]: groups[k] is the set of values
      of the rows so far whose key is k, and only such keys are present. */
  ghost predicate Grouped(keys: seq<string>, vals: seq<string>, groups: map<string, set<string>>)
    requires |vals| <= |keys|
  {
    && (forall k :: k in groups <==> exists j :: 0 <= j < |vals| && keys[j] == k)
    && (forall k, v :: k in groups ==> (v in groups[k] <==>
          exists j :: 0 <= j < |vals| && keys[j] == k && vals[j] == v))
  }

  /** One more row: `groups[key].add(value)`. */
  lemma GroupStep(keys: seq<string>, vals: seq<string>, groups: map<string, set<string>>, v: string)
    requires |vals| < |keys|
    requires Grouped(keys, vals, groups)
    ensures var k := keys[|vals|];
      Grouped(keys, vals + [v], groups[k := (if k in groups then groups[k] else {}) + {v}])
  {
    var k := keys[|vals|];
    var vals' := vals + [v];
    var g := groups[k := (if k in groups then groups[k] else {}) + {v}];
    forall k' ensures k' in g <==> exists j :: 0 <= j < |vals'| && keys[j] == k' {
      if k' in groups {
        var j :| 0 <= j < |vals| && keys[j] == k';
        assert vals'[j] == vals[j];
      }
    }
    forall k', v' | k' in g ensures v' in g[k'] <==>
      exists j :: 0 <= j < |vals'| && keys[j] == k' && vals'[j] == v'
    {
      if k' == k && v' == v {
        assert keys[|vals|] == k' && vals'[|vals|] == v';
      }
      if k' in groups && v' in groups[k'] {
        var j :| 0 <= j < |vals| && keys[j] == k' && vals[j] == v';
        assert vals'[j] == vals[j];
      }
      if exists j :: 0 <= j < |vals'| && keys[j] == k' && vals'[j] == v' {
        var j :| 0 <= j < |vals'| && keys[j] == k' && vals'[j] == v';
        if j < |vals| {
          assert vals[j] == v';
        }
      }
    }
  }

  /** The grouping loop, row by row: each key maps to the set of values of
      its rows. */
  method GroupBy(keys: seq<string>, vals: seq<string>) returns (groups: map<string, set<string>>)
    requires |keys| == |vals|
    ensures Grouped(keys, vals, groups)
  {
    groups := map[];
    var i := 0;
    while i < |vals|
      invariant i <= |vals|
      invariant Grouped(keys, vals[..i], groups)
    {
      var k := keys[i];
      GroupStep(keys, vals[..i], groups, vals[i]);
      assert vals[..i] + [vals[i]] == vals[..i + 1];
      groups := groups[k := (if k in groups then groups[k] else {}) + {vals[i]}];
      i := i + 1;
    }
    assert vals[..i] == vals;
  }

  /** The only element of a one-element set, as `list(v)[0]`. */
  function TheOne(s: set<string>): (x: string)
    requires |s| == 1
    ensures s == {x}
  {
    var x :| x in s;
    assert |s - {x}| == 0;
    assert s == {x};
    x
  }

  /** Key k occurs in the rows, and all its rows carry one value. */
  ghost predicate OneValue(keys: seq<string>, vals: seq<string>, k: string)
    requires |vals| == |keys|
  {
    && (exists i :: 0 <= i < |keys| && keys[i] == k)
    && (forall i, j :: 0 <= i < |keys| && 0 <= j < |keys| && keys[i] == k && keys[j] == k ==> vals[i] == vals[j])
  }

  /** A group is a singleton exactly when its rows agree on the value, and
      every row of the key then carries that value. */
  lemma SingletonIff(keys: seq<string>, vals: seq<string>, groups: map<string, set<string>>, k: string)
    requires |vals| == |keys|
    requires Grouped(keys, vals, groups)
    ensures (k in groups && |groups[k]| == 1) <==> OneValue(keys, vals, k)
    ensures k in groups && |groups[k]| == 1 ==>
      forall i :: 0 <= i < |keys| && keys[i] == k ==> groups[k] == {vals[i]}
  {
    if k in groups && |groups[k]| == 1 {
      var x := TheOne(groups[k]);
      forall i | 0 <= i < |keys| && keys[i] == k ensures vals[i] == x {
        assert vals[i] in groups[k];
      }
    }
    if OneValue(keys, vals, k) {
      var a :| 0 <= a < |vals| && keys[a] == k;
      assert groups[k] == {vals[a]} by {
        forall x | x in groups[k] ensures x == vals[a] {
        }
      }
    }
  }
}
