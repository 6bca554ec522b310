/** The consistency checks run on the GTDB and LTP rank tables before the
    backbone is built (check_overlap and check_consistent_parents in
    gg2/backbone_taxonomy.py). A table is a sequence of seven-rank rows. */
module Validate {
  import opened Wrappers
  import opened Lineage
  import opened Groups
  import Polyphyly

  /** Names GTDB uses at several ranks, told apart only by the rank prefix. */
  const Permissible: set<string> :=
    {"UBA8346", "AKS1", "JAAYUW01", "DSM-19610", "UBA10575",
     "DSM-17781", "SK-Y3", "DSM-22653", "JC228", "DSM-100275",
     "DSM-16500", "HP12", "DSM-26407", "DY22613", "UBA6429"}

  /** The non-empty names of one rank column, `set(tax[i]) - set([""])`. */
  function Column(t: seq<Ranked>, level: Rank): set<string> {
    (set r | 0 <= r < |t| :: t[r][level]) - {""}
  }

  /** No two distinct ranks share a name outside `allowed`. */
  predicate NoOverlap(t: seq<Ranked>, allowed: set<string>) {
    forall i: Rank, j: Rank :: i != j ==> Column(t, i) * Column(t, j) <= allowed
  }

  /** NoOverlap, read cell by cell: a non-empty name found at two different
      ranks, in the same row or in two rows, is one of the allowed names. */
  lemma NoOverlapIff(t: seq<Ranked>, allowed: set<string>)
    ensures NoOverlap(t, allowed) <==>
      forall a, b, i: Rank, j: Rank ::
        0 <= a < |t| && 0 <= b < |t| && i != j && t[a][i] == t[b][j] && t[a][i] != "" ==> t[a][i] in allowed
  {
    if NoOverlap(t, allowed) {
      forall a, b, i: Rank, j: Rank |
        0 <= a < |t| && 0 <= b < |t| && i != j && t[a][i] == t[b][j] && t[a][i] != ""
        ensures t[a][i] in allowed
      {
        assert t[a][i] in Column(t, i) * Column(t, j);
      }
    } else {
      var i: Rank, j: Rank :| i != j && !(Column(t, i) * Column(t, j) <= allowed);
      var n :| n in Column(t, i) * Column(t, j) && n !in allowed;
      var a :| 0 <= a < |t| && t[a][i] == n;
      var b :| 0 <= b < |t| && t[b][j] == n;
      assert t[a][i] == t[b][j] && t[a][i] != "" && t[a][i] !in allowed;
    }
  }

  /** check_overlap as written. After a GTDB pair whose shared names are all
      allowed, `continue` skips the LTP comparison; otherwise the shared set
      is non-empty and the GTDB check raises. The LTP comparison is never
      reached, so the result depends on the GTDB table alone. */
  method CheckOverlap(gtdb: seq<Ranked>, ltp: seq<Ranked>) returns (res: Result<()>)
    ensures res.Ok? <==> NoOverlap(gtdb, Permissible)
    ensures res.Err? ==> res.error == ValueError("")
  {
    for i := 0 to 7
      invariant forall i': Rank, j': Rank :: i' < i && i' != j' ==>
        Column(gtdb, i') * Column(gtdb, j') <= Permissible
    {
      for j := 0 to 7
        invariant forall j': Rank :: j' < j && i != j' ==> Column(gtdb, i) * Column(gtdb, j') <= Permissible
      {
        if i == j {
          continue;
        }
        var a := Column(gtdb, i);
        var b := Column(gtdb, j);
        if a * b <= Permissible {
          continue;
        }
        if |a * b| > 0 {
          return Err(ValueError(""));
        }
        // The LTP comparison would follow here; the empty set is allowed,
        // so this point cannot be reached.
        assert false;
      }
    }
    return Ok(());
  }

  /** check_overlap as evidently intended: every pair of ranks is checked in
      both tables. */
  method CheckOverlapBoth(gtdb: seq<Ranked>, ltp: seq<Ranked>) returns (res: Result<()>)
    ensures res.Ok? <==> NoOverlap(gtdb, Permissible) && NoOverlap(ltp, Permissible)
    ensures res.Err? ==> res.error == ValueError("")
  {
    for i := 0 to 7
      invariant forall i': Rank, j': Rank :: i' < i && i' != j' ==>
        Column(gtdb, i') * Column(gtdb, j') <= Permissible && Column(ltp, i') * Column(ltp, j') <= Permissible
    {
      for j := 0 to 7
        invariant forall j': Rank :: j' < j && i != j' ==>
          Column(gtdb, i) * Column(gtdb, j') <= Permissible && Column(ltp, i) * Column(ltp, j') <= Permissible
      {
        if i != j {
          if !(Column(gtdb, i) * Column(gtdb, j) <= Permissible) {
            return Err(ValueError(""));
          }
          if !(Column(ltp, i) * Column(ltp, j) <= Permissible) {
            return Err(ValueError(""));
          }
        }
      }
    }
    return Ok(());
  }

  /** An LTP table using one name at two ranks, next to an empty GTDB table:
      check_overlap as written accepts it, the intended check rejects it. */
  lemma LtpOverlapMissed()
    ensures var ltp := [["d__X", "Dup", "Dup", "", "", "", ""]];
      NoOverlap([], Permissible) && !NoOverlap(ltp, Permissible)
  {
    var ltp: seq<Ranked> := [["d__X", "Dup", "Dup", "", "", "", ""]];
    assert ltp[0][1] == "Dup";
    assert "Dup" in Column(ltp, 1) * Column(ltp, 2);
  }

  /** The names check_consistent_parents skips: GTDB's bare rank prefixes
      such as "g__", and LTP's empty names. */
  predicate Unnamed(name: string, gtdbStyle: bool) {
    if gtdbStyle then Polyphyly.IsBare(name) else name == ""
  }

  /** Every named label at rank `level` has one parent: any two rows that
      carry it agree at rank level-1. */
  ghost predicate ParentsAgree(t: seq<Ranked>, level: Rank, gtdbStyle: bool)
    requires level >= 1
  {
    forall a, b :: 0 <= a < |t| && 0 <= b < |t| && t[a][level] == t[b][level] && !Unnamed(t[a][level], gtdbStyle) ==>
      t[a][level - 1] == t[b][level - 1]
  }

  /** Named groups are singletons exactly when the parents agree. */
  lemma SingletonsAgree(t: seq<Ranked>, level: Rank, gtdbStyle: bool, groups: map<string, set<string>>)
    requires level >= 1
    requires Grouped(Polyphyly.Column(t, level), Polyphyly.Column(t, level - 1), groups)
    ensures (forall name :: name in groups && !Unnamed(name, gtdbStyle) ==> |groups[name]| == 1) <==>
      ParentsAgree(t, level, gtdbStyle)
  {
    var names, parents := Polyphyly.Column(t, level), Polyphyly.Column(t, level - 1);
    if forall name :: name in groups && !Unnamed(name, gtdbStyle) ==> |groups[name]| == 1 {
      forall a, b | 0 <= a < |t| && 0 <= b < |t| && t[a][level] == t[b][level] && !Unnamed(t[a][level], gtdbStyle)
        ensures t[a][level - 1] == t[b][level - 1]
      {
        assert names[a] == t[a][level] && names[b] == t[b][level];
        assert parents[a] == t[a][level - 1] && parents[b] == t[b][level - 1];
        SingletonIff(names, parents, groups, names[a]);
      }
    }
    if ParentsAgree(t, level, gtdbStyle) {
      forall name | name in groups && !Unnamed(name, gtdbStyle) ensures |groups[name]| == 1 {
        SingletonIff(names, parents, groups, name);
        var a :| 0 <= a < |names| && names[a] == name;
        assert OneValue(names, parents, name);
      }
    }
  }

  /** One rank of check_consistent_parents: `groupby(level)` and the
      parents' `unique()` count of every named group. */
  method ParentsUnique(t: seq<Ranked>, level: Rank, gtdbStyle: bool) returns (ok: bool)
    requires level >= 1
    ensures ok <==> ParentsAgree(t, level, gtdbStyle)
  {
    var groups := GroupBy(Polyphyly.Column(t, level), Polyphyly.Column(t, level - 1));
    ok := forall name | name in groups && !Unnamed(name, gtdbStyle) :: |groups[name]| == 1;
    SingletonsAgree(t, level, gtdbStyle, groups);
  }

  /** check_consistent_parents: below the domain, every named label of
      either table has one parent; the first rank that breaks this raises,
      for LTP as for GTDB. */
  method CheckConsistentParents(gtdb: seq<Ranked>, ltp: seq<Ranked>) returns (res: Result<()>)
    ensures res.Ok? <==> forall l: Rank :: l >= 1 ==> ParentsAgree(gtdb, l, true) && ParentsAgree(ltp, l, false)
    ensures res.Err? ==> res.error == ValueError("")
  {
    for idx := 1 to 7
      invariant forall l: Rank :: 1 <= l < idx ==> ParentsAgree(gtdb, l, true) && ParentsAgree(ltp, l, false)
    {
      var ok := ParentsUnique(gtdb, idx, true);
      if !ok {
        return Err(ValueError(""));
      }
      ok := ParentsUnique(ltp, idx, false);
      if !ok {
        return Err(ValueError(""));
      }
    }
    return Ok(());
  }

  /** What the check buys: once every rank has consistent parents, two rows
      sharing a label whose ancestors are all named share the whole lineage
      down to that label. */
  lemma {:induction false} AncestryDetermined(t: seq<Ranked>, gtdbStyle: bool, a: int, b: int, level: Rank)
    requires forall l: Rank :: l >= 1 ==> ParentsAgree(t, l, gtdbStyle)
    requires 0 <= a < |t| && 0 <= b < |t|
    requires t[a][level] == t[b][level]
    requires forall l: Rank :: 1 <= l <= level ==> !Unnamed(t[a][l], gtdbStyle)
    ensures t[a][..level + 1] == t[b][..level + 1]
  {
    if level > 0 {
      assert ParentsAgree(t, level, gtdbStyle);
      AncestryDetermined(t, gtdbStyle, a, b, level - 1);
      assert t[a][..level + 1] == t[a][..level] + [t[a][level]];
      assert t[b][..level + 1] == t[b][..level] + [t[b][level]];
    } else {
      assert t[a][..1] == [t[a][0]];
      assert t[b][..1] == [t[b][0]];
    }
  }
}
