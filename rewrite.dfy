/** The LTP adjustment of gg2/backbone_taxonomy.py (adjust_ltp): explicit
    lineage overrides, automatic derivation of rewrite rules against the
    NCBI-to-GTDB index, their ordering by specificity, their application to
    every lineage, and the final removal of dropped records. The curated
    tables (manual remappings, incertae sedis mappings, curated renames,
    ids to drop) are parameters. */
module Rewrite {
  import opened Wrappers
  import opened PyStr
  import opened Dicts

  // ---------------------------------------------------------------------
  // The explicit mappings: manual remappings, then unique GTDB species
  // matches, then the incertae sedis table.

  /** One LTP record as read: id, lineage without species, species name. */
  datatype LtpRow = LtpRow(id: string, lineage: string, originalSpecies: string)

  /** The GTDB lineage of the last record with id k whose species has a
      unique GTDB lineage. */
  function LastUniqueHit(rows: seq<LtpRow>, gtdbUnique: map<string, string>, k: string): Option<string>
    decreases |rows|
  {
    if |rows| == 0 then None
    else
      var last := rows[|rows| - 1];
      if last.id == k && last.originalSpecies in gtdbUnique then Some(gtdbUnique[last.originalSpecies])
      else LastUniqueHit(rows[..|rows| - 1], gtdbUnique, k)
  }

  /** The first choice that has a value. */
  function FirstOf(a: Option<string>, b: Option<string>): Option<string> {
    if a.Some? then a else b
  }

  /** The mappings dict of adjust_ltp: each id maps to its incertae sedis
      lineage if it has one, else to the GTDB lineage of its species when
      that species is unique in GTDB (the last such record counts), else to
      its manual remapping. */
  method BuildMappings(rows: seq<LtpRow>, manual: Dict, gtdbUnique: map<string, string>, incertae: Dict)
    returns (m: Dict)
    requires KeysUnique(manual)
    ensures KeysUnique(m)
    ensures forall k :: (Lookup(m, k) ==
      FirstOf(Lookup(incertae, k), FirstOf(LastUniqueHit(rows, gtdbUnique, k), Lookup(manual, k))))
  {
    m := manual;
    var i := 0;
    while i < |rows|
      invariant 0 <= i <= |rows| && KeysUnique(m)
      invariant forall k :: Lookup(m, k) == FirstOf(LastUniqueHit(rows[..i], gtdbUnique, k), Lookup(manual, k))
    {
      assert rows[..i + 1][..i] == rows[..i];
      if rows[i].originalSpecies in gtdbUnique {
        PutSpec(m, rows[i].id, gtdbUnique[rows[i].originalSpecies]);
        m := Put(m, rows[i].id, gtdbUnique[rows[i].originalSpecies]);
      }
      i := i + 1;
    }
    assert rows[..|rows|] == rows;
    var j := 0;
    while j < |incertae|
      invariant 0 <= j <= |incertae| && KeysUnique(m)
      invariant forall k :: (Lookup(m, k) ==
        FirstOf(Lookup(incertae[..j], k), FirstOf(LastUniqueHit(rows, gtdbUnique, k), Lookup(manual, k))))
    {
      assert incertae[..j + 1][..j] == incertae[..j];
      PutSpec(m, incertae[j].0, incertae[j].1);
      m := Put(m, incertae[j].0, incertae[j].1);
      j := j + 1;
    }
    assert incertae[..|incertae|] == incertae;
  }

  // ---------------------------------------------------------------------
  // Quote removal and the appended species.

  /** The lineage after quote removal with the species appended:
      `lineage.replace('"', '') + ';' + original_species.replace('"', '')`. */
  function PreparedLineage(row: LtpRow): (lin: string)
    ensures !Contains(lin, "\"")
    ensures CountChar(lin, ';') == CountChar(Replace(row.lineage, "\"", ""), ';') + 1 + CountChar(Replace(row.originalSpecies, "\"", ""), ';')
  {
    var a := Replace(row.lineage, "\"", "");
    var b := Replace(row.originalSpecies, "\"", "");
    ReplaceDeletesChar(row.lineage, '"');
    ReplaceDeletesChar(row.originalSpecies, '"');
    assert !Contains(";", "\"") by {
      assert ";"[..1] == ";" && ";"[1..] == "";
    }
    NoCharConcat(a, ";", b, '"');
    CountCharConcat(a + ";", b, ';');
    CountCharConcat(a, ";", ';');
    a + ";" + b
  }

  /** Text built from pieces without a character does not hold it. */
  lemma NoCharConcat(a: string, m: string, b: string, c: char)
    requires !Contains(a, [c]) && !Contains(m, [c]) && !Contains(b, [c])
    ensures !Contains(a + m + b, [c])
  {
    ContainsIff(a, [c]);
    ContainsIff(m, [c]);
    ContainsIff(b, [c]);
    ContainsIff(a + m + b, [c]);
    var s := a + m + b;
    forall i | 0 <= i <= |s| ensures !OccursAt(s, [c], i) {
      if i < |a| {
        assert s[i..i + 1] == a[i..i + 1];
        assert !OccursAt(a, [c], i);
      } else if i < |a| + |m| {
        assert s[i..i + 1] == m[i - |a|..i - |a| + 1];
        assert !OccursAt(m, [c], i - |a|);
      } else if i < |s| {
        assert s[i..i + 1] == b[i - |a| - |m|..i - |a| - |m| + 1];
        assert !OccursAt(b, [c], i - |a| - |m|);
      }
    }
  }

  // ---------------------------------------------------------------------
  // Overrides: `loc[k, 'lineage'] = v; loc[k, 'explicitly_set'] = True`.

  /** A record of the indexed table. */
  datatype LtpEntry = LtpEntry(id: string, lineage: string, explicitlySet: bool)

  predicate IdIn(t: seq<LtpEntry>, k: string) {
    exists i :: 0 <= i < |t| && t[i].id == k
  }

  /** pandas `loc` assignment by label: every row with id k is overwritten;
      with no such row, a new row is added at the end. */
  function AssignLoc(t: seq<LtpEntry>, k: string, v: string): seq<LtpEntry> {
    if IdIn(t, k) then seq(|t|, i requires 0 <= i < |t| => if t[i].id == k then LtpEntry(k, v, true) else t[i])
    else t + [LtpEntry(k, v, true)]
  }

  /** The rows the overrides add, in mapping order: keys of d that are not
      ids of the table. */
  function Enlarged(d: Dict, base: seq<LtpEntry>): seq<LtpEntry>
    decreases |d|
  {
    if |d| == 0 then []
    else
      var (k, v) := d[|d| - 1];
      Enlarged(d[..|d| - 1], base) + (if IdIn(base, k) then [] else [LtpEntry(k, v, true)])
  }

  /** Every enlarged row is explicitly set, and its id is a key of d and
      not an id of the base. */
  lemma {:induction false} EnlargedIds(d: Dict, base: seq<LtpEntry>)
    ensures forall r :: 0 <= r < |Enlarged(d, base)| ==>
      && HasKey(d, Enlarged(d, base)[r].id)
      && !IdIn(base, Enlarged(d, base)[r].id)
      && Enlarged(d, base)[r].explicitlySet
    decreases |d|
  {
    if |d| > 0 {
      var init := d[..|d| - 1];
      EnlargedIds(init, base);
      forall r | 0 <= r < |Enlarged(init, base)| ensures HasKey(d, Enlarged(init, base)[r].id) {
        var i :| 0 <= i < |init| && init[i].0 == Enlarged(init, base)[r].id;
        assert d[i].0 == init[i].0;
      }
      assert d[|d| - 1].0 == d[|d| - 1].0;
    }
  }

  /** The table before the overrides: every record not explicitly set. */
  function Unset(prepared: seq<(string, string)>): (t: seq<LtpEntry>)
    ensures |t| == |prepared|
    ensures forall r :: 0 <= r < |t| ==> t[r] == LtpEntry(prepared[r].0, prepared[r].1, false)
  {
    seq(|prepared|, r requires 0 <= r < |prepared| => LtpEntry(prepared[r].0, prepared[r].1, false))
  }

  /** A record after the overrides: the mapped lineage, explicitly set,
      when its id has a mapping; unchanged otherwise. */
  function Overridden(e: LtpEntry, mapped: Option<string>): LtpEntry {
    match mapped
    case Some(v) => LtpEntry(e.id, v, true)
    case None => e
  }

  /** The overrides as a table state: the records of `base` overridden by the
      mappings so far, followed by the rows those mappings added. */
  predicate OverriddenBy(t: seq<LtpEntry>, base: seq<LtpEntry>, d: Dict) {
    && |t| >= |base|
    && (forall r :: 0 <= r < |base| ==> t[r] == Overridden(base[r], Lookup(d, base[r].id)))
    && t[|base|..] == Enlarged(d, base)
  }

  /** One `loc` assignment with a key not assigned before extends the
      overrides by that key. */
  lemma OverrideStep(t: seq<LtpEntry>, base: seq<LtpEntry>, d: Dict, k: string, v: string)
    requires KeysUnique(d + [(k, v)])
    requires OverriddenBy(t, base, d)
    requires forall r :: 0 <= r < |base| ==> !base[r].explicitlySet
    ensures OverriddenBy(AssignLoc(t, k, v), base, d + [(k, v)])
  {
    var d' := d + [(k, v)];
    assert d'[..|d|] == d;
    EnlargedIds(d, base);
    assert !HasKey(d, k) by {
      forall i | 0 <= i < |d| ensures d[i].0 != k {
        assert d'[i] == d[i] && d'[|d|] == (k, v);
      }
    }
    forall r | |base| <= r < |t| ensures t[r].id != k {
      assert t[r] == Enlarged(d, base)[r - |base|];
    }
    var t' := AssignLoc(t, k, v);
    if IdIn(base, k) {
      var w :| 0 <= w < |base| && base[w].id == k;
      assert t[w].id == k;
      assert IdIn(t, k);
      assert t'[|base|..] == t[|base|..];
    } else {
      forall r | 0 <= r < |base| ensures t[r].id != k {
        assert base[r].id != k;
      }
      assert !IdIn(t, k);
      assert t'[|base|..] == t[|base|..] + [LtpEntry(k, v, true)];
    }
  }

  /** The override loop of adjust_ltp. A record whose id is a key of the
      mappings gets the mapped lineage and is marked explicitly set; every
      other record keeps its lineage and is not; keys that are no record's
      id become new rows at the end, in mapping order. */
  method ApplyOverrides(prepared: seq<(string, string)>, m: Dict) returns (t: seq<LtpEntry>)
    requires KeysUnique(m)
    ensures |t| >= |prepared|
    ensures forall r :: 0 <= r < |prepared| ==>
      t[r] == Overridden(LtpEntry(prepared[r].0, prepared[r].1, false), Lookup(m, prepared[r].0))
    ensures t[|prepared|..] == Enlarged(m, Unset(prepared))
  {
    var base := Unset(prepared);
    t := base;
    var j := 0;
    assert OverriddenBy(t, base, m[..0]);
    while j < |m|
      invariant 0 <= j <= |m|
      invariant OverriddenBy(t, base, m[..j])
    {
      assert m[..j + 1] == m[..j] + [(m[j].0, m[j].1)];
      KeysUniquePrefix(m, j + 1);
      OverrideStep(t, base, m[..j], m[j].0, m[j].1);
      t := AssignLoc(t, m[j].0, m[j].1);
      j := j + 1;
    }
    assert m[..|m|] == m;
  }

  // ---------------------------------------------------------------------
  // Rule derivation against the `(level, name) -> lineage prefix` index.

  /** A rewrite rule: every occurrence of `current` becomes `target`. */
  datatype Rule = Rule(current: string, target: string)

  /** The anchoring `;` added below species. */
  function Anchor(lvl: nat): string {
    if lvl < 6 then ";" else ""
  }

  /** The rule the derivation loop emits for level lvl of a lineage, if
      any: the name at that level is a key of the index and the lineage's
      prefix through that level differs from the indexed prefix. */
  function Candidate(lin: string, lvl: nat, idx: map<(nat, string), string>): Option<Rule> {
    var parts := Split(lin, ";");
    if lvl < |parts| && (lvl, parts[lvl]) in idx then
      var current := Join(";", parts[..lvl + 1]) + Anchor(lvl);
      var target := idx[(lvl, parts[lvl])] + Anchor(lvl);
      if target != current then Some(Rule(current, target)) else None
    else None
  }

  /** The sanity check that aborts the run: a Bacteria prefix rewritten to
      an Archaea one. */
  predicate Fatal(r: Rule) {
    Contains(r.current, "Bacteria") && Contains(r.target, "Archaea")
  }

  predicate FatalAt(lin: string, lvl: nat, idx: map<(nat, string), string>) {
    Candidate(lin, lvl, idx).Some? && Fatal(Candidate(lin, lvl, idx).value)
  }

  predicate Distinct<T(==)>(s: seq<T>) {
    forall i, j :: 0 <= i < j < |s| ==> s[i] != s[j]
  }

  /** `auto_rename.add((current, gtdb))` */
  function AddRule(rules: seq<Rule>, r: Rule): (out: seq<Rule>)
    ensures forall x :: x in out <==> x in rules || x == r
    ensures Distinct(rules) ==> Distinct(out)
  {
    if r in rules then rules else rules + [r]
  }

  /** r is the candidate of some level at or above l. */
  ghost predicate FromLevel(lin: string, idx: map<(nat, string), string>, l: nat, r: Rule) {
    exists lvl: nat :: l <= lvl && Candidate(lin, lvl, idx) == Some(r)
  }

  lemma FromLevelStep(lin: string, idx: map<(nat, string), string>, l: nat, r: Rule)
    ensures FromLevel(lin, idx, l, r) <==> Candidate(lin, l, idx) == Some(r) || FromLevel(lin, idx, l + 1, r)
  {
    if FromLevel(lin, idx, l, r) {
      var lvl: nat :| l <= lvl && Candidate(lin, lvl, idx) == Some(r);
      if lvl > l {
        assert FromLevel(lin, idx, l + 1, r);
      }
    }
  }

  lemma FromLevelBeyond(lin: string, idx: map<(nat, string), string>, r: Rule)
    ensures !FromLevel(lin, idx, |Split(lin, ";")|, r)
  {
  }

  lemma NotFatalBelow(lin: string, idx: map<(nat, string), string>, l: nat)
    requires forall lvl: nat :: l + 1 <= lvl ==> !FatalAt(lin, lvl, idx)
    requires Candidate(lin, l, idx).None? || !Fatal(Candidate(lin, l, idx).value)
    ensures forall lvl: nat :: l <= lvl ==> !FatalAt(lin, lvl, idx)
  {
  }

  /** The inner loop of the derivation over one lineage, from its last level
      down to level 0: it fails iff some level yields a fatal rule, and
      otherwise adds every level's rule to `acc`. */
  method RowRules(lin: string, idx: map<(nat, string), string>, acc: seq<Rule>) returns (res: Result<seq<Rule>>)
    requires Distinct(acc)
    ensures res.Ok? <==> forall lvl: nat :: !FatalAt(lin, lvl, idx)
    ensures res.Ok? ==> Distinct(res.value)
    ensures res.Ok? ==> forall r :: r in res.value <==> r in acc || exists lvl: nat :: Candidate(lin, lvl, idx) == Some(r)
    ensures res.Err? ==> res.error == ValueError("")
  {
    var parts := Split(lin, ";");
    var rules := acc;
    var l := |parts|;
    forall r ensures !FromLevel(lin, idx, l, r) {
      FromLevelBeyond(lin, idx, r);
    }
    while l > 0
      invariant 0 <= l <= |parts| && Distinct(rules)
      invariant forall lvl: nat :: l <= lvl ==> !FatalAt(lin, lvl, idx)
      invariant forall r :: r in rules <==> r in acc || FromLevel(lin, idx, l, r)
    {
      l := l - 1;
      var c := Candidate(lin, l, idx);
      forall r ensures FromLevel(lin, idx, l, r) <==> c == Some(r) || FromLevel(lin, idx, l + 1, r) {
        FromLevelStep(lin, idx, l, r);
      }
      if c.Some? {
        if Fatal(c.value) {
          assert FatalAt(lin, l, idx);
          return Err(ValueError(""));
        }
        rules := AddRule(rules, c.value);
      }
      NotFatalBelow(lin, idx, l);
    }
    res := Ok(rules);
  }

  /** The derivation loop of adjust_ltp over every lineage of the table.
      It raises iff some lineage yields a fatal rule at some level;
      otherwise the derived rules are exactly the candidates of all
      lineages at all levels, each once. */
  method DeriveRules(lins: seq<string>, idx: map<(nat, string), string>) returns (res: Result<seq<Rule>>)
    ensures res.Ok? <==> forall i, lvl: nat :: 0 <= i < |lins| ==> !FatalAt(lins[i], lvl, idx)
    ensures res.Ok? ==> Distinct(res.value)
    ensures res.Ok? ==> forall r :: r in res.value <==>
      exists i, lvl: nat :: 0 <= i < |lins| && Candidate(lins[i], lvl, idx) == Some(r)
    ensures res.Err? ==> res.error == ValueError("")
  {
    var rules: seq<Rule> := [];
    var i := 0;
    while i < |lins|
      invariant 0 <= i <= |lins| && Distinct(rules)
      invariant forall j, lvl: nat :: 0 <= j < i ==> !FatalAt(lins[j], lvl, idx)
      invariant forall r :: r in rules <==> exists j, lvl: nat :: 0 <= j < i && Candidate(lins[j], lvl, idx) == Some(r)
    {
      var row := RowRules(lins[i], idx, rules);
      if row.Err? {
        return row;
      }
      rules := row.value;
      i := i + 1;
    }
    res := Ok(rules);
  }

  /** The rank depth of a rule: the `length` field, the number of `;` in
      `current`. */
  function Depth(r: Rule): nat {
    CountChar(r.current, ';')
  }

  /** A rule derived at level lvl has depth lvl below species (lvl
      separators plus the anchor) and lvl at species and beyond. */
  lemma DerivedRuleDepth(lin: string, lvl: nat, idx: map<(nat, string), string>)
    requires Candidate(lin, lvl, idx).Some?
    ensures Depth(Candidate(lin, lvl, idx).value) == lvl + (if lvl < 6 then 1 else 0)
  {
    var parts := Split(lin, ";");
    SplitPiecesFree(lin, ";");
    var pre := parts[..lvl + 1];
    assert forall k :: 0 <= k < |pre| ==> !Contains(pre[k], [';']) by {
      forall k | 0 <= k < |pre| ensures !Contains(pre[k], [';']) {
        assert pre[k] == parts[k];
      }
    }
    CountJoin(pre, ';');
    CountCharConcat(Join(";", pre), Anchor(lvl), ';');
    assert CountChar(";", ';') == 1 by {
      assert ";"[1..] == "";
    }
  }

  /** The lineage a rule was derived from starts with the rule's
      `current`, provided the prefix is followed by more levels or the rule
      is unanchored. (Below species, a rule derived from the last level of
      a short lineage ends in an anchor `;` the lineage itself lacks.) */
  lemma DerivedRulePrefix(lin: string, lvl: nat, idx: map<(nat, string), string>) returns (rest: string)
    requires Candidate(lin, lvl, idx).Some?
    requires lvl + 1 < |Split(lin, ";")| || lvl >= 6
    ensures lin == Candidate(lin, lvl, idx).value.current + rest
  {
    var parts := Split(lin, ";");
    assert Candidate(lin, lvl, idx).value.current == Join(";", parts[..lvl + 1]) + Anchor(lvl);
    JoinSplit(lin, ";");
    rest := JoinedPrefix(parts, lvl + 1, lvl < 6);
  }

  /** A `;`-join starts with the join of its first n pieces, followed by a
      `;` when more pieces follow. */
  lemma JoinedPrefix(parts: seq<string>, n: nat, anchored: bool) returns (rest: string)
    requires 0 < n <= |parts|
    requires anchored ==> n < |parts|
    ensures Join(";", parts) == Join(";", parts[..n]) + (if anchored then ";" else "") + rest
  {
    if n < |parts| {
      JoinPrefix(parts, ";", n);
      rest := if anchored then Join(";", parts[n..]) else ";" + Join(";", parts[n..]);
    } else {
      assert parts[..n] == parts;
      rest := "";
    }
  }

  /** A derived rule applied to the lineage it came from rewrites that
      lineage's own prefix to the indexed prefix, under the same proviso. */
  lemma DerivedRuleRewritesOrigin(lin: string, lvl: nat, idx: map<(nat, string), string>)
    requires Candidate(lin, lvl, idx).Some?
    requires lvl + 1 < |Split(lin, ";")| || lvl >= 6
    ensures StartsWith(lin, Candidate(lin, lvl, idx).value.current)
    ensures var r := Candidate(lin, lvl, idx).value;
      ApplyRule(r, lin) == r.target + Replace(lin[|r.current|..], r.current, r.target)
  {
    var r := Candidate(lin, lvl, idx).value;
    var rest := DerivedRulePrefix(lin, lvl, idx);
    DerivedRuleDepth(lin, lvl, idx);
    assert r.current != [];
    RuleAtStart(r, lin, rest);
  }

  /** A rule whose non-empty current name opens the lineage replaces that
      prefix, then every later occurrence. */
  lemma RuleAtStart(r: Rule, lin: string, rest: string)
    requires r.current != [] && lin == r.current + rest
    ensures StartsWith(lin, r.current)
    ensures ApplyRule(r, lin) == r.target + Replace(lin[|r.current|..], r.current, r.target)
  {
    assert [] + r.current + rest == lin;
    ReplaceLeftmost([], r.current, r.target, rest);
    assert lin[|r.current|..] == rest;
    assert lin[..|r.current|] == r.current;
    ApplyRuleIsReplace(r, lin);
  }

  // ---------------------------------------------------------------------
  // Ordering by specificity: `sorted(key=length, reverse=True)`, a stable
  // sort, so rules of equal depth keep their relative order.

  /** The rules of depth d, in order. */
  function AtDepth(rules: seq<Rule>, d: nat): seq<Rule>
    decreases |rules|
  {
    if |rules| == 0 then []
    else (if Depth(rules[0]) == d then [rules[0]] else []) + AtDepth(rules[1..], d)
  }

  predicate SortedBySpecificity(rules: seq<Rule>) {
    forall i, j :: 0 <= i < j < |rules| ==> Depth(rules[i]) >= Depth(rules[j])
  }

  /** Place r after every rule at least as deep. */
  function Insert(rules: seq<Rule>, r: Rule): seq<Rule>
    decreases |rules|
  {
    if |rules| == 0 then [r]
    else if Depth(rules[0]) < Depth(r) then [r] + rules
    else [rules[0]] + Insert(rules[1..], r)
  }

  function SortBySpecificity(rules: seq<Rule>): seq<Rule>
    decreases |rules|
  {
    if |rules| == 0 then [] else Insert(SortBySpecificity(rules[..|rules| - 1]), rules[|rules| - 1])
  }

  lemma {:induction false} AtDepthConcat(a: seq<Rule>, b: seq<Rule>, d: nat)
    ensures AtDepth(a + b, d) == AtDepth(a, d) + AtDepth(b, d)
    decreases |a|
  {
    if |a| == 0 {
      assert a + b == b;
    } else {
      var h := if Depth(a[0]) == d then [a[0]] else [];
      assert (a + b)[1..] == a[1..] + b;
      assert (a + b)[0] == a[0];
      assert AtDepth(a + b, d) == h + AtDepth(a[1..] + b, d);
      AtDepthConcat(a[1..], b, d);
      assert h + (AtDepth(a[1..], d) + AtDepth(b, d)) == (h + AtDepth(a[1..], d)) + AtDepth(b, d);
    }
  }

  lemma {:induction false} AtDepthNone(rules: seq<Rule>, d: nat)
    requires forall i :: 0 <= i < |rules| ==> Depth(rules[i]) < d
    ensures AtDepth(rules, d) == []
    decreases |rules|
  {
    if |rules| > 0 {
      AtDepthNone(rules[1..], d);
    }
  }

  lemma {:induction false} InsertSorted(rules: seq<Rule>, r: Rule)
    requires SortedBySpecificity(rules)
    ensures SortedBySpecificity(Insert(rules, r))
    decreases |rules|
  {
    if |rules| > 0 && Depth(rules[0]) >= Depth(r) {
      var tail := rules[1..];
      InsertSorted(tail, r);
      InsertMultiset(tail, r);
      var ins := Insert(tail, r);
      forall j | 0 <= j < |ins| ensures Depth(rules[0]) >= Depth(ins[j]) {
        assert ins[j] in multiset(tail) + multiset{r};
      }
      assert Insert(rules, r) == [rules[0]] + ins;
      SortedCons(rules[0], ins);
    }
  }

  lemma SortedCons(x: Rule, rules: seq<Rule>)
    requires SortedBySpecificity(rules)
    requires forall j :: 0 <= j < |rules| ==> Depth(x) >= Depth(rules[j])
    ensures SortedBySpecificity([x] + rules)
  {
    var out := [x] + rules;
    forall i, j | 0 <= i < j < |out| ensures Depth(out[i]) >= Depth(out[j]) {
      assert out[j] == rules[j - 1];
      if i > 0 {
        assert out[i] == rules[i - 1];
      }
    }
  }

  lemma {:induction false} InsertMultiset(rules: seq<Rule>, r: Rule)
    ensures multiset(Insert(rules, r)) == multiset(rules) + multiset{r}
    decreases |rules|
  {
    if |rules| > 0 && Depth(rules[0]) >= Depth(r) {
      InsertMultiset(rules[1..], r);
      assert rules == [rules[0]] + rules[1..];
    }
  }

  lemma {:induction false} InsertAtDepth(rules: seq<Rule>, r: Rule, d: nat)
    requires SortedBySpecificity(rules)
    ensures AtDepth(Insert(rules, r), d) == AtDepth(rules, d) + (if Depth(r) == d then [r] else [])
    decreases |rules|
  {
    var extra := if Depth(r) == d then [r] else [];
    if |rules| == 0 {
    } else if Depth(rules[0]) < Depth(r) {
      assert ([r] + rules)[1..] == rules;
      if Depth(r) == d {
        forall i | 0 <= i < |rules| ensures Depth(rules[i]) < d {
          assert Depth(rules[0]) >= Depth(rules[i]) || i == 0;
        }
        AtDepthNone(rules, d);
      }
    } else {
      var tail := rules[1..];
      var head := if Depth(rules[0]) == d then [rules[0]] else [];
      assert SortedBySpecificity(tail) by {
        forall i, j | 0 <= i < j < |tail| ensures Depth(tail[i]) >= Depth(tail[j]) {
          assert tail[i] == rules[i + 1] && tail[j] == rules[j + 1];
        }
      }
      InsertAtDepth(tail, r, d);
      var ins := Insert(tail, r);
      assert Insert(rules, r) == [rules[0]] + ins;
      assert ([rules[0]] + ins)[1..] == ins;
      assert AtDepth(Insert(rules, r), d) == head + AtDepth(ins, d);
      assert AtDepth(rules, d) == head + AtDepth(tail, d);
      assert head + (AtDepth(tail, d) + extra) == (head + AtDepth(tail, d)) + extra;
    }
  }

  /** The derived rules in the order they are applied: deepest first,
      equal depths in their original order, nothing added or lost. */
  lemma {:induction false} SortSorted(rules: seq<Rule>)
    ensures SortedBySpecificity(SortBySpecificity(rules))
    ensures multiset(SortBySpecificity(rules)) == multiset(rules)
    decreases |rules|
  {
    if |rules| > 0 {
      var init := rules[..|rules| - 1];
      SortSorted(init);
      InsertSorted(SortBySpecificity(init), rules[|rules| - 1]);
      InsertMultiset(SortBySpecificity(init), rules[|rules| - 1]);
      InitLast(rules);
    }
  }

  /** Stability: the rules of each depth keep their relative order. */
  lemma {:induction false} SortStable(rules: seq<Rule>, d: nat)
    ensures AtDepth(SortBySpecificity(rules), d) == AtDepth(rules, d)
    decreases |rules|
  {
    if |rules| > 0 {
      var init := rules[..|rules| - 1];
      var last := rules[|rules| - 1];
      SortStable(init, d);
      SortSorted(init);
      InsertAtDepth(SortBySpecificity(init), last, d);
      InitLast(rules);
      AtDepthConcat(init, [last], d);
      assert [last][1..] == [];
      assert AtDepth([last], d) == if Depth(last) == d then [last] else [];
    }
  }

  lemma InitLast(rules: seq<Rule>)
    requires |rules| > 0
    ensures rules == rules[..|rules| - 1] + [rules[|rules| - 1]]
  {
  }

  // ---------------------------------------------------------------------
  // Rule application.

  /** `renamer`: `lin.replace(old, new)` when `old in lin`. */
  function ApplyRule(r: Rule, lin: string): string {
    if Contains(lin, r.current) then Replace(lin, r.current, r.target) else lin
  }

  /** The `in` guard of the renamer changes nothing: applying a rule is
      replacing every occurrence, and a lineage without `current` comes out
      unchanged. */
  lemma ApplyRuleIsReplace(r: Rule, lin: string)
    ensures ApplyRule(r, lin) == Replace(lin, r.current, r.target)
  {
    if !Contains(lin, r.current) {
      ReplaceAbsent(lin, r.current, r.target);
    }
  }

  /** A lineage after every rule of the list, in list order. */
  function RewriteAll(rules: seq<Rule>, lin: string): string
    decreases |rules|
  {
    if |rules| == 0 then lin else ApplyRule(rules[|rules| - 1], RewriteAll(rules[..|rules| - 1], lin))
  }

  /** Applying `a + b` is applying all of `a`, then all of `b`: the derived
      rules are exhausted before the curated renames run. */
  lemma {:induction false} RewriteAllConcat(a: seq<Rule>, b: seq<Rule>, lin: string)
    ensures RewriteAll(a + b, lin) == RewriteAll(b, RewriteAll(a, lin))
    decreases |b|
  {
    if |b| == 0 {
      assert a + b == a;
    } else {
      assert (a + b)[..|a + b| - 1] == a + b[..|b| - 1];
      RewriteAllConcat(a, b[..|b| - 1], lin);
    }
  }

  /** A second pass of the same rules can change a rewritten lineage: the
      rules are not idempotent in general, even when sorted by depth. */
  lemma RewriteNotIdempotent()
    ensures var rules := [Rule("B;", "C;"), Rule("A;", "B;")];
      && SortBySpecificity(rules) == rules
      && RewriteAll(rules, "A;") == "B;"
      && RewriteAll(rules, RewriteAll(rules, "A;")) == "C;"
  {
    var r1 := Rule("B;", "C;");
    var r2 := Rule("A;", "B;");
    var rules := [r1, r2];
    assert Depth(r1) == 1 && Depth(r2) == 1 by {
      assert "B;"[1..] == ";" && "A;"[1..] == ";" && ";"[1..] == "";
    }
    assert rules[..1] == [r1] && [r1][..0] == [];
    assert SortBySpecificity([r1]) == [r1];
    assert SortBySpecificity(rules) == Insert([r1], r2);
    assert [r1][1..] == [];
    assert Insert([r1], r2) == [r1] + [r2];
    ExampleSteps();
    TwoRules(r1, r2, "A;");
    TwoRules(r1, r2, "B;");
  }

  /** The four single-rule steps of the example. */
  lemma ExampleSteps()
    ensures ApplyRule(Rule("B;", "C;"), "A;") == "A;"
    ensures ApplyRule(Rule("A;", "B;"), "A;") == "B;"
    ensures ApplyRule(Rule("B;", "C;"), "B;") == "C;"
    ensures ApplyRule(Rule("A;", "B;"), "C;") == "C;"
  {
    assert "A;"[1..] == ";" && "B;"[1..] == ";" && "C;"[1..] == ";" && ";"[1..] == "";
    assert !Contains("A;", "B;") && !Contains("C;", "A;");
    ReplaceLeftmost([], "A;", "B;", "");
    assert [] + "A;" + "" == "A;";
    ReplaceLeftmost([], "B;", "C;", "");
    assert [] + "B;" + "" == "B;";
    assert Replace("", "A;", "B;") == "" && Replace("", "B;", "C;") == "";
  }

  /** RewriteAll over a two-rule list, as two steps. */
  lemma TwoRules(r1: Rule, r2: Rule, lin: string)
    ensures RewriteAll([r1, r2], lin) == ApplyRule(r2, ApplyRule(r1, lin))
  {
    assert [r1, r2][..1] == [r1] && [r1][..0] == [];
    assert RewriteAll([r1], lin) == ApplyRule(r1, lin);
  }

  /** The bulk rename loop: each rule in turn, over every record's
      lineage. Every record ends with its lineage rewritten by the whole
      list, in order; ids and the explicitly-set flags are unchanged. */
  method ApplyRules(t: seq<LtpEntry>, rules: seq<Rule>) returns (out: seq<LtpEntry>)
    ensures |out| == |t|
    ensures forall k :: 0 <= k < |t| ==> out[k] == t[k].(lineage := RewriteAll(rules, t[k].lineage))
  {
    out := t;
    var i := 0;
    while i < |rules|
      invariant 0 <= i <= |rules| && |out| == |t|
      invariant forall k :: 0 <= k < |t| ==> out[k] == t[k].(lineage := RewriteAll(rules[..i], t[k].lineage))
    {
      assert rules[..i + 1][..i] == rules[..i];
      var k := 0;
      while k < |out|
        invariant 0 <= k <= |out| && |out| == |t|
        invariant forall q :: 0 <= q < k ==> out[q] == t[q].(lineage := RewriteAll(rules[..i + 1], t[q].lineage))
        invariant forall q :: k <= q < |t| ==> out[q] == t[q].(lineage := RewriteAll(rules[..i], t[q].lineage))
      {
        out := out[k := out[k].(lineage := ApplyRule(rules[i], out[k].lineage))];
        k := k + 1;
      }
      i := i + 1;
    }
    assert rules[..|rules|] == rules;
  }

  // ---------------------------------------------------------------------
  // Dropping records: `ltp_tax.loc[set(ltp_tax.index) - LTP_TO_DROP]`.

  /** The records whose id is not to be dropped, in table order. */
  function Kept(t: seq<LtpEntry>, drop: set<string>): (out: seq<LtpEntry>)
    ensures forall e :: e in out <==> e in t && e.id !in drop
    ensures |out| <= |t|
    decreases |t|
  {
    if |t| == 0 then []
    else (if t[0].id in drop then [] else [t[0]]) + Kept(t[1..], drop)
  }

  // ---------------------------------------------------------------------
  // The whole adjustment.

  /** The explicit lineage an id receives, if any: incertae sedis first,
      then a unique GTDB species match, then a manual remapping. */
  function MappedLineage(rows: seq<LtpRow>, manual: Dict, gtdbUnique: map<string, string>, incertae: Dict, k: string): Option<string> {
    FirstOf(Lookup(incertae, k), FirstOf(LastUniqueHit(rows, gtdbUnique, k), Lookup(manual, k)))
  }

  /** The lineage input record k carries after the overrides: its
      explicit lineage if it has one, else its prepared lineage. */
  function OverriddenLineage(rows: seq<LtpRow>, manual: Dict, gtdbUnique: map<string, string>, incertae: Dict, k: nat): string
    requires k < |rows|
  {
    match MappedLineage(rows, manual, gtdbUnique, incertae, rows[k].id)
    case Some(v) => v
    case None => PreparedLineage(rows[k])
  }

  /** An id the overrides add as a new row: it has an explicit lineage and
      is no input record's id. */
  predicate AddedId(rows: seq<LtpRow>, manual: Dict, gtdbUnique: map<string, string>, incertae: Dict, id: string) {
    && MappedLineage(rows, manual, gtdbUnique, incertae, id).Some?
    && forall k :: 0 <= k < |rows| ==> rows[k].id != id
  }

  /** Some lineage of the table after the overrides, an input record's or
      an added row's, yields a fatal rule at some level. */
  ghost predicate SomeLineageFatal(rows: seq<LtpRow>, manual: Dict, gtdbUnique: map<string, string>, incertae: Dict,
                                   idx: map<(nat, string), string>) {
    || (exists k, lvl: nat :: 0 <= k < |rows| && FatalAt(OverriddenLineage(rows, manual, gtdbUnique, incertae, k), lvl, idx))
    || (exists id, lvl: nat :: AddedId(rows, manual, gtdbUnique, incertae, id) &&
          FatalAt(MappedLineage(rows, manual, gtdbUnique, incertae, id).value, lvl, idx))
  }

  /** The rows the overrides add are exactly the entries of d whose key is
      no id of the base, each explicitly set to its value. */
  lemma {:induction false} EnlargedRows(d: Dict, base: seq<LtpEntry>)
    ensures forall e :: e in Enlarged(d, base) <==>
      exists i :: 0 <= i < |d| && !IdIn(base, d[i].0) && e == LtpEntry(d[i].0, d[i].1, true)
    decreases |d|
  {
    if |d| > 0 {
      var init := d[..|d| - 1];
      EnlargedRows(init, base);
      forall e ensures e in Enlarged(d, base) <==>
        exists i :: 0 <= i < |d| && !IdIn(base, d[i].0) && e == LtpEntry(d[i].0, d[i].1, true) {
        if exists i :: 0 <= i < |d| && !IdIn(base, d[i].0) && e == LtpEntry(d[i].0, d[i].1, true) {
          var i :| 0 <= i < |d| && !IdIn(base, d[i].0) && e == LtpEntry(d[i].0, d[i].1, true);
          if i < |d| - 1 {
            assert init[i] == d[i];
          }
        }
        if e in Enlarged(init, base) {
          var i :| 0 <= i < |init| && !IdIn(base, init[i].0) && e == LtpEntry(init[i].0, init[i].1, true);
          assert d[i] == init[i];
        }
      }
    }
  }

  /** The state ApplyOverrides leaves, for the mappings m built from rows. */
  ghost predicate AfterOverrides(rows: seq<LtpRow>, manual: Dict, gtdbUnique: map<string, string>, incertae: Dict,
                                 m: Dict, prepared: seq<(string, string)>, t: seq<LtpEntry>) {
    && KeysUnique(m)
    && (forall k :: Lookup(m, k) == MappedLineage(rows, manual, gtdbUnique, incertae, k))
    && |prepared| == |rows|
    && (forall k :: 0 <= k < |rows| ==> prepared[k] == (rows[k].id, PreparedLineage(rows[k])))
    && |t| >= |prepared|
    && (forall r :: 0 <= r < |prepared| ==>
          t[r] == Overridden(LtpEntry(prepared[r].0, prepared[r].1, false), Lookup(m, prepared[r].0)))
    && t[|prepared|..] == Enlarged(m, Unset(prepared))
  }

  /** A row past the input records is an added id with its explicit lineage. */
  lemma AddedRow(rows: seq<LtpRow>, manual: Dict, gtdbUnique: map<string, string>, incertae: Dict,
                 m: Dict, prepared: seq<(string, string)>, t: seq<LtpEntry>, q: nat)
    requires AfterOverrides(rows, manual, gtdbUnique, incertae, m, prepared, t)
    requires |rows| <= q < |t|
    ensures AddedId(rows, manual, gtdbUnique, incertae, t[q].id)
    ensures MappedLineage(rows, manual, gtdbUnique, incertae, t[q].id) == Some(t[q].lineage)
  {
    var base := Unset(prepared);
    EnlargedRows(m, base);
    assert t[q] in Enlarged(m, base) by {
      assert t[q] == t[|prepared|..][q - |prepared|];
    }
    var i :| 0 <= i < |m| && !IdIn(base, m[i].0) && t[q] == LtpEntry(m[i].0, m[i].1, true);
    LookupAt(m, m[i].0, i);
    forall k | 0 <= k < |rows| ensures rows[k].id != t[q].id {
      assert base[k].id == rows[k].id;
    }
  }

  /** Every added id has a row past the input records, carrying its
      explicit lineage. */
  lemma AddedIdRow(rows: seq<LtpRow>, manual: Dict, gtdbUnique: map<string, string>, incertae: Dict,
                   m: Dict, prepared: seq<(string, string)>, t: seq<LtpEntry>, id: string) returns (q: nat)
    requires AfterOverrides(rows, manual, gtdbUnique, incertae, m, prepared, t)
    requires AddedId(rows, manual, gtdbUnique, incertae, id)
    ensures |rows| <= q < |t| && t[q].lineage == MappedLineage(rows, manual, gtdbUnique, incertae, id).value
  {
    var base := Unset(prepared);
    assert HasKey(m, id) by {
      if !HasKey(m, id) {
        LookupAbsent(m, id);
      }
    }
    var i :| 0 <= i < |m| && m[i].0 == id;
    LookupAt(m, id, i);
    EnlargedRows(m, base);
    var e := LtpEntry(id, m[i].1, true);
    assert e in t[|prepared|..];
    var r :| 0 <= r < |t[|prepared|..]| && t[|prepared|..][r] == e;
    q := |prepared| + r;
    assert t[q] == e;
  }

  /** The lineages of the table after the overrides yield a fatal rule iff
      SomeLineageFatal holds. */
  lemma OverriddenFatal(rows: seq<LtpRow>, manual: Dict, gtdbUnique: map<string, string>, incertae: Dict,
                        idx: map<(nat, string), string>, m: Dict, prepared: seq<(string, string)>, t: seq<LtpEntry>,
                        lins: seq<string>)
    requires AfterOverrides(rows, manual, gtdbUnique, incertae, m, prepared, t)
    requires |lins| == |t| && forall q :: 0 <= q < |t| ==> lins[q] == t[q].lineage
    ensures (exists q, lvl: nat :: 0 <= q < |lins| && FatalAt(lins[q], lvl, idx)) <==>
      SomeLineageFatal(rows, manual, gtdbUnique, incertae, idx)
  {
    if exists q, lvl: nat :: 0 <= q < |lins| && FatalAt(lins[q], lvl, idx) {
      var q, lvl: nat :| 0 <= q < |lins| && FatalAt(lins[q], lvl, idx);
      if q < |rows| {
        assert lins[q] == OverriddenLineage(rows, manual, gtdbUnique, incertae, q);
      } else {
        AddedRow(rows, manual, gtdbUnique, incertae, m, prepared, t, q);
        assert FatalAt(MappedLineage(rows, manual, gtdbUnique, incertae, t[q].id).value, lvl, idx);
      }
    }
    if SomeLineageFatal(rows, manual, gtdbUnique, incertae, idx) {
      if exists k, lvl: nat :: 0 <= k < |rows| && FatalAt(OverriddenLineage(rows, manual, gtdbUnique, incertae, k), lvl, idx) {
        var k, lvl: nat :| 0 <= k < |rows| && FatalAt(OverriddenLineage(rows, manual, gtdbUnique, incertae, k), lvl, idx);
        assert lins[k] == OverriddenLineage(rows, manual, gtdbUnique, incertae, k);
      } else {
        var id, lvl: nat :| AddedId(rows, manual, gtdbUnique, incertae, id) &&
          FatalAt(MappedLineage(rows, manual, gtdbUnique, incertae, id).value, lvl, idx);
        var q := AddedIdRow(rows, manual, gtdbUnique, incertae, m, prepared, t, id);
        assert FatalAt(lins[q], lvl, idx);
      }
    }
  }

  lemma LookupHasKey(d: Dict, k: string)
    requires KeysUnique(d) && HasKey(d, k)
    ensures Lookup(d, k).Some?
  {
    var i :| 0 <= i < |d| && d[i].0 == k;
    LookupAt(d, k, i);
  }

  /** adjust_ltp without the per-record patches and the rules dump. It
      fails iff some lineage after the overrides yields a fatal rewrite. On success no record
      of a dropped id is left, every other input record is still present,
      and a record is explicitly set iff its id has an explicit lineage. */
  method AdjustLtp(rows: seq<LtpRow>, manual: Dict, gtdbUnique: map<string, string>, incertae: Dict,
                   idx: map<(nat, string), string>, renames: seq<Rule>, drop: set<string>)
    returns (res: Result<seq<LtpEntry>>)
    requires KeysUnique(manual)
    ensures res.Err? <==> SomeLineageFatal(rows, manual, gtdbUnique, incertae, idx)
    ensures res.Err? ==> res.error == ValueError("")
    ensures res.Ok? ==> forall e :: e in res.value ==> e.id !in drop
    ensures res.Ok? ==> forall k :: 0 <= k < |rows| && rows[k].id !in drop ==>
      exists e :: e in res.value && e.id == rows[k].id
    ensures res.Ok? ==> forall e :: e in res.value ==>
      (e.explicitlySet <==> MappedLineage(rows, manual, gtdbUnique, incertae, e.id).Some?)
  {
    var m := BuildMappings(rows, manual, gtdbUnique, incertae);
    var prepared := seq(|rows|, k requires 0 <= k < |rows| => (rows[k].id, PreparedLineage(rows[k])));
    var t := ApplyOverrides(prepared, m);
    // Every record of t has the right flag and keeps its id.
    assert forall q :: 0 <= q < |t| ==>
      (t[q].explicitlySet <==> Lookup(m, t[q].id).Some?) by {
      EnlargedIds(m, Unset(prepared));
      forall q | 0 <= q < |t| ensures t[q].explicitlySet <==> Lookup(m, t[q].id).Some? {
        if q >= |prepared| {
          assert t[q] == Enlarged(m, Unset(prepared))[q - |prepared|];
          LookupHasKey(m, t[q].id);
        } else if Lookup(m, prepared[q].0).Some? {
          assert t[q].id == prepared[q].0 && t[q].explicitlySet;
        } else {
          assert t[q].id == prepared[q].0 && !t[q].explicitlySet;
        }
      }
    }
    var lins := seq(|t|, q requires 0 <= q < |t| => t[q].lineage);
    var derived := DeriveRules(lins, idx);
    assert AfterOverrides(rows, manual, gtdbUnique, incertae, m, prepared, t);
    OverriddenFatal(rows, manual, gtdbUnique, incertae, idx, m, prepared, t, lins);
    if derived.Err? {
      return Err(derived.error);
    }
    var t2 := ApplyRules(t, SortBySpecificity(derived.value) + renames);
    var out := Kept(t2, drop);
    forall e | e in out ensures e.explicitlySet <==> MappedLineage(rows, manual, gtdbUnique, incertae, e.id).Some? {
      var q :| 0 <= q < |t2| && t2[q] == e;
    }
    forall k | 0 <= k < |rows| && rows[k].id !in drop ensures exists e :: e in out && e.id == rows[k].id {
      assert t2[k] in out;
    }
    res := Ok(out);
  }
}
