/** The two indexes built from GTDB metadata in gg2/backbone_taxonomy.py:
    the NCBI-name to GTDB-prefix index that drives rule derivation
    (ncbi_to_gtdb_mappings) and the table of NCBI species with a single
    GTDB lineage (gtdb_unique_species_mappings). Reading the metadata files
    is not modelled: both work on rows already read. */
module Mappings {
  import opened Wrappers
  import opened PyStr
  import opened Groups

  /** A `;`-split name list; `str.split` never returns an empty list. */
  type Names = s: seq<string> | |s| >= 1 witness [""]

  /** One GTDB metadata row for ncbi_to_gtdb_mappings: the two filter
      columns and both taxonomies with their rank prefixes removed. */
  datatype GtdbRecord = GtdbRecord(representative: string, ncbiTypeMaterial: string, ncbi: Names, gtdb: Names)

  /** The row filter: a representative genome with NCBI type material. */
  predicate Trusted(r: GtdbRecord) {
    r.representative == "t" && r.ncbiTypeMaterial != "none"
  }

  type Key = (nat, string)

  function Last(s: Names): string {
    s[|s| - 1]
  }

  /** What one level of one row offers the index: the key (level, NCBI name)
      and the GTDB prefix through that level. Empty names offer nothing, and
      at species only rows whose NCBI and GTDB species agree offer one. */
  function Contrib(r: GtdbRecord, lvl: nat): Option<(Key, string)> {
    if lvl < |r.ncbi| && r.ncbi[lvl] != "" && (lvl != 6 || Last(r.ncbi) == Last(r.gtdb)) then
      var n := if lvl + 1 <= |r.gtdb| then lvl + 1 else |r.gtdb|;
      Some(((lvl, r.ncbi[lvl]), Join(";", r.gtdb[..n])))
    else None
  }

  /** The offers of the levels below `lvl` of one row. */
  ghost function LevelContribs(r: GtdbRecord, lvl: nat): set<(Key, string)> {
    set l | 0 <= l < lvl && Contrib(r, l).Some? :: Contrib(r, l).value
  }

  /** The offers of all rows that pass the filter. */
  ghost function Contribs(rows: seq<GtdbRecord>): set<(Key, string)>
    decreases |rows|
  {
    if |rows| == 0 then {}
    else
      var last := rows[|rows| - 1];
      Contribs(rows[..|rows| - 1]) + (if Trusted(last) then LevelContribs(last, |last.ncbi|) else {})
  }

  lemma LevelContribsNext(r: GtdbRecord, lvl: nat)
    ensures LevelContribs(r, lvl + 1) ==
      LevelContribs(r, lvl) + (if Contrib(r, lvl).Some? then {Contrib(r, lvl).value} else {})
  {
  }

  lemma ContribsNext(rows: seq<GtdbRecord>, i: nat)
    requires i < |rows|
    ensures Contribs(rows[..i + 1]) ==
      Contribs(rows[..i]) + (if Trusted(rows[i]) then LevelContribs(rows[i], |rows[i].ncbi|) else {})
  {
    assert rows[..i + 1][..i] == rows[..i];
  }

  /** The offers are exactly the offers of trusted rows at their levels. */
  lemma {:induction false} ContribsIff(rows: seq<GtdbRecord>, p: (Key, string))
    ensures p in Contribs(rows) <==>
      exists i, lvl: nat :: 0 <= i < |rows| && Trusted(rows[i]) && Contrib(rows[i], lvl) == Some(p)
    decreases |rows|
  {
    if |rows| > 0 {
      var init := rows[..|rows| - 1];
      ContribsIff(init, p);
      if exists i, lvl: nat :: 0 <= i < |rows| && Trusted(rows[i]) && Contrib(rows[i], lvl) == Some(p) {
        var i, lvl: nat :| 0 <= i < |rows| && Trusted(rows[i]) && Contrib(rows[i], lvl) == Some(p);
        if i < |rows| - 1 {
          assert init[i] == rows[i];
        } else {
          assert lvl < |rows[i].ncbi|;
          assert p in LevelContribs(rows[i], |rows[i].ncbi|);
        }
      }
      if p in Contribs(init) {
        var i, lvl: nat :| 0 <= i < |init| && Trusted(init[i]) && Contrib(init[i], lvl) == Some(p);
        assert rows[i] == init[i];
      }
    }
  }

  /** Every offer for key k names the same prefix, and there is one. */
  ghost predicate Agreed(c: set<(Key, string)>, k: Key) {
    && (exists v :: (k, v) in c)
    && (forall v, w :: (k, v) in c && (k, w) in c ==> v == w)
  }

  /** The state of the loop: `mappings` holds the first prefix offered for
      every key seen, and `drop` the keys offered two different prefixes. */
  ghost predicate Tracks(mappings: map<Key, string>, drop: set<Key>, seen: set<(Key, string)>) {
    && (forall p :: p in seen ==> p.0 in mappings)
    && (forall k :: k in mappings ==> (k, mappings[k]) in seen)
    && (forall k, v :: (k, v) in seen && k !in drop ==> k in mappings && mappings[k] == v)
    && (forall k :: k in drop ==> k in mappings && exists v :: (k, v) in seen && v != mappings[k])
  }

  /** One offer: `if mappings.get(key, remap) != remap: drop.add(key)
      else: mappings[key] = remap`. */
  lemma OfferStep(mappings: map<Key, string>, drop: set<Key>, seen: set<(Key, string)>, k: Key, v: string)
    requires Tracks(mappings, drop, seen)
    ensures k in mappings && mappings[k] != v ==> Tracks(mappings, drop + {k}, seen + {(k, v)})
    ensures !(k in mappings && mappings[k] != v) ==> Tracks(mappings[k := v], drop, seen + {(k, v)})
  {
  }

  /** ncbi_to_gtdb_mappings: a key is kept iff some trusted row offers it
      and every offer for it names the same prefix, and it maps to that
      prefix. */
  method NcbiToGtdb(rows: seq<GtdbRecord>) returns (m: map<Key, string>)
    ensures forall k :: k in m <==> Agreed(Contribs(rows), k)
    ensures forall k :: k in m ==> (k, m[k]) in Contribs(rows)
  {
    var mappings: map<Key, string> := map[];
    var drop: set<Key> := {};
    ghost var seen: set<(Key, string)> := {};
    var i := 0;
    while i < |rows|
      invariant 0 <= i <= |rows|
      invariant Tracks(mappings, drop, seen)
      invariant seen == Contribs(rows[..i])
    {
      ContribsNext(rows, i);
      var r := rows[i];
      if Trusted(r) {
        var lvl := 0;
        while lvl < |r.ncbi|
          invariant 0 <= lvl <= |r.ncbi|
          invariant Tracks(mappings, drop, seen)
          invariant seen == Contribs(rows[..i]) + LevelContribs(r, lvl)
        {
          var c := Contrib(r, lvl);
          if c.Some? {
            var k := c.value.0;
            var remap := c.value.1;
            OfferStep(mappings, drop, seen, k, remap);
            if k in mappings && mappings[k] != remap {
              drop := drop + {k};
            } else {
              mappings := mappings[k := remap];
            }
            seen := seen + {c.value};
          }
          LevelContribsNext(r, lvl);
          lvl := lvl + 1;
        }
      }
      i := i + 1;
    }
    assert rows[..|rows|] == rows;
    m := mappings - drop;
    forall k | Agreed(seen, k) ensures k in m {
    }
  }

  // ---------------------------------------------------------------------
  // gtdb_unique_species_mappings

  /** One GTDB metadata row for gtdb_unique_species_mappings: the two raw
      taxonomy strings. */
  datatype TaxonomyRow = TaxonomyRow(ncbiTaxonomy: string, gtdbTaxonomy: string)

  /** `ncbi_taxonomy.split(';')[-1].strip().split('__', 1)[1]`; None where
      Python raises IndexError. */
  function NcbiSpecies(tax: string): Option<string> {
    var parts := Split(tax, ";");
    AfterFirst(Strip(parts[|parts| - 1]), "__")
  }

  /** One name without its rank prefix, stripped: `n.split('__', 1)[1].strip()`,
      None where Python raises IndexError. */
  function StripName(name: string): Option<string> {
    match AfterFirst(name, "__")
    case None => None
    case Some(n) => Some(Strip(n))
  }

  /** Each element through f, in order, or None as soon as one fails: a list
      comprehension whose body may raise. */
  function AllOf<T, U>(xs: seq<T>, f: T -> Option<U>): Option<seq<U>>
    decreases |xs|
  {
    if |xs| == 0 then Some([])
    else
      match f(xs[0])
      case None => None
      case Some(y) =>
        match AllOf(xs[1..], f)
        case None => None
        case Some(rest) => Some([y] + rest)
  }

  /** The comprehension fails iff some element fails, and otherwise holds
      each element's result in place. */
  lemma {:induction false} AllOfSpec<T, U>(xs: seq<T>, f: T -> Option<U>)
    ensures AllOf(xs, f).Some? <==> forall k :: 0 <= k < |xs| ==> f(xs[k]).Some?
    ensures AllOf(xs, f).Some? ==> |AllOf(xs, f).value| == |xs|
    ensures AllOf(xs, f).Some? ==> forall k :: 0 <= k < |xs| ==> AllOf(xs, f).value[k] == f(xs[k]).value
    decreases |xs|
  {
    if |xs| > 0 {
      var tail := xs[1..];
      AllOfSpec(tail, f);
      assert forall k :: 0 < k < |xs| ==> xs[k] == tail[k - 1];
      if f(xs[0]).Some? && AllOf(tail, f).None? {
        var k :| 0 <= k < |tail| && f(tail[k]).None?;
        assert xs[k + 1] == tail[k];
      }
      if AllOf(xs, f).Some? {
        var out := [f(xs[0]).value] + AllOf(tail, f).value;
        assert AllOf(xs, f).value == out;
        forall k | 0 < k < |xs| ensures out[k] == f(xs[k]).value {
          assert out[k] == AllOf(tail, f).value[k - 1];
        }
      }
    }
  }

  /** Every name without its rank prefix, stripped; None if some name has
      no `__`. */
  function StripNames(names: seq<string>): Option<seq<string>> {
    AllOf(names, StripName)
  }

  /** The names come out one for one, each without its prefix and
      stripped, and the whole fails iff some name has no `__`. */
  lemma StripNamesSpec(names: seq<string>)
    ensures StripNames(names).Some? <==> forall k :: 0 <= k < |names| ==> AfterFirst(names[k], "__").Some?
    ensures StripNames(names).Some? ==> |StripNames(names).value| == |names|
    ensures StripNames(names).Some? ==>
      forall k :: 0 <= k < |names| ==> StripNames(names).value[k] == Strip(AfterFirst(names[k], "__").value)
  {
    AllOfSpec(names, StripName);
    assert forall k :: 0 <= k < |names| ==> StripName(names[k]).Some? == AfterFirst(names[k], "__").Some?;
  }

  /** The LTP-style lineage of a GTDB taxonomy: names without rank prefix,
      joined with `;`. */
  function LtpStyle(tax: string): Option<string> {
    match StripNames(Split(tax, ";"))
    case None => None
    case Some(names) => Some(Join(";", names))
  }

  /** Every row's two columns parse. */
  predicate AllParse(rows: seq<TaxonomyRow>) {
    forall i :: 0 <= i < |rows| ==> NcbiSpecies(rows[i].ncbiTaxonomy).Some? && LtpStyle(rows[i].gtdbTaxonomy).Some?
  }

  /** Row i names species sp. */
  predicate OfSpecies(rows: seq<TaxonomyRow>, i: int, sp: string) {
    0 <= i < |rows| && NcbiSpecies(rows[i].ncbiTaxonomy) == Some(sp)
  }

  /** The kept species of the final comprehension: those whose rows all
      carry one lineage. */
  lemma UniqueSpec(species: seq<string>, lins: seq<string>, groups: map<string, set<string>>, unique: map<string, string>)
    requires |lins| == |species|
    requires Grouped(species, lins, groups)
    requires forall sp :: sp in unique <==> sp in groups && |groups[sp]| == 1
    requires forall sp :: sp in unique ==> groups[sp] == {unique[sp]}
    ensures forall sp :: sp in unique <==> OneValue(species, lins, sp)
    ensures forall sp, i :: sp in unique && 0 <= i < |species| && species[i] == sp ==> lins[i] == unique[sp]
  {
    forall sp ensures sp in unique <==> OneValue(species, lins, sp) {
      SingletonIff(species, lins, groups, sp);
    }
    forall sp, a | sp in unique && 0 <= a < |species| && species[a] == sp
      ensures lins[a] == unique[sp]
    {
      SingletonIff(species, lins, groups, sp);
    }
  }

  /** Species sp is named by some row, and all its rows give one lineage. */
  ghost predicate Unambiguous(rows: seq<TaxonomyRow>, sp: string) {
    && (exists i :: OfSpecies(rows, i, sp))
    && (forall i, j :: OfSpecies(rows, i, sp) && OfSpecies(rows, j, sp) ==>
          LtpStyle(rows[i].gtdbTaxonomy) == LtpStyle(rows[j].gtdbTaxonomy))
  }

  /** The columns computed from the rows carry the kept species over to
      the rows themselves. */
  lemma ColumnsSpec(rows: seq<TaxonomyRow>, species: seq<string>, lins: seq<string>, sp: string)
    requires |species| == |rows| == |lins|
    requires forall j :: 0 <= j < |rows| ==> NcbiSpecies(rows[j].ncbiTaxonomy) == Some(species[j])
    requires forall j :: 0 <= j < |rows| ==> LtpStyle(rows[j].gtdbTaxonomy) == Some(lins[j])
    ensures Unambiguous(rows, sp) <==> OneValue(species, lins, sp)
  {
    assert forall i :: OfSpecies(rows, i, sp) <==> 0 <= i < |rows| && species[i] == sp;
  }

  /** The `ncbi_species` column: fails on the first row whose NCBI species
      has no rank prefix. */
  method SpeciesColumn(rows: seq<TaxonomyRow>) returns (res: Result<seq<string>>)
    ensures res.Ok? <==> forall j :: 0 <= j < |rows| ==> NcbiSpecies(rows[j].ncbiTaxonomy).Some?
    ensures res.Ok? ==> |res.value| == |rows|
    ensures res.Ok? ==> forall j :: 0 <= j < |rows| ==> NcbiSpecies(rows[j].ncbiTaxonomy) == Some(res.value[j])
    ensures res.Err? ==> res.error == IndexError("list index out of range")
  {
    var species: seq<string> := [];
    while |species| < |rows|
      invariant |species| <= |rows|
      invariant forall j :: 0 <= j < |species| ==> NcbiSpecies(rows[j].ncbiTaxonomy) == Some(species[j])
    {
      var sp := NcbiSpecies(rows[|species|].ncbiTaxonomy);
      if sp.None? {
        return Err(IndexError("list index out of range"));
      }
      species := species + [sp.value];
    }
    res := Ok(species);
  }

  /** The `ltp_style` lineages of the rows, failing on the first GTDB
      taxonomy name without a rank prefix. */
  method LineageColumn(rows: seq<TaxonomyRow>) returns (res: Result<seq<string>>)
    ensures res.Ok? <==> forall j :: 0 <= j < |rows| ==> LtpStyle(rows[j].gtdbTaxonomy).Some?
    ensures res.Ok? ==> |res.value| == |rows|
    ensures res.Ok? ==> forall j :: 0 <= j < |rows| ==> LtpStyle(rows[j].gtdbTaxonomy) == Some(res.value[j])
    ensures res.Err? ==> res.error == IndexError("list index out of range")
  {
    var lins: seq<string> := [];
    while |lins| < |rows|
      invariant |lins| <= |rows|
      invariant forall j :: 0 <= j < |lins| ==> LtpStyle(rows[j].gtdbTaxonomy) == Some(lins[j])
    {
      var lin := LtpStyle(rows[|lins|].gtdbTaxonomy);
      if lin.None? {
        return Err(IndexError("list index out of range"));
      }
      ghost var before := lins;
      lins := lins + [lin.value];
      assert forall j :: 0 <= j < |before| ==> lins[j] == before[j];
      assert lins[|before|] == lin.value;
    }
    res := Ok(lins);
  }

  /** The rows a species column and a lineage column were computed from
      all parse. */
  lemma ColumnsParse(rows: seq<TaxonomyRow>, species: seq<string>, lins: seq<string>)
    requires |species| == |rows| == |lins|
    requires forall j :: 0 <= j < |rows| ==> NcbiSpecies(rows[j].ncbiTaxonomy) == Some(species[j])
    requires forall j :: 0 <= j < |rows| ==> LtpStyle(rows[j].gtdbTaxonomy) == Some(lins[j])
    ensures AllParse(rows)
  {
  }

  /** A row of species sp carries the lineage the columns give sp. */
  lemma ColumnsValue(rows: seq<TaxonomyRow>, species: seq<string>, lins: seq<string>, sp: string, i: int, lin: string)
    requires |species| == |rows| == |lins|
    requires forall j :: 0 <= j < |rows| ==> NcbiSpecies(rows[j].ncbiTaxonomy) == Some(species[j])
    requires forall j :: 0 <= j < |rows| ==> LtpStyle(rows[j].gtdbTaxonomy) == Some(lins[j])
    requires forall j :: 0 <= j < |species| && species[j] == sp ==> lins[j] == lin
    requires OfSpecies(rows, i, sp)
    ensures LtpStyle(rows[i].gtdbTaxonomy) == Some(lin)
  {
    assert species[i] == sp;
  }

  /** gtdb_unique_species_mappings on rows already read: it fails iff some
      row's NCBI species or GTDB taxonomy lacks a rank prefix; otherwise a
      species is kept iff all its rows give the same LTP-style lineage, and
      maps to that lineage. */
  method GtdbUniqueSpecies(rows: seq<TaxonomyRow>) returns (res: Result<map<string, string>>)
    ensures res.Ok? <==> AllParse(rows)
    ensures res.Err? ==> res.error == IndexError("list index out of range")
    ensures res.Ok? ==> forall sp :: sp in res.value <==> Unambiguous(rows, sp)
    ensures res.Ok? ==> forall sp, i :: sp in res.value && OfSpecies(rows, i, sp) ==>
      LtpStyle(rows[i].gtdbTaxonomy) == Some(res.value[sp])
  {
    var species := SpeciesColumn(rows);
    if species.Err? {
      return Err(species.error);
    }
    var lins := LineageColumn(rows);
    if lins.Err? {
      assert !AllParse(rows);
      return Err(lins.error);
    }
    var groups := GroupBy(species.value, lins.value);
    var unique := map sp | sp in groups && |groups[sp]| == 1 :: TheOne(groups[sp]);
    UniqueSpec(species.value, lins.value, groups, unique);
    ColumnsParse(rows, species.value, lins.value);
    forall sp ensures Unambiguous(rows, sp) <==> OneValue(species.value, lins.value, sp) {
      ColumnsSpec(rows, species.value, lins.value, sp);
    }
    forall sp, i | sp in unique && OfSpecies(rows, i, sp)
      ensures LtpStyle(rows[i].gtdbTaxonomy) == Some(unique[sp])
    {
      ColumnsValue(rows, species.value, lins.value, sp, i, unique[sp]);
    }
    res := Ok(unique);
  }
}
