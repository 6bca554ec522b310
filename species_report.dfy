/** Label normalisation and record selection of gg2/species_report.py:
    removing polyphyly and numeric suffixes from labels, keeping the first
    full-length record of each Web of Life genome, and counting the agreeing
    columns of a two-row alignment. */
module SpeciesReport {
  import opened Wrappers
  import opened PyStr
  import opened Labels
  import opened Dicts

  // ---------------------------------------------------------------------
  // extract_species and extract_label

  /** extract_species: `s__genus epithet` without the `_[A-Z]+` and
      `_[0-9]+` groups of either half, or "s__" when the name does not match. */
  function ExtractSpecies(name: string): string {
    match MatchBinomial(name, PolyNumberGroups)
    case None => "s__"
    case Some(m) => "s__" + m.genus.base + " " + m.epithet.base
  }

  /** extract_label: species names go to ExtractSpecies, other rank labels
      lose their suffix groups, anything else is returned as it is. */
  function ExtractLabel(name: string): string {
    if StartsWith(name, "s__") then ExtractSpecies(name)
    else
      match MatchLabel(name, PolyNumberGroups)
      case None => name
      case Some(m) => m.Head()
  }

  /** A segment with neither suffix group. */
  function Bare(base: string): Segment {
    Segment(base, [None, None])
  }

  lemma PolyNumberDistinct()
    ensures DistinctClasses(PolyNumberGroups)
  {
  }

  /** A well-formed species name, with or without the final newline `$`
      accepts, comes out as `s__genus epithet` with every suffix removed. */
  lemma ExtractSpeciesMatch(m: BinomialMatch, t: string)
    requires ValidBinomial(m, PolyNumberGroups) && (t == "" || t == "\n")
    ensures ExtractSpecies(RenderBinomial(m) + t) == "s__" + m.genus.base + " " + m.epithet.base
  {
    PolyNumberDistinct();
    MatchBinomialComplete(m, PolyNumberGroups, t);
  }

  /** The result is exactly "s__" when, and only when, the name does not
      match: a match always yields a non-empty genus and epithet. */
  lemma ExtractSpeciesFallback(name: string)
    ensures ExtractSpecies(name) == "s__" <==> MatchBinomial(name, PolyNumberGroups).None?
  {
    if MatchBinomial(name, PolyNumberGroups).Some? {
      MatchBinomialSound(name, PolyNumberGroups);
      assert |ExtractSpecies(name)| > 3;
    }
  }

  /** "s__" itself does not match, so it is returned unchanged. */
  lemma ExtractSpeciesEmpty()
    ensures ExtractSpecies("s__") == "s__"
  {
  }

  /** A base-only segment renders as its base. */
  lemma BareRender(b: string)
    ensures RenderSegment(Bare(b)) == b
  {
    var gs: seq<Option<string>> := [None, None];
    assert gs[1..] == [None];
    assert RenderGroups(gs) == "";
  }

  lemma BareValid(seg: Segment)
    requires ValidSegment(seg, PolyNumberGroups)
    ensures ValidSegment(Bare(seg.base), PolyNumberGroups)
  {
    assert ValidGroups([None, None], PolyNumberGroups);
  }

  /** A cleaned binomial is its own extract_species. */
  lemma CleanBinomialStable(m: BinomialMatch)
    requires ValidBinomial(m, PolyNumberGroups)
    ensures ExtractSpecies("s__" + m.genus.base + " " + m.epithet.base) == "s__" + m.genus.base + " " + m.epithet.base
  {
    BareValid(m.genus);
    BareValid(m.epithet);
    var clean := BinomialMatch(Bare(m.genus.base), Bare(m.epithet.base));
    BareRender(m.genus.base);
    BareRender(m.epithet.base);
    ExtractSpeciesMatch(clean, "");
    assert RenderBinomial(clean) + "" == "s__" + m.genus.base + " " + m.epithet.base;
  }

  /** The output of ExtractSpecies is a fixed point of ExtractLabel. */
  lemma ExtractSpeciesStable(name: string)
    ensures StartsWith(ExtractSpecies(name), "s__")
    ensures ExtractSpecies(ExtractSpecies(name)) == ExtractSpecies(name)
  {
    match MatchBinomial(name, PolyNumberGroups)
    case None =>
      ExtractSpeciesEmpty();
    case Some(m) =>
      MatchBinomialSound(name, PolyNumberGroups);
      CleanBinomialStable(m);
  }

  /** extract_label is idempotent: its results are already normalised. */
  lemma ExtractLabelIdempotent(name: string)
    ensures ExtractLabel(ExtractLabel(name)) == ExtractLabel(name)
  {
    if StartsWith(name, "s__") {
      ExtractSpeciesStable(name);
    } else {
      match MatchLabel(name, PolyNumberGroups)
      case None =>
      case Some(m) =>
        PolyNumberDistinct();
        MatchLabelSound(name, PolyNumberGroups);
        BareValid(m.seg);
        var clean := LabelMatch(m.rank, Bare(m.seg.base));
        assert RenderLabel(clean) == m.Head();
        MatchLabelComplete(clean, PolyNumberGroups, "");
        assert RenderLabel(clean) + "" == RenderLabel(clean);
        assert !StartsWith(m.Head(), "s__") by {
          assert m.Head()[0] == m.rank;
        }
    }
  }

  /** A well-formed rank label other than a species comes out as its rank
      prefix and base, with both suffix groups removed. */
  lemma ExtractLabelMatch(m: LabelMatch, t: string)
    requires ValidLabel(m, PolyNumberGroups) && (t == "" || t == "\n")
    ensures ExtractLabel(RenderLabel(m) + t) == [m.rank] + "__" + m.seg.base
  {
    PolyNumberDistinct();
    MatchLabelComplete(m, PolyNumberGroups, t);
    assert (RenderLabel(m) + t)[0] == m.rank;
  }

  // ---------------------------------------------------------------------
  // parse_full_length

  predicate IsDigit(c: char) {
    '0' <= c <= '9'
  }

  /** A Web of Life genome id: `G`, then `0` or `9`, then eight digits. */
  predicate IsWolGenome(b: string) {
    |b| == 10 && b[0] == 'G' && (b[1] == '0' || b[1] == '9') && forall m :: 2 <= m < 10 ==> IsDigit(b[m])
  }

  /** `WOL.match(id_)` and its group: the genome id of a record id of the
      form `G[09]dddddddd_N`, N one or more digits. */
  function WolBase(id: string): Option<string> {
    if |id| >= 12 && IsWolGenome(id[..10]) && id[10] == '_' && IsDigit(id[11]) then
      var e := ClassRun(id, 11, Digit);
      if AtEnd(id, e) then Some(id[..10]) else None
    else
      None
  }

  /** A match is a genome id, `_` and a run of digits, with at most a final
      newline after it. */
  lemma WolBaseSound(id: string)
    ensures WolBase(id).Some? ==>
      && IsWolGenome(WolBase(id).value) && id[..10] == WolBase(id).value && id[10] == '_'
      && exists e :: 11 < e <= |id| && (forall m :: 11 <= m < e ==> IsDigit(id[m])) && AtEnd(id, e)
  {
    if WolBase(id).Some? {
      var e := ClassRun(id, 11, Digit);
      ClassRunSpec(id, 11, Digit);
      assert forall m :: 11 <= m < e ==> IsDigit(id[m]);
    }
  }

  /** Every genome id followed by `_` and digits matches, giving the genome id. */
  lemma WolBaseComplete(b: string, n: string, t: string)
    requires IsWolGenome(b) && |n| >= 1 && (forall m :: 0 <= m < |n| ==> IsDigit(n[m]))
    requires t == "" || t == "\n"
    ensures WolBase(b + "_" + n + t) == Some(b)
  {
    var id := b + "_" + n + t;
    assert id[..10] == b;
    assert id[11] == n[0];
    forall m | 11 <= m < 11 + |n| ensures InClass(id[m], Digit) {
      assert id[m] == n[m - 11];
    }
    ClassRunExact(id, 11, 11 + |n|, Digit);
  }

  /** One FASTA record: its id and its sequence. */
  datatype Record = Record(id: string, sequence: string)

  /** The key record i is stored under: its genome id when it is the first
      record of that genome, nothing when an earlier record had the same
      genome id, and its own id when it is not a genome record. */
  function KeyOf(recs: seq<Record>, i: nat): Option<string>
    requires i < |recs|
  {
    match WolBase(recs[i].id)
    case None => Some(recs[i].id)
    case Some(b) =>
      if exists j :: 0 <= j < i && WolBase(recs[j].id) == Some(b) then None else Some(b)
  }

  /** The value stored under k after the first n records: the sequence of
      the last of them keyed k, when k is in limit. */
  function Stored(recs: seq<Record>, limit: set<string>, n: nat, k: string): Option<string>
    requires n <= |recs|
  {
    if n == 0 || k !in limit then None
    else if KeyOf(recs, n - 1) == Some(k) then Some(recs[n - 1].sequence)
    else Stored(recs, limit, n - 1, k)
  }

  /** The genome ids of the first n records. */
  function SeenAfter(recs: seq<Record>, n: nat): set<string>
    requires n <= |recs|
  {
    set j | 0 <= j < n && WolBase(recs[j].id).Some? :: WolBase(recs[j].id).value
  }

  /** The first record keyed k, which fixes k's place in the result. */
  ghost predicate FirstKeyed(recs: seq<Record>, k: string, i: int) {
    0 <= i < |recs| && KeyOf(recs, i) == Some(k) && forall j :: 0 <= j < i ==> KeyOf(recs, j) != Some(k)
  }

  /** Nothing is stored under a key of limit until some record is keyed by it. */
  lemma {:induction false} StoredNone(recs: seq<Record>, limit: set<string>, n: nat, k: string)
    requires n <= |recs| && k in limit && Stored(recs, limit, n, k) == None
    ensures forall j :: 0 <= j < n ==> KeyOf(recs, j) != Some(k)
  {
    if n > 0 {
      StoredNone(recs, limit, n - 1, k);
    }
  }

  lemma FirstKeyedUnique(recs: seq<Record>, k: string, a: int, b: int)
    requires FirstKeyed(recs, k, a) && FirstKeyed(recs, k, b)
    ensures a == b
  {
  }

  /** parse_full_length over already-read records: genome records are
      renamed to their genome id and only the first per genome is looked at,
      whether or not its genome is in limit; records whose key is in limit
      are stored, a later one under the same key replacing the value in
      place. */
  method ParseFullLength(recs: seq<Record>, limit: set<string>) returns (d: Dict)
    ensures KeysUnique(d)
    ensures forall k :: Lookup(d, k) == Stored(recs, limit, |recs|, k)
    ensures forall i :: 0 <= i < |d| ==> d[i].0 in limit
    ensures forall i, j, a, b :: 0 <= i < j < |d| && FirstKeyed(recs, d[i].0, a) && FirstKeyed(recs, d[j].0, b) ==> a < b
  {
    d := [];
    var seen: set<string> := {};
    for n := 0 to |recs|
      invariant KeysUnique(d)
      invariant seen == SeenAfter(recs, n)
      invariant forall k :: Lookup(d, k) == Stored(recs, limit, n, k)
      invariant forall i :: 0 <= i < |d| ==> d[i].0 in limit
      invariant forall i, a :: 0 <= i < |d| && FirstKeyed(recs, d[i].0, a) ==> a < n
      invariant forall i, j, a, b :: 0 <= i < j < |d| && FirstKeyed(recs, d[i].0, a) && FirstKeyed(recs, d[j].0, b) ==> a < b
    {
      var id := recs[n].id;
      var wol := WolBase(id);
      if wol.Some? {
        if wol.value in seen {
          assert KeyOf(recs, n) == None;
          continue;
        }
        seen := seen + {wol.value};
        id := wol.value;
      }
      if id in limit {
        assert KeyOf(recs, n) == Some(id);
        PutSpec(d, id, recs[n].sequence);
        PutKeys(d, id, recs[n].sequence);
        if !HasKey(d, id) {
          LookupAbsent(d, id);
          StoredNone(recs, limit, n, id);
          forall a | FirstKeyed(recs, id, a) ensures a == n {
            FirstKeyedUnique(recs, id, a, n);
          }
        }
        d := Put(d, id, recs[n].sequence);
      }
    }
  }

  // ---------------------------------------------------------------------
  // seq_id

  /** The number of columns where the two rows of an alignment agree. */
  function Agreements(a: string, b: string): nat
    requires |a| == |b|
  {
    if |a| == 0 then 0
    else Agreements(a[..|a| - 1], b[..|b| - 1]) + (if a[|a| - 1] == b[|b| - 1] then 1 else 0)
  }

  /** At most every column agrees, and every column does exactly when the
      rows are equal. */
  lemma {:induction false} AgreementsBound(a: string, b: string)
    requires |a| == |b|
    ensures Agreements(a, b) <= |a|
    ensures Agreements(a, b) == |a| <==> a == b
  {
    if |a| > 0 {
      var a', b' := a[..|a| - 1], b[..|b| - 1];
      AgreementsBound(a', b');
      assert a == a' + [a[|a| - 1]] && b == b' + [b[|b| - 1]];
      if a == b {
        assert a' == b';
      }
    }
  }

  /** Six of the eight columns of AATTGGCC over AAAAGGCC agree. */
  lemma AgreementsExample()
    ensures Agreements("AATTGGCC", "AAAAGGCC") == 6
  {
    var a, b := "AATTGGCC", "AAAAGGCC";
    assert Agreements(a[..1], b[..1]) == 1;
    assert a[..2][..1] == a[..1] && b[..2][..1] == b[..1];
    assert Agreements(a[..2], b[..2]) == 2;
    assert a[..3][..2] == a[..2] && b[..3][..2] == b[..2];
    assert Agreements(a[..3], b[..3]) == 2;
    assert a[..4][..3] == a[..3] && b[..4][..3] == b[..3];
    assert Agreements(a[..4], b[..4]) == 2;
    assert a[..5][..4] == a[..4] && b[..5][..4] == b[..4];
    assert Agreements(a[..5], b[..5]) == 3;
    assert a[..6][..5] == a[..5] && b[..6][..5] == b[..5];
    assert Agreements(a[..6], b[..6]) == 4;
    assert a[..7][..6] == a[..6] && b[..7][..6] == b[..6];
    assert Agreements(a[..7], b[..7]) == 5;
    assert a[..7] == a[..|a| - 1] && b[..7] == b[..|b| - 1];
  }

  /** seq_id on a two-row alignment: the agreeing columns and the length of
      the first row; the percentage divides by the length, so an empty
      alignment raises. */
  method SeqId(a: string, b: string) returns (r: Result<(nat, nat)>)
    requires |a| == |b|
    ensures r.Ok? <==> |a| > 0
    ensures r.Ok? ==> r.value == (Agreements(a, b), |a|)
    ensures r.Err? ==> r.error == ZeroDivisionError("division by zero")
  {
    var matches := 0;
    for i := 0 to |a|
      invariant matches == Agreements(a[..i], b[..i])
    {
      assert a[..i + 1][..i] == a[..i] && b[..i + 1][..i] == b[..i];
      if a[i] == b[i] {
        matches := matches + 1;
      }
    }
    assert a[..|a|] == a && b[..|b|] == b;
    if |a| == 0 {
      return Err(ZeroDivisionError("division by zero"));
    }
    return Ok((matches, |a|));
  }
}
