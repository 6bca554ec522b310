/** Polyphyly detection over the rank columns of the GTDB taxonomy, and the
    selection of LTP records whose labels are ambiguous because of it
    (get_polyphyletic and ids_of_ambiguity_from_polyphyletic in
    gg2/backbone_taxonomy.py). */
module Polyphyly {
  import opened Wrappers
  import opened Lineage
  import opened Labels

  /** A bare rank label such as "p__" (three characters ending in `__`). */
  predicate IsBare(name: string) {
    |name| == 3 && name[1..] == "__"
  }

  /** What one distinct label of a rank column contributes: Ok(Some(base))
      for a polyphyletic label (its base without rank prefix or suffix),
      Ok(None) for a plain label, Err when the label does not parse. */
  function PolyOf(level: Rank, name: string): Result<Option<string>> {
    if level < 6 then
      match MatchLabel(name, PolyGroups)
      case None => Err(ValueError("could not match: " + name))
      case Some(m) => if m.seg.suffixes[0].Some? then Ok(Some(m.seg.base)) else Ok(None)
    else
      match MatchBinomial(name, PolyGroups)
      case None => Err(ValueError("could not match species: " + name))
      case Some(b) =>
        if b.genus.suffixes[0].Some? || b.epithet.suffixes[0].Some? then
          Ok(Some(b.genus.base + " " + b.epithet.base))
        else
          Ok(None)
  }

  /** The reported base is what `label.split('__', 1)[1]` gives on group(1). */
  lemma PolyBaseIsSplit(m: LabelMatch)
    requires ValidLabel(m, PolyGroups)
    ensures StripRank(m.Head()) == Some(m.seg.base)
  {
    assert m.Head() == [m.rank] + "__" + m.seg.base;
    AfterFirstPrefix(m.rank, m.seg.base);
  }

  /** A non-species label is reported, as base x, exactly when it is a rank
      prefix, the base x and an upper-case suffix. */
  lemma LabelPolyIff(level: Rank, name: string, x: string)
    requires level < 6
    ensures PolyOf(level, name) == Ok(Some(x)) <==>
      exists m :: ValidLabel(m, PolyGroups) && m.seg.suffixes[0].Some? && m.seg.base == x
        && (name == RenderLabel(m) || name == RenderLabel(m) + "\n")
  {
    MatchLabelSound(name, PolyGroups);
    forall m | ValidLabel(m, PolyGroups) && (name == RenderLabel(m) || name == RenderLabel(m) + "\n")
      ensures MatchLabel(name, PolyGroups) == Some(m)
    {
      MatchLabelIff(name, PolyGroups, m);
    }
  }

  /** A species label is reported, as "genus epithet", exactly when it is a
      well-formed binomial and either half carries an upper-case suffix. */
  lemma SpeciesPolyIff(name: string, x: string)
    ensures PolyOf(6, name) == Ok(Some(x)) <==>
      exists b :: ValidBinomial(b, PolyGroups)
        && (b.genus.suffixes[0].Some? || b.epithet.suffixes[0].Some?)
        && x == b.genus.base + " " + b.epithet.base
        && (name == RenderBinomial(b) || name == RenderBinomial(b) + "\n")
  {
    MatchBinomialSound(name, PolyGroups);
    forall b | ValidBinomial(b, PolyGroups) && (name == RenderBinomial(b) || name == RenderBinomial(b) + "\n")
      ensures MatchBinomial(name, PolyGroups) == Some(b)
    {
      MatchBinomialIff(name, PolyGroups, b);
    }
  }

  /** A label of a rank above species fails exactly when it has no
      well-formed reading. */
  lemma LabelErrIff(level: Rank, name: string)
    requires level < 6
    ensures PolyOf(level, name).Err? <==>
      forall m :: ValidLabel(m, PolyGroups) ==> name != RenderLabel(m) && name != RenderLabel(m) + "\n"
  {
    MatchLabelSound(name, PolyGroups);
    forall m | ValidLabel(m, PolyGroups)
      ensures MatchLabel(name, PolyGroups) == Some(m) <==> name == RenderLabel(m) || name == RenderLabel(m) + "\n"
    {
      MatchLabelIff(name, PolyGroups, m);
    }
  }

  /** A species label fails exactly when it has no well-formed reading. */
  lemma SpeciesErrIff(name: string)
    ensures PolyOf(6, name).Err? <==>
      forall b :: ValidBinomial(b, PolyGroups) ==> name != RenderBinomial(b) && name != RenderBinomial(b) + "\n"
  {
    MatchBinomialSound(name, PolyGroups);
    forall b | ValidBinomial(b, PolyGroups)
      ensures MatchBinomial(name, PolyGroups) == Some(b) <==> name == RenderBinomial(b) || name == RenderBinomial(b) + "\n"
    {
      MatchBinomialIff(name, PolyGroups, b);
    }
  }

  /** The cell at (level, row) is examined and does not parse. */
  predicate Fails(rows: seq<Ranked>, level: Rank, r: nat)
    requires r < |rows|
  {
    !IsBare(rows[r][level]) && PolyOf(level, rows[r][level]).Err?
  }

  /** The cell at (level, row) contributes the base x. */
  predicate Reports(rows: seq<Ranked>, level: Rank, r: nat, x: string)
    requires r < |rows|
  {
    !IsBare(rows[r][level]) && PolyOf(level, rows[r][level]) == Ok(Some(x))
  }

  /** The labels of one rank column, row by row. */
  function Column(rows: seq<Ranked>, level: Rank): (c: seq<string>)
    ensures |c| == |rows| && forall r :: 0 <= r < |rows| ==> c[r] == rows[r][level]
  {
    seq(|rows|, r requires 0 <= r < |rows| => rows[r][level])
  }

  /** The loop of get_polyphyletic over the distinct labels of one column,
      for any reading `parse` of a label: bare labels are skipped, the first
      label that does not parse ends the pass with its error, and the base
      of every label read as polyphyletic is collected. */
  method CollectBases(names: seq<string>, parse: string -> Result<Option<string>>) returns (res: Result<set<string>>)
    ensures res.Ok? <==> forall r :: 0 <= r < |names| ==> IsBare(names[r]) || parse(names[r]).Ok?
    ensures res.Ok? ==> forall x :: x in res.value <==>
      exists r :: 0 <= r < |names| && !IsBare(names[r]) && parse(names[r]) == Ok(Some(x))
    ensures res.Err? ==>
      exists r ::
        && 0 <= r < |names|
        && !IsBare(names[r])
        && Err(res.error) == parse(names[r])
        && (forall r' :: 0 <= r' < r ==> IsBare(names[r']) || parse(names[r']).Ok?)
  {
    var found: set<string> := {};
    var i := 0;
    while i < |names|
      invariant 0 <= i <= |names|
      invariant forall r :: 0 <= r < i ==> IsBare(names[r]) || parse(names[r]).Ok?
      invariant forall x :: x in found <==>
        exists r :: 0 <= r < i && !IsBare(names[r]) && parse(names[r]) == Ok(Some(x))
    {
      var name := names[i];
      if !IsBare(name) {
        var p := parse(name);
        if p.Err? {
          return Err(p.error);
        }
        if p.value.Some? {
          found := found + {p.value.value};
        }
      }
      i := i + 1;
    }
    return Ok(found);
  }

  /** One pass of get_polyphyletic over the labels of one rank: it fails on
      the first label that does not parse, and otherwise collects the base
      of every label that carries a polyphyly suffix. */
  method CollectLevel(rows: seq<Ranked>, level: Rank) returns (res: Result<set<string>>)
    ensures res.Ok? <==> forall r :: 0 <= r < |rows| ==> !Fails(rows, level, r)
    ensures res.Ok? ==> forall x :: x in res.value <==> exists r :: 0 <= r < |rows| && Reports(rows, level, r, x)
    ensures res.Err? ==>
      exists r ::
        && 0 <= r < |rows|
        && Fails(rows, level, r)
        && Err(res.error) == PolyOf(level, rows[r][level])
        && (forall r' :: 0 <= r' < r ==> !Fails(rows, level, r'))
  {
    var names := Column(rows, level);
    var parse := name => PolyOf(level, name);
    res := CollectBases(names, parse);
    assert forall r :: 0 <= r < |rows| ==>
      (Fails(rows, level, r) <==> !IsBare(names[r]) && parse(names[r]).Err?);
    assert forall r, x :: 0 <= r < |rows| ==>
      (Reports(rows, level, r, x) <==> !IsBare(names[r]) && parse(names[r]) == Ok(Some(x)));
  }

  /** get_polyphyletic: one set of polyphyletic bases per rank. It fails,
      naming the first label in rank-then-row order that does not parse,
      and otherwise reports every base some row's label contributes. */
  method GetPolyphyletic(rows: seq<Ranked>) returns (res: Result<seq<set<string>>>)
    ensures res.Ok? <==> forall level: Rank, r :: 0 <= r < |rows| ==> !Fails(rows, level, r)
    ensures res.Ok? ==> |res.value| == 7 && forall level: Rank, x ::
      x in res.value[level] <==> exists r :: 0 <= r < |rows| && Reports(rows, level, r, x)
    ensures res.Err? ==>
      exists level: Rank, r ::
        && 0 <= r < |rows|
        && Fails(rows, level, r)
        && Err(res.error) == PolyOf(level, rows[r][level])
        && (forall l: Rank, r' :: 0 <= r' < |rows| && (l < level || (l == level && r' < r)) ==> !Fails(rows, l, r'))
  {
    var result: seq<set<string>> := [];
    var level: nat := 0;
    while level < 7
      invariant 0 <= level <= 7 && |result| == level
      invariant forall l: Rank, r :: l < level && 0 <= r < |rows| ==> !Fails(rows, l, r)
      invariant forall l: Rank, x :: l < level ==>
        (x in result[l] <==> exists r :: 0 <= r < |rows| && Reports(rows, l, r, x))
    {
      var found := CollectLevel(rows, level);
      if found.Err? {
        ghost var r :| 0 <= r < |rows| && Fails(rows, level, r)
          && Err(found.error) == PolyOf(level, rows[r][level])
          && (forall r' :: 0 <= r' < r ==> !Fails(rows, level, r'));
        assert forall l: Rank, r' :: 0 <= r' < |rows| && (l < level || (l == level && r' < r)) ==> !Fails(rows, l, r');
        return Err(found.error);
      }
      result := result + [found.value];
      level := level + 1;
    }
    return Ok(result);
  }

  /** One LTP record as ids_of_ambiguity_from_polyphyletic sees it. */
  datatype LtpRecord = LtpRecord(id: string, ranks: Ranked, explicitlySet: bool)

  /** The record is not explicitly set and its label at level is polyphyletic. */
  predicate HitAt(rec: LtpRecord, poly: seq<set<string>>, level: Rank)
    requires |poly| == 7
  {
    !rec.explicitlySet && rec.ranks[level] in poly[level]
  }

  /** ids_of_ambiguity_from_polyphyletic: the ids of records that are not
      explicitly set and carry, at some rank, a label of that rank's
      polyphyletic set. */
  method IdsOfAmbiguity(records: seq<LtpRecord>, poly: seq<set<string>>) returns (obs: set<string>)
    requires |poly| == 7
    ensures forall id :: id in obs <==>
      exists r, level: Rank :: 0 <= r < |records| && records[r].id == id && HitAt(records[r], poly, level)
    ensures forall r :: 0 <= r < |records| && records[r].id in obs ==>
      exists r' :: 0 <= r' < |records| && records[r'].id == records[r].id && !records[r'].explicitlySet
  {
    obs := {};
    var level := 0;
    while level < 7
      invariant 0 <= level <= 7
      invariant forall id :: id in obs <==>
        exists r, l: Rank :: 0 <= r < |records| && l < level && records[r].id == id && HitAt(records[r], poly, l)
    {
      var i := 0;
      while i < |records|
        invariant 0 <= i <= |records|
        invariant forall id :: id in obs <==>
          (exists r, l: Rank :: 0 <= r < |records| && l < level && records[r].id == id && HitAt(records[r], poly, l))
          || (exists r :: 0 <= r < i && records[r].id == id && HitAt(records[r], poly, level))
      {
        if !records[i].explicitlySet && records[i].ranks[level] in poly[level] {
          obs := obs + {records[i].id};
        }
        i := i + 1;
      }
      level := level + 1;
    }
  }

  // ---------------------------------------------------------------------
  // The label cases of gg2/tests/test_backbone_taxonomy.py.

  /** The segments the examples below are built from are well formed. */
  lemma ExampleSegments()
    ensures DistinctClasses(PolyGroups)
    ensures ValidSegment(Segment("X", [None]), PolyGroups)
    ensures ValidSegment(Segment("Y", [None]), PolyGroups)
    ensures ValidSegment(Segment("foo-A", [None]), PolyGroups)
    ensures ValidSegment(Segment("X", [Some("_A")]), PolyGroups)
  {
    assert ValidGroup(Some("_A"), Upper);
  }

  /** "p__X_A" is polyphyletic with base "X". */
  lemma PolyPhylumExample()
    ensures PolyOf(1, "p__X_A") == Ok(Some("X"))
  {
    var m := LabelMatch('p', Segment("X", [Some("_A")]));
    ExampleSegments();
    MatchLabelComplete(m, PolyGroups, "");
    assert RenderLabel(m) + "" == "p__X_A";
  }

  /** "p__foo-A" carries no suffix: the `-A` is part of its base. */
  lemma PlainPhylumExample()
    ensures PolyOf(1, "p__foo-A") == Ok(None)
  {
    var m := LabelMatch('p', Segment("foo-A", [None]));
    ExampleSegments();
    MatchLabelComplete(m, PolyGroups, "");
    assert RenderLabel(m) + "" == "p__foo-A";
  }

  /** A suffix on the genus half makes the binomial polyphyletic. */
  lemma PolyGenusHalfExample()
    ensures PolyOf(6, "s__X_A X") == Ok(Some("X X"))
  {
    var b := BinomialMatch(Segment("X", [Some("_A")]), Segment("X", [None]));
    ExampleSegments();
    MatchBinomialComplete(b, PolyGroups, "");
    assert RenderBinomial(b) + "" == "s__X_A X";
    assert "X" + " " + "X" == "X X";
  }

  /** A suffix on the epithet half does too. */
  lemma PolyEpithetHalfExample()
    ensures PolyOf(6, "s__Y X_A") == Ok(Some("Y X"))
  {
    var b := BinomialMatch(Segment("Y", [None]), Segment("X", [Some("_A")]));
    ExampleSegments();
    MatchBinomialComplete(b, PolyGroups, "");
    assert RenderBinomial(b) + "" == "s__Y X_A";
    assert "Y" + " " + "X" == "Y X";
  }

  /** A binomial without suffixes is not reported. */
  lemma PlainSpeciesExample()
    ensures PolyOf(6, "s__X X") == Ok(None)
  {
    var b := BinomialMatch(Segment("X", [None]), Segment("X", [None]));
    ExampleSegments();
    MatchBinomialComplete(b, PolyGroups, "");
    assert RenderBinomial(b) + "" == "s__X X";
  }

  /** A rank label with a space in it does not parse. */
  lemma SpacedLabelExample()
    ensures PolyOf(1, "p__foo bar").Err?
  {
    var s := "p__foo bar";
    ExampleSegments();
    assert s[3..] == RenderSegment(Segment("foo", [None])) + " bar";
    ParseSegmentComplete(s, 3, PolyGroups, Segment("foo", [None]), " bar");
    assert !AtEnd(s, 6);
  }

  /** The genus of "s__foo bar baz" is "foo", ending at index 6. */
  lemma TrinomialGenus()
    ensures ParseSegment("s__foo bar baz", 3, PolyGroups) == Some((Segment("foo", [None]), 6))
  {
    var s := "s__foo bar baz";
    ExampleSegments();
    assert RenderSegment(Segment("foo", [None])) == "foo";
    assert s[3..] == "foo" + " bar baz";
    ParseSegmentComplete(s, 3, PolyGroups, Segment("foo", [None]), " bar baz");
  }

  /** The epithet of "s__foo bar baz" is "bar", ending at index 10. */
  lemma TrinomialEpithet()
    ensures ParseSegment("s__foo bar baz", 7, PolyGroups) == Some((Segment("bar", [None]), 10))
  {
    var s := "s__foo bar baz";
    ExampleSegments();
    assert ValidSegment(Segment("bar", [None]), PolyGroups);
    assert RenderSegment(Segment("bar", [None])) == "bar";
    assert s[7..] == "bar" + " baz";
    ParseSegmentComplete(s, 7, PolyGroups, Segment("bar", [None]), " baz");
  }

  /** A species label of three words does not parse. */
  lemma TrinomialExample()
    ensures PolyOf(6, "s__foo bar baz").Err?
  {
    var s := "s__foo bar baz";
    TrinomialGenus();
    TrinomialEpithet();
    assert s[..3] == "s__" && s[6] == ' ';
    assert !AtEnd(s, 10);
  }
}
