/** Character-level parsers for the label regexes of the taxonomy code:

      POLY_GENERAL  ^([dpcofg]__[a-zA-Z0-9-]+)(_[A-Z]+)?$
      POLY_SPECIES  ^(s__[a-zA-Z0-9-]+)(_[A-Z]+)? ([a-zA-Z0-9-]+)(_[A-Z]+)?$
    (gg2/backbone_taxonomy.py) and

      POLY_LABEL    ^([dpcofg]__[a-zA-Z0-9-]+)(_[A-Z]+)?(_[0-9]+)?$
      POLY_SPECIES  ^(s__[a-zA-Z0-9-]+)(_[A-Z]+)?(_[0-9]+)? ([a-zA-Z0-9-]+)(_[A-Z]+)?(_[0-9]+)?$
    (gg2/species_report.py).

    The base character class never holds `_`, so each regex matches in at
    most one way: the base is the longest run of base characters and every
    optional group is `_` followed by the longest run of its class. Python's
    `$` also matches just before a final newline. */
module Labels {
  import opened Wrappers

  /** The class of an optional suffix group: `[A-Z]` or `[0-9]`. */
  datatype CharClass = Upper | Digit

  /** The suffix groups of the backbone regexes: one polyphyly marker. */
  const PolyGroups: seq<CharClass> := [Upper]
  /** The suffix groups of the species-report regexes: a marker, then a number. */
  const PolyNumberGroups: seq<CharClass> := [Upper, Digit]

  /** `[a-zA-Z0-9-]` */
  predicate IsBaseChar(c: char) {
    ('a' <= c <= 'z') || ('A' <= c <= 'Z') || ('0' <= c <= '9') || c == '-'
  }

  predicate InClass(c: char, k: CharClass) {
    match k
    case Upper => 'A' <= c <= 'Z'
    case Digit => '0' <= c <= '9'
  }

  /** Python's `$`: the end of the text or the position of a final newline. */
  predicate AtEnd(s: string, i: nat) {
    i == |s| || (i + 1 == |s| && s[i] == '\n')
  }

  /** End of the longest run of base characters starting at i. */
  function BaseRun(s: string, i: nat): (j: nat)
    requires i <= |s|
    ensures i <= j <= |s|
    decreases |s| - i
  {
    if i < |s| && IsBaseChar(s[i]) then BaseRun(s, i + 1) else i
  }

  /** BaseRun stops at the first character outside the base class. */
  lemma {:induction false} BaseRunSpec(s: string, i: nat)
    requires i <= |s|
    ensures forall m :: i <= m < BaseRun(s, i) ==> IsBaseChar(s[m])
    ensures BaseRun(s, i) == |s| || !IsBaseChar(s[BaseRun(s, i)])
    decreases |s| - i
  {
    if i < |s| && IsBaseChar(s[i]) {
      BaseRunSpec(s, i + 1);
    }
  }

  /** End of the longest run of class-k characters starting at i. */
  function ClassRun(s: string, i: nat, k: CharClass): (j: nat)
    requires i <= |s|
    ensures i <= j <= |s|
    decreases |s| - i
  {
    if i < |s| && InClass(s[i], k) then ClassRun(s, i + 1, k) else i
  }

  /** ClassRun stops at the first character outside class k. */
  lemma {:induction false} ClassRunSpec(s: string, i: nat, k: CharClass)
    requires i <= |s|
    ensures forall m :: i <= m < ClassRun(s, i, k) ==> InClass(s[m], k)
    ensures ClassRun(s, i, k) == |s| || !InClass(s[ClassRun(s, i, k)], k)
    decreases |s| - i
  {
    if i < |s| && InClass(s[i], k) {
      ClassRunSpec(s, i + 1, k);
    }
  }

  /** One optional group `(_[K]+)?` at position i: the group, if taken, and
      where matching goes on. */
  function OptGroup(s: string, i: nat, k: CharClass): (r: (Option<string>, nat))
    requires i <= |s|
    ensures i <= r.1 <= |s|
    ensures r.0.Some? ==> r.0.value == s[i..r.1]
    ensures r.0.None? ==> r.1 == i
  {
    if i + 1 < |s| && s[i] == '_' && InClass(s[i + 1], k) then
      var j := ClassRun(s, i + 1, k);
      (Some(s[i..j]), j)
    else
      (None, i)
  }

  /** The optional groups of ks, one after the other. */
  function OptGroups(s: string, i: nat, ks: seq<CharClass>): (r: (seq<Option<string>>, nat))
    requires i <= |s|
    ensures i <= r.1 <= |s| && |r.0| == |ks|
    decreases |ks|
  {
    if ks == [] then ([], i)
    else
      var first := OptGroup(s, i, ks[0]);
      var others := OptGroups(s, first.1, ks[1..]);
      ([first.0] + others.0, others.1)
  }

  /** A base name and its optional suffix groups, as the regex groups give them. */
  datatype Segment = Segment(base: string, suffixes: seq<Option<string>>)

  /** `[a-zA-Z0-9-]+` followed by the optional groups of ks. */
  function ParseSegment(s: string, i: nat, ks: seq<CharClass>): (r: Option<(Segment, nat)>)
    requires i <= |s|
    ensures r.Some? ==> i < r.value.1 <= |s| && |r.value.0.suffixes| == |ks|
  {
    if i < |s| && IsBaseChar(s[i]) then
      var e := BaseRun(s, i);
      var groups := OptGroups(s, e, ks);
      Some((Segment(s[i..e], groups.0), groups.1))
    else
      None
  }

  function RenderGroups(gs: seq<Option<string>>): string
    decreases |gs|
  {
    if gs == [] then "" else gs[0].GetOr("") + RenderGroups(gs[1..])
  }

  function RenderSegment(seg: Segment): string {
    seg.base + RenderGroups(seg.suffixes)
  }

  predicate ValidGroup(g: Option<string>, k: CharClass) {
    g.None? || (|g.value| >= 2 && g.value[0] == '_' && forall m :: 1 <= m < |g.value| ==> InClass(g.value[m], k))
  }

  predicate ValidGroups(gs: seq<Option<string>>, ks: seq<CharClass>) {
    |gs| == |ks| && forall m :: 0 <= m < |ks| ==> ValidGroup(gs[m], ks[m])
  }

  predicate ValidSegment(seg: Segment, ks: seq<CharClass>) {
    |seg.base| >= 1 && (forall m :: 0 <= m < |seg.base| ==> IsBaseChar(seg.base[m]))
    && ValidGroups(seg.suffixes, ks)
  }

  /** The groups of a regex use different classes (true of both plans above). */
  predicate DistinctClasses(ks: seq<CharClass>) {
    forall a, b :: 0 <= a < b < |ks| ==> ks[a] != ks[b]
  }

  lemma DistinctTail(ks: seq<CharClass>)
    requires DistinctClasses(ks) && ks != []
    ensures DistinctClasses(ks[1..]) && ks[0] !in ks[1..]
  {
    forall a, b | 0 <= a < b < |ks[1..]| ensures ks[1..][a] != ks[1..][b] {
      assert ks[a + 1] != ks[b + 1];
    }
    forall a | 0 <= a < |ks[1..]| ensures ks[1..][a] != ks[0] {
      assert ks[0] != ks[a + 1];
    }
  }

  /** What may follow a segment: the end, the space of a binomial or the
      final newline `$` accepts. */
  predicate Boundary(t: string) {
    |t| == 0 || t[0] == ' ' || t[0] == '\n'
  }

  // ---------------------------------------------------------------------
  // Soundness: what a parser returns is well formed and spells the input.

  lemma OptGroupSound(s: string, i: nat, k: CharClass)
    requires i <= |s|
    ensures ValidGroup(OptGroup(s, i, k).0, k)
  {
    if i + 1 < |s| && s[i] == '_' && InClass(s[i + 1], k) {
      ClassRunSpec(s, i + 1, k);
      var j := ClassRun(s, i + 1, k);
      forall m | 1 <= m < j - i ensures InClass(s[i..j][m], k) {
        assert s[i..j][m] == s[i + m];
      }
    }
  }

  lemma {:induction false} OptGroupsSound(s: string, i: nat, ks: seq<CharClass>)
    requires i <= |s|
    ensures ValidGroups(OptGroups(s, i, ks).0, ks)
    ensures s[i..OptGroups(s, i, ks).1] == RenderGroups(OptGroups(s, i, ks).0)
    decreases |ks|
  {
    if ks != [] {
      var first := OptGroup(s, i, ks[0]);
      OptGroupSound(s, i, ks[0]);
      OptGroupsSound(s, first.1, ks[1..]);
      var others := OptGroups(s, first.1, ks[1..]);
      var gs := [first.0] + others.0;
      assert OptGroups(s, i, ks) == (gs, others.1);
      assert gs[1..] == others.0;
      assert s[i..others.1] == s[i..first.1] + s[first.1..others.1];
      forall m | 0 <= m < |ks| ensures ValidGroup(gs[m], ks[m]) {
        if m > 0 {
          assert gs[m] == others.0[m - 1] && ks[m] == ks[1..][m - 1];
        }
      }
    }
  }

  lemma ParseSegmentSound(s: string, i: nat, ks: seq<CharClass>)
    requires i <= |s|
    ensures var r := ParseSegment(s, i, ks);
      r.Some? ==> ValidSegment(r.value.0, ks) && s[i..r.value.1] == RenderSegment(r.value.0)
  {
    if i < |s| && IsBaseChar(s[i]) {
      var e := BaseRun(s, i);
      BaseRunSpec(s, i);
      OptGroupsSound(s, e, ks);
      var groups := OptGroups(s, e, ks);
      assert s[i..groups.1] == s[i..e] + s[e..groups.1];
      forall m | 0 <= m < e - i ensures IsBaseChar(s[i..e][m]) {
        assert s[i..e][m] == s[i + m];
      }
    }
  }

  // ---------------------------------------------------------------------
  // Completeness: a well-formed segment is parsed back exactly.

  /** The first character after rendered groups (or after a boundary) ends
      any run of base, upper-case or digit characters. */
  predicate StopsRun(t: string) {
    |t| == 0 || t[0] == '_' || t[0] == ' ' || t[0] == '\n'
  }

  /** Text that does not open an optional group of class k. */
  predicate Blocks(t: string, k: CharClass) {
    !(|t| >= 2 && t[0] == '_' && InClass(t[1], k))
  }

  lemma ValidGroupsTail(gs: seq<Option<string>>, ks: seq<CharClass>)
    requires ValidGroups(gs, ks) && gs != []
    ensures ValidGroups(gs[1..], ks[1..])
  {
    forall m | 0 <= m < |ks[1..]| ensures ValidGroup(gs[1..][m], ks[1..][m]) {
      assert ValidGroup(gs[m + 1], ks[m + 1]);
    }
  }

  /** The rendering of a leading group, then the rest. */
  lemma RenderGroupsCons(gs: seq<Option<string>>, t: string)
    requires gs != []
    ensures RenderGroups(gs) + t == gs[0].GetOr("") + (RenderGroups(gs[1..]) + t)
  {
  }

  /** Rendered groups followed by a boundary stop every run. */
  lemma {:induction false} RenderedGroupsStop(gs: seq<Option<string>>, ks: seq<CharClass>, t: string)
    requires ValidGroups(gs, ks) && Boundary(t)
    ensures StopsRun(RenderGroups(gs) + t)
    decreases |gs|
  {
    if gs != [] {
      RenderGroupsCons(gs, t);
      if gs[0].None? {
        ValidGroupsTail(gs, ks);
        RenderedGroupsStop(gs[1..], ks[1..], t);
      } else {
        assert ValidGroup(gs[0], ks[0]);
      }
    }
  }

  /** Rendered groups followed by a boundary do not open a group of a class
      the plan does not hold. */
  lemma {:induction false} RenderedGroupsBlock(gs: seq<Option<string>>, ks: seq<CharClass>, t: string, k: CharClass)
    requires ValidGroups(gs, ks) && Boundary(t) && k !in ks
    ensures Blocks(RenderGroups(gs) + t, k)
    decreases |gs|
  {
    if gs != [] {
      RenderGroupsCons(gs, t);
      if gs[0].None? {
        ValidGroupsTail(gs, ks);
        RenderedGroupsBlock(gs[1..], ks[1..], t, k);
      } else {
        var g := gs[0].value;
        assert ValidGroup(gs[0], ks[0]);
        assert InClass(g[1], ks[0]);
        assert (RenderGroups(gs) + t)[1] == g[1];
      }
    }
  }

  lemma {:induction false} ClassRunExact(s: string, i: nat, j: nat, k: CharClass)
    requires i <= j <= |s|
    requires forall m :: i <= m < j ==> InClass(s[m], k)
    requires j == |s| || !InClass(s[j], k)
    ensures ClassRun(s, i, k) == j
    decreases j - i
  {
    if i < j {
      ClassRunExact(s, i + 1, j, k);
    }
  }

  lemma {:induction false} BaseRunExact(s: string, i: nat, j: nat)
    requires i <= j <= |s|
    requires forall m :: i <= m < j ==> IsBaseChar(s[m])
    requires j == |s| || !IsBaseChar(s[j])
    ensures BaseRun(s, i) == j
    decreases j - i
  {
    if i < j {
      BaseRunExact(s, i + 1, j);
    }
  }

  /** Dropping a known prefix from a suffix of s. */
  lemma DropPrefix(s: string, i: nat, a: string, rest: string)
    requires i <= |s| && s[i..] == a + rest
    ensures i + |a| <= |s| && s[i + |a|..] == rest
  {
    assert s[i + |a|..] == s[i..][|a|..];
  }

  lemma OptGroupComplete(s: string, i: nat, k: CharClass, g: Option<string>, rest: string)
    requires i <= |s| && s[i..] == g.GetOr("") + rest
    requires ValidGroup(g, k) && StopsRun(rest) && (g.None? ==> Blocks(rest, k))
    ensures OptGroup(s, i, k) == (g, i + |g.GetOr("")|)
  {
    var j := i + |g.GetOr("")|;
    assert s[j..] == s[i..][|g.GetOr("")|..];
    assert s[j..] == rest;
    if g.Some? {
      var v := g.value;
      assert s[i..j] == v;
      forall m | i + 1 <= m < j ensures InClass(s[m], k) {
        assert s[m] == v[m - i];
      }
      if j < |s| {
        assert s[j] == rest[0];
      }
      ClassRunExact(s, i + 1, j, k);
      assert s[i] == v[0] && s[i + 1] == v[1];
    } else if i + 1 < |s| {
      assert s[i] == rest[0] && s[i + 1] == rest[1];
    }
  }

  lemma {:induction false} OptGroupsComplete(s: string, i: nat, ks: seq<CharClass>, gs: seq<Option<string>>, t: string)
    requires i <= |s| && s[i..] == RenderGroups(gs) + t
    requires ValidGroups(gs, ks) && DistinctClasses(ks) && Boundary(t)
    ensures OptGroups(s, i, ks) == (gs, i + |RenderGroups(gs)|)
    decreases |ks|
  {
    if ks != [] {
      var g := gs[0].GetOr("");
      var j := i + |g|;
      var rest := RenderGroups(gs[1..]) + t;
      assert s[i..] == g + rest;
      ValidGroupsTail(gs, ks);
      DistinctTail(ks);
      assert OptGroup(s, i, ks[0]) == (gs[0], j) by {
        RenderedGroupsStop(gs[1..], ks[1..], t);
        RenderedGroupsBlock(gs[1..], ks[1..], t, ks[0]);
        OptGroupComplete(s, i, ks[0], gs[0], rest);
      }
      assert OptGroups(s, j, ks[1..]) == (gs[1..], j + |RenderGroups(gs[1..])|) by {
        DropPrefix(s, i, g, rest);
        OptGroupsComplete(s, j, ks[1..], gs[1..], t);
      }
      assert gs == [gs[0]] + gs[1..];
    }
  }

  /** A base name followed by text that stops the run is read back whole. */
  lemma BaseRunComplete(s: string, i: nat, base: string, rest: string)
    requires i <= |s| && s[i..] == base + rest && |base| >= 1
    requires forall m :: 0 <= m < |base| ==> IsBaseChar(base[m])
    requires StopsRun(rest)
    ensures i < |s| && IsBaseChar(s[i])
    ensures BaseRun(s, i) == i + |base| <= |s|
    ensures s[i..i + |base|] == base && s[i + |base|..] == rest
  {
    var e := i + |base|;
    DropPrefix(s, i, base, rest);
    forall m | i <= m < e ensures IsBaseChar(s[m]) {
      assert s[m] == s[i..][m - i];
    }
    if e < |s| {
      assert s[e] == rest[0];
    }
    BaseRunExact(s, i, e);
    assert s[i] == s[i..][0];
    assert s[i..e] == s[i..][..|base|];
  }

  /** ParseSegment put together from its base run and its groups. */
  lemma ParseSegmentOf(s: string, i: nat, ks: seq<CharClass>, seg: Segment, e: nat, end: nat)
    requires i < |s| && IsBaseChar(s[i]) && BaseRun(s, i) == e <= |s| && s[i..e] == seg.base
    requires OptGroups(s, e, ks) == (seg.suffixes, end)
    ensures ParseSegment(s, i, ks) == Some((seg, end))
  {
  }

  lemma ParseSegmentComplete(s: string, i: nat, ks: seq<CharClass>, seg: Segment, t: string)
    requires i <= |s| && s[i..] == RenderSegment(seg) + t
    requires ValidSegment(seg, ks) && DistinctClasses(ks) && Boundary(t)
    ensures ParseSegment(s, i, ks) == Some((seg, i + |RenderSegment(seg)|))
  {
    var rest := RenderGroups(seg.suffixes) + t;
    assert s[i..] == seg.base + rest;
    RenderedGroupsStop(seg.suffixes, ks, t);
    BaseRunComplete(s, i, seg.base, rest);
    var e := i + |seg.base|;
    OptGroupsComplete(s, e, ks, seg.suffixes, t);
    ParseSegmentOf(s, i, ks, seg, e, e + |RenderGroups(seg.suffixes)|);
  }

  // ---------------------------------------------------------------------
  // Labels: ^([dpcofg]__BASE)(groups)$

  /** A match of a non-species label regex. */
  datatype LabelMatch = LabelMatch(rank: char, seg: Segment) {
    /** group(1): the rank prefix and the base name. */
    function Head(): string { [rank] + "__" + seg.base }
  }

  function MatchLabel(s: string, ks: seq<CharClass>): (r: Option<LabelMatch>)
    ensures r.Some? ==> |r.value.seg.suffixes| == |ks|
  {
    if |s| >= 3 && s[0] in "dpcofg" && s[1] == '_' && s[2] == '_' then
      var seg := ParseSegment(s, 3, ks);
      if seg.Some? && AtEnd(s, seg.value.1) then Some(LabelMatch(s[0], seg.value.0)) else None
    else
      None
  }

  function RenderLabel(m: LabelMatch): string {
    [m.rank] + "__" + RenderSegment(m.seg)
  }

  predicate ValidLabel(m: LabelMatch, ks: seq<CharClass>) {
    m.rank in "dpcofg" && ValidSegment(m.seg, ks)
  }

  lemma MatchLabelSound(s: string, ks: seq<CharClass>)
    ensures var r := MatchLabel(s, ks);
      r.Some? ==> ValidLabel(r.value, ks) && (s == RenderLabel(r.value) || s == RenderLabel(r.value) + "\n")
  {
    if MatchLabel(s, ks).Some? {
      ParseSegmentSound(s, 3, ks);
      var (seg, e) := ParseSegment(s, 3, ks).value;
      var m := LabelMatch(s[0], seg);
      assert MatchLabel(s, ks) == Some(m);
      assert s[..3] == [s[0]] + "__";
      assert s == s[..3] + s[3..e] + s[e..];
      assert s[..e] == RenderLabel(m) by {
        assert s[..e] == s[..3] + s[3..e];
      }
      assert s == s[..e] + s[e..];
    }
  }

  lemma MatchLabelComplete(m: LabelMatch, ks: seq<CharClass>, t: string)
    requires ValidLabel(m, ks) && DistinctClasses(ks) && (t == "" || t == "\n")
    ensures MatchLabel(RenderLabel(m) + t, ks) == Some(m)
  {
    var s := RenderLabel(m) + t;
    assert s == [m.rank] + "__" + (RenderSegment(m.seg) + t);
    assert s[3..] == RenderSegment(m.seg) + t;
    ParseSegmentComplete(s, 3, ks, m.seg, t);
  }

  /** A label matches exactly when it is a well-formed rank prefix, base and
      suffix groups, optionally followed by one newline. */
  lemma MatchLabelIff(s: string, ks: seq<CharClass>, m: LabelMatch)
    requires DistinctClasses(ks)
    ensures MatchLabel(s, ks) == Some(m) <==>
      ValidLabel(m, ks) && (s == RenderLabel(m) || s == RenderLabel(m) + "\n")
  {
    MatchLabelSound(s, ks);
    if ValidLabel(m, ks) && s == RenderLabel(m) {
      MatchLabelComplete(m, ks, "");
      assert s == RenderLabel(m) + "";
    } else if ValidLabel(m, ks) && s == RenderLabel(m) + "\n" {
      MatchLabelComplete(m, ks, "\n");
    }
  }

  // ---------------------------------------------------------------------
  // Species: ^(s__GENUS)(groups) (EPITHET)(groups)$

  /** A match of a species regex: genus and epithet segments. */
  datatype BinomialMatch = BinomialMatch(genus: Segment, epithet: Segment)

  function MatchBinomial(s: string, ks: seq<CharClass>): (r: Option<BinomialMatch>)
    ensures r.Some? ==> |r.value.genus.suffixes| == |ks| && |r.value.epithet.suffixes| == |ks|
  {
    if |s| >= 3 && s[..3] == "s__" then
      var genus := ParseSegment(s, 3, ks);
      if genus.Some? && genus.value.1 < |s| && s[genus.value.1] == ' ' then
        var epithet := ParseSegment(s, genus.value.1 + 1, ks);
        if epithet.Some? && AtEnd(s, epithet.value.1) then
          Some(BinomialMatch(genus.value.0, epithet.value.0))
        else
          None
      else
        None
    else
      None
  }

  function RenderBinomial(m: BinomialMatch): string {
    "s__" + RenderSegment(m.genus) + " " + RenderSegment(m.epithet)
  }

  predicate ValidBinomial(m: BinomialMatch, ks: seq<CharClass>) {
    ValidSegment(m.genus, ks) && ValidSegment(m.epithet, ks)
  }

  /** A text cut at the genus end and the epithet end of a binomial. */
  lemma BinomialPieces(s: string, e: nat, e2: nat)
    requires 3 <= e < e2 <= |s|
    ensures s == s[..3] + s[3..e] + [s[e]] + s[e + 1..e2] + s[e2..]
  {
  }

  lemma MatchBinomialSound(s: string, ks: seq<CharClass>)
    ensures var r := MatchBinomial(s, ks);
      r.Some? ==> ValidBinomial(r.value, ks) && (s == RenderBinomial(r.value) || s == RenderBinomial(r.value) + "\n")
  {
    if MatchBinomial(s, ks).Some? {
      var genus := ParseSegment(s, 3, ks).value;
      var epithet := ParseSegment(s, genus.1 + 1, ks).value;
      ParseSegmentSound(s, 3, ks);
      ParseSegmentSound(s, genus.1 + 1, ks);
      BinomialPieces(s, genus.1, epithet.1);
    }
  }

  /** The epithet segment after the space of a binomial is parsed back exactly. */
  lemma AfterSpaceComplete(s: string, e: nat, ks: seq<CharClass>, seg: Segment, t: string)
    requires e <= |s| && s[e..] == " " + RenderSegment(seg) + t
    requires ValidSegment(seg, ks) && DistinctClasses(ks) && Boundary(t)
    ensures e < |s| && ParseSegment(s, e + 1, ks) == Some((seg, e + 1 + |RenderSegment(seg)|))
  {
    assert s[e..] == " " + (RenderSegment(seg) + t);
    DropPrefix(s, e, " ", RenderSegment(seg) + t);
    ParseSegmentComplete(s, e + 1, ks, seg, t);
  }

  /** MatchBinomial accepts a text once each of its steps does. */
  lemma MatchBinomialSteps(s: string, ks: seq<CharClass>, genus: Segment, e: nat, epithet: Segment, e2: nat)
    requires |s| >= 3 && s[..3] == "s__"
    requires ParseSegment(s, 3, ks) == Some((genus, e))
    requires e < |s| && s[e] == ' '
    requires ParseSegment(s, e + 1, ks) == Some((epithet, e2))
    requires AtEnd(s, e2)
    ensures MatchBinomial(s, ks) == Some(BinomialMatch(genus, epithet))
  {
  }

  /** The genus segment after `s__` is parsed back exactly. */
  lemma GenusComplete(s: string, ks: seq<CharClass>, seg: Segment, tail: string)
    requires s == "s__" + RenderSegment(seg) + tail
    requires ValidSegment(seg, ks) && DistinctClasses(ks) && Boundary(tail)
    ensures |s| >= 3 && s[..3] == "s__"
    ensures ParseSegment(s, 3, ks) == Some((seg, 3 + |RenderSegment(seg)|))
    ensures s[3 + |RenderSegment(seg)|..] == tail
  {
    assert s == "s__" + (RenderSegment(seg) + tail);
    assert s[3..] == RenderSegment(seg) + tail;
    ParseSegmentComplete(s, 3, ks, seg, tail);
    DropPrefix(s, 3, RenderSegment(seg), tail);
  }

  lemma BinomialGenusStep(m: BinomialMatch, ks: seq<CharClass>, t: string)
    requires ValidBinomial(m, ks) && DistinctClasses(ks) && (t == "" || t == "\n")
    ensures var s := RenderBinomial(m) + t;
      var e := 3 + |RenderSegment(m.genus)|;
      |s| >= 3 && s[..3] == "s__" && ParseSegment(s, 3, ks) == Some((m.genus, e))
      && s[e..] == " " + RenderSegment(m.epithet) + t
  {
    var s := RenderBinomial(m) + t;
    var tail := " " + RenderSegment(m.epithet) + t;
    assert s == "s__" + RenderSegment(m.genus) + tail;
    GenusComplete(s, ks, m.genus, tail);
  }

  lemma BinomialEpithetStep(m: BinomialMatch, ks: seq<CharClass>, t: string)
    requires ValidBinomial(m, ks) && DistinctClasses(ks) && (t == "" || t == "\n")
    ensures var s := RenderBinomial(m) + t;
      var e := 3 + |RenderSegment(m.genus)|;
      var e2 := e + 1 + |RenderSegment(m.epithet)|;
      e < |s| && s[e] == ' ' && ParseSegment(s, e + 1, ks) == Some((m.epithet, e2)) && AtEnd(s, e2)
  {
    var s := RenderBinomial(m) + t;
    var e := 3 + |RenderSegment(m.genus)|;
    var e2 := e + 1 + |RenderSegment(m.epithet)|;
    BinomialGenusStep(m, ks, t);
    AfterSpaceComplete(s, e, ks, m.epithet, t);
    assert s[e] == s[e..][0];
    assert s == ("s__" + RenderSegment(m.genus) + " " + RenderSegment(m.epithet)) + t;
    if t != "" {
      assert s[e2] == t[0];
    }
  }

  lemma MatchBinomialComplete(m: BinomialMatch, ks: seq<CharClass>, t: string)
    requires ValidBinomial(m, ks) && DistinctClasses(ks) && (t == "" || t == "\n")
    ensures MatchBinomial(RenderBinomial(m) + t, ks) == Some(m)
  {
    var s := RenderBinomial(m) + t;
    var e := 3 + |RenderSegment(m.genus)|;
    BinomialGenusStep(m, ks, t);
    BinomialEpithetStep(m, ks, t);
    MatchBinomialSteps(s, ks, m.genus, e, m.epithet, e + 1 + |RenderSegment(m.epithet)|);
  }

  /** A species label matches exactly when it is `s__`, a well-formed genus
      segment, one space and a well-formed epithet segment, optionally
      followed by one newline. */
  lemma MatchBinomialIff(s: string, ks: seq<CharClass>, m: BinomialMatch)
    requires DistinctClasses(ks)
    ensures MatchBinomial(s, ks) == Some(m) <==>
      ValidBinomial(m, ks) && (s == RenderBinomial(m) || s == RenderBinomial(m) + "\n")
  {
    MatchBinomialSound(s, ks);
    if ValidBinomial(m, ks) && s == RenderBinomial(m) {
      MatchBinomialComplete(m, ks, "");
      assert s == RenderBinomial(m) + "";
    } else if ValidBinomial(m, ks) && s == RenderBinomial(m) + "\n" {
      MatchBinomialComplete(m, ks, "\n");
    }
  }
}
