/** The seven-rank lineage record of gg2/backbone_taxonomy.py: parsing a
    `;`-separated lineage into rank columns, and removing or adding the
    one-letter `x__` rank prefix. */
module Lineage {
  import opened Wrappers
  import opened PyStr

  /** LEVELS, from domain down to species. */
  const Levels: seq<string> := ["domain", "phylum", "class", "order", "family", "genus", "species"]

  /** An index into Levels. */
  type Rank = i: nat | i < 7

  /** One row of rank columns, domain first. */
  type Ranked = s: seq<string> | |s| == 7 witness ["", "", "", "", "", "", ""]

  /** The three-character prefix of a rank, e.g. "g__" for genus. */
  function RankPrefix(level: Rank): (p: string)
    ensures |p| == 3 && p[0] != '_' && p[1..] == "__"
  {
    [Levels[level][0]] + "__"
  }

  /** `splitter(idx, x)` inside parse_lineage. */
  function Splitter(idx: nat, x: string): string {
    var parts := Split(x, ";");
    if idx >= |parts| then "" else Strip(parts[idx])
  }

  /** parse_lineage for one lineage string: the seven rank columns. */
  function ParseLineage(x: string): (r: Ranked) {
    seq(7, i requires 0 <= i => Splitter(i, x))
  }

  /** Field i of a parsed lineage is the i-th `;`-separated part with
      surrounding whitespace removed, or "" when there are fewer parts; parts
      past the seventh are ignored. Stated over a lineage built from parts that
      carry no `;`. */
  lemma ParseJoinedLineage(parts: seq<string>)
    requires |parts| >= 1
    requires forall k :: 0 <= k < |parts| ==> !Contains(parts[k], ";")
    ensures forall i :: 0 <= i < 7 ==> ParseLineage(Join(";", parts))[i] == (if i < |parts| then Strip(parts[i]) else "")
  {
    SplitJoin(parts, ";");
  }

  /** Formatting a seven-rank lineage with `;` and parsing it back gives the
      same lineage, when no name holds `;` or surrounding whitespace. */
  lemma ParseFormatRoundTrip(lin: Ranked)
    requires forall k :: 0 <= k < 7 ==> !Contains(lin[k], ";")
    requires forall k :: 0 <= k < 7 ==> |lin[k]| == 0 || (!IsSpace(lin[k][0]) && !IsSpace(lin[k][|lin[k]| - 1]))
    ensures ParseLineage(Join(";", lin)) == lin
  {
    ParseJoinedLineage(lin);
    forall k | 0 <= k < 7
      ensures Strip(lin[k]) == lin[k]
    {
      StripTrimmed(lin[k]);
    }
  }

  /** The parts after the first, each with a space in front. */
  function SpacedTail(parts: seq<string>): (r: seq<string>)
    requires |parts| >= 1
    ensures |r| == |parts| && r[0] == parts[0]
    ensures forall k :: 1 <= k < |parts| ==> r[k] == " " + parts[k]
  {
    [parts[0]] + seq(|parts| - 1, k requires 0 <= k < |parts| - 1 => " " + parts[k + 1])
  }

  /** Joining with `"; "` is joining with `;` after putting a space in front
      of every part but the first. */
  lemma {:induction false} JoinSpaced(parts: seq<string>)
    requires |parts| >= 1
    ensures Join("; ", parts) == Join(";", SpacedTail(parts))
    decreases |parts|
  {
    if |parts| > 1 {
      var t := SpacedTail(parts[1..]);
      var s := SpacedTail(parts);
      JoinSpaced(parts[1..]);
      assert s[1..] == [" " + t[0]] + t[1..];
      if |parts| > 2 {
        assert Join(";", s[1..]) == " " + t[0] + ";" + Join(";", t[1..]);
        assert Join(";", t) == t[0] + ";" + Join(";", t[1..]);
      } else {
        assert Join(";", s[1..]) == " " + t[0];
      }
    }
  }

  /** A space in front of a name holding no `;` adds no `;`, and strip takes
      the space off again. */
  lemma SpacedPart(x: string)
    requires !Contains(x, ";")
    requires |x| == 0 || (!IsSpace(x[0]) && !IsSpace(x[|x| - 1]))
    ensures !Contains(" " + x, ";")
    ensures Strip(" " + x) == x
  {
    assert (" " + x)[1..] == x;
    StripTrimmed(x);
  }

  /** A lineage written the way the GTDB and Greengenes files write it, with
      `"; "` between ranks, parses back to its seven names when none holds
      `;` or surrounding whitespace. */
  lemma ParseSpacedRoundTrip(lin: Ranked)
    requires forall k :: 0 <= k < 7 ==> !Contains(lin[k], ";")
    requires forall k :: 0 <= k < 7 ==> |lin[k]| == 0 || (!IsSpace(lin[k][0]) && !IsSpace(lin[k][|lin[k]| - 1]))
    ensures ParseLineage(Join("; ", lin)) == lin
  {
    var s := SpacedTail(lin);
    SpacedFields(lin);
    JoinSpaced(lin);
    ParseJoinedLineage(s);
  }

  /** Every part of SpacedTail(lin) is free of `;` and strips to the name it
      came from. */
  lemma SpacedFields(lin: Ranked)
    requires forall k :: 0 <= k < 7 ==> !Contains(lin[k], ";")
    requires forall k :: 0 <= k < 7 ==> |lin[k]| == 0 || (!IsSpace(lin[k][0]) && !IsSpace(lin[k][|lin[k]| - 1]))
    ensures forall k :: 0 <= k < 7 ==> !Contains(SpacedTail(lin)[k], ";") && Strip(SpacedTail(lin)[k]) == lin[k]
  {
    forall k | 0 <= k < 7
      ensures !Contains(SpacedTail(lin)[k], ";") && Strip(SpacedTail(lin)[k]) == lin[k]
    {
      var x := lin[k];
      if k == 0 {
        StripTrimmed(x);
      } else {
        SpacedPart(x);
      }
    }
  }

  /** The lambda of strip_ranks: `x.split('__', 1)[1]`, None where Python
      raises IndexError. */
  function StripRank(text: string): Option<string> {
    AfterFirst(text, "__")
  }

  /** strip_ranks applied to one row: every column loses its rank prefix, or
      the whole call fails on the first column that has no `__`. */
  function StripRanks(row: Ranked): (res: Result<Ranked>)
    ensures res.Ok? <==> forall k :: 0 <= k < 7 ==> StripRank(row[k]).Some?
    ensures res.Ok? ==> forall k :: 0 <= k < 7 ==> Some(res.value[k]) == StripRank(row[k])
  {
    if forall k :: 0 <= k < 7 ==> StripRank(row[k]).Some? then
      Ok(seq(7, k requires 0 <= k < 7 => StripRank(row[k]).value))
    else
      Err(IndexError("list index out of range"))
  }

  /** format_name(level, name) */
  function FormatName(level: Rank, name: string): string {
    RankPrefix(level) + name
  }

  /** The first `__` of a text that starts with a letter and `__` is the one
      at position 1. */
  lemma AfterFirstPrefix(c: char, rest: string)
    requires c != '_'
    ensures AfterFirst([c] + "__" + rest, "__") == Some(rest)
  {
    var s := [c] + "__" + rest;
    assert s[0..2][0] == c;
    assert !OccursAt(s, "__", 0);
    assert OccursAt(s, "__", 1);
    assert Find(s, "__") == Some(1);
  }

  /** strip_ranks undoes format_name. */
  lemma StripFormat(level: Rank, name: string)
    ensures StripRank(FormatName(level, name)) == Some(name)
  {
    var p := RankPrefix(level);
    assert p == [p[0]] + "__";
    AfterFirstPrefix(p[0], name);
  }

  /** format_name undoes strip_ranks on a text that carries its rank's prefix. */
  lemma FormatStrip(level: Rank, text: string)
    requires StartsWith(text, RankPrefix(level))
    ensures StripRank(text) == Some(text[3..])
    ensures FormatName(level, text[3..]) == text
  {
    var p := RankPrefix(level);
    assert text == p + text[3..];
    StripFormat(level, text[3..]);
  }
}
