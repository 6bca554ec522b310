/** The handful of Python `str` operations the taxonomy code is built from:
    `startswith`, `in`, `find`, `split`, `join`, `strip`, `replace` and
    `count`, with Python's semantics (including the empty-pattern cases). */
module PyStr {
  import opened Wrappers

  /** `s.startswith(p)` */
  predicate StartsWith(s: string, p: string) {
    |p| <= |s| && s[..|p|] == p
  }

  /** `s.endswith(p)` */
  predicate EndsWith(s: string, p: string) {
    |p| <= |s| && s[|s| - |p|..] == p
  }

  /** `sub` occurs in `s` starting at position `i`. */
  predicate OccursAt(s: string, sub: string, i: nat) {
    i + |sub| <= |s| && s[i..i + |sub|] == sub
  }

  /** `sub in s` */
  predicate Contains(s: string, sub: string)
    decreases |s|
  {
    StartsWith(s, sub) || (|s| > 0 && Contains(s[1..], sub))
  }

  lemma {:induction false} ContainsIff(s: string, sub: string)
    ensures Contains(s, sub) <==> exists i :: 0 <= i <= |s| && OccursAt(s, sub, i)
    decreases |s|
  {
    if StartsWith(s, sub) {
      assert OccursAt(s, sub, 0);
    } else if |s| == 0 {
      assert forall i :: 0 <= i <= |s| && OccursAt(s, sub, i) ==> i == 0 && StartsWith(s, sub);
    } else {
      ContainsIff(s[1..], sub);
      if Contains(s[1..], sub) {
        var i :| 0 <= i <= |s[1..]| && OccursAt(s[1..], sub, i);
        assert OccursAt(s, sub, i + 1);
      } else {
        forall i | 0 <= i <= |s|
          ensures !OccursAt(s, sub, i)
        {
          if i > 0 {
            OccursShift(s, sub, i - 1);
          }
        }
      }
    }
  }

  /** Leftmost position at or after `from` where `sub` occurs (`s.find(sub, from)`). */
  function FindFrom(s: string, sub: string, from: nat): (r: Option<nat>)
    requires from <= |s|
    ensures r.Some? ==> from <= r.value && OccursAt(s, sub, r.value)
    ensures forall j :: from <= j <= |s| && OccursAt(s, sub, j) ==> r.Some? && r.value <= j
    decreases |s| - from
  {
    if OccursAt(s, sub, from) then Some(from)
    else if from == |s| then None
    else FindFrom(s, sub, from + 1)
  }

  /** `s.find(sub)`, None standing for -1. */
  function Find(s: string, sub: string): (r: Option<nat>)
    ensures r.Some? ==> OccursAt(s, sub, r.value)
    ensures forall j :: 0 <= j <= |s| && OccursAt(s, sub, j) ==> r.Some? && r.value <= j
  {
    FindFrom(s, sub, 0)
  }

  /** `s.split(sep)` for a non-empty separator: the pieces between the
      leftmost non-overlapping occurrences of `sep`. */
  function Split(s: string, sep: string): (parts: seq<string>)
    requires sep != []
    ensures |parts| >= 1
    decreases |s|
  {
    match Find(s, sep)
    case None => [s]
    case Some(i) => [s[..i]] + Split(s[i + |sep|..], sep)
  }

  /** `sep.join(parts)` */
  function Join(sep: string, parts: seq<string>): string
    decreases |parts|
  {
    if |parts| == 0 then ""
    else if |parts| == 1 then parts[0]
    else parts[0] + sep + Join(sep, parts[1..])
  }

  /** Joining the pieces of a split gives the original text back. */
  lemma {:induction false} JoinSplit(s: string, sep: string)
    requires sep != []
    ensures Join(sep, Split(s, sep)) == s
    decreases |s|
  {
    match Find(s, sep)
    case None =>
    case Some(i) =>
      var rest := s[i + |sep|..];
      JoinSplit(rest, sep);
      ThreeParts(s, i, i + |sep|);
      var parts := Split(rest, sep);
      assert Split(s, sep) == [s[..i]] + parts;
      JoinCons(sep, s[..i], parts);
  }

  /** A text is its prefix, a middle and its suffix. */
  lemma ThreeParts(s: string, i: nat, j: nat)
    requires i <= j <= |s|
    ensures s == s[..i] + s[i..j] + s[j..]
  {
    assert s[..j] == s[..i] + s[i..j];
    assert s == s[..j] + s[j..];
  }

  /** Joining a piece in front of at least one other piece. */
  lemma JoinCons(sep: string, a: string, parts: seq<string>)
    requires |parts| >= 1
    ensures Join(sep, [a] + parts) == a + sep + Join(sep, parts)
  {
    assert ([a] + parts)[1..] == parts;
  }

  /** No piece of a split contains the separator. */
  lemma {:induction false} SplitPiecesFree(s: string, sep: string)
    requires sep != []
    ensures forall k :: 0 <= k < |Split(s, sep)| ==> !Contains(Split(s, sep)[k], sep)
    decreases |s|
  {
    match Find(s, sep)
    case None =>
      ContainsIff(s, sep);
    case Some(i) =>
      var rest := s[i + |sep|..];
      SplitPiecesFree(rest, sep);
      var head := s[..i];
      ContainsIff(head, sep);
      forall j | 0 <= j <= |head|
        ensures !OccursAt(head, sep, j)
      {
        if j + |sep| <= |head| {
          assert head[j..j + |sep|] == s[j..j + |sep|];
          assert Find(s, sep) == Some(i);
          assert !OccursAt(s, sep, j);
        }
      }
  }

  /** A separator whose first character does not occur again in it, such
      as ";" or "; ": no occurrence can start inside a piece and run into
      the separator that follows it. */
  predicate FirstUnique(sep: string) {
    |sep| >= 1 && forall m :: 0 < m < |sep| ==> sep[m] != sep[0]
  }

  /** In a piece, a separator and the rest, the separator that follows
      the piece is the leftmost occurrence. */
  lemma FirstAfterPiece(a: string, sep: string, rest: string)
    requires FirstUnique(sep) && !Contains(a, sep)
    ensures Find(a + sep + rest, sep) == Some(|a|)
  {
    var s := a + sep + rest;
    var i := |a|;
    ContainsIff(a, sep);
    assert OccursAt(s, sep, i);
    forall j | 0 <= j < i
      ensures !OccursAt(s, sep, j)
    {
      if j + |sep| <= i {
        assert !OccursAt(a, sep, j);
        assert s[j..j + |sep|] == a[j..j + |sep|];
      } else {
        assert s[i] == sep[0];
        assert s[j..j + |sep|][i - j] == s[i] != sep[i - j];
      }
    }
  }

  /** Splitting undoes joining pieces that do not contain the separator. */
  lemma {:induction false} SplitJoin(parts: seq<string>, sep: string)
    requires FirstUnique(sep) && |parts| >= 1
    requires forall k :: 0 <= k < |parts| ==> !Contains(parts[k], sep)
    ensures Split(Join(sep, parts), sep) == parts
    decreases |parts|
  {
    var s := Join(sep, parts);
    if |parts| == 1 {
      ContainsIff(s, sep);
    } else {
      var rest := Join(sep, parts[1..]);
      assert parts == [parts[0]] + parts[1..];
      JoinCons(sep, parts[0], parts[1..]);
      FirstAfterPiece(parts[0], sep, rest);
      PieceSlices(parts[0], sep, rest);
      SplitJoin(parts[1..], sep);
    }
  }

  /** The piece and the rest around a separator. */
  lemma PieceSlices(a: string, sep: string, rest: string)
    ensures (a + sep + rest)[..|a|] == a && (a + sep + rest)[|a| + |sep|..] == rest
  {
  }

  /** The characters Python's `str.isspace` accepts, which `strip()` removes. */
  predicate IsSpace(c: char) {
    var n := c as int;
    (0x09 <= n <= 0x0D) || (0x1C <= n <= 0x20) || n == 0x85 || n == 0xA0 || n == 0x1680
    || (0x2000 <= n <= 0x200A) || n == 0x2028 || n == 0x2029 || n == 0x202F || n == 0x205F
    || n == 0x3000
  }

  function LStrip(s: string): (r: string)
    ensures |r| <= |s| && r == s[|s| - |r|..]
    ensures |r| == 0 || !IsSpace(r[0])
    ensures forall k :: 0 <= k < |s| - |r| ==> IsSpace(s[k])
    decreases |s|
  {
    if |s| > 0 && IsSpace(s[0]) then LStrip(s[1..]) else s
  }

  function RStrip(s: string): (r: string)
    ensures |r| <= |s| && r == s[..|r|]
    ensures |r| == 0 || !IsSpace(r[|r| - 1])
    ensures forall k :: |r| <= k < |s| ==> IsSpace(s[k])
    decreases |s|
  {
    if |s| > 0 && IsSpace(s[|s| - 1]) then RStrip(s[..|s| - 1]) else s
  }

  /** `s.strip()`: the text between the leading and trailing whitespace. */
  function Strip(s: string): string {
    RStrip(LStrip(s))
  }

  /** The result of `strip()` is a segment of the input with no whitespace at
      either end, and everything cut away is whitespace. */
  lemma StripShape(s: string) returns (i: nat)
    ensures i <= |s| - |Strip(s)| && Strip(s) == s[i..i + |Strip(s)|]
    ensures forall k :: 0 <= k < i ==> IsSpace(s[k])
    ensures forall k :: i + |Strip(s)| <= k < |s| ==> IsSpace(s[k])
    ensures |Strip(s)| == 0 || (!IsSpace(Strip(s)[0]) && !IsSpace(Strip(s)[|Strip(s)| - 1]))
  {
    i := |s| - |LStrip(s)|;
    StripSegment(s);
    StripTail(s);
    StripEnds(s);
  }

  lemma StripSegment(s: string)
    ensures var i := |s| - |LStrip(s)|;
      i + |Strip(s)| <= |s| && Strip(s) == s[i..i + |Strip(s)|]
  {
    var l := LStrip(s);
    var i := |s| - |l|;
    var r := RStrip(l);
    assert l == s[i..];
    assert r == l[..|r|];
  }

  lemma StripTail(s: string)
    ensures forall k :: |s| - |LStrip(s)| + |Strip(s)| <= k < |s| ==> IsSpace(s[k])
  {
    var l := LStrip(s);
    var i := |s| - |l|;
    var r := RStrip(l);
    assert l == s[i..];
    forall k | i + |r| <= k < |s|
      ensures IsSpace(s[k])
    {
      var j := k - i;
      assert IsSpace(l[j]);
      assert s[k] == l[j];
    }
  }

  lemma StripEnds(s: string)
    ensures |Strip(s)| == 0 || (!IsSpace(Strip(s)[0]) && !IsSpace(Strip(s)[|Strip(s)| - 1]))
  {
    var l := LStrip(s);
    var r := RStrip(l);
    if |r| > 0 {
      assert r[0] == l[0];
    }
  }

  /** Text with no whitespace at either end is left alone by `strip()`. */
  lemma StripTrimmed(s: string)
    requires |s| == 0 || (!IsSpace(s[0]) && !IsSpace(s[|s| - 1]))
    ensures Strip(s) == s
  {
  }

  /** `s.replace("", rep)`: `rep` before every character and at the end. */
  function InterleaveEmpty(s: string, rep: string): (r: string)
    ensures |r| == |s| + (|s| + 1) * |rep|
    decreases |s|
  {
    if |s| == 0 then rep else rep + [s[0]] + InterleaveEmpty(s[1..], rep)
  }

  /** `s.replace(pat, rep)`: every leftmost, non-overlapping occurrence of
      `pat` replaced by `rep`, scanning left to right. */
  function Replace(s: string, pat: string, rep: string): string
    decreases |s|
  {
    if pat == [] then InterleaveEmpty(s, rep)
    else if StartsWith(s, pat) then rep + Replace(s[|pat|..], pat, rep)
    else if |s| == 0 then ""
    else [s[0]] + Replace(s[1..], pat, rep)
  }

  /** A text that does not contain `pat` is unchanged by the replacement. */
  lemma {:induction false} ReplaceAbsent(s: string, pat: string, rep: string)
    requires !Contains(s, pat)
    ensures Replace(s, pat, rep) == s
    decreases |s|
  {
    if |s| > 0 {
      ReplaceAbsent(s[1..], pat, rep);
      assert s == [s[0]] + s[1..];
    }
  }

  /** Replacing a pattern by itself changes nothing. */
  lemma {:induction false} ReplaceSame(s: string, pat: string)
    requires pat != []
    ensures Replace(s, pat, pat) == s
    decreases |s|
  {
    if StartsWith(s, pat) {
      ReplaceSame(s[|pat|..], pat);
      assert s == pat + s[|pat|..];
    } else if |s| > 0 {
      ReplaceSame(s[1..], pat);
      assert s == [s[0]] + s[1..];
    }
  }

  /** The leftmost occurrence is the one replaced: when `pat` first occurs in
      `s` at the end of `pre`, the result is `pre`, then `rep`, then the
      replacement carried on over what follows. */
  lemma {:induction false} ReplaceLeftmost(pre: string, pat: string, rep: string, post: string)
    requires pat != []
    requires forall j :: 0 <= j < |pre| ==> !OccursAt(pre + pat + post, pat, j)
    ensures Replace(pre + pat + post, pat, rep) == pre + rep + Replace(post, pat, rep)
    decreases |pre|
  {
    var s := pre + pat + post;
    var tail := Replace(post, pat, rep);
    if |pre| == 0 {
      assert s == pat + post;
      ReplaceAtStart(s, pat, rep);
      assert s[|pat|..] == post;
      assert pre + rep + tail == rep + tail;
    } else {
      var s' := pre[1..] + pat + post;
      NoOccurrenceShift(pre, pat, post);
      ReplaceLeftmost(pre[1..], pat, rep, post);
      ReplaceNoMatchHead(s, pat, rep);
      calc {
        Replace(s, pat, rep);
        [s[0]] + Replace(s', pat, rep);
        [pre[0]] + (pre[1..] + rep + tail);
        { assert pre == [pre[0]] + pre[1..]; }
        pre + rep + tail;
      }
    }
  }

  /** An occurrence at the start is replaced. */
  lemma ReplaceAtStart(s: string, pat: string, rep: string)
    requires pat != [] && OccursAt(s, pat, 0)
    ensures Replace(s, pat, rep) == rep + Replace(s[|pat|..], pat, rep)
  {
    assert s[..|pat|] == s[0..|pat|];
  }

  /** Without an occurrence at the start, the first character is kept. */
  lemma ReplaceNoMatchHead(s: string, pat: string, rep: string)
    requires pat != [] && |s| > 0 && !OccursAt(s, pat, 0)
    ensures Replace(s, pat, rep) == [s[0]] + Replace(s[1..], pat, rep)
  {
    if |pat| <= |s| {
      assert s[..|pat|] == s[0..|pat|];
    }
  }

  /** No occurrence in the first |pre| positions stays so after dropping
      the first character. */
  lemma NoOccurrenceShift(pre: string, pat: string, post: string)
    requires |pre| > 0
    requires forall j :: 0 <= j < |pre| ==> !OccursAt(pre + pat + post, pat, j)
    ensures (pre + pat + post)[1..] == pre[1..] + pat + post
    ensures !OccursAt(pre + pat + post, pat, 0)
    ensures forall j :: 0 <= j < |pre[1..]| ==> !OccursAt(pre[1..] + pat + post, pat, j)
  {
    var s := pre + pat + post;
    assert s[1..] == pre[1..] + pat + post;
    forall j | 0 <= j < |pre[1..]|
      ensures !OccursAt(pre[1..] + pat + post, pat, j)
    {
      OccursShift(s, pat, j);
    }
  }

  lemma OccursShift(s: string, pat: string, j: nat)
    requires |s| > 0
    ensures OccursAt(s[1..], pat, j) <==> OccursAt(s, pat, j + 1)
  {
    if j + 1 + |pat| <= |s| {
      assert s[1..][j..j + |pat|] == s[j + 1..j + 1 + |pat|];
    }
  }

  /** `s.count(c)` for a single character. */
  function CountChar(s: string, c: char): nat
    decreases |s|
  {
    if |s| == 0 then 0 else (if s[0] == c then 1 else 0) + CountChar(s[1..], c)
  }

  /** `s.split(sep, 1)[1]`: what follows the first `sep`; None where Python
      raises IndexError because `sep` does not occur. */
  function AfterFirst(s: string, sep: string): Option<string> {
    match Find(s, sep)
    case None => None
    case Some(i) => Some(s[i + |sep|..])
  }

  /** `split(sep, 1)[1]` fails exactly when `sep` does not occur, and is
      otherwise what follows the leftmost occurrence. */
  lemma AfterFirstSpec(s: string, sep: string)
    ensures AfterFirst(s, sep).None? <==> forall j :: 0 <= j <= |s| ==> !OccursAt(s, sep, j)
    ensures AfterFirst(s, sep).Some? ==> exists i: nat ::
      && OccursAt(s, sep, i)
      && AfterFirst(s, sep).value == s[i + |sep|..]
      && forall j :: 0 <= j < i ==> !OccursAt(s, sep, j)
  {
  }

  lemma {:induction false} CountCharConcat(a: string, b: string, c: char)
    ensures CountChar(a + b, c) == CountChar(a, c) + CountChar(b, c)
    decreases |a|
  {
    if |a| > 0 {
      assert (a + b)[0] == a[0];
      assert (a + b)[1..] == a[1..] + b;
      CountCharConcat(a[1..], b, c);
    } else {
      assert a + b == b;
    }
  }

  /** A text without the character counts none of it. */
  lemma {:induction false} CountCharAbsent(s: string, c: char)
    requires !Contains(s, [c])
    ensures CountChar(s, c) == 0
    decreases |s|
  {
    if |s| > 0 {
      assert s[..1] == [s[0]];
      CountCharAbsent(s[1..], c);
    }
  }

  /** Joining n pieces that do not hold the separator character gives n - 1
      separators. */
  lemma {:induction false} CountJoin(parts: seq<string>, c: char)
    requires forall k :: 0 <= k < |parts| ==> !Contains(parts[k], [c])
    ensures CountChar(Join([c], parts), c) == if |parts| == 0 then 0 else |parts| - 1
    decreases |parts|
  {
    if |parts| == 1 {
      CountCharAbsent(parts[0], c);
    } else if |parts| > 1 {
      CountJoin(parts[1..], c);
      CountCharAbsent(parts[0], c);
      CountCharConcat(parts[0] + [c], Join([c], parts[1..]), c);
      CountCharConcat(parts[0], [c], c);
    }
  }

  /** A join splits at any inner piece boundary. */
  lemma {:induction false} JoinPrefix(parts: seq<string>, sep: string, n: nat)
    requires 0 < n < |parts|
    ensures Join(sep, parts) == Join(sep, parts[..n]) + sep + Join(sep, parts[n..])
    decreases n
  {
    if n > 1 {
      JoinPrefix(parts[1..], sep, n - 1);
      assert parts[..n][1..] == parts[1..][..n - 1];
      assert parts[1..][n - 1..] == parts[n..];
    }
  }

  /** `s.replace(c, "")` leaves no occurrence of the character c. */
  lemma {:induction false} ReplaceDeletesChar(s: string, c: char)
    ensures !Contains(Replace(s, [c], ""), [c])
    decreases |s|
  {
    if |s| > 0 {
      ReplaceDeletesChar(s[1..], c);
      var r := Replace(s[1..], [c], "");
      if !StartsWith(s, [c]) {
        assert s[..1] == [s[0]];
        assert ([s[0]] + r)[1..] == r;
        assert ([s[0]] + r)[..1] == [s[0]];
      } else {
        assert s[1..] == s[|[c]|..];
        assert Replace(s, [c], "") == "" + r;
        assert "" + r == r;
      }
    }
  }

  predicate IsDecimal(c: char) {
    '0' <= c <= '9'
  }

  /** `str(n)` for a non-negative int: its decimal digits, most significant
      first, with no leading zero. */
  function DecimalString(n: nat): (r: string)
    ensures |r| >= 1 && forall k :: 0 <= k < |r| ==> IsDecimal(r[k])
    decreases n
  {
    (if n < 10 then "" else DecimalString(n / 10)) + [('0' as int + n % 10) as char]
  }

  /** `int(s)` for a string of decimal digits. */
  function DecimalValue(s: string): int
    requires forall k :: 0 <= k < |s| ==> IsDecimal(s[k])
    decreases |s|
  {
    if s == [] then 0 else 10 * DecimalValue(s[..|s| - 1]) + (s[|s| - 1] as int - '0' as int)
  }

  /** `int(str(n)) == n`, and `str(n)` has a leading zero only when it is "0". */
  lemma {:induction false} DecimalRoundTrip(n: nat)
    ensures DecimalValue(DecimalString(n)) == n
    ensures DecimalString(n)[0] == '0' ==> n == 0
    decreases n
  {
    var r := DecimalString(n);
    var last := ('0' as int + n % 10) as char;
    assert last as int - '0' as int == n % 10;
    assert r[|r| - 1] == last;
    if n >= 10 {
      DecimalRoundTrip(n / 10);
      assert r[..|r| - 1] == DecimalString(n / 10);
      assert DecimalValue(r) == 10 * (n / 10) + n % 10;
    } else {
      assert r == [last];
    }
  }

  /** After replacing a pattern that occurs, the replacement occurs. */
  lemma ReplaceIntroduces(s: string, pat: string, rep: string)
    requires pat != [] && Contains(s, pat)
    ensures Contains(Replace(s, pat, rep), rep)
  {
    ContainsIff(s, pat);
    var i := Find(s, pat).value;
    var pre, post := s[..i], s[i + |pat|..];
    assert s == pre + pat + post;
    forall j | 0 <= j < |pre|
      ensures !OccursAt(pre + pat + post, pat, j)
    {
    }
    ReplaceLeftmost(pre, pat, rep, post);
    var r := Replace(s, pat, rep);
    assert OccursAt(r, rep, |pre|);
    ContainsIff(r, rep);
  }
}
