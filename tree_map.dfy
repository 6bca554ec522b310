/** The reshaping passes of gg2/tree_map.py over a tree held in a heap of
    nodes: cutting at a rank, marking which subtrees reach a species or a
    genome, cutting what they do not reach, accumulating lineages and
    making shared name components unique. */
module TreeMap {
  import opened Wrappers
  import opened PyStr
  import opened Forest
  import opened TreeHeap
  import SpeciesReport

  /** The only child of v is a tip: `cut` hands v's name down to it. */
  predicate HandsOver(kids: Kids, v: nat)
    requires Ordered(kids) && v < |kids|
  {
    |kids[v]| == 1 && kids[kids[v][0]] == []
  }

  // ---------------------------------------------------------------------
  // cut

  /** The child lists and attributes `cut(v)` leaves behind, w being the
      node it returns: a node whose only child is a tip hands its name to
      that child, which is returned; any other node loses all its children
      and is returned itself. Either way w is a tip carrying v's former name. */
  ghost predicate CutEffect(kidsA: Kids, attrsA: seq<Attrs>, kidsB: Kids, attrsB: seq<Attrs>, v: nat, w: nat)
    requires Ordered(kidsA) && |attrsA| == |kidsA| && v < |kidsA|
  {
    && |kidsB| == |kidsA| && |attrsB| == |attrsA|
    && w < |kidsB| && kidsB[w] == [] && attrsB[w].name == attrsA[v].name
    && (HandsOver(kidsA, v) ==>
         && w == kidsA[v][0] && kidsB == kidsA
         && attrsB == attrsA[v := attrsA[v].(name := None)][w := attrsA[w].(name := attrsA[v].name)])
    && (!HandsOver(kidsA, v) ==> w == v && kidsB == kidsA[v := []] && attrsB == attrsA)
  }

  /** `cut(node)`, with the parent links: handing a name over changes none,
      removing the children leaves each of them without a parent. */
  method Cut(h: Heap, v: nat) returns (w: nat)
    requires h.Valid() && v < |h.kids|
    modifies h
    ensures h.Valid()
    ensures CutEffect(old(h.kids), old(h.attrs), h.kids, h.attrs, v, w)
    ensures old(HandsOver(h.kids, v)) ==> h.parent == old(h.parent)
    ensures !old(HandsOver(h.kids, v)) ==>
      && |h.parent| == old(|h.parent|)
      && (forall u :: 0 <= u < |h.parent| ==> h.parent[u] == if u in old(h.kids[v]) then None else old(h.parent[u]))
  {
    var children := h.kids[v];
    if |children| == 1 && h.kids[children[0]] == [] {
      var name := h.attrs[v].name;
      h.attrs := h.attrs[v := h.attrs[v].(name := None)];
      h.attrs := h.attrs[children[0] := h.attrs[children[0]].(name := name)];
      return children[0];
    }
    DetachChildren(h, v);
    return v;
  }

  /** The `else` branch of `cut`: every child of v is removed from it. */
  method DetachChildren(h: Heap, v: nat)
    requires h.Valid() && v < |h.kids|
    modifies h
    ensures h.Valid() && |h.kids| == old(|h.kids|)
    ensures h.kids == old(h.kids)[v := []]
    ensures |h.parent| == old(|h.parent|)
    ensures forall u :: 0 <= u < |h.parent| ==> h.parent[u] == if u in old(h.kids[v]) then None else old(h.parent[u])
    ensures h.attrs == old(h.attrs)
  {
    var children := h.kids[v];
    for k := 0 to |children|
      invariant h.Valid() && |h.kids| == old(|h.kids|)
      invariant h.kids == old(h.kids)[v := children[k..]]
      invariant |h.parent| == old(|h.parent|)
      invariant forall u :: 0 <= u < |h.parent| ==> h.parent[u] == if u in children[..k] then None else old(h.parent[u])
      invariant h.attrs == old(h.attrs)
    {
      var c := children[k];
      assert c !in children[..k];
      RemoveFirstHead(children[k..]);
      assert children[..k + 1] == children[..k] + [c];
      h.Detach(c);
    }
  }

  // ---------------------------------------------------------------------
  // chop_to_species

  /** The name is present and contains the rank specifier. */
  predicate Mentions(name: Option<string>, spec: string) {
    name.Some? && Contains(name.value, spec)
  }

  /** The index of the first part starting with the prefix, or the last
      index when none does. */
  function FirstStarting(parts: seq<string>, prefix: string): (idx: nat)
    requires |parts| >= 1
    ensures idx < |parts|
    ensures forall k :: 0 <= k < idx ==> !StartsWith(parts[k], prefix)
    ensures idx == |parts| - 1 || StartsWith(parts[idx], prefix)
  {
    if |parts| == 1 || StartsWith(parts[0], prefix) then 0
    else 1 + FirstStarting(parts[1..], prefix)
  }

  /** A multi-part name cut after its first part that starts with the
      specifier. */
  function Truncated(n: string, spec: string): string {
    var parts := Split(n, "; ");
    Join("; ", parts[..FirstStarting(parts, spec) + 1])
  }

  /** The loop of `chop_to_species` that picks the part to cut after. */
  method TruncateName(n: string, spec: string) returns (r: string)
    ensures r == Truncated(n, spec)
  {
    var parts := Split(n, "; ");
    var idx := 0;
    while idx < |parts| - 1 && !StartsWith(parts[idx], spec)
      invariant idx < |parts|
      invariant forall k :: 0 <= k < idx ==> !StartsWith(parts[k], spec)
    {
      idx := idx + 1;
    }
    FirstStartingUnique(parts, spec, idx);
    r := Join("; ", parts[..idx + 1]);
  }

  /** The properties of FirstStarting determine it. */
  lemma FirstStartingUnique(parts: seq<string>, prefix: string, idx: nat)
    requires |parts| >= 1 && idx < |parts|
    requires forall k :: 0 <= k < idx ==> !StartsWith(parts[k], prefix)
    requires idx == |parts| - 1 || StartsWith(parts[idx], prefix)
    ensures FirstStarting(parts, prefix) == idx
  {
  }

  /** Splitting a truncated name gives the parts up to and including the
      first one that starts with the specifier, or all parts when none does. */
  lemma TruncatedParts(n: string, spec: string)
    ensures var parts := Split(n, "; ");
      var idx := FirstStarting(parts, spec);
      && Split(Truncated(n, spec), "; ") == parts[..idx + 1]
      && (StartsWith(parts[idx], spec) || idx == |parts| - 1)
      && forall k :: 0 <= k < idx ==> !StartsWith(parts[k], spec)
  {
    var parts := Split(n, "; ");
    var idx := FirstStarting(parts, spec);
    SplitPiecesFree(n, "; ");
    SplitJoin(parts[..idx + 1], "; ");
  }

  /** Truncation keeps the specifier in the name. */
  lemma TruncatedKeeps(n: string, spec: string)
    requires Contains(n, spec)
    ensures Contains(Truncated(n, spec), spec)
  {
    var parts := Split(n, "; ");
    var idx := FirstStarting(parts, spec);
    var t := Truncated(n, spec);
    if StartsWith(parts[idx], spec) {
      if idx == 0 {
        assert t == parts[0];
      } else {
        JoinPrefix(parts[..idx + 1], "; ", idx);
        assert parts[..idx + 1][idx..] == [parts[idx]];
        var front := Join("; ", parts[..idx + 1][..idx]) + "; ";
        assert t == front + parts[idx];
        assert OccursAt(t, spec, |front|) by {
          assert t[|front|..|front| + |spec|] == parts[idx][..|spec|];
        }
        ContainsIff(t, spec);
      }
    } else {
      assert parts[..idx + 1] == parts;
      JoinSplit(n, "; ");
    }
  }

  /** The name `chop_to_species` gives the node `cut` returns: a name with
      a `;` is truncated after its first part that starts with the
      specifier, any other name is kept. */
  function ChopName(n: string, spec: string): string {
    if CountChar(n, ';') > 0 then Truncated(n, spec) else n
  }

  /** The chopped name still mentions the rank. */
  lemma ChopNameKeeps(n: string, spec: string)
    requires Contains(n, spec)
    ensures Contains(ChopName(n, spec), spec)
  {
    if CountChar(n, ';') > 0 {
      TruncatedKeeps(n, spec);
    }
  }

  /** What `chop_to_species` leaves at a node whose name mentioned the
      rank: it is a tip still mentioning the rank, or it is nameless and its
      only child is a tip that took the name over. */
  predicate Chopped(kids: Kids, attrs: seq<Attrs>, v: nat, spec: string)
    requires Ordered(kids) && |attrs| == |kids| && v < |kids|
  {
    || (kids[v] == [] && Mentions(attrs[v].name, spec))
    || (attrs[v].name == None && |kids[v]| == 1 && kids[kids[v][0]] == [] && Mentions(attrs[kids[v][0]].name, spec))
  }

  /** The body of the `chop_to_species` loop for one node x. */
  method ChopNode(h: Heap, x: nat, spec: string)
    requires h.Valid() && x < |h.kids|
    modifies h
    ensures h.Valid()
    ensures ChopStep(old(h.kids), old(h.attrs), h.kids, h.attrs, x, spec)
  {
    if Mentions(h.attrs[x].name, spec) {
      ghost var kidsA, attrsA := h.kids, h.attrs;
      var w := Cut(h, x);
      ghost var attrsC := h.attrs;
      var n := h.attrs[w].name.value;
      var t := n;
      if CountChar(n, ';') > 0 {
        t := TruncateName(n, spec);
        h.attrs := h.attrs[w := h.attrs[w].(name := Some(t))];
      } else {
        assert attrsC[w := attrsC[w].(name := Some(t))] == attrsC;
      }
      CutChopStep(kidsA, attrsA, h.kids, attrsC, h.attrs, x, w, t, spec);
    }
  }

  /** A cut of a node that mentions the rank, followed by giving the
      returned node the chopped name, is one chop step. */
  lemma CutChopStep(kidsA: Kids, attrsA: seq<Attrs>, kidsB: Kids, attrsC: seq<Attrs>, attrsB: seq<Attrs>,
                    x: nat, w: nat, t: string, spec: string)
    requires Ordered(kidsA) && Ordered(kidsB) && |attrsA| == |kidsA| && x < |kidsA|
    requires Mentions(attrsA[x].name, spec) && t == ChopName(attrsA[x].name.value, spec)
    requires CutEffect(kidsA, attrsA, kidsB, attrsC, x, w)
    requires attrsB == attrsC[w := attrsC[w].(name := Some(t))]
    ensures ChopStep(kidsA, attrsA, kidsB, attrsB, x, spec)
  {
    ChopNameKeeps(attrsA[x].name.value, spec);
  }

  /** The name a processed node v ends with. A node whose name did not
      mention the rank keeps it, unless it is the only child of a parent
      that mentioned the rank and was a tip when that parent was cut, in
      which case it carries the parent's chopped name. A node whose name
      mentioned the rank is a tip carrying its chopped name (or a parent's,
      as before), or is nameless with one tip child carrying its chopped
      name. */
  ghost predicate NameChopped(kids0: Kids, attrs0: seq<Attrs>, kids: Kids, attrs: seq<Attrs>, v: nat, spec: string)
    requires Ordered(kids) && |kids| == |kids0| == |attrs| == |attrs0| && v < |kids|
  {
    var n0 := attrs0[v].name;
    || (!Mentions(n0, spec) && attrs[v].name == n0)
    || (Mentions(n0, spec) && kids[v] == [] && attrs[v].name == Some(ChopName(n0.value, spec)))
    || (Mentions(n0, spec) && attrs[v].name == None && HandsOver(kids, v)
        && attrs[kids[v][0]].name == Some(ChopName(n0.value, spec)))
    || (kids[v] == [] && HandedDown(kids0, attrs0, attrs, v, spec))
  }

  /** v was the only child of a node p whose name mentioned the rank, and v
      now carries p's chopped name. */
  ghost predicate HandedDown(kids0: Kids, attrs0: seq<Attrs>, attrs: seq<Attrs>, v: nat, spec: string)
    requires |attrs0| == |kids0| && |attrs| == |kids0| && v < |kids0|
  {
    exists p :: 0 <= p < |kids0| && kids0[p] == [v] && Mentions(attrs0[p].name, spec)
      && attrs[v].name == Some(ChopName(attrs0[p].name.value, spec))
  }

  /** What `chop_to_species` achieves on the nodes of `done`, relative to
      the child lists and attributes it started from: each of them that
      mentioned the rank is Chopped, and none mentions the rank without
      being a tip; only names change, and nothing outside `done` changes. */
  ghost predicate ChoppedWithin(kids0: Kids, attrs0: seq<Attrs>, kids: Kids, attrs: seq<Attrs>, done: set<nat>, spec: string) {
    && Ordered(kids) && |kids| == |kids0| == |attrs| == |attrs0|
    && (forall v :: 0 <= v < |kids| && v !in done ==> kids[v] == kids0[v] && attrs[v] == attrs0[v])
    && (forall v :: 0 <= v < |kids| ==> kids[v] == kids0[v] || kids[v] == [])
    && (forall v :: 0 <= v < |kids| && v in done ==> NameChopped(kids0, attrs0, kids, attrs, v, spec))
    && (forall v :: 0 <= v < |kids| ==> attrs[v] == attrs0[v].(name := attrs[v].name))
    && (forall v :: 0 <= v < |kids| && v in done && Mentions(attrs0[v].name, spec) ==> Chopped(kids, attrs, v, spec))
    && (forall v :: 0 <= v < |kids| && v in done && Mentions(attrs[v].name, spec) ==> kids[v] == [])
  }

  /** What ChopNode promises about one step from state A to state B: a node
      x that does not mention the rank changes nothing; one that does either
      hands its chopped name to its only tip child and is left nameless, or
      loses its children and takes the chopped name itself. */
  ghost predicate ChopStep(kidsA: Kids, attrsA: seq<Attrs>, kidsB: Kids, attrsB: seq<Attrs>, x: nat, spec: string)
    requires Ordered(kidsA) && Ordered(kidsB) && |attrsA| == |kidsA| && |attrsB| == |kidsB| && x < |kidsA|
  {
    && |kidsB| == |kidsA|
    && (forall v :: 0 <= v < |kidsB| && v != x ==> kidsB[v] == kidsA[v])
    && (kidsB[x] == kidsA[x] || kidsB[x] == [])
    && (forall v :: 0 <= v < |kidsB| && v != x && v !in kidsA[x] ==> attrsB[v] == attrsA[v])
    && (forall v :: 0 <= v < |kidsB| ==> attrsB[v] == attrsA[v].(name := attrsB[v].name))
    && (forall v :: v in kidsA[x] ==> attrsB[v].name == attrsA[v].name || (kidsB[v] == [] && Mentions(attrsB[v].name, spec)))
    && (!Mentions(attrsA[x].name, spec) ==> kidsB == kidsA && attrsB == attrsA)
    && (Mentions(attrsA[x].name, spec) ==> Chopped(kidsB, attrsB, x, spec))
    && (Mentions(attrsA[x].name, spec) && HandsOver(kidsA, x) ==>
         && kidsB == kidsA && attrsB[x].name == None
         && attrsB[kidsA[x][0]].name == Some(ChopName(attrsA[x].name.value, spec)))
    && (Mentions(attrsA[x].name, spec) && !HandsOver(kidsA, x) ==>
         && kidsB[x] == [] && attrsB[x].name == Some(ChopName(attrsA[x].name.value, spec))
         && forall v :: v in kidsA[x] ==> attrsB[v] == attrsA[v])
  }

  /** Processing a node whose children are done, and which is no child of a
      node already done, extends what is achieved. */
  lemma ChopInvStep(parent0: Parents, kids0: Kids, attrs0: seq<Attrs>, kidsA: Kids, attrsA: seq<Attrs>,
                    kidsB: Kids, attrsB: seq<Attrs>, done: set<nat>, x: nat, spec: string)
    requires Linked(parent0, kids0)
    requires ChoppedWithin(kids0, attrs0, kidsA, attrsA, done, spec)
    requires Ordered(kidsB) && |attrsB| == |kidsB| && x < |kidsA| && x !in done
    requires forall c :: c in kidsA[x] ==> c in done
    requires forall v :: 0 <= v < |kids0| && v in done ==> x !in kids0[v]
    requires ChopStep(kidsA, attrsA, kidsB, attrsB, x, spec)
    ensures ChoppedWithin(kids0, attrs0, kidsB, attrsB, done + {x}, spec)
  {
    forall v | 0 <= v < |kidsB| && v in done + {x} && Mentions(attrs0[v].name, spec)
      ensures Chopped(kidsB, attrsB, v, spec)
    {
      if v != x && v !in kidsA[x] && |kidsA[v]| == 1 {
        var c := kidsA[v][0];
        if c in kidsA[x] {
          assert kidsA[c] == [] && Mentions(attrsA[c].name, spec);
        }
      }
    }
    forall v | 0 <= v < |kidsB| && v in done + {x}
      ensures NameChopped(kids0, attrs0, kidsB, attrsB, v, spec)
    {
      NameChoppedStep(parent0, kids0, attrs0, kidsA, attrsA, kidsB, attrsB, done, x, spec, v);
    }
  }

  /** One processed node keeps the name chop_to_species gives it across the
      step at x. */
  lemma NameChoppedStep(parent0: Parents, kids0: Kids, attrs0: seq<Attrs>, kidsA: Kids, attrsA: seq<Attrs>,
                        kidsB: Kids, attrsB: seq<Attrs>, done: set<nat>, x: nat, spec: string, v: nat)
    requires Linked(parent0, kids0)
    requires ChoppedWithin(kids0, attrs0, kidsA, attrsA, done, spec)
    requires Ordered(kidsB) && |attrsB| == |kidsB| && x < |kidsA| && x !in done
    requires forall c :: c in kidsA[x] ==> c in done
    requires forall u :: 0 <= u < |kids0| && u in done ==> x !in kids0[u]
    requires ChopStep(kidsA, attrsA, kidsB, attrsB, x, spec)
    requires v < |kidsB| && v in done + {x}
    ensures NameChopped(kids0, attrs0, kidsB, attrsB, v, spec)
  {
    assert attrsA[x] == attrs0[x] && kidsA[x] == kids0[x];
    if v == x {
    } else if Mentions(attrsA[x].name, spec) && HandsOver(kidsA, x) && v == kidsA[x][0] {
      assert kids0[x] == [v];
      assert HandedDown(kids0, attrs0, attrsB, v, spec);
    } else {
      assert kidsB[v] == kidsA[v] && attrsB[v] == attrsA[v];
      if |kidsA[v]| == 1 {
        var c := kidsA[v][0];
        assert kidsA[v] == kids0[v] && parent0[c] == Some(v);
        assert kidsB[c] == kidsA[c] && attrsB[c] == attrsA[c];
      }
      if HandedDown(kids0, attrs0, attrsA, v, spec) {
        var p :| 0 <= p < |kids0| && kids0[p] == [v] && Mentions(attrs0[p].name, spec)
          && attrsA[v].name == Some(ChopName(attrs0[p].name.value, spec));
        assert HandedDown(kids0, attrs0, attrsB, v, spec);
      }
    }
  }

  /** In a children-first order, the next node is no child of a node before it. */
  lemma NotChildOfDone(kids: Kids, order: seq<nat>, i: nat, done: set<nat>)
    requires ChildrenFirst(kids, order) && Distinct(order) && i < |order|
    requires done == set j | 0 <= j < i :: order[j]
    ensures forall v :: v in done ==> order[i] !in kids[v]
  {
    forall v | v in done ensures order[i] !in kids[v] {
      var j :| 0 <= j < i && order[j] == v;
      assert order[i] !in order[..j];
    }
  }

  /** `chop_to_species(tree, rank)`: every node of the tree (as it was) whose
      name mentioned `rank__` is left a tip, or hands its name to its only
      tip child; afterwards no node of the tree is named after the rank
      without being a tip, and every node's final name is the one
      NameChopped describes. Nodes outside the tree are untouched. */
  method ChopToSpecies(h: Heap, root: nat, rank: string)
    requires h.Valid() && root < |h.kids|
    modifies h
    ensures h.Valid()
    ensures ChoppedWithin(old(h.kids), old(h.attrs), h.kids, h.attrs, old(set v | v in Post(h.kids, root)), rank + "__")
  {
    var spec := rank + "__";
    var order := Post(h.kids, root);
    ghost var parent0, kids0, attrs0 := h.parent, h.kids, h.attrs;
    ghost var done: set<nat> := {};
    PostRange(h.kids, root);
    PostDistinct(h.parent, h.kids, root);
    PostChildrenFirst(h.kids, root);
    for i := 0 to |order|
      invariant h.Valid()
      invariant done == set j | 0 <= j < i :: order[j]
      invariant ChoppedWithin(kids0, attrs0, h.kids, h.attrs, done, spec)
    {
      var x := order[i];
      NextInPostorder(kids0, order, i, done);
      NotChildOfDone(kids0, order, i, done);
      ghost var kidsA, attrsA := h.kids, h.attrs;
      ChopNode(h, x, spec);
      ChopInvStep(parent0, kids0, attrs0, kidsA, attrsA, h.kids, h.attrs, done, x, spec);
      done := done + {x};
    }
    assert done == set v | v in order;
  }


  // ---------------------------------------------------------------------
  // species_cover and genome_represented

  /** The tip marks of `species_cover`: whether the name contains the
      specifier, None where the tip has no name (`in` on None raises). */
  function SpecifierMarks(attrs: seq<Attrs>, spec: string): (m: seq<Option<bool>>)
    ensures |m| == |attrs|
  {
    seq(|attrs|, v requires 0 <= v < |attrs| =>
      if attrs[v].name.None? then None else Some(Contains(attrs[v].name.value, spec)))
  }

  /** `^G[0|9][0-9]{8}$` as `re.match` applies it: `G`, one of `0`, `|` and
      `9` (the bar is a member of the bracketed class), eight digits and the
      end, where `$` also accepts one final newline. */
  predicate IsGenomeId(n: string) {
    && (|n| == 10 || (|n| == 11 && n[10] == '\n'))
    && n[0] == 'G' && (n[1] == '0' || n[1] == '|' || n[1] == '9')
    && forall m :: 2 <= m < 10 ==> SpeciesReport.IsDigit(n[m])
  }

  /** The tip marks of `genome_represented`; `match` on None raises. */
  function GenomeMarks(attrs: seq<Attrs>): (m: seq<Option<bool>>)
    ensures |m| == |attrs|
  {
    seq(|attrs|, v requires 0 <= v < |attrs| =>
      if attrs[v].name.None? then None else Some(IsGenomeId(attrs[v].name.value)))
  }

  /** A Web of Life genome id (`G`, `0` or `9`, eight digits) is a genome
      name for `genome_represented`, and so is the same id with a bar in
      second place, which the bracketed class also admits. */
  lemma GenomeIdShapes(b: string)
    requires SpeciesReport.IsWolGenome(b)
    ensures IsGenomeId(b) && IsGenomeId(b + "\n")
    ensures IsGenomeId(b[1 := '|'])
    ensures !IsGenomeId(b + "0") && !IsGenomeId(b[..9])
  {
    assert (b + "0")[10] == '0';
  }

  function WithSpeciesCover(attrs: seq<Attrs>, flags: seq<bool>): (r: seq<Attrs>)
    requires |flags| == |attrs|
    ensures |r| == |attrs|
  {
    seq(|attrs|, v requires 0 <= v < |attrs| => attrs[v].(speciesCover := flags[v]))
  }

  function WithGenomeCover(attrs: seq<Attrs>, flags: seq<bool>): (r: seq<Attrs>)
    requires |flags| == |attrs|
    ensures |r| == |attrs|
  {
    seq(|attrs|, v requires 0 <= v < |attrs| => attrs[v].(genomeCover := flags[v]))
  }

  /** `species_cover(tree, rank)`: each node of the tree gets
      `species_cover`, true at a tip whose name contains `rank__` and at an
      inner node with a covered child (FlaggedIff: with a covered tip below
      it). A tip without a name raises TypeError. */
  method SpeciesCover(h: Heap, root: nat, rank: string) returns (r: Result<()>)
    requires h.Valid() && root < |h.kids|
    modifies h
    ensures h.Valid() && h.kids == old(h.kids) && h.parent == old(h.parent)
    ensures r.Ok? <==> TipsMarked(h.kids, SpecifierMarks(old(h.attrs), rank + "__"), Post(h.kids, root))
    ensures r.Ok? ==> forall v :: 0 <= v < |h.attrs| ==>
      h.attrs[v] == old(h.attrs[v]).(speciesCover :=
        if v in Post(h.kids, root) then Flagged(h.kids, Unwrap(SpecifierMarks(old(h.attrs), rank + "__")), v)
        else old(h.attrs[v].speciesCover))
    ensures r.Err? ==> r.error.TypeError? && h.attrs == old(h.attrs)
  {
    var attrs := h.attrs;
    var prior := seq(|attrs|, v requires 0 <= v < |attrs| => attrs[v].speciesCover);
    var flags := FlagPass(h, root, SpecifierMarks(attrs, rank + "__"), prior);
    if flags.Err? {
      return Err(flags.error);
    }
    h.attrs := WithSpeciesCover(attrs, flags.value);
    assert forall v :: 0 <= v < |attrs| ==> h.attrs[v] == attrs[v].(speciesCover := flags.value[v]);
    return Ok(());
  }

  /** `genome_represented(t)`: each node of the tree gets `genome_cover`,
      true at a tip named like a genome id and at an inner node with a
      covered child. A tip without a name raises TypeError. */
  method GenomeRepresented(h: Heap, root: nat) returns (r: Result<()>)
    requires h.Valid() && root < |h.kids|
    modifies h
    ensures h.Valid() && h.kids == old(h.kids) && h.parent == old(h.parent)
    ensures r.Ok? <==> TipsMarked(h.kids, GenomeMarks(old(h.attrs)), Post(h.kids, root))
    ensures r.Ok? ==> forall v :: 0 <= v < |h.attrs| ==>
      h.attrs[v] == old(h.attrs[v]).(genomeCover :=
        if v in Post(h.kids, root) then Flagged(h.kids, Unwrap(GenomeMarks(old(h.attrs))), v)
        else old(h.attrs[v].genomeCover))
    ensures r.Err? ==> r.error.TypeError? && h.attrs == old(h.attrs)
  {
    var attrs := h.attrs;
    var prior := seq(|attrs|, v requires 0 <= v < |attrs| => attrs[v].genomeCover);
    var flags := FlagPass(h, root, GenomeMarks(attrs), prior);
    if flags.Err? {
      return Err(TypeError("expected string or bytes-like object"));
    }
    h.attrs := WithGenomeCover(attrs, flags.value);
    assert forall v :: 0 <= v < |attrs| ==> h.attrs[v] == attrs[v].(genomeCover := flags.value[v]);
    return Ok(());
  }

  // ---------------------------------------------------------------------
  // cut_uncovered_species

  /** Following parent links from u reaches r, and every node on the way
      other than r carries `species_cover`. */
  ghost predicate CoveredPath(parent: Parents, attrs: seq<Attrs>, u: nat, r: nat)
    requires |attrs| == |parent|
    decreases u
  {
    u < |parent| && (u == r || (attrs[u].speciesCover && parent[u].Some? && parent[u].value < u && CoveredPath(parent, attrs, parent[u].value, r)))
  }

  /** Unlinking nodes from their parents only removes attachments. */
  ghost predicate Unlinked(parent0: Parents, parent: Parents) {
    |parent| == |parent0| && forall y :: 0 <= y < |parent| ==> parent[y] == parent0[y] || parent[y] == None
  }

  lemma {:induction false} UnlinkedBelow(parent0: Parents, parent: Parents, u: nat, r: nat)
    requires Unlinked(parent0, parent) && Below(parent, u, r)
    ensures Below(parent0, u, r)
    decreases u
  {
    if u != r {
      UnlinkedBelow(parent0, parent, parent[u].value, r);
    }
  }

  lemma {:induction false} CoveredPathBelow(parent: Parents, attrs: seq<Attrs>, u: nat, r: nat)
    requires |attrs| == |parent| && CoveredPath(parent, attrs, u, r)
    ensures Below(parent, u, r)
    decreases u
  {
    if u != r {
      CoveredPathBelow(parent, attrs, parent[u].value, r);
    }
  }

  /** A covered path from u to r passes only through covered nodes: any x
      strictly below r that u hangs under is covered. */
  lemma {:induction false} CoveredPathThrough(parent: Parents, attrs: seq<Attrs>, u: nat, x: nat, r: nat)
    requires |attrs| == |parent| && CoveredPath(parent, attrs, u, r)
    requires Below(parent, u, x) && Below(parent, x, r) && x != r
    ensures x < |attrs| && attrs[x].speciesCover
    decreases u
  {
    if u != x {
      if u == r {
        BelowBound(parent, u, x);
        BelowBound(parent, x, r);
      } else {
        CoveredPathThrough(parent, attrs, parent[u].value, x, r);
      }
    }
  }

  /** A path of attached nodes, each covered except r, is a covered path in
      the original links. */
  lemma {:induction false} AttachedCovered(parent0: Parents, parent: Parents, attrs: seq<Attrs>, u: nat, r: nat)
    requires Unlinked(parent0, parent) && |attrs| == |parent|
    requires Below(parent, u, r)
    requires forall z: nat :: Below(parent, z, r) && z != r ==> z < |attrs| && attrs[z].speciesCover
    ensures CoveredPath(parent0, attrs, u, r)
    decreases u
  {
    if u != r {
      AttachedCovered(parent0, parent, attrs, parent[u].value, r);
    }
  }

  /** The state of `cut_uncovered_species` part way through its preorder:
      links are only ever removed; each visited node still attached to r is
      covered; every covered path to r is still attached; and a node yet to
      be visited is in `removed` exactly when it no longer hangs under r. */
  ghost predicate CutInv(parent0: Parents, attrs: seq<Attrs>, r: nat, parent: Parents,
                         done: set<nat>, pending: set<nat>, removed: set<nat>)
    requires |attrs| == |parent0|
  {
    && Unlinked(parent0, parent)
    && (forall z :: z in done && Below(parent, z, r) ==> attrs[z].speciesCover)
    && (forall y :: CoveredPath(parent0, attrs, y, r) ==> Below(parent, y, r))
    && (forall y :: y in pending ==> (y in removed <==> !Below(parent, y, r)))
  }

  /** Visiting a node that was already removed or is covered changes nothing. */
  lemma CutInvKeep(parent0: Parents, attrs: seq<Attrs>, r: nat, parent: Parents,
                   done: set<nat>, pending: set<nat>, removed: set<nat>, x: nat)
    requires |attrs| == |parent0| && CutInv(parent0, attrs, r, parent, done, pending, removed)
    requires x in pending && x < |attrs| && (x in removed || attrs[x].speciesCover)
    ensures CutInv(parent0, attrs, r, parent, done + {x}, pending - {x}, removed)
  {
  }

  /** Visiting an attached node without cover unlinks it and adds its
      descendants to `removed`. */
  lemma CutInvDetach(parent0: Parents, attrs: seq<Attrs>, r: nat, parent: Parents,
                     done: set<nat>, pending: set<nat>, removed: set<nat>, x: nat, removed': set<nat>)
    requires |attrs| == |parent0| && CutInv(parent0, attrs, r, parent, done, pending, removed)
    requires x in pending && x !in removed && x < |attrs| && !attrs[x].speciesCover && x != r
    requires forall y :: y in removed' <==> y in removed || (Below(parent, y, x) && y != x)
    ensures CutInv(parent0, attrs, r, parent[x := None], done + {x}, pending - {x}, removed')
  {
    var parent' := parent[x := None];
    assert Below(parent, x, r);
    forall y
      ensures Below(parent', y, r) <==> Below(parent, y, r) && !Below(parent, y, x)
    {
      DetachBelow(parent, x, y, r);
    }
    forall y | CoveredPath(parent0, attrs, y, r)
      ensures Below(parent', y, r)
    {
      if Below(parent, y, x) {
        UnlinkedBelow(parent0, parent, y, x);
        UnlinkedBelow(parent0, parent, x, r);
        CoveredPathThrough(parent0, attrs, y, x, r);
      }
    }
  }

  /** Once every node under r has been visited, the nodes still hanging
      under r are exactly those with a covered path to r. */
  lemma CutInvDone(parent0: Parents, attrs: seq<Attrs>, r: nat, parent: Parents,
                   done: set<nat>, removed: set<nat>)
    requires |attrs| == |parent0| && CutInv(parent0, attrs, r, parent, done, {}, removed)
    requires forall z :: Below(parent0, z, r) && z != r ==> z in done
    ensures forall u :: Below(parent, u, r) <==> CoveredPath(parent0, attrs, u, r)
  {
    forall z: nat | Below(parent, z, r) && z != r
      ensures z < |attrs| && attrs[z].speciesCover
    {
      UnlinkedBelow(parent0, parent, z, r);
    }
    forall u | Below(parent, u, r)
      ensures CoveredPath(parent0, attrs, u, r)
    {
      AttachedCovered(parent0, parent, attrs, u, r);
    }
  }

  /** The proper descendants of x, as `x.traverse(include_self=False)`
      yields them, are the nodes strictly below x. */
  lemma ProperDescendants(parent: Parents, kids: Kids, x: nat, removed: set<nat>, removed': set<nat>)
    requires Linked(parent, kids) && x < |kids|
    requires removed' == removed + set z | z in Pre(kids, x)[1..]
    ensures forall y :: y in removed' <==> y in removed || (Below(parent, y, x) && y != x)
  {
    PreDistinct(parent, kids, x);
    var s := Pre(kids, x);
    forall y
      ensures y in s[1..] <==> Below(parent, y, x) && y != x
    {
      PostIff(parent, kids, x, y);
      if y in s[1..] {
        var k :| 0 <= k < |s[1..]| && s[1..][k] == y;
        assert s[k + 1] == y && s[0] == x;
      }
    }
  }

  /** Before the walk: the preorder without the root is duplicate-free and
      every node in it hangs under the root. */
  lemma CutInvStart(parent: Parents, kids: Kids, attrs: seq<Attrs>, root: nat, order: seq<nat>, pending: set<nat>)
    requires Linked(parent, kids) && |attrs| == |kids| && root < |kids|
    requires order == Pre(kids, root)[1..] && pending == set j | 0 <= j < |order| :: order[j]
    ensures Distinct(order) && root !in order && forall j :: 0 <= j < |order| ==> order[j] < |kids|
    ensures CutInv(parent, attrs, root, parent, {}, pending, {})
  {
    PreorderTail(parent, kids, root, order);
    forall y | y in pending
      ensures Below(parent, y, root)
    {
      PostIff(parent, kids, root, y);
    }
    forall y | CoveredPath(parent, attrs, y, root)
      ensures Below(parent, y, root)
    {
      CoveredPathBelow(parent, attrs, y, root);
    }
  }

  /** The preorder without its root lists distinct nodes other than the root. */
  lemma PreorderTail(parent: Parents, kids: Kids, root: nat, order: seq<nat>)
    requires Linked(parent, kids) && root < |kids| && order == Pre(kids, root)[1..]
    ensures Distinct(order) && root !in order && forall j :: 0 <= j < |order| ==> order[j] < |kids|
  {
    PreDistinct(parent, kids, root);
    assert Pre(kids, root)[0] == root;
    PreSamePost(kids, root);
    PostRange(kids, root);
    assert forall j :: 0 <= j < |order| ==> order[j] in Pre(kids, root);
  }

  /** After the walk every node under the root other than itself was visited. */
  lemma PreorderVisited(parent: Parents, kids: Kids, root: nat, order: seq<nat>, done: set<nat>)
    requires Linked(parent, kids) && root < |kids|
    requires order == Pre(kids, root)[1..] && done == set j | 0 <= j < |order| :: order[j]
    ensures forall z :: Below(parent, z, root) && z != root ==> z in done
  {
    forall z | Below(parent, z, root) && z != root
      ensures z in done
    {
      PostIff(parent, kids, root, z);
      var k :| 0 <= k < |Pre(kids, root)| && Pre(kids, root)[k] == z;
      assert order[k - 1] == z;
    }
  }

  /** The preorder walk visits a node not yet visited and splits the rest. */
  lemma NextInPreorder(order: seq<nat>, i: nat, done: set<nat>, pending: set<nat>)
    requires Distinct(order) && i < |order|
    requires done == set j | 0 <= j < i :: order[j]
    requires pending == set j | i <= j < |order| :: order[j]
    ensures order[i] in pending && order[i] !in done
    ensures done + {order[i]} == set j | 0 <= j < i + 1 :: order[j]
    ensures pending - {order[i]} == set j | i + 1 <= j < |order| :: order[j]
  {
    assert order[i] in pending;
  }

  /** `cut_uncovered_species(tree, rank_specifier)`: walk the tree in
      preorder without its root; a node not yet removed and without
      `species_cover` is unlinked from its parent and its descendants are
      marked removed. Afterwards a node hangs under the root exactly when
      every node on its path to the root is covered. The specifier is unused,
      as in the source. */
  method CutUncoveredSpecies(h: Heap, root: nat, rankSpecifier: string)
    requires h.Valid() && root < |h.kids|
    modifies h
    ensures h.Valid() && h.attrs == old(h.attrs) && Unlinked(old(h.parent), h.parent)
    ensures forall u :: Below(h.parent, u, root) <==> CoveredPath(old(h.parent), h.attrs, u, root)
  {
    ghost var parent0, kids0 := h.parent, h.kids;
    var order := Pre(h.kids, root)[1..];
    var removed: set<nat> := {};
    ghost var done: set<nat> := {};
    ghost var pending: set<nat> := set j | 0 <= j < |order| :: order[j];
    CutInvStart(h.parent, h.kids, h.attrs, root, order, pending);
    for i := 0 to |order|
      invariant h.Valid() && h.attrs == old(h.attrs) && |h.parent| == |parent0|
      invariant Distinct(order) && root !in order && forall j :: 0 <= j < |order| ==> order[j] < |h.kids|
      invariant done == set j | 0 <= j < i :: order[j]
      invariant pending == set j | i <= j < |order| :: order[j]
      invariant CutInv(parent0, h.attrs, root, h.parent, done, pending, removed)
    {
      var x := order[i];
      NextInPreorder(order, i, done, pending);
      if x in removed || h.attrs[x].speciesCover {
        CutInvKeep(parent0, h.attrs, root, h.parent, done, pending, removed, x);
      } else {
        var descendants := Pre(h.kids, x)[1..];
        var removed' := removed + set z | z in descendants;
        ProperDescendants(h.parent, h.kids, x, removed, removed');
        CutInvDetach(parent0, h.attrs, root, h.parent, done, pending, removed, x, removed');
        h.Detach(x);
        removed := removed';
      }
      done := done + {x};
      pending := pending - {x};
    }
    PreorderVisited(parent0, kids0, root, order, done);
    CutInvDone(parent0, h.attrs, root, h.parent, done, removed);
  }

  // ---------------------------------------------------------------------
  // to_species_as_tips

  lemma {:induction false} BelowTrans(parent: Parents, a: nat, b: nat, c: nat)
    requires Below(parent, a, b) && Below(parent, b, c)
    ensures Below(parent, a, c)
    decreases a
  {
    if a != b {
      BelowTrans(parent, parent[a].value, b, c);
    }
  }

  /** The flags a completed `species_cover` pass leaves under root. */
  ghost predicate CoverComputed(kids: Kids, attrs: seq<Attrs>, root: nat, mark: seq<bool>)
    requires Ordered(kids) && root < |kids| && |attrs| == |kids| && |mark| == |kids|
  {
    forall v :: 0 <= v < |kids| && v in Post(kids, root) ==> attrs[v].speciesCover == Flagged(kids, mark, v)
  }

  /** Every node between a marked tip and the root is covered. */
  lemma {:induction false} MarkedTipCovered(parent: Parents, kids: Kids, attrs: seq<Attrs>, root: nat, mark: seq<bool>, t: nat, u: nat)
    requires Linked(parent, kids) && root < |kids| && |attrs| == |kids| && |mark| == |kids|
    requires CoverComputed(kids, attrs, root, mark)
    requires t < |kids| && kids[t] == [] && mark[t]
    requires Below(parent, t, u) && Below(parent, u, root)
    ensures CoveredPath(parent, attrs, u, root)
    decreases u
  {
    if u != root {
      PostIff(parent, kids, root, u);
      PostIff(parent, kids, u, t);
      FlaggedIff(kids, mark, u);
      var pu := parent[u].value;
      assert Below(parent, u, pu);
      BelowTrans(parent, t, u, pu);
      MarkedTipCovered(parent, kids, attrs, root, mark, t, pu);
    }
  }

  /** With links only removed, a node that still reaches the root reaches
      it along its original path. */
  lemma {:induction false} UnlinkedBelowThrough(parent0: Parents, parent: Parents, t: nat, u: nat, root: nat)
    requires Unlinked(parent0, parent) && Below(parent, t, root)
    requires Below(parent0, t, u) && Below(parent0, u, root)
    ensures Below(parent, t, u)
    decreases t
  {
    if t != u {
      if t == root {
        BelowBound(parent0, t, u);
        BelowBound(parent0, u, root);
      } else {
        UnlinkedBelowThrough(parent0, parent, parent[t].value, u, root);
      }
    }
  }

  /** A node strictly above another has a child on the path between them. */
  lemma {:induction false} ChildOnPath(parent: Parents, t: nat, u: nat) returns (c: nat)
    requires Below(parent, t, u) && t != u
    ensures c < |parent| && parent[c] == Some(u)
    decreases t
  {
    var pt := parent[t].value;
    if pt == u {
      c := t;
    } else {
      c := ChildOnPath(parent, pt, u);
    }
  }

  /** After the cover pass and the cut, a non-root node left as a tip was a
      tip already and its name carried the mark. */
  lemma FinalTipMarked(parent0: Parents, kids0: Kids, parent: Parents, kids: Kids, attrs: seq<Attrs>,
                       root: nat, mark: seq<bool>, u: nat)
    requires Linked(parent0, kids0) && Linked(parent, kids) && root < |kids0| && |attrs| == |kids0| && |mark| == |kids0|
    requires CoverComputed(kids0, attrs, root, mark) && Unlinked(parent0, parent)
    requires forall y :: Below(parent, y, root) <==> CoveredPath(parent0, attrs, y, root)
    requires Below(parent, u, root) && u != root && kids[u] == []
    ensures kids0[u] == [] && mark[u]
  {
    assert CoveredPath(parent0, attrs, u, root);
    UnlinkedBelow(parent0, parent, u, root);
    PostIff(parent0, kids0, root, u);
    FlaggedIff(kids0, mark, u);
    var t :| t in Post(kids0, u) && t < |kids0| && kids0[t] == [] && mark[t];
    if kids0[u] != [] {
      PostIff(parent0, kids0, u, t);
      BelowTrans(parent0, t, u, root);
      MarkedTipCovered(parent0, kids0, attrs, root, mark, t, t);
      UnlinkedBelowThrough(parent0, parent, t, u, root);
      var c := ChildOnPath(parent, t, u);
      assert false;
    }
  }

  /** `to_species_as_tips(t, rank)`: chop to the rank, compute the cover and
      cut what is not covered. `parent1`, `kids1` and `attrs1` are the tree
      as the chop leaves it. The cover pass raises TypeError exactly when a
      tip of that tree has no name, and nothing is cut then. Otherwise the
      nodes left under the root are exactly those whose path to it was
      covered; every tip named with `rank__` after the chop stays; and every
      tip left is named with `rank__`. */
  method ToSpeciesAsTips(h: Heap, root: nat, rank: string)
    returns (r: Result<()>, ghost parent1: Parents, ghost kids1: Kids, ghost attrs1: seq<Attrs>)
    requires h.Valid() && root < |h.kids|
    modifies h
    ensures h.Valid() && Linked(parent1, kids1) && |attrs1| == |kids1|
    ensures ChoppedWithin(old(h.kids), old(h.attrs), kids1, attrs1, old(set v | v in Post(h.kids, root)), rank + "__")
    ensures r.Err? <==> !TipsMarked(kids1, SpecifierMarks(attrs1, rank + "__"), Post(kids1, root))
    ensures r.Err? ==> r.error.TypeError? && h.parent == parent1 && h.kids == kids1 && h.attrs == attrs1
    ensures r.Ok? ==> |h.attrs| == |attrs1| && forall v :: 0 <= v < |h.attrs| ==>
      h.attrs[v] == attrs1[v].(speciesCover :=
        if v in Post(kids1, root) then Flagged(kids1, Unwrap(SpecifierMarks(attrs1, rank + "__")), v)
        else attrs1[v].speciesCover)
    ensures r.Ok? ==> Unlinked(parent1, h.parent)
    ensures r.Ok? ==> forall u :: Below(h.parent, u, root) <==> CoveredPath(parent1, h.attrs, u, root)
    ensures r.Ok? ==> forall t: nat ::
      t < |kids1| && Below(parent1, t, root) && kids1[t] == [] && Mentions(attrs1[t].name, rank + "__") ==>
      Below(h.parent, t, root)
    ensures r.Ok? ==> forall u: nat :: Below(h.parent, u, root) && u != root ==> h.attrs[u].speciesCover
    ensures r.Ok? ==> forall u: nat :: Below(h.parent, u, root) && u != root && h.kids[u] == [] ==>
      Mentions(h.attrs[u].name, rank + "__")
  {
    ChopToSpecies(h, root, rank);
    parent1, kids1, attrs1 := h.parent, h.kids, h.attrs;
    r := SpeciesCover(h, root, rank);
    if r.Err? {
      return;
    }
    ghost var mark := Unwrap(SpecifierMarks(attrs1, rank + "__"));
    ghost var attrs2 := h.attrs;
    assert CoverComputed(kids1, attrs2, root, mark);
    CutUncoveredSpecies(h, root, rank);
    forall t: nat | t < |kids1| && Below(parent1, t, root) && kids1[t] == [] && Mentions(attrs1[t].name, rank + "__")
      ensures Below(h.parent, t, root)
    {
      assert mark[t];
      MarkedTipCovered(parent1, kids1, attrs2, root, mark, t, t);
    }
    forall u: nat | Below(h.parent, u, root) && u != root && h.kids[u] == []
      ensures Mentions(h.attrs[u].name, rank + "__")
    {
      FinalTipMarked(parent1, kids1, h.parent, h.kids, attrs2, root, mark, u);
    }
  }


  // ---------------------------------------------------------------------
  // md_from_tree: lineage accumulation

  /** The `; `-separated parts of a node name; a node without a name adds
      nothing to the lineage. */
  function NameParts(name: Option<string>): seq<string> {
    if name.None? then [] else Split(name.value, "; ")
  }

  /** The lineage `md_from_tree` gives u: the name parts of each node on the
      way from just below the root down to u, in that order. */
  ghost function LineageOf(parent: Parents, attrs: seq<Attrs>, root: nat, u: nat): seq<string>
    requires |attrs| == |parent| && Below(parent, u, root)
    decreases u
  {
    if u == root then [] else LineageOf(parent, attrs, root, parent[u].value) + NameParts(attrs[u].name)
  }

  /** An ancestor's lineage is a prefix of its descendant's. */
  lemma {:induction false} LineageExtends(parent: Parents, attrs: seq<Attrs>, root: nat, a: nat, u: nat)
    requires |attrs| == |parent| && Below(parent, u, a) && Below(parent, a, root)
    ensures Below(parent, u, root)
    ensures var la := LineageOf(parent, attrs, root, a);
      la <= LineageOf(parent, attrs, root, u)
    decreases u
  {
    BelowTrans(parent, u, a, root);
    if u != a {
      BelowBound(parent, u, a);
      BelowBound(parent, a, root);
      assert u != root;
      var pu := parent[u].value;
      LineageExtends(parent, attrs, root, a, pu);
      var la, lp := LineageOf(parent, attrs, root, a), LineageOf(parent, attrs, root, pu);
      assert LineageOf(parent, attrs, root, u) == lp + NameParts(attrs[u].name);
      assert (lp + NameParts(attrs[u].name))[..|la|] == lp[..|la|];
    }
  }

  /** No lineage part contains the separator. */
  lemma {:induction false} LineagePartsFree(parent: Parents, attrs: seq<Attrs>, root: nat, u: nat)
    requires |attrs| == |parent| && Below(parent, u, root)
    ensures forall k :: 0 <= k < |LineageOf(parent, attrs, root, u)| ==> !Contains(LineageOf(parent, attrs, root, u)[k], "; ")
    decreases u
  {
    if u != root {
      var pu := parent[u].value;
      LineagePartsFree(parent, attrs, root, pu);
      var lp, own := LineageOf(parent, attrs, root, pu), NameParts(attrs[u].name);
      if attrs[u].name.Some? {
        SplitPiecesFree(attrs[u].name.value, "; ");
      }
      assert forall k :: 0 <= k < |own| ==> !Contains(own[k], "; ");
      assert LineageOf(parent, attrs, root, u) == lp + own;
      forall k | 0 <= k < |lp + own|
        ensures !Contains((lp + own)[k], "; ")
      {
        if k >= |lp| {
          assert (lp + own)[k] == own[k - |lp|];
        } else {
          assert (lp + own)[k] == lp[k];
        }
      }
    }
  }

  /** The joined `lineage` column splits back into the per-rank columns,
      unless the lineage is empty (`"".split("; ")` is `[""]`). */
  lemma LineageRoundTrip(parent: Parents, attrs: seq<Attrs>, root: nat, u: nat)
    requires |attrs| == |parent| && Below(parent, u, root)
    ensures var l := LineageOf(parent, attrs, root, u);
      |l| >= 1 ==> Split(Join("; ", l), "; ") == l
  {
    var l := LineageOf(parent, attrs, root, u);
    if |l| >= 1 {
      LineagePartsFree(parent, attrs, root, u);
      SplitJoin(l, "; ");
    }
  }

  /** Part way through the preorder: the visited nodes (root first) carry
      their lineage and every other node is as it was. */
  ghost predicate LineagesFrom(parent: Parents, attrs0: seq<Attrs>, attrs: seq<Attrs>, root: nat, done: set<nat>)
    requires |attrs0| == |parent|
  {
    && |attrs| == |attrs0|
    && (forall v :: v in done ==> Below(parent, v, root))
    && forall v :: 0 <= v < |attrs| ==>
      attrs[v] == if v in done && Below(parent, v, root)
        then attrs0[v].(lineage := LineageOf(parent, attrs0, root, v)) else attrs0[v]
  }

  lemma LineageStart(parent: Parents, attrs: seq<Attrs>, root: nat)
    requires |attrs| == |parent| && root < |parent|
    ensures LineagesFrom(parent, attrs, attrs[root := attrs[root].(lineage := [])], root, {root})
  {
  }

  /** After the walk every node under the root carries its lineage. */
  lemma LineageDone(parent: Parents, kids: Kids, attrs0: seq<Attrs>, attrs: seq<Attrs>, root: nat, order: seq<nat>, seen: set<nat>)
    requires Linked(parent, kids) && root < |kids| && |attrs0| == |kids|
    requires order == Pre(kids, root)[1..] && seen == set j | 0 <= j < |order| :: order[j]
    requires LineagesFrom(parent, attrs0, attrs, root, {root} + seen)
    ensures |attrs| == |attrs0|
    ensures forall v :: 0 <= v < |attrs| ==>
      attrs[v] == if Below(parent, v, root)
        then attrs0[v].(lineage := LineageOf(parent, attrs0, root, v)) else attrs0[v]
  {
    PreorderVisited(parent, kids, root, order, seen);
  }

  lemma LineageStep(parent: Parents, attrs0: seq<Attrs>, attrs: seq<Attrs>, root: nat, done: set<nat>, x: nat)
    requires |attrs0| == |parent| && LineagesFrom(parent, attrs0, attrs, root, done)
    requires x !in done && Below(parent, x, root) && x != root && parent[x].value in done
    ensures LineagesFrom(parent, attrs0,
      attrs[x := attrs[x].(lineage := attrs[parent[x].value].lineage + NameParts(attrs[x].name))], root, done + {x})
  {
  }

  /** In the preorder without the root, each node's parent is the root or
      comes earlier. */
  lemma ParentEarlier(parent: Parents, kids: Kids, root: nat, order: seq<nat>, i: nat)
    requires Linked(parent, kids) && root < |kids| && order == Pre(kids, root)[1..] && i < |order|
    ensures Below(parent, order[i], root) && order[i] != root
    ensures parent[order[i]].Some?
    ensures parent[order[i]].value == root || parent[order[i]].value in order[..i]
  {
    var s := Pre(kids, root);
    assert s[0] == root;
    PreDistinct(parent, kids, root);
    PreParentFirst(parent, kids, root);
    TailParentEarlier(parent, s, root, order, i);
    assert order[i] in s;
    PostIff(parent, kids, root, order[i]);
  }

  /** In a duplicate-free sequence that lists parents first and starts at
      root, the parent of a later node is root or listed before it. */
  lemma TailParentEarlier(parent: Parents, s: seq<nat>, root: nat, order: seq<nat>, i: nat)
    requires |s| > 0 && s[0] == root && order == s[1..] && i < |order|
    requires Distinct(s) && ParentFirst(parent, s)
    ensures order[i] != root && order[i] < |parent| && parent[order[i]].Some?
    ensures parent[order[i]].value == root || parent[order[i]].value in order[..i]
  {
    assert s[i + 1] == order[i];
    assert s[0] != s[i + 1];
    var pv := parent[s[i + 1]].value;
    assert pv in s[..i + 1];
    var k :| 0 <= k < i + 1 && s[..i + 1][k] == pv;
    if k > 0 {
      assert order[k - 1] == s[k];
      assert order[..i][k - 1] == pv;
    }
  }

  /** The walk visits a node not seen before. */
  lemma NextUnseen(order: seq<nat>, i: nat, seen: set<nat>, root: nat)
    requires Distinct(order) && i < |order| && root !in order
    requires seen == set j | 0 <= j < i :: order[j]
    ensures order[i] !in seen && order[i] != root
    ensures forall v :: v in order[..i] ==> v in seen
    ensures seen + {order[i]} == set j | 0 <= j < i + 1 :: order[j]
  {
    forall v | v in order[..i]
      ensures v in seen
    {
      var k :| 0 <= k < i && order[..i][k] == v;
      assert order[k] == v;
    }
  }

  /** The first loop of `md_from_tree`: the root gets the empty lineage and
      each node, in preorder, its parent's lineage extended by its own name
      parts. Every node under the root ends with LineageOf; nothing else
      changes. */
  method AccumulateLineages(h: Heap, root: nat)
    requires h.Valid() && root < |h.kids|
    modifies h
    ensures h.Valid() && h.parent == old(h.parent) && h.kids == old(h.kids) && |h.attrs| == old(|h.attrs|)
    ensures forall v :: 0 <= v < |h.attrs| ==>
      h.attrs[v] == if Below(h.parent, v, root)
        then old(h.attrs[v]).(lineage := LineageOf(h.parent, old(h.attrs), root, v)) else old(h.attrs[v])
  {
    var parent, kids, attrs := h.parent, h.kids, h.attrs;
    ghost var attrs0 := attrs;
    var order := Pre(kids, root)[1..];
    ghost var seen: set<nat> := {};
    PreorderTail(parent, kids, root, order);
    LineageStart(parent, attrs, root);
    attrs := attrs[root := attrs[root].(lineage := [])];
    for i := 0 to |order|
      invariant h.parent == parent && h.kids == kids && h.attrs == attrs0
      invariant seen == set j | 0 <= j < i :: order[j]
      invariant LineagesFrom(parent, attrs0, attrs, root, {root} + seen)
    {
      var x := order[i];
      ParentEarlier(parent, kids, root, order, i);
      NextUnseen(order, i, seen, root);
      var p := parent[x].value;
      LineageStep(parent, attrs0, attrs, root, {root} + seen, x);
      attrs := attrs[x := attrs[x].(lineage := attrs[p].lineage + NameParts(attrs[x].name))];
      seen := seen + {x};
    }
    LineageDone(parent, kids, attrs0, attrs, root, order, seen);
    h.attrs := attrs;
  }

  /** The tips among s, in the order of s. */
  function TipsIn(kids: Kids, s: seq<nat>): (r: seq<nat>)
    ensures |r| <= |s|
    ensures forall t :: t in r <==> t in s && t < |kids| && kids[t] == []
    ensures forall k :: 0 <= k < |r| ==> r[k] < |kids|
  {
    if s == [] then []
    else (if s[0] < |kids| && kids[s[0]] == [] then [s[0]] else []) + TipsIn(kids, s[1..])
  }

  /** `root.tips()`: the tips of the postorder without the root itself. */
  function Tips(kids: Kids, root: nat): (r: seq<nat>)
    requires Ordered(kids) && root < |kids|
    ensures forall k :: 0 <= k < |r| ==> r[k] < |kids|
  {
    var post := Post(kids, root);
    TipsIn(kids, post[..|post| - 1])
  }

  /** The tips listed are exactly the tips strictly below the root. */
  lemma TipsBelow(parent: Parents, kids: Kids, root: nat, t: nat)
    requires Linked(parent, kids) && root < |kids|
    ensures t in Tips(kids, root) <==> Below(parent, t, root) && t != root && kids[t] == []
  {
    var post := Post(kids, root);
    PostDistinct(parent, kids, root);
    PostIff(parent, kids, root, t);
    assert post == post[..|post| - 1] + [root];
    if t in post && t != root {
      assert t in post[..|post| - 1];
    }
  }

  /** One row of the table `md_from_tree` builds: the feature id, the joined
      lineage, `str(genome_cover)` and the lineage parts as rank columns. */
  datatype Detail = Detail(featureId: Option<string>, lineage: string, genomeRepresented: string, ranks: seq<string>)

  /** Python's `str` of a bool. */
  function PyBool(b: bool): string {
    if b then "True" else "False"
  }

  function DetailOf(a: Attrs): Detail {
    Detail(a.name, Join("; ", a.lineage), PyBool(a.genomeCover), a.lineage)
  }

  /** `md_from_tree(t)` up to the pandas frame: accumulate lineages, then one
      row per tip in tip order whose rank columns are the tip's LineageOf and
      whose `lineage` column joins them (LineageRoundTrip splits it back). */
  method MdFromTree(h: Heap, root: nat) returns (rows: seq<Detail>)
    requires h.Valid() && root < |h.kids|
    modifies h
    ensures h.Valid() && h.parent == old(h.parent) && h.kids == old(h.kids) && |h.attrs| == old(|h.attrs|)
    ensures forall v :: 0 <= v < |h.attrs| ==>
      h.attrs[v] == if Below(h.parent, v, root)
        then old(h.attrs[v]).(lineage := LineageOf(h.parent, old(h.attrs), root, v)) else old(h.attrs[v])
    ensures |rows| == |Tips(h.kids, root)|
    ensures forall j :: 0 <= j < |rows| ==>
      var t := Tips(h.kids, root)[j];
      && Below(h.parent, t, root) && t != root && h.kids[t] == []
      && rows[j].featureId == h.attrs[t].name
      && rows[j].genomeRepresented == PyBool(h.attrs[t].genomeCover)
      && rows[j].ranks == LineageOf(h.parent, old(h.attrs), root, t)
      && rows[j].lineage == Join("; ", rows[j].ranks)
  {
    AccumulateLineages(h, root);
    var tips := Tips(h.kids, root);
    forall j | 0 <= j < |tips|
      ensures Below(h.parent, tips[j], root) && tips[j] != root && h.kids[tips[j]] == []
    {
      TipsBelow(h.parent, h.kids, root, tips[j]);
    }
    rows := DetailRows(h.attrs, tips);
  }

  /** The second loop of `md_from_tree`: one row per listed tip. */
  method DetailRows(attrs: seq<Attrs>, tips: seq<nat>) returns (rows: seq<Detail>)
    requires forall k :: 0 <= k < |tips| ==> tips[k] < |attrs|
    ensures |rows| == |tips|
    ensures forall k :: 0 <= k < |tips| ==> rows[k] == DetailOf(attrs[tips[k]])
  {
    rows := [];
    for j := 0 to |tips|
      invariant |rows| == j
      invariant forall k :: 0 <= k < j ==> rows[k] == DetailOf(attrs[tips[k]])
    {
      rows := rows + [DetailOf(attrs[tips[j]])];
    }
  }

  // ---------------------------------------------------------------------
  // uniqify

  /** An insertion-ordered `defaultdict(list)` from name component to the
      tips it was seen on, one entry per key. */
  type NameNodes = seq<(string, seq<nat>)>

  /** The list stored under c, or the empty list a `defaultdict` would make. */
  function Entry(d: NameNodes, c: string): seq<nat> {
    if d == [] then [] else if d[0].0 == c then d[0].1 else Entry(d[1..], c)
  }

  predicate KeysDistinct(d: NameNodes) {
    forall i, j :: 0 <= i < j < |d| ==> d[i].0 != d[j].0
  }

  /** `name_node[c].append(t)`: extend c's entry in place, or add it last. */
  function AddTo(d: NameNodes, c: string, t: nat): (r: NameNodes)
    ensures |r| == |d| || (|r| == |d| + 1 && r[|d|].0 == c)
  {
    if d == [] then [(c, [t])]
    else if d[0].0 == c then [(c, d[0].1 + [t])] + d[1..]
    else [d[0]] + AddTo(d[1..], c, t)
  }

  /** Appending keeps one entry per key and extends exactly c's list. */
  lemma AddToEntry(d: NameNodes, c: string, t: nat)
    requires KeysDistinct(d)
    ensures KeysDistinct(AddTo(d, c, t))
    ensures forall k :: Entry(AddTo(d, c, t), k) == Entry(d, k) + (if k == c then [t] else [])
    ensures forall i :: 0 <= i < |d| ==> AddTo(d, c, t)[i].0 == d[i].0
  {
    AddToKeys(d, c, t);
    forall k ensures Entry(AddTo(d, c, t), k) == Entry(d, k) + (if k == c then [t] else []) {
      AddToLists(d, c, t, k);
    }
  }

  /** Appending keeps the keys in place, and adds c last only when no key
      equals c. */
  lemma {:induction false} AddToSameKeys(d: NameNodes, c: string, t: nat)
    ensures forall i :: 0 <= i < |d| ==> AddTo(d, c, t)[i].0 == d[i].0
    ensures |AddTo(d, c, t)| == |d| + 1 ==> forall i :: 0 <= i < |d| ==> d[i].0 != c
    decreases |d|
  {
    if d != [] && d[0].0 != c {
      AddToSameKeys(d[1..], c, t);
      var r := AddTo(d, c, t);
      var tail := AddTo(d[1..], c, t);
      assert r == [d[0]] + tail;
      forall i | 0 <= i < |d| ensures r[i].0 == d[i].0 {
        if i > 0 {
          assert r[i] == tail[i - 1] && d[i] == d[1..][i - 1];
        }
      }
      if |r| == |d| + 1 {
        forall i | 0 < i < |d| ensures d[i].0 != c {
          assert d[i] == d[1..][i - 1];
        }
      }
    }
  }

  lemma AddToKeys(d: NameNodes, c: string, t: nat)
    requires KeysDistinct(d)
    ensures KeysDistinct(AddTo(d, c, t))
    ensures forall i :: 0 <= i < |d| ==> AddTo(d, c, t)[i].0 == d[i].0
  {
    AddToSameKeys(d, c, t);
    var r := AddTo(d, c, t);
    forall i, j | 0 <= i < j < |r| ensures r[i].0 != r[j].0 {
      if j < |d| {
        assert r[i].0 == d[i].0 && r[j].0 == d[j].0;
      } else {
        assert r[j].0 == c && r[i].0 == d[i].0;
      }
    }
  }

  /** Appending extends exactly c's list. */
  lemma {:induction false} AddToLists(d: NameNodes, c: string, t: nat, k: string)
    ensures Entry(AddTo(d, c, t), k) == Entry(d, k) + (if k == c then [t] else [])
    decreases |d|
  {
    if d != [] && d[0].0 != c {
      AddToLists(d[1..], c, t, k);
      assert AddTo(d, c, t) == [d[0]] + AddTo(d[1..], c, t);
    }
  }

  /** The (component, tip) pairs the first loop of `uniqify` visits: for
      each named tip in order, each of its `; `-separated parts. */
  function Occurrences(attrs: seq<Attrs>, tips: seq<nat>): seq<(string, nat)>
    requires forall k :: 0 <= k < |tips| ==> tips[k] < |attrs|
  {
    if tips == [] then []
    else Occurrences(attrs, tips[..|tips| - 1]) + TipPairs(attrs[tips[|tips| - 1]].name, tips[|tips| - 1])
  }

  function TipPairs(name: Option<string>, t: nat): seq<(string, nat)> {
    if name.None? then [] else Pairs(Split(name.value, "; "), t)
  }

  function Pairs(parts: seq<string>, t: nat): seq<(string, nat)> {
    seq(|parts|, k requires 0 <= k < |parts| => (parts[k], t))
  }

  /** Every visited pair is a part of a named tip's name. */
  lemma {:induction false} OccurrencesNamed(attrs: seq<Attrs>, tips: seq<nat>, c: string, t: nat)
    requires forall k :: 0 <= k < |tips| ==> tips[k] < |attrs|
    requires (c, t) in Occurrences(attrs, tips)
    ensures t in tips && attrs[t].name.Some? && c in Split(attrs[t].name.value, "; ")
    decreases |tips|
  {
    var n := |tips| - 1;
    var init := tips[..n];
    if (c, t) in Occurrences(attrs, init) {
      OccurrencesNamed(attrs, init, c, t);
    } else {
      var k :| 0 <= k < |TipPairs(attrs[tips[n]].name, tips[n])| && TipPairs(attrs[tips[n]].name, tips[n])[k] == (c, t);
    }
  }

  /** The tips recorded under c, in visiting order. */
  function TipsWith(occ: seq<(string, nat)>, c: string): seq<nat> {
    if occ == [] then []
    else TipsWith(occ[..|occ| - 1], c) + (if occ[|occ| - 1].0 == c then [occ[|occ| - 1].1] else [])
  }

  /** The dictionary the first loop builds from the visited pairs. */
  function Grouped(occ: seq<(string, nat)>): NameNodes {
    if occ == [] then [] else AddTo(Grouped(occ[..|occ| - 1]), occ[|occ| - 1].0, occ[|occ| - 1].1)
  }

  /** The dictionary has one entry per component, and the list under each
      component holds the tips it was seen on, in order and with
      repetition. */
  lemma {:induction false} GroupedEntries(occ: seq<(string, nat)>)
    ensures KeysDistinct(Grouped(occ))
    ensures forall c :: Entry(Grouped(occ), c) == TipsWith(occ, c)
    decreases |occ|
  {
    if occ != [] {
      var init := occ[..|occ| - 1];
      GroupedEntries(init);
      AddToEntry(Grouped(init), occ[|occ| - 1].0, occ[|occ| - 1].1);
    }
  }

  lemma {:induction false} TipsWithMember(occ: seq<(string, nat)>, c: string, t: nat)
    ensures t in TipsWith(occ, c) <==> (c, t) in occ
    decreases |occ|
  {
    if occ != [] {
      var init := occ[..|occ| - 1];
      TipsWithMember(init, c, t);
      assert occ == init + [occ[|occ| - 1]];
    }
  }

  lemma EntryMember(d: NameNodes, i: nat)
    requires KeysDistinct(d) && i < |d|
    ensures Entry(d, d[i].0) == d[i].1
    decreases i
  {
    if i > 0 {
      EntryMember(d[1..], i - 1);
    }
  }

  lemma PairsStep(x: seq<(string, nat)>, parts: seq<string>, k: nat, t: nat)
    requires k < |parts|
    ensures Grouped(x + Pairs(parts[..k + 1], t)) == AddTo(Grouped(x + Pairs(parts[..k], t)), parts[k], t)
  {
    var a := x + Pairs(parts[..k + 1], t);
    assert a[..|a| - 1] == x + Pairs(parts[..k], t);
    assert a[|a| - 1] == (parts[k], t);
  }

  lemma OccurrencesStep(attrs: seq<Attrs>, tips: seq<nat>, i: nat)
    requires forall k :: 0 <= k < |tips| ==> tips[k] < |attrs|
    requires i < |tips|
    ensures Occurrences(attrs, tips[..i + 1]) == Occurrences(attrs, tips[..i]) + TipPairs(attrs[tips[i]].name, tips[i])
  {
    assert tips[..i + 1][..i] == tips[..i];
  }

  /** The first loop of `uniqify`: record each named tip under each of its
      name's parts. */
  method NameNode(attrs: seq<Attrs>, tips: seq<nat>) returns (d: NameNodes)
    requires forall k :: 0 <= k < |tips| ==> tips[k] < |attrs|
    ensures d == Grouped(Occurrences(attrs, tips))
  {
    d := [];
    for i := 0 to |tips|
      invariant d == Grouped(Occurrences(attrs, tips[..i]))
    {
      var n := tips[i];
      ghost var before := Occurrences(attrs, tips[..i]);
      OccurrencesStep(attrs, tips, i);
      if attrs[n].name.Some? {
        d := RecordParts(d, Split(attrs[n].name.value, "; "), n, before);
      } else {
        assert before + TipPairs(attrs[n].name, n) == before;
      }
    }
    assert tips[..|tips|] == tips;
  }

  /** The inner loop: `name_node[name].append(n)` for each part. */
  method RecordParts(d: NameNodes, parts: seq<string>, t: nat, ghost before: seq<(string, nat)>) returns (d': NameNodes)
    requires d == Grouped(before)
    ensures d' == Grouped(before + Pairs(parts, t))
  {
    d' := d;
    assert before + Pairs(parts[..0], t) == before;
    for k := 0 to |parts|
      invariant d' == Grouped(before + Pairs(parts[..k], t))
    {
      PairsStep(before, parts, k, t);
      d' := AddTo(d', parts[k], t);
    }
    assert parts[..|parts|] == parts;
  }

  /** `f"{name}-{idx}"`. */
  function Suffixed(c: string, idx: nat): string {
    c + "-" + DecimalString(idx)
  }

  /** `n.name = n.name.replace(name, f"{name}-{idx}")`; the nodes renamed are
      named tips, so the absent-name case does not arise. */
  function RenameNode(a: Attrs, c: string, idx: nat): Attrs {
    if a.name.None? then a else a.(name := Some(Replace(a.name.value, c, Suffixed(c, idx))))
  }

  /** The inner loop of the second pass over the first k listed nodes (the
      listed handles are always in range). */
  function RenameList(attrs: seq<Attrs>, c: string, nodes: seq<nat>, k: nat): (r: seq<Attrs>)
    requires k <= |nodes|
    ensures |r| == |attrs|
  {
    if k == 0 then attrs
    else
      var a := RenameList(attrs, c, nodes, k - 1);
      var n := nodes[k - 1];
      if n < |a| then a[n := RenameNode(a[n], c, k - 1)] else a
  }

  /** The second pass over the first i entries of the dictionary: only lists
      of more than one node are renamed. */
  function Renamed(attrs: seq<Attrs>, d: NameNodes, i: nat): (r: seq<Attrs>)
    requires i <= |d|
    ensures |r| == |attrs|
  {
    if i == 0 then attrs
    else
      var a := Renamed(attrs, d, i - 1);
      if |d[i - 1].1| > 1 then RenameList(a, d[i - 1].0, d[i - 1].1, |d[i - 1].1|) else a
  }

  /** Renaming touches only the listed nodes, and only their names. */
  lemma {:induction false} RenameListFrame(attrs: seq<Attrs>, c: string, nodes: seq<nat>, k: nat, v: nat)
    requires k <= |nodes| && forall j :: 0 <= j < |nodes| ==> nodes[j] < |attrs|
    requires v < |attrs|
    ensures var r := RenameList(attrs, c, nodes, k)[v];
      r == attrs[v].(name := r.name) && (attrs[v].name.Some? ==> r.name.Some?)
    ensures v !in nodes[..k] ==> RenameList(attrs, c, nodes, k)[v] == attrs[v]
  {
    if k > 0 {
      RenameListFrame(attrs, c, nodes, k - 1, v);
      assert nodes[..k] == nodes[..k - 1] + [nodes[k - 1]];
    }
  }

  /** A node listed once, k-th, under c ends with every c in its name
      replaced by `c-k`. */
  lemma {:induction false} RenameListOnce(attrs: seq<Attrs>, c: string, nodes: seq<nat>, n: nat, k: nat)
    requires n <= |nodes| && forall j :: 0 <= j < |nodes| ==> nodes[j] < |attrs|
    requires k < n && forall j :: 0 <= j < n && j != k ==> nodes[j] != nodes[k]
    requires attrs[nodes[k]].name.Some?
    ensures RenameList(attrs, c, nodes, n)[nodes[k]].name == Some(Replace(attrs[nodes[k]].name.value, c, Suffixed(c, k)))
  {
    var t := nodes[k];
    if n - 1 == k {
      RenameListFrame(attrs, c, nodes, k, t);
      assert t !in nodes[..k];
      assert RenameList(attrs, c, nodes, k)[t] == attrs[t];
    } else {
      RenameListOnce(attrs, c, nodes, n - 1, k);
      assert RenameList(attrs, c, nodes, n)[t] == RenameList(attrs, c, nodes, n - 1)[t];
    }
  }

  /** So when its name contains c, it now contains `c-k`. */
  lemma RenameListSuffixes(attrs: seq<Attrs>, c: string, nodes: seq<nat>, k: nat)
    requires forall j :: 0 <= j < |nodes| ==> nodes[j] < |attrs|
    requires k < |nodes| && forall j :: 0 <= j < |nodes| && j != k ==> nodes[j] != nodes[k]
    requires attrs[nodes[k]].name.Some? && c != [] && Contains(attrs[nodes[k]].name.value, c)
    ensures var r := RenameList(attrs, c, nodes, |nodes|)[nodes[k]].name;
      r.Some? && Contains(r.value, Suffixed(c, k))
  {
    RenameListOnce(attrs, c, nodes, |nodes|, k);
    ReplaceIntroduces(attrs[nodes[k]].name.value, c, Suffixed(c, k));
  }

  /** A node in no list of more than one node keeps its attributes, and
      every node keeps all but its name. */
  lemma {:induction false} RenamedFrame(attrs: seq<Attrs>, d: NameNodes, i: nat, v: nat)
    requires i <= |d| && forall e, j :: 0 <= e < |d| && 0 <= j < |d[e].1| ==> d[e].1[j] < |attrs|
    requires v < |attrs|
    ensures var r := Renamed(attrs, d, i)[v];
      r == attrs[v].(name := r.name) && (attrs[v].name.Some? ==> r.name.Some?)
    ensures (forall e :: 0 <= e < i && |d[e].1| > 1 ==> v !in d[e].1) ==> Renamed(attrs, d, i)[v] == attrs[v]
  {
    if i > 0 {
      RenamedFrame(attrs, d, i - 1, v);
      var e := d[i - 1];
      if |e.1| > 1 {
        RenameListFrame(Renamed(attrs, d, i - 1), e.0, e.1, |e.1|, v);
        assert e.1[..|e.1|] == e.1;
      }
    }
  }

  /** The inner loop of the second pass. */
  method RenameEntry(attrs: seq<Attrs>, c: string, nodes: seq<nat>) returns (r: seq<Attrs>)
    requires forall j :: 0 <= j < |nodes| ==> nodes[j] < |attrs|
    ensures r == RenameList(attrs, c, nodes, |nodes|)
  {
    r := attrs;
    for idx := 0 to |nodes|
      invariant r == RenameList(attrs, c, nodes, idx)
    {
      var n := nodes[idx];
      r := r[n := RenameNode(r[n], c, idx)];
    }
  }

  /** The second loop of `uniqify`: for each component seen on more than one
      node, in dictionary order, suffix it with each node's position. */
  method RenameShared(attrs: seq<Attrs>, d: NameNodes) returns (r: seq<Attrs>)
    requires forall e, j :: 0 <= e < |d| && 0 <= j < |d[e].1| ==> d[e].1[j] < |attrs|
    ensures r == Renamed(attrs, d, |d|)
  {
    r := attrs;
    for i := 0 to |d|
      invariant r == Renamed(attrs, d, i)
    {
      var (c, nodes) := d[i];
      if |nodes| > 1 {
        r := RenameEntry(r, c, nodes);
      }
    }
  }

  /** A tip that shares some name part with another listed occurrence. */
  ghost predicate SharesPart(occ: seq<(string, nat)>, v: nat) {
    exists c :: (c, v) in occ && |TipsWith(occ, c)| > 1
  }

  /** In the dictionary built from occ, a list of more than one node holds
      only nodes that share a part. */
  lemma SharedListed(occ: seq<(string, nat)>, e: nat, v: nat)
    requires e < |Grouped(occ)| && |Grouped(occ)[e].1| > 1 && v in Grouped(occ)[e].1
    ensures SharesPart(occ, v)
  {
    var d := Grouped(occ);
    GroupedEntries(occ);
    EntryMember(d, e);
    TipsWithMember(occ, d[e].0, v);
  }

  lemma GroupedInRange(attrs: seq<Attrs>, tips: seq<nat>)
    requires forall k :: 0 <= k < |tips| ==> tips[k] < |attrs|
    ensures var d := Grouped(Occurrences(attrs, tips));
      forall e, j :: 0 <= e < |d| && 0 <= j < |d[e].1| ==> d[e].1[j] < |attrs|
  {
    var occ := Occurrences(attrs, tips);
    var d := Grouped(occ);
    GroupedEntries(occ);
    forall e, j | 0 <= e < |d| && 0 <= j < |d[e].1|
      ensures d[e].1[j] < |attrs|
    {
      EntryMember(d, e);
      TipsWithMember(occ, d[e].0, d[e].1[j]);
      OccurrencesNamed(attrs, tips, d[e].0, d[e].1[j]);
    }
  }

  /** `uniqify(t)`: group the tips by name part, then rename the parts seen
      more than once. Only names change; a node none of whose parts is listed
      more than once keeps its name. Right after an entry's pass its k-th tip
      holds `part-k` (RenameListSuffixes), but a later entry's pass can
      rewrite that text (LaterPassLosesSuffix). */
  method Uniqify(h: Heap, root: nat)
    requires h.Valid() && root < |h.kids|
    modifies h
    ensures h.Valid() && h.parent == old(h.parent) && h.kids == old(h.kids) && |h.attrs| == old(|h.attrs|)
    ensures var occ := Occurrences(old(h.attrs), Tips(h.kids, root));
      h.attrs == Renamed(old(h.attrs), Grouped(occ), |Grouped(occ)|)
    ensures forall v :: 0 <= v < |h.attrs| ==>
      h.attrs[v] == old(h.attrs[v]).(name := h.attrs[v].name) && (old(h.attrs[v].name).Some? ==> h.attrs[v].name.Some?)
    ensures forall v :: 0 <= v < |h.attrs| && !SharesPart(Occurrences(old(h.attrs), Tips(h.kids, root)), v) ==>
      h.attrs[v] == old(h.attrs[v])
  {
    var tips := Tips(h.kids, root);
    forall k | 0 <= k < |tips|
      ensures tips[k] < |h.attrs|
    {
      TipsBelow(h.parent, h.kids, root, tips[k]);
    }
    var d := NameNode(h.attrs, tips);
    GroupedInRange(h.attrs, tips);
    ghost var attrs0 := h.attrs;
    var attrs := RenameShared(h.attrs, d);
    forall v | 0 <= v < |attrs|
      ensures attrs[v] == attrs0[v].(name := attrs[v].name) && (attrs0[v].name.Some? ==> attrs[v].name.Some?)
      ensures !SharesPart(Occurrences(attrs0, tips), v) ==> attrs[v] == attrs0[v]
    {
      RenamedFrame(attrs0, d, |d|, v);
      if !SharesPart(Occurrences(attrs0, tips), v) {
        forall e | 0 <= e < |d| && |d[e].1| > 1
          ensures v !in d[e].1
        {
          if v in d[e].1 {
            SharedListed(Occurrences(attrs0, tips), e, v);
          }
        }
      }
    }
    h.attrs := attrs;
  }

  /** `str.replace` works on substrings, not on `; `-parts: renaming the
      shared part "c" of the tip named "c; cd" also rewrites its part "cd",
      although "cd" may occur on that tip alone. */
  lemma RenameReachesOtherParts()
    ensures Replace("c; cd", "c", Suffixed("c", 0)) == "c-0; c-0d"
  {
    assert DecimalString(0) == "0";
    assert Suffixed("c", 0) == "c-0";
    assert Replace("d", "c", "c-0") == "d";
    assert Replace("cd", "c", "c-0") == "c-0d";
    assert Replace(" cd", "c", "c-0") == " c-0d";
    assert Replace("; cd", "c", "c-0") == "; c-0d";
    assert StartsWith("c; cd", "c") && "c; cd"[1..] == "; cd";
  }

  /** The k-th suffix can be lost by a later entry: two tips both named
      "a; -" list "a" and then "-" twice each. The pass for "a" renames the
      first tip to "a-0; -"; the pass for "-" then rewrites every "-" in it,
      and the final name "a--00; --0" no longer contains "a-0". */
  lemma LaterPassLosesSuffix()
    ensures Replace(Replace("a; -", "a", Suffixed("a", 0)), "-", Suffixed("-", 0)) == "a--00; --0"
    ensures !Contains("a--00; --0", Suffixed("a", 0))
  {
    assert DecimalString(0) == "0";
    assert Suffixed("a", 0) == "a-0";
    assert Suffixed("-", 0) == "--0";
    FirstPassExample();
    SecondPassExample();
    NoSuffixExample();
  }

  lemma FirstPassExample()
    ensures Replace("a; -", "a", "a-0") == "a-0; -"
  {
    assert Replace("-", "a", "a-0") == "-";
    assert Replace(" -", "a", "a-0") == " -";
    assert Replace("; -", "a", "a-0") == "; -";
    assert StartsWith("a; -", "a") && "a; -"[1..] == "; -";
  }

  lemma SecondPassExample()
    ensures Replace("a-0; -", "-", "--0") == "a--00; --0"
  {
    assert Replace("", "-", "--0") == "";
    assert Replace("-", "-", "--0") == "--0";
    assert Replace(" -", "-", "--0") == " --0";
    assert Replace("; -", "-", "--0") == "; --0";
    assert Replace("0; -", "-", "--0") == "0; --0";
    assert StartsWith("-0; -", "-") && "-0; -"[1..] == "0; -";
    assert Replace("-0; -", "-", "--0") == "--00; --0";
  }

  lemma NoSuffixExample()
    ensures !Contains("a--00; --0", "a-0")
  {
    var t := "a--00; --0";
    ContainsIff(t, "a-0");
    forall i | 0 <= i <= |t| ensures !OccursAt(t, "a-0", i) {
      if i + 3 <= |t| {
        if t[i] == 'a' {
          assert t[i..i + 3][2] == '-';
        } else {
          assert t[i..i + 3][0] != 'a';
        }
      }
    }
  }
}
