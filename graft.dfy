/** Grafting LTP taxa onto the GTDB backbone (gg2/backbone_taxonomy.py):
    `prep_trees` decorates both trees, and `graft_from_other` moves the part
    of each LTP clade that GTDB lacks under the GTDB node of the same name.
    Both trees live in one heap of TreeNode objects. */
module Graft {
  import opened Wrappers
  import opened Forest
  import opened TreeHeap
  import opened Lineage
  import TreeMap

  // ---------------------------------------------------------------------
  // prep_trees

  /** `LEVELS[rank]`: a Python list index, so -7 .. -1 count from the end
      and anything else raises IndexError. */
  function LevelAt(rank: int): (r: Option<Rank>)
    ensures r.Some? <==> -7 <= rank < 7
    ensures r.Some? ==> (r.value - rank) % 7 == 0
  {
    if 0 <= rank < 7 then Some(rank)
    else if -7 <= rank < 0 then Some(rank + 7)
    else None
  }

  /** `"%s" % name`: a missing name prints as "None". */
  function NameText(name: Option<string>): string {
    if name.Some? then name.value else "None"
  }

  /** What prep_trees does to one non-root node of the LTP tree: a tip
      becomes keepable; any other node is not keepable and has its name
      prefixed with its rank, failing when the rank is not a LEVELS index. */
  function Prepped(a: Attrs, tip: bool): (r: Result<Attrs>)
    ensures r.Ok? <==> tip || -7 <= a.rank < 7
    ensures r.Err? ==> r.error.IndexError?
    ensures r.Ok? ==> r.value.keepable == tip
    ensures r.Ok? ==> r.value.(name := a.name, keepable := a.keepable) == a
    ensures r.Ok? && tip ==> r.value.name == a.name
    ensures r.Ok? && !tip ==> r.value.name.Some? && StripRank(r.value.name.value) == Some(NameText(a.name))
  {
    if tip then Ok(a.(keepable := true))
    else match LevelAt(a.rank)
      case None => Err(IndexError("list index out of range"))
      case Some(level) =>
        StripFormat(level, NameText(a.name));
        Ok(a.(keepable := false, name := Some(FormatName(level, NameText(a.name)))))
  }

  /** The internal node's new name carries the prefix of its rank. */
  lemma PreppedPrefix(a: Attrs)
    requires -7 <= a.rank < 7
    ensures var level := if a.rank < 0 then a.rank + 7 else a.rank;
      Prepped(a, false).value.name == Some(RankPrefix(level) + NameText(a.name))
  {
  }

  /** Nodes of the LTP tree other than its root. */
  ghost predicate InTree(parent: Parents, v: nat, root: nat) {
    Below(parent, v, root) && v != root
  }

  /** The attributes after the LTP pass, as far as it has gone over `done`. */
  ghost predicate PrepFrom(kids: Kids, attrs0: seq<Attrs>, attrs: seq<Attrs>, done: set<nat>)
    requires |attrs0| == |kids|
  {
    && |attrs| == |attrs0|
    && forall v :: 0 <= v < |attrs| ==>
      if v in done then Prepped(attrs0[v], kids[v] == []) == Ok(attrs[v]) else attrs[v] == attrs0[v]
  }

  /** The state the LTP pass leaves when it raises at position i of the
      preorder: the nodes before it are prepared, the failing internal node
      (whose rank is not a LEVELS index) has already been made not
      keepable, and every other node is unchanged. */
  ghost predicate StoppedAt(kids: Kids, attrs0: seq<Attrs>, attrs: seq<Attrs>, root: nat, i: int)
    requires Ordered(kids) && root < |kids| && |attrs0| == |kids|
  {
    var order := Pre(kids, root);
    && |attrs| == |attrs0| && 1 <= i < |order| && order[i] < |kids|
    && var x := order[i];
    && kids[x] != [] && LevelAt(attrs0[x].rank).None?
    && attrs[x] == attrs0[x].(keepable := false)
    && PrepFrom(kids, attrs0, attrs[x := attrs0[x]], set j | 1 <= j < i :: order[j])
  }

  lemma PrepStep(kids: Kids, attrs0: seq<Attrs>, attrs: seq<Attrs>, done: set<nat>, x: nat, a: Attrs)
    requires |attrs0| == |kids| && PrepFrom(kids, attrs0, attrs, done)
    requires x < |kids| && x !in done && Prepped(attrs0[x], kids[x] == []) == Ok(a)
    ensures PrepFrom(kids, attrs0, attrs[x := a], done + {x})
  {
  }

  /** The non-root nodes of root's tree are those its preorder lists after root. */
  lemma PreTail(parent: Parents, kids: Kids, root: nat)
    requires Linked(parent, kids) && root < |kids|
    ensures var order := Pre(kids, root);
      |order| >= 1 && order[0] == root && Distinct(order)
      && (forall j :: 0 <= j < |order| ==> order[j] < |kids|)
      && forall v :: v in order[1..] <==> InTree(parent, v, root)
  {
    var order := Pre(kids, root);
    PreDistinct(parent, kids, root);
    PreSamePost(kids, root);
    PostRange(kids, root);
    forall j | 0 <= j < |order| ensures order[j] < |kids| {
      assert order[j] in Post(kids, root);
    }
    assert order == [root] + order[1..];
    forall v ensures v in order[1..] <==> InTree(parent, v, root) {
      PostIff(parent, kids, root, v);
      if v in order[1..] {
        var j :| 0 <= j < |order[1..]| && order[1..][j] == v;
        assert order[j + 1] == v;
        assert order[0] == root && order[0] != order[j + 1];
      }
      if InTree(parent, v, root) {
        assert v in [root] + order[1..];
      }
    }
  }

  /** The next node of a duplicate-free order is not among those before it. */
  lemma NextUnvisited(order: seq<nat>, lo: nat, i: nat, done: set<nat>)
    requires Distinct(order) && lo <= i < |order|
    requires done == set j | lo <= j < i :: order[j]
    ensures order[i] !in done
    ensures done + {order[i]} == set j | lo <= j < i + 1 :: order[j]
  {
  }

  /** The first loop of prep_trees: in preorder, every non-root node of the
      LTP tree is prepared as by Prepped. The first internal node whose rank
      is not a LEVELS index stops the pass with IndexError, leaving the
      nodes visited before it prepared and itself no longer keepable. */
  method PrepLtp(h: Heap, ltp: nat) returns (r: Result<()>)
    requires h.Valid() && ltp < |h.kids|
    modifies h
    ensures h.Valid() && h.parent == old(h.parent) && h.kids == old(h.kids)
    ensures r.Ok? <==> forall v: nat :: InTree(h.parent, v, ltp) && h.kids[v] != [] ==> -7 <= old(h.attrs[v]).rank < 7
    ensures r.Err? ==> r.error.IndexError?
    ensures r.Err? ==> exists i :: StoppedAt(h.kids, old(h.attrs), h.attrs, ltp, i)
    ensures r.Ok? ==> PrepFrom(h.kids, old(h.attrs), h.attrs, set v: nat | v < |h.kids| && InTree(h.parent, v, ltp))
  {
    var kids := h.kids;
    var attrs0 := h.attrs;
    var order := Pre(kids, ltp);
    PreTail(h.parent, kids, ltp);
    var attrs := attrs0;
    ghost var done: set<nat> := {};
    for i := 1 to |order|
      invariant h.parent == old(h.parent) && h.kids == kids && h.attrs == attrs0
      invariant done == set j | 1 <= j < i :: order[j]
      invariant PrepFrom(kids, attrs0, attrs, done)
      invariant forall v :: v in done && kids[v] != [] ==> -7 <= attrs0[v].rank < 7
    {
      var x := order[i];
      NextUnvisited(order, 1, i, done);
      var a := Prepped(attrs[x], kids[x] == []);
      if a.Err? {
        var stopped := attrs[x := attrs[x].(keepable := false)];
        assert stopped[x := attrs0[x]] == attrs;
        assert StoppedAt(kids, attrs0, stopped, ltp, i);
        h.attrs := stopped;
        return Err(a.error);
      }
      PrepStep(kids, attrs0, attrs, done, x, a.value);
      attrs := attrs[x := a.value];
      done := done + {x};
    }
    PrepAll(h.parent, kids, ltp, done);
    h.attrs := attrs;
    return Ok(());
  }

  /** The visited nodes are exactly the non-root nodes of the LTP tree. */
  lemma PrepAll(parent: Parents, kids: Kids, ltp: nat, done: set<nat>)
    requires Linked(parent, kids) && ltp < |kids|
    requires done == set j | 1 <= j < |Pre(kids, ltp)| :: Pre(kids, ltp)[j]
    ensures done == set v: nat | v < |kids| && InTree(parent, v, ltp)
  {
    var order := Pre(kids, ltp);
    PreTail(parent, kids, ltp);
    forall v ensures v in done <==> v in order[1..] {
      if v in order[1..] {
        var j :| 0 <= j < |order[1..]| && order[1..][j] == v;
        assert order[j + 1] == v;
      }
    }
    forall v: nat | InTree(parent, v, ltp) ensures v < |kids| {
    }
  }

  /** The second loop of prep_trees: every tip of the GTDB tree becomes
      keepable. */
  method MarkTips(h: Heap, gtdb: nat)
    requires h.Valid() && gtdb < |h.kids|
    modifies h
    ensures h.Valid() && h.parent == old(h.parent) && h.kids == old(h.kids)
    ensures |h.attrs| == |old(h.attrs)|
    ensures forall v :: 0 <= v < |h.attrs| ==>
      h.attrs[v] == if InTree(h.parent, v, gtdb) && h.kids[v] == [] then old(h.attrs[v]).(keepable := true) else old(h.attrs[v])
  {
    var tips := TreeMap.Tips(h.kids, gtdb);
    var attrs := h.attrs;
    for k := 0 to |tips|
      invariant |attrs| == |old(h.attrs)|
      invariant forall v :: 0 <= v < |attrs| ==>
        attrs[v] == if v in tips[..k] then old(h.attrs[v]).(keepable := true) else old(h.attrs[v])
    {
      attrs := attrs[tips[k] := attrs[tips[k]].(keepable := true)];
    }
    assert tips[..|tips|] == tips;
    forall v | 0 <= v < |attrs| ensures v in tips <==> InTree(h.parent, v, gtdb) && h.kids[v] == [] {
      TreeMap.TipsBelow(h.parent, h.kids, gtdb, v);
    }
    h.attrs := attrs;
  }

  /** `prep_trees(gtdb_tree, ltp_tree)`: PrepLtp, then MarkTips when it
      succeeds. `clean_tree` only drops a cache attribute the model does
      not have. */
  method PrepTrees(h: Heap, gtdb: nat, ltp: nat) returns (r: Result<()>)
    requires h.Valid() && gtdb < |h.kids| && ltp < |h.kids|
    modifies h
    ensures h.Valid() && h.parent == old(h.parent) && h.kids == old(h.kids)
    ensures r.Ok? <==> forall v: nat :: InTree(h.parent, v, ltp) && h.kids[v] != [] ==> -7 <= old(h.attrs[v]).rank < 7
    ensures r.Err? ==> r.error.IndexError?
    ensures r.Err? ==> exists i :: StoppedAt(h.kids, old(h.attrs), h.attrs, ltp, i)
    ensures r.Ok? ==> forall v :: 0 <= v < |h.attrs| ==>
      var a := if InTree(h.parent, v, ltp) then Prepped(old(h.attrs[v]), h.kids[v] == []).value else old(h.attrs[v]);
      h.attrs[v] == if InTree(h.parent, v, gtdb) && h.kids[v] == [] then a.(keepable := true) else a
  {
    r := PrepLtp(h, ltp);
    if r.Ok? {
      MarkTips(h, gtdb);
    }
  }

  // ---------------------------------------------------------------------
  // node.copy(): the subtree, appended to the heap under fresh handles

  /** A list of nodes that can be copied on its own: it holds the children
      of each of its nodes, and the parent of each node but the first. */
  predicate Closed(parent: Parents, kids: Kids, order: seq<nat>) {
    && |order| > 0 && |parent| == |kids|
    && (forall k :: 0 <= k < |order| ==> order[k] < |kids|)
    && (forall k, c :: 0 <= k < |order| && c in kids[order[k]] ==> c in order)
    && forall k: nat :: k < |order| ==> ParentBefore(parent, order, k)
  }

  /** Position k of the order, unless it is the first, holds a node whose
      parent was listed before it. */
  predicate ParentBefore(parent: Parents, order: seq<nat>, k: nat) {
    0 < k < |order| ==> order[k] < |parent| && parent[order[k]].Some? && parent[order[k]].value in order[..k]
  }

  /** The handle of the copy of c: the copy of order[k] is base + k. */
  function Handle(order: seq<nat>, base: nat, c: nat): nat {
    if c in order then base + IndexOf(order, c) else base
  }

  /** A child list, translated to the copies' handles. */
  function CopyList(order: seq<nat>, base: nat, s: seq<nat>): (r: seq<nat>)
    ensures |r| == |s| && forall j :: 0 <= j < |s| ==> r[j] == Handle(order, base, s[j])
  {
    seq(|s|, j requires 0 <= j < |s| => Handle(order, base, s[j]))
  }

  /** The child lists of the copies. */
  function CopyKids(kids: Kids, order: seq<nat>, base: nat): (r: Kids)
    ensures |r| == |order|
    ensures forall k {:trigger r[k]} :: 0 <= k < |order| && order[k] < |kids| ==> r[k] == CopyList(order, base, kids[order[k]])
  {
    seq(|order|, k requires 0 <= k < |order| =>
      if order[k] < |kids| then CopyList(order, base, kids[order[k]]) else [])
  }

  /** The parent links of the copies; the copy of the first node has none. */
  function CopyParents(parent: Parents, order: seq<nat>, base: nat): (r: Parents)
    ensures |r| == |order|
    ensures |order| > 0 ==> r[0].None?
  {
    seq(|order|, k requires 0 <= k < |order| =>
      if k == 0 || order[k] >= |parent| || parent[order[k]].None? then None
      else Some(Handle(order, base, parent[order[k]].value)))
  }

  /** The attributes of the copies are those of the originals. */
  function CopyAttrs(attrs: seq<Attrs>, order: seq<nat>): (r: seq<Attrs>)
    requires forall k :: 0 <= k < |order| ==> order[k] < |attrs|
    ensures |r| == |order| && forall k :: 0 <= k < |order| ==> r[k] == attrs[order[k]]
  {
    seq(|order|, k requires 0 <= k < |order| => attrs[order[k]])
  }

  lemma IndexOfDistinct(s: seq<nat>, k: nat)
    requires Distinct(s) && k < |s|
    ensures IndexOf(s, s[k]) == k
  {
  }

  /** In a parent-first order the parent of order[m] comes before it. */
  lemma ParentIndex(parent: Parents, order: seq<nat>, m: nat)
    requires ParentBefore(parent, order, m) && 0 < m < |order|
    ensures IndexOf(order, parent[order[m]].value) < m
  {
    var p := parent[order[m]].value;
    var i := IndexOf(order, p);
    var t :| 0 <= t < m && order[..m][t] == p;
    assert order[t] == p;
  }

  /** A child of a copied node comes after it in the order. */
  lemma ChildIndex(parent: Parents, kids: Kids, order: seq<nat>, k: nat, j: nat)
    requires Closed(parent, kids, order) && Distinct(order)
    requires parent[order[0]].None?
    requires k < |order| && j < |kids[order[k]]| && kids[order[k]][j] < |parent| && parent[kids[order[k]][j]] == Some(order[k])
    ensures k < IndexOf(order, kids[order[k]][j])
  {
    var c := kids[order[k]][j];
    var m := IndexOf(order, c);
    if m == 0 {
      assert false;
    }
    assert ParentBefore(parent, order, m);
    ParentIndex(parent, order, m);
    IndexOfDistinct(order, k);
  }

  /** The i-th child of the copy of order[k] is a later copy that names it
      as parent. */
  lemma CopyKidLinked(parent: Parents, kids: Kids, order: seq<nat>, base: nat, k: nat, i: nat)
    requires Closed(parent, kids, order) && Distinct(order)
    requires parent[order[0]].None?
    requires k < |order| && i < |kids[order[k]]| && kids[order[k]][i] < |parent| && parent[kids[order[k]][i]] == Some(order[k])
    ensures k < Handle(order, base, kids[order[k]][i]) - base < |order|
    ensures CopyParents(parent, order, base)[Handle(order, base, kids[order[k]][i]) - base] == Some(base + k)
  {
    var c := kids[order[k]][i];
    ChildIndex(parent, kids, order, k, i);
    var m := IndexOf(order, c);
    assert Handle(order, base, c) == base + m;
    IndexOfDistinct(order, k);
    assert Handle(order, base, order[k]) == base + k;
  }

  /** The copy of order[m], when it has a parent, is listed by it. */
  lemma CopyParentLinked(parent: Parents, kids: Kids, order: seq<nat>, base: nat, m: nat)
    requires Closed(parent, kids, order) && Distinct(order)
    requires 0 < m < |order|
    requires forall c :: 0 <= c < |parent| && parent[c].Some? ==> parent[c].value < |kids| && c in kids[parent[c].value]
    ensures var p := CopyParents(parent, order, base)[m];
      p.Some? && base <= p.value < base + m && base + m in CopyKids(kids, order, base)[p.value - base]
  {
    assert ParentBefore(parent, order, m);
    var p := parent[order[m]].value;
    var k := IndexOf(order, p);
    ParentIndex(parent, order, m);
    assert Handle(order, base, p) == base + k;
    var j :| 0 <= j < |kids[p]| && kids[p][j] == order[m];
    IndexOfDistinct(order, m);
    assert Handle(order, base, order[m]) == base + m;
    assert CopyList(order, base, kids[p])[j] == base + m;
  }

  /** Nodes appended at base list children that come after them and name
      them as parent. */
  predicate ForwardLinks(base: nat, cp: Parents, ck: Kids) {
    && |cp| == |ck|
    && forall k, i :: 0 <= k < |ck| && 0 <= i < |ck[k]| ==>
      base + k < ck[k][i] < base + |ck| && cp[ck[k][i] - base] == Some(base + k)
  }

  /** Nodes appended at base have earlier appended parents that list them. */
  predicate BackLinks(base: nat, cp: Parents, ck: Kids) {
    && |cp| == |ck|
    && forall m :: 0 <= m < |cp| && cp[m].Some? ==>
      base <= cp[m].value < base + m && base + m in ck[cp[m].value - base]
  }

  /** No child list repeats a child. */
  predicate ListsDistinct(ck: Kids) {
    forall k, i, j :: 0 <= k < |ck| && 0 <= i < j < |ck[k]| ==> ck[k][i] != ck[k][j]
  }

  /** Appended child lists point forward, to appended nodes that name
      their parent. */
  lemma AppendForward(parent: Parents, kids: Kids, cp: Parents, ck: Kids)
    requires Linked(parent, kids) && ForwardLinks(|kids|, cp, ck)
    ensures forall v, i :: 0 <= v < |kids + ck| && 0 <= i < |(kids + ck)[v]| ==>
      v < (kids + ck)[v][i] < |kids + ck| && (parent + cp)[(kids + ck)[v][i]] == Some(v)
  {
    var base := |kids|;
    var P, K := parent + cp, kids + ck;
    forall v, i | 0 <= v < |K| && 0 <= i < |K[v]| ensures v < K[v][i] < |K| && P[K[v][i]] == Some(v) {
      if v >= base {
        assert K[v] == ck[v - base];
        var c := ck[v - base][i];
        assert P[c] == cp[c - base];
      } else {
        assert K[v] == kids[v];
      }
    }
  }

  /** Appended nodes with a parent are listed by it. */
  lemma AppendBack(parent: Parents, kids: Kids, cp: Parents, ck: Kids)
    requires Linked(parent, kids) && BackLinks(|kids|, cp, ck)
    ensures forall c :: 0 <= c < |parent + cp| && (parent + cp)[c].Some? ==>
      (parent + cp)[c].value < c && c in (kids + ck)[(parent + cp)[c].value]
  {
    var base := |kids|;
    var P, K := parent + cp, kids + ck;
    forall c | 0 <= c < |P| && P[c].Some? ensures P[c].value < c && c in K[P[c].value] {
      if c >= base {
        assert P[c] == cp[c - base];
        assert K[P[c].value] == ck[P[c].value - base];
      } else {
        assert P[c] == parent[c];
      }
    }
  }

  /** Appending nodes whose links only point among themselves, forward and
      back consistently, keeps a heap linked. */
  lemma AppendLinked(parent: Parents, kids: Kids, cp: Parents, ck: Kids)
    requires Linked(parent, kids) && ForwardLinks(|kids|, cp, ck) && BackLinks(|kids|, cp, ck) && ListsDistinct(ck)
    ensures Linked(parent + cp, kids + ck)
  {
    AppendForward(parent, kids, cp, ck);
    AppendBack(parent, kids, cp, ck);
    var K := kids + ck;
    forall v, i, j | 0 <= v < |K| && 0 <= i < j < |K[v]| ensures K[v][i] != K[v][j] {
      if v >= |kids| {
        assert K[v] == ck[v - |kids|];
      }
    }
  }

  /** The child links of the originals, as the copies see them. */
  ghost predicate OrderKidsLinked(parent: Parents, kids: Kids, order: seq<nat>)
    requires forall k :: 0 <= k < |order| ==> order[k] < |kids|
  {
    forall k, i :: 0 <= k < |order| && 0 <= i < |kids[order[k]]| ==>
      kids[order[k]][i] < |parent| && parent[kids[order[k]][i]] == Some(order[k])
  }

  /** The i-th child of the copy at base + k lies after it among the copies
      and names it as its parent. */
  lemma CopiedForwardAt(parent: Parents, kids: Kids, order: seq<nat>, base: nat, k: nat, i: nat)
    requires Closed(parent, kids, order) && Distinct(order) && parent[order[0]].None?
    requires OrderKidsLinked(parent, kids, order)
    requires k < |order| && i < |CopyKids(kids, order, base)[k]|
    ensures base + k < CopyKids(kids, order, base)[k][i] < base + |order|
    ensures CopyParents(parent, order, base)[CopyKids(kids, order, base)[k][i] - base] == Some(base + k)
  {
    var s := CopyKids(kids, order, base)[k];
    assert s == CopyList(order, base, kids[order[k]]);
    assert s[i] == Handle(order, base, kids[order[k]][i]);
    CopyKidLinked(parent, kids, order, base, k, i);
  }

  lemma CopiedForwardLinks(parent: Parents, kids: Kids, order: seq<nat>, base: nat)
    requires Closed(parent, kids, order) && Distinct(order) && parent[order[0]].None?
    requires OrderKidsLinked(parent, kids, order)
    ensures ForwardLinks(base, CopyParents(parent, order, base), CopyKids(kids, order, base))
  {
    var cp, ck := CopyParents(parent, order, base), CopyKids(kids, order, base);
    forall k, i | 0 <= k < |ck| && 0 <= i < |ck[k]|
      ensures base + k < ck[k][i] < base + |ck| && cp[ck[k][i] - base] == Some(base + k)
    {
      CopiedForwardAt(parent, kids, order, base, k, i);
    }
    assert |cp| == |ck|;
    assert ForwardLinks(base, cp, ck);
  }

  lemma CopyKidsLinked(parent: Parents, kids: Kids, order: seq<nat>)
    requires Linked(parent, kids) && Closed(parent, kids, order) && Distinct(order)
    requires parent[order[0]].None?
    ensures ForwardLinks(|kids|, CopyParents(parent, order, |kids|), CopyKids(kids, order, |kids|))
  {
    assert OrderKidsLinked(parent, kids, order);
    CopiedForwardLinks(parent, kids, order, |kids|);
  }

  lemma CopyParentsLinked(parent: Parents, kids: Kids, order: seq<nat>)
    requires Linked(parent, kids) && Closed(parent, kids, order) && Distinct(order)
    ensures BackLinks(|kids|, CopyParents(parent, order, |kids|), CopyKids(kids, order, |kids|))
  {
    var cp := CopyParents(parent, order, |kids|);
    forall m | 0 <= m < |cp| && cp[m].Some? {
      CopyParentLinked(parent, kids, order, |kids|, m);
    }
  }

  /** Translating a duplicate-free list of copied nodes keeps it free of
      duplicates. */
  lemma CopyListDistinct(order: seq<nat>, base: nat, s: seq<nat>)
    requires forall i, j :: 0 <= i < j < |s| ==> s[i] != s[j]
    requires forall x :: x in s ==> x in order
    ensures var r := CopyList(order, base, s);
      forall i, j :: 0 <= i < j < |r| ==> r[i] != r[j]
  {
    var r := CopyList(order, base, s);
    forall i, j | 0 <= i < j < |r| ensures r[i] != r[j] {
      assert s[i] in order && s[j] in order;
    }
  }

  lemma CopyKidsDistinct(parent: Parents, kids: Kids, order: seq<nat>)
    requires Linked(parent, kids) && Closed(parent, kids, order)
    ensures ListsDistinct(CopyKids(kids, order, |kids|))
  {
    var ck := CopyKids(kids, order, |kids|);
    forall k | 0 <= k < |ck| ensures forall i, j :: 0 <= i < j < |ck[k]| ==> ck[k][i] != ck[k][j] {
      assert ck[k] == CopyList(order, |kids|, kids[order[k]]);
      CopyListDistinct(order, |kids|, kids[order[k]]);
    }
  }

  /** Appending the copies keeps the heap linked. */
  lemma CopyLinked(parent: Parents, kids: Kids, order: seq<nat>)
    requires Linked(parent, kids) && Closed(parent, kids, order) && Distinct(order)
    requires parent[order[0]].None?
    ensures Linked(parent + CopyParents(parent, order, |kids|), kids + CopyKids(kids, order, |kids|))
  {
    CopyKidsLinked(parent, kids, order);
    CopyParentsLinked(parent, kids, order);
    CopyKidsDistinct(parent, kids, order);
    AppendLinked(parent, kids, CopyParents(parent, order, |kids|), CopyKids(kids, order, |kids|));
  }

  /** The subtree of a detached node, in preorder, can be copied. */
  lemma PreClosed(parent: Parents, kids: Kids, x: nat)
    requires Linked(parent, kids) && x < |kids|
    ensures Closed(parent, kids, Pre(kids, x)) && Distinct(Pre(kids, x)) && Pre(kids, x)[0] == x
  {
    var order := Pre(kids, x);
    PreTail(parent, kids, x);
    PreParentFirst(parent, kids, x);
    forall k: nat | k < |order| ensures ParentBefore(parent, order, k) {
    }
    forall k, c | 0 <= k < |order| && c in kids[order[k]] ensures c in order {
      PostIff(parent, kids, x, order[k]);
      PostIff(parent, kids, x, c);
      assert parent[c] == Some(order[k]);
    }
  }

  /** `node.copy()` of a detached node x: the nodes of its subtree are
      appended in preorder, with their links translated and their
      attributes copied; y is the copy of x. */
  method CopySubtree(h: Heap, x: nat, order: seq<nat>) returns (y: nat)
    requires h.Valid() && x < |h.kids| && h.parent[x].None?
    requires order == Pre(h.kids, x) && Closed(h.parent, h.kids, order)
    modifies h
    ensures h.Valid() && y == |old(h.kids)|
    ensures h.parent == old(h.parent) + CopyParents(old(h.parent), order, y)
    ensures h.kids == old(h.kids) + CopyKids(old(h.kids), order, y)
    ensures h.attrs == old(h.attrs) + CopyAttrs(old(h.attrs), order)
  {
    PreClosed(h.parent, h.kids, x);
    CopyLinked(h.parent, h.kids, order);
    y := |h.kids|;
    h.attrs := h.attrs + CopyAttrs(h.attrs, order);
    h.kids, h.parent := h.kids + CopyKids(h.kids, order, y), h.parent + CopyParents(h.parent, order, y);
  }

  // ---------------------------------------------------------------------
  // The keepable recomputation on the copy

  /** The keepable flags of all nodes. */
  function KeepMarks(attrs: seq<Attrs>): (m: seq<bool>)
    ensures |m| == |attrs| && forall v :: 0 <= v < |attrs| ==> m[v] == attrs[v].keepable
  {
    seq(|attrs|, v requires 0 <= v < |attrs| => attrs[v].keepable)
  }

  /** The loop `for desc in node.postorder(include_self=True)` of
      graft_from_other: a node other than a tip becomes keepable exactly
      when some tip of its subtree was keepable; tips keep their flag. */
  method Recompute(h: Heap, y: nat)
    requires h.Valid() && y < |h.kids|
    modifies h
    ensures h.Valid() && h.parent == old(h.parent) && h.kids == old(h.kids)
    ensures |h.attrs| == |old(h.attrs)|
    ensures forall v :: 0 <= v < |h.attrs| ==>
      h.attrs[v] == old(h.attrs[v]).(keepable := h.attrs[v].keepable)
    ensures forall v :: 0 <= v < |h.attrs| && v !in Post(h.kids, y) ==> h.attrs[v] == old(h.attrs[v])
    ensures forall v :: 0 <= v < |h.attrs| && v in Post(h.kids, y) ==>
      h.attrs[v].keepable == SomeMarkedTip(h.kids, KeepMarks(old(h.attrs)), Post(h.kids, v))
    ensures forall v :: 0 <= v < |h.attrs| && h.kids[v] == [] ==> h.attrs[v] == old(h.attrs[v])
  {
    var attrs := h.attrs;
    var marks := seq(|attrs|, v requires 0 <= v < |attrs| => Some(attrs[v].keepable));
    assert Unwrap(marks) == KeepMarks(attrs);
    var r := FlagPass(h, y, marks, KeepMarks(attrs));
    if r.Err? {
      assert false;
      return;
    }
    var flags := r.value;
    forall v | 0 <= v < |attrs| && v in Post(h.kids, y)
      ensures flags[v] == SomeMarkedTip(h.kids, KeepMarks(attrs), Post(h.kids, v))
    {
      FlaggedIff(h.kids, KeepMarks(attrs), v);
    }
    h.attrs := seq(|attrs|, v requires 0 <= v < |attrs| => attrs[v].(keepable := flags[v]));
  }

  // ---------------------------------------------------------------------
  // Pruning the copy

  /** `[c for c in s if c not in gone]` */
  function Without(s: seq<nat>, gone: set<nat>): (r: seq<nat>)
    ensures forall x :: x in r <==> x in s && x !in gone
  {
    if s == [] then [] else (if s[0] in gone then [] else [s[0]]) + Without(s[1..], gone)
  }

  lemma {:induction false} WithoutAbsent(s: seq<nat>, gone: set<nat>, c: nat)
    requires c !in s
    ensures Without(s, gone + {c}) == Without(s, gone)
  {
    if s != [] {
      WithoutAbsent(s[1..], gone, c);
    }
  }

  lemma {:induction false} WithoutNone(s: seq<nat>, gone: set<nat>)
    requires forall x :: x in s ==> x !in gone
    ensures Without(s, gone) == s
  {
    if s != [] {
      WithoutNone(s[1..], gone);
    }
  }

  lemma RemoveFirstCons(s: seq<nat>, x: nat)
    requires x in s && s[0] != x
    ensures RemoveFirst(s, x) == [s[0]] + RemoveFirst(s[1..], x)
  {
    var i := IndexOf(s[1..], x);
    assert IndexOf(s, x) == 1 + i;
    assert s[..1 + i] == [s[0]] + s[1..][..i];
    assert s[2 + i..] == s[1..][i + 1..];
  }

  /** Removing one more member from a duplicate-free list is list.remove on
      the filtered list. */
  lemma {:induction false} WithoutRemove(s: seq<nat>, gone: set<nat>, c: nat)
    requires Distinct(s) && c in s && c !in gone
    ensures c in Without(s, gone)
    ensures RemoveFirst(Without(s, gone), c) == Without(s, gone + {c})
  {
    var w := Without(s, gone);
    if s[0] == c {
      assert w == [c] + Without(s[1..], gone);
      assert Without(s, gone + {c}) == Without(s[1..], gone + {c});
      RemoveFirstHead(w);
      forall j | 0 <= j < |s[1..]| ensures s[1..][j] != c {
        assert s[1..][j] == s[j + 1];
      }
      WithoutAbsent(s[1..], gone, c);
    } else {
      assert Distinct(s[1..]) by {
        forall i, j | 0 <= i < j < |s[1..]| ensures s[1..][i] != s[1..][j] {
          assert s[1..][i] == s[i + 1] && s[1..][j] == s[j + 1];
        }
      }
      WithoutRemove(s[1..], gone, c);
      if s[0] !in gone {
        assert w == [s[0]] + Without(s[1..], gone);
        assert Without(s, gone + {c}) == [s[0]] + Without(s[1..], gone + {c});
        RemoveFirstCons(w, c);
      } else {
        assert w == Without(s[1..], gone);
        assert Without(s, gone + {c}) == Without(s[1..], gone + {c});
      }
    }
  }

  /** The non-root nodes of y's subtree that are not keepable. */
  ghost function Pruned(kids: Kids, attrs: seq<Attrs>, y: nat): set<nat>
    requires Ordered(kids) && y < |kids| && |attrs| == |kids|
  {
    set v | v in Post(kids, y) && v < |kids| && v != y && !attrs[v].keepable
  }

  /** Links after pruning the nodes in gone: they lose their parent and
      their parents lose them. */
  ghost predicate PrunedLinks(parent0: Parents, kids0: Kids, parent: Parents, kids: Kids, gone: set<nat>) {
    && |parent| == |parent0| && |kids| == |kids0|
    && (forall v :: 0 <= v < |kids| ==> kids[v] == Without(kids0[v], gone))
    && (forall v :: 0 <= v < |parent| ==> parent[v] == if v in gone then None else parent0[v])
  }

  /** Removing c from the list of its only parent p keeps every list
      equal to the original one filtered by gone + {c}. */
  lemma PruneKidsStep(kids0: Kids, kids: Kids, gone: set<nat>, c: nat, p: nat)
    requires |kids| == |kids0| && p < |kids0| && c !in gone
    requires forall v :: 0 <= v < |kids| ==> kids[v] == Without(kids0[v], gone)
    requires c in kids0[p] && Distinct(kids0[p])
    requires forall v :: 0 <= v < |kids0| && v != p ==> c !in kids0[v]
    ensures c in kids[p]
    ensures forall v :: 0 <= v < |kids| ==>
      kids[p := RemoveFirst(kids[p], c)][v] == Without(kids0[v], gone + {c})
  {
    WithoutRemove(kids0[p], gone, c);
    forall v | 0 <= v < |kids| && v != p ensures kids[v] == Without(kids0[v], gone + {c}) {
      WithoutAbsent(kids0[v], gone, c);
    }
  }

  lemma PruneStep(parent0: Parents, kids0: Kids, parent: Parents, kids: Kids, gone: set<nat>, c: nat)
    requires Linked(parent0, kids0) && PrunedLinks(parent0, kids0, parent, kids, gone)
    requires Linked(parent, kids)
    requires c < |kids0| && c !in gone && parent0[c].Some?
    ensures parent[c].Some?
    ensures PrunedLinks(parent0, kids0, parent[c := None], DetachKids(parent, kids, c), gone + {c})
  {
    var p := parent0[c].value;
    KidOfParentOnly(parent0, kids0, c);
    assert parent[c] == Some(p);
    PruneKidsStep(kids0, kids, gone, c, p);
    var k := DetachKids(parent, kids, c);
    assert k == kids[p := RemoveFirst(kids[p], c)];
    var q := parent[c := None];
    forall v | 0 <= v < |q| ensures q[v] == if v in gone + {c} then None else parent0[v] {
    }
    assert |k| == |kids0| && |q| == |parent0|;
    assert PrunedLinks(parent0, kids0, q, k, gone + {c});
  }

  /** The nodes of order before position i that are not keepable. */
  ghost function Dropped(order: seq<nat>, attrs: seq<Attrs>, i: nat): set<nat>
    requires i <= |order| && forall j :: 0 <= j < |order| ==> order[j] < |attrs|
  {
    set j | 0 <= j < i && !attrs[order[j]].keepable :: order[j]
  }

  lemma DroppedNext(order: seq<nat>, attrs: seq<Attrs>, i: nat)
    requires i < |order| && Distinct(order) && forall j :: 0 <= j < |order| ==> order[j] < |attrs|
    ensures order[i] !in Dropped(order, attrs, i)
    ensures Dropped(order, attrs, i + 1) ==
      Dropped(order, attrs, i) + (if attrs[order[i]].keepable then {} else {order[i]})
  {
  }

  /** All of a subtree's postorder but its root, filtered, is Pruned. */
  lemma DroppedAll(parent: Parents, kids: Kids, attrs: seq<Attrs>, y: nat)
    requires Linked(parent, kids) && y < |kids| && |attrs| == |kids|
    ensures var order := Post(kids, y);
      (forall j :: 0 <= j < |order| ==> order[j] < |attrs|)
      && Dropped(order, attrs, |order| - 1) == Pruned(kids, attrs, y)
  {
    var order := Post(kids, y);
    PostDistinct(parent, kids, y);
    PostRange(kids, y);
    forall j | 0 <= j < |order| ensures order[j] < |attrs| {
      assert order[j] in order;
    }
    assert order[|order| - 1] == y;
    forall v ensures v in Dropped(order, attrs, |order| - 1) <==> v in Pruned(kids, attrs, y) {
      if v in order && v != y {
        var j :| 0 <= j < |order| && order[j] == v;
        assert j < |order| - 1;
      }
    }
  }

  /** The loop `for desc in list(node.postorder(include_self=False))` of
      graft_from_other: every node of y's subtree below y that is not
      keepable is removed from its parent. */
  method Prune(h: Heap, y: nat)
    requires h.Valid() && y < |h.kids|
    modifies h
    ensures h.Valid() && h.attrs == old(h.attrs)
    ensures PrunedLinks(old(h.parent), old(h.kids), h.parent, h.kids, Pruned(old(h.kids), h.attrs, y))
  {
    var kids0, parent0, attrs := h.kids, h.parent, h.attrs;
    var order := Post(kids0, y);
    PostDistinct(parent0, kids0, y);
    DroppedAll(parent0, kids0, attrs, y);
    forall v | 0 <= v < |kids0| ensures Without(kids0[v], {}) == kids0[v] {
      WithoutNone(kids0[v], {});
    }
    assert Dropped(order, attrs, 0) == {};
    for i := 0 to |order| - 1
      invariant h.Valid() && h.attrs == attrs
      invariant PrunedLinks(parent0, kids0, h.parent, h.kids, Dropped(order, attrs, i))
    {
      var c := order[i];
      DroppedNext(order, attrs, i);
      ghost var gone := Dropped(order, attrs, i);
      if !attrs[c].keepable {
        assert c in order && order[|order| - 1] == y;
        PruneNode(h, parent0, kids0, y, gone, c);
        assert gone + {c} == Dropped(order, attrs, i + 1);
      } else {
        assert gone == Dropped(order, attrs, i + 1);
      }
    }
  }

  /** One pruning step: c, not yet removed, leaves its parent. */
  method PruneNode(h: Heap, parent0: Parents, kids0: Kids, y: nat, ghost gone: set<nat>, c: nat)
    requires h.Valid() && Linked(parent0, kids0) && y < |kids0|
    requires PrunedLinks(parent0, kids0, h.parent, h.kids, gone)
    requires c in Post(kids0, y) && c != y && c !in gone
    modifies h
    ensures h.Valid() && h.attrs == old(h.attrs)
    ensures PrunedLinks(parent0, kids0, h.parent, h.kids, gone + {c})
  {
    PostIff(parent0, kids0, y, c);
    PostRange(kids0, y);
    PruneStep(parent0, kids0, h.parent, h.kids, gone, c);
    h.Detach(c);
  }

  // ---------------------------------------------------------------------
  // gtdb_node.extend(node.children)

  /** The children of y move, in order, to the end of g's child list. */
  function MovedKids(kids: Kids, y: nat, g: nat): Kids
    requires y < |kids| && g < |kids|
  {
    kids[g := kids[g] + kids[y]][y := []]
  }

  function MovedParents(parent: Parents, kids: Kids, y: nat, g: nat): (r: Parents)
    requires y < |kids|
    ensures |r| == |parent|
  {
    seq(|parent|, v requires 0 <= v < |parent| => if v in kids[y] then Some(g) else parent[v])
  }

  lemma MoveLinked(parent: Parents, kids: Kids, y: nat, g: nat)
    requires Linked(parent, kids) && g < y < |kids|
    ensures Linked(MovedParents(parent, kids, y, g), MovedKids(kids, y, g))
  {
    var P, K := MovedParents(parent, kids, y, g), MovedKids(kids, y, g);
    forall c | c in kids[y] ensures c !in kids[g] {
      var j :| 0 <= j < |kids[y]| && kids[y][j] == c;
      assert parent[c] == Some(y);
    }
    forall v, i | 0 <= v < |K| && 0 <= i < |K[v]| ensures v < K[v][i] < |K| && P[K[v][i]] == Some(v) {
      if v == g {
        if i >= |kids[g]| {
          assert K[v][i] == kids[y][i - |kids[g]|];
        } else {
          assert K[v][i] == kids[g][i];
        }
      }
    }
    forall c | 0 <= c < |P| && P[c].Some? ensures P[c].value < c && c in K[P[c].value] {
      if c in kids[y] {
        var j :| 0 <= j < |kids[y]| && kids[y][j] == c;
        assert K[g][|kids[g]| + j] == c;
      } else {
        var p := parent[c].value;
        if p == g {
          var j :| 0 <= j < |kids[g]| && kids[g][j] == c;
          assert K[g][j] == c;
        }
      }
    }
    forall v, i, j | 0 <= v < |K| && 0 <= i < j < |K[v]| ensures K[v][i] != K[v][j] {
      if v == g {
        var s := kids[g] + kids[y];
        assert K[v] == s;
        if i < |kids[g]| && j >= |kids[g]| {
          assert s[j] in kids[y];
        }
      }
    }
  }

  /** `gtdb_node.extend(node.children)`: the children of y are adopted by g,
      appended to its children in their order. */
  method MoveChildren(h: Heap, y: nat, g: nat)
    requires h.Valid() && g < y < |h.kids|
    modifies h
    ensures h.Valid() && h.attrs == old(h.attrs)
    ensures h.kids == MovedKids(old(h.kids), y, g)
    ensures h.parent == MovedParents(old(h.parent), old(h.kids), y, g)
  {
    MoveLinked(h.parent, h.kids, y, g);
    h.parent := MovedParents(h.parent, h.kids, y, g);
    h.kids := MovedKids(h.kids, y, g);
  }

  // ---------------------------------------------------------------------
  // One graft: the body of the loop in graft_from_other

  /** The preorder of v depends only on the child lists of v and the
      handles after it. */
  lemma {:induction false} PreAgree(k1: Kids, k2: Kids, v: nat)
    requires Ordered(k1) && Ordered(k2) && |k1| == |k2| && v < |k1|
    requires forall w :: v <= w < |k1| ==> k1[w] == k2[w]
    ensures Pre(k1, v) == Pre(k2, v)
    decreases |k1| - v, 1, 0
  {
    PreKidsAgree(k1, k2, v, |k1[v]|);
  }

  lemma {:induction false} PreKidsAgree(k1: Kids, k2: Kids, v: nat, i: nat)
    requires Ordered(k1) && Ordered(k2) && |k1| == |k2| && v < |k1| && i <= |k1[v]|
    requires forall w :: v <= w < |k1| ==> k1[w] == k2[w]
    ensures PreKids(k1, v, i) == PreKids(k2, v, i)
    decreases |k1| - v, 0, i
  {
    if i > 0 {
      PreKidsAgree(k1, k2, v, i - 1);
      PreAgree(k1, k2, k1[v][i - 1]);
    }
  }

  /** Every copy lies below the copy of the first node. */
  lemma {:induction false} CopiesBelow(parent: Parents, order: seq<nat>, base: nat, k: nat)
    requires |parent| == base && k < |order|
    requires forall m: nat :: m < |order| ==> ParentBefore(parent, order, m)
    ensures Below(parent + CopyParents(parent, order, base), base + k, base)
    decreases k
  {
    var p2 := parent + CopyParents(parent, order, base);
    if k > 0 {
      assert ParentBefore(parent, order, k);
      ParentIndex(parent, order, k);
      var m := IndexOf(order, parent[order[k]].value);
      assert p2[base + k] == Some(base + m);
      CopiesBelow(parent, order, base, m);
    }
  }

  /** Detaching x from its parent leaves the preorder of x as it was. */
  lemma DetachPre(parent: Parents, kids: Kids, x: nat)
    requires Linked(parent, kids) && x < |kids| && parent[x].Some?
    ensures Ordered(DetachKids(parent, kids, x)) && Pre(DetachKids(parent, kids, x), x) == Pre(kids, x)
  {
    DetachLinked(parent, kids, x);
    PreAgree(DetachKids(parent, kids, x), kids, x);
  }

  /** The node that copy k of x's subtree copies: the k-th of its preorder. */
  function Origin(kids: Kids, x: nat, k: nat): (v: nat)
    requires Ordered(kids) && x < |kids| && k < |Pre(kids, x)|
    ensures v < |kids|
  {
    PreSamePost(kids, x);
    PostRange(kids, x);
    assert Pre(kids, x)[k] in Pre(kids, x);
    Pre(kids, x)[k]
  }

  /** Two markings that agree on the tips mark the same subtrees. */
  lemma SameTipMarks(kids: Kids, m1: seq<bool>, m2: seq<bool>, s: seq<nat>)
    requires |m1| == |kids| && |m2| == |kids|
    requires forall t :: 0 <= t < |kids| && kids[t] == [] ==> m1[t] == m2[t]
    ensures SomeMarkedTip(kids, m1, s) <==> SomeMarkedTip(kids, m2, s)
  {
    if SomeMarkedTip(kids, m1, s) {
      var t :| t in s && t < |kids| && kids[t] == [] && m1[t];
      assert m2[t];
    }
    if SomeMarkedTip(kids, m2, s) {
      var t :| t in s && t < |kids| && kids[t] == [] && m2[t];
      assert m1[t];
    }
  }

  /** Every node of v's subtree is keepable exactly when some tip of its
      own subtree is. */
  ghost predicate KeepConsistent(kids: Kids, attrs: seq<Attrs>, v: nat)
    requires Ordered(kids) && v < |kids| && |attrs| == |kids|
  {
    SomeMarkedTip(kids, KeepMarks(attrs), Post(kids, v)) == attrs[v].keepable
  }

  /** The copies of a parent-first order all lie in the subtree of the
      first copy. */
  lemma CopiesInPost(parent: Parents, kids: Kids, order: seq<nat>)
    requires |parent| == |kids| && forall m: nat :: m < |order| ==> ParentBefore(parent, order, m)
    requires Linked(parent + CopyParents(parent, order, |kids|), kids + CopyKids(kids, order, |kids|))
    ensures forall v :: |kids| <= v < |kids| + |order| ==>
      v in Post(kids + CopyKids(kids, order, |kids|), |kids|)
  {
    var y := |kids|;
    var p2, k2 := parent + CopyParents(parent, order, y), kids + CopyKids(kids, order, y);
    forall v | y <= v < y + |order| ensures v in Post(k2, y) {
      CopiesBelow(parent, order, y, v - y);
      PostIff(p2, k2, y, v);
    }
  }

  /** The copies of a parent-first order all have a parent but the first. */
  lemma CopiesAttached(parent: Parents, order: seq<nat>, base: nat)
    requires forall m: nat :: m < |order| ==> ParentBefore(parent, order, m)
    ensures forall k :: 0 < k < |order| ==> CopyParents(parent, order, base)[k].Some?
  {
    forall k | 0 < k < |order| ensures CopyParents(parent, order, base)[k].Some? {
      assert ParentBefore(parent, order, k);
    }
  }

  /** `node = node.copy()` for a detached node x: a copy of x's subtree is
      appended at handle y, the old size of the heap. */
  method CopyForGraft(h: Heap, x: nat) returns (y: nat)
    requires h.Valid() && x < |h.kids| && h.parent[x].None?
    modifies h
    ensures h.Valid() && y == |old(h.kids)| && |h.kids| == y + |Pre(old(h.kids), x)|
    ensures forall v :: 0 <= v < y ==>
      h.parent[v] == old(h.parent[v]) && h.kids[v] == old(h.kids[v]) && h.attrs[v] == old(h.attrs[v])
    ensures h.parent[y].None? && forall v :: y < v < |h.kids| ==> h.parent[v].Some?
    ensures forall v :: y <= v < |h.kids| ==> v in Post(h.kids, y)
    ensures forall k :: 0 <= k < |Pre(old(h.kids), x)| ==> h.attrs[y + k] == old(h.attrs[Origin(h.kids, x, k)])
  {
    var order := Pre(h.kids, x);
    PreClosed(h.parent, h.kids, x);
    ghost var P1, K1 := h.parent, h.kids;
    y := CopySubtree(h, x, order);
    CopiesInPost(P1, K1, order);
    CopiesAttached(P1, order, y);
  }

  /** The loop `for desc in node.postorder(include_self=True)` on the copy
      rooted at y: afterwards each of its nodes is keepable exactly when a
      tip of its own subtree is. */
  method RecomputeCopy(h: Heap, y: nat)
    requires h.Valid() && y < |h.kids|
    requires forall v :: y <= v < |h.kids| ==> v in Post(h.kids, y)
    modifies h
    ensures h.Valid() && h.parent == old(h.parent) && h.kids == old(h.kids)
    ensures |h.attrs| == |old(h.attrs)|
    ensures forall v :: 0 <= v < y ==> h.attrs[v] == old(h.attrs[v])
    ensures forall v :: y <= v < |h.attrs| ==> h.attrs[v] == old(h.attrs[v]).(keepable := h.attrs[v].keepable)
    ensures forall v :: y <= v < |h.kids| ==> KeepConsistent(h.kids, h.attrs, v)
  {
    ghost var A2 := h.attrs;
    PostRange(h.kids, y);
    Recompute(h, y);
    forall v | y <= v < |h.kids| ensures KeepConsistent(h.kids, h.attrs, v) {
      SameTipMarks(h.kids, KeepMarks(A2), KeepMarks(h.attrs), Post(h.kids, v));
    }
  }

  /** The copy's non-root nodes that are not keepable are pruned; the nodes
      before the copy are left alone. */
  method PruneCopy(h: Heap, y: nat)
    requires h.Valid() && y < |h.kids| && h.parent[y].None?
    requires forall v :: y <= v < |h.kids| ==> v in Post(h.kids, y)
    requires forall v :: y < v < |h.kids| ==> h.parent[v].Some?
    modifies h
    ensures h.Valid() && h.attrs == old(h.attrs) && |h.kids| == |old(h.kids)|
    ensures forall v :: 0 <= v < y ==> h.parent[v] == old(h.parent[v]) && h.kids[v] == old(h.kids[v])
    ensures forall v :: y < v < |h.kids| ==> (h.parent[v].Some? <==> h.attrs[v].keepable)
    ensures h.parent[y].None?
  {
    ghost var P2, K2 := h.parent, h.kids;
    PostRange(K2, y);
    Prune(h, y);
    ghost var gone := Pruned(K2, h.attrs, y);
    forall v | 0 <= v < y ensures h.kids[v] == K2[v] {
      forall c | c in K2[v] ensures c !in gone {
        if c in gone {
          PostIff(P2, K2, y, c);
          BelowBound(P2, v, y);
        }
      }
      WithoutNone(K2[v], gone);
    }
  }

  /** The second half: the copy's non-root nodes that are not keepable are
      pruned, and the children the copy's root y keeps are appended to g's
      children. */
  method PruneAndMove(h: Heap, y: nat, g: nat)
    requires h.Valid() && g < y < |h.kids| && h.parent[y].None?
    requires forall v :: y <= v < |h.kids| ==> v in Post(h.kids, y)
    requires forall v :: y < v < |h.kids| ==> h.parent[v].Some?
    modifies h
    ensures h.Valid() && h.attrs == old(h.attrs) && |h.kids| == |old(h.kids)|
    ensures forall v :: 0 <= v < y ==> h.parent[v] == old(h.parent[v])
    ensures forall v :: 0 <= v < y && v != g ==> h.kids[v] == old(h.kids[v])
    ensures old(h.kids[g]) <= h.kids[g]
    ensures forall i :: |old(h.kids[g])| <= i < |h.kids[g]| ==> h.kids[g][i] > y
    ensures forall v :: y < v < |h.kids| ==> (h.parent[v].Some? <==> h.attrs[v].keepable)
    ensures h.parent[y].None? && h.kids[y] == []
  {
    PruneCopy(h, y);
    if h.kids[y] != [] {
      ghost var P3, K3 := h.parent, h.kids;
      assert forall i :: 0 <= i < |K3[y]| ==> K3[y][i] > y;
      MoveChildren(h, y, g);
      assert h.kids[g] == K3[g] + K3[y];
      forall v | 0 <= v < y ensures h.parent[v] == P3[v] {
        assert v !in K3[y];
      }
    }
  }

  /** Copy x's subtree (x detached) to handle B, the old size of the heap,
      recompute keepable on the copy, prune its non-keepable nodes and move
      the children its root keeps to g. */
  method CopyAndTrim(h: Heap, x: nat, g: nat)
    requires h.Valid() && x < |h.kids| && h.parent[x].None? && g < |h.kids|
    modifies h
    ensures h.Valid() && |h.kids| == |old(h.kids)| + |Pre(old(h.kids), x)|
    ensures forall v :: 0 <= v < |old(h.kids)| ==>
      h.attrs[v] == old(h.attrs[v]) && h.parent[v] == old(h.parent[v])
    ensures forall v :: 0 <= v < |old(h.kids)| && v != g ==> h.kids[v] == old(h.kids[v])
    ensures old(h.kids[g]) <= h.kids[g]
    ensures forall i :: |old(h.kids[g])| <= i < |h.kids[g]| ==> h.kids[g][i] > |old(h.kids)|
    ensures CopiesOf(old(h.kids), old(h.attrs), h.attrs, x)
    ensures forall v :: |old(h.kids)| < v < |h.kids| ==> (h.parent[v].Some? <==> h.attrs[v].keepable)
    ensures h.parent[|old(h.kids)|].None? && h.kids[|old(h.kids)|] == []
  {
    ghost var K0, A0 := h.kids, h.attrs;
    var y := CopyForGraft(h, x);
    ghost var A1 := h.attrs;
    RecomputeCopy(h, y);
    CopiesOrigin(K0, A0, A1, h.attrs, x, y);
    ghost var A2 := h.attrs;
    PruneAndMove(h, y, g);
    assert h.attrs == A2;
  }

  /** The body of graft_from_other for a named node x whose lookup entry is
      g: x leaves its tree, a copy of x's subtree is appended at handle B
      (the old size of the heap) with keepable recomputed on it, its
      non-keepable nodes are pruned, and the children its root keeps are
      appended to g's children. */
  method GraftNode(h: Heap, x: nat, g: nat)
    requires h.Valid() && x < |h.kids| && h.parent[x].Some? && g < |h.kids|
    modifies h
    ensures h.Valid() && |h.kids| == |old(h.kids)| + |Pre(old(h.kids), x)|
    // the old nodes: only x, its parent and g change
    ensures forall v :: 0 <= v < |old(h.kids)| ==> h.attrs[v] == old(h.attrs[v])
    ensures forall v :: 0 <= v < |old(h.kids)| ==>
      h.parent[v] == if v == x then None else old(h.parent[v])
    ensures forall v :: 0 <= v < |old(h.kids)| && v != g ==>
      h.kids[v] == DetachKids(old(h.parent), old(h.kids), x)[v]
    ensures DetachKids(old(h.parent), old(h.kids), x)[g] <= h.kids[g]
    ensures forall i :: |DetachKids(old(h.parent), old(h.kids), x)[g]| <= i < |h.kids[g]| ==>
      h.kids[g][i] > |old(h.kids)|
    // the copies: node B + k copies the k-th node of x's preorder; a copy
    // other than the root stays attached exactly when it is keepable; the
    // root is left without children
    ensures CopiesOf(old(h.kids), old(h.attrs), h.attrs, x)
    ensures forall v :: |old(h.kids)| < v < |h.kids| ==> (h.parent[v].Some? <==> h.attrs[v].keepable)
    ensures h.parent[|old(h.kids)|].None? && h.kids[|old(h.kids)|] == []
  {
    ghost var K0, A0 := h.kids, h.attrs;
    DetachPre(h.parent, h.kids, x);
    h.Detach(x);
    ghost var Kd := h.kids;
    CopyAndTrim(h, x, g);
    CopiesOfSamePre(K0, Kd, A0, h.attrs, x);
  }

  /** Node |K0| + k of A carries the attributes of the k-th node of x's
      preorder in K0, A0, except possibly keepable. */
  ghost predicate CopiesOf(K0: Kids, A0: seq<Attrs>, A: seq<Attrs>, x: nat)
    requires Ordered(K0) && x < |K0| == |A0| && |K0| + |Pre(K0, x)| <= |A|
  {
    forall k :: 0 <= k < |Pre(K0, x)| ==>
      A[|K0| + k] == A0[Origin(K0, x, k)].(keepable := A[|K0| + k].keepable)
  }

  /** The copies keep their origins' attributes through recomputing keepable. */
  lemma CopiesOrigin(K0: Kids, A0: seq<Attrs>, A1: seq<Attrs>, A2: seq<Attrs>, x: nat, y: nat)
    requires Ordered(K0) && x < |K0| && y == |K0| == |A0|
    requires |A1| == |A2| == y + |Pre(K0, x)|
    requires forall k :: 0 <= k < |Pre(K0, x)| ==> A1[y + k] == A0[Origin(K0, x, k)]
    requires forall v :: y <= v < |A2| ==> A2[v] == A1[v].(keepable := A2[v].keepable)
    ensures CopiesOf(K0, A0, A2, x)
  {
    forall k | 0 <= k < |Pre(K0, x)|
      ensures A2[y + k] == A0[Origin(K0, x, k)].(keepable := A2[y + k].keepable)
    {
      assert A2[y + k] == A1[y + k].(keepable := A2[y + k].keepable);
    }
  }

  /** Detaching x leaves its preorder, and so what its copies copy, alone. */
  lemma CopiesOfSamePre(K0: Kids, Kd: Kids, A0: seq<Attrs>, A: seq<Attrs>, x: nat)
    requires Ordered(K0) && Ordered(Kd) && x < |K0| == |Kd| == |A0| && Pre(Kd, x) == Pre(K0, x)
    requires |K0| + |Pre(K0, x)| <= |A|
    requires CopiesOf(Kd, A0, A, x)
    ensures CopiesOf(K0, A0, A, x)
  {
    forall k | 0 <= k < |Pre(K0, x)|
      ensures A[|K0| + k] == A0[Origin(K0, x, k)].(keepable := A[|K0| + k].keepable)
    {
      assert Origin(Kd, x, k) == Origin(K0, x, k);
    }
  }

  // ---------------------------------------------------------------------
  // graft_from_other

  /** `node.name in lookup` */
  predicate Named(a: Attrs, lookup: map<string, nat>) {
    a.name.Some? && a.name.value in lookup
  }

  /** Whether the loop of graft_from_other grafts x: x is named in the
      lookup and is not a tip when the loop reaches it, that is, some child
      of x was not itself grafted before it. */
  ghost predicate Matched(kids: Kids, attrs: seq<Attrs>, lookup: map<string, nat>, x: nat)
    requires Ordered(kids) && |attrs| == |kids| && x < |kids|
    decreases |kids| - x
  {
    Named(attrs[x], lookup) && exists i :: 0 <= i < |kids[x]| && !Matched(kids, attrs, lookup, kids[x][i])
  }

  /** The nodes below `other` that graft_from_other grafts. */
  ghost function GraftedIn(kids: Kids, attrs: seq<Attrs>, lookup: map<string, nat>, other: nat): set<nat>
    requires Ordered(kids) && |attrs| == |kids| && other < |kids|
  {
    set v | v in Post(kids, other) && v < |kids| && v != other && Matched(kids, attrs, lookup, v)
  }

  /** The nodes grafted among the first i of the order. */
  ghost function Grafted(order: seq<nat>, kids: Kids, attrs: seq<Attrs>, lookup: map<string, nat>, i: nat): set<nat>
    requires Ordered(kids) && |attrs| == |kids| && i <= |order|
    requires forall j :: 0 <= j < |order| ==> order[j] < |kids|
  {
    set j | 0 <= j < i && Matched(kids, attrs, lookup, order[j]) :: order[j]
  }

  lemma GraftedNext(order: seq<nat>, kids: Kids, attrs: seq<Attrs>, lookup: map<string, nat>, i: nat)
    requires Ordered(kids) && |attrs| == |kids| && i < |order| && Distinct(order)
    requires forall j :: 0 <= j < |order| ==> order[j] < |kids|
    ensures order[i] !in Grafted(order, kids, attrs, lookup, i)
    ensures Grafted(order, kids, attrs, lookup, i + 1) == Grafted(order, kids, attrs, lookup, i) +
      (if Matched(kids, attrs, lookup, order[i]) then {order[i]} else {})
  {
  }

  lemma GraftedAll(parent: Parents, kids: Kids, attrs: seq<Attrs>, lookup: map<string, nat>, other: nat)
    requires Linked(parent, kids) && other < |kids| && |attrs| == |kids|
    ensures var order := Post(kids, other);
      (forall j :: 0 <= j < |order| ==> order[j] < |kids|)
      && Grafted(order, kids, attrs, lookup, |order| - 1) == GraftedIn(kids, attrs, lookup, other)
  {
    var order := Post(kids, other);
    PostDistinct(parent, kids, other);
    PostRange(kids, other);
    forall j | 0 <= j < |order| ensures order[j] < |kids| {
      assert order[j] in order;
    }
    assert order[|order| - 1] == other;
    forall v ensures v in Grafted(order, kids, attrs, lookup, |order| - 1) <==> v in GraftedIn(kids, attrs, lookup, other) {
      if v in order && v != other {
        var j :| 0 <= j < |order| && order[j] == v;
        assert j < |order| - 1;
      }
    }
  }

  /** At its turn in a postorder, a node is a tip exactly when each of its
      children was grafted. */
  lemma TipAtVisit(kids: Kids, attrs: seq<Attrs>, lookup: map<string, nat>, order: seq<nat>, i: nat)
    requires Ordered(kids) && |attrs| == |kids| && i < |order| && Distinct(order)
    requires forall j :: 0 <= j < |order| ==> order[j] < |kids|
    requires ChildrenFirst(kids, order)
    ensures Without(kids[order[i]], Grafted(order, kids, attrs, lookup, i)) == [] <==>
      forall j :: 0 <= j < |kids[order[i]]| ==> Matched(kids, attrs, lookup, kids[order[i]][j])
  {
    var x, gone := order[i], Grafted(order, kids, attrs, lookup, i);
    forall j | 0 <= j < |kids[x]| ensures kids[x][j] in gone <==> Matched(kids, attrs, lookup, kids[x][j]) {
      var c := kids[x][j];
      assert c in order[..i];
      var t :| 0 <= t < i && order[t] == c;
    }
    if Without(kids[x], gone) == [] {
      forall j | 0 <= j < |kids[x]| ensures kids[x][j] in gone {
        assert kids[x][j] !in Without(kids[x], gone);
      }
    } else {
      var c := Without(kids[x], gone)[0];
      assert c in kids[x] && c !in gone;
    }
  }

  /** The child list kv of an old node whose original list was k0, after
      the nodes in gone were grafted: the filtered original list, followed,
      for a lookup target, by adopted nodes created after the first B0. */
  ghost predicate KidsAt(k0: seq<nat>, gone: set<nat>, target: bool, B0: nat, kv: seq<nat>) {
    && Without(k0, gone) <= kv
    && (!target ==> kv == Without(k0, gone))
    && forall i :: |Without(k0, gone)| <= i < |kv| ==> kv[i] >= B0
  }

  /** The state of the heap while graft_from_other runs, after the nodes in
      gone were grafted: old nodes keep their attributes; the grafted ones
      lost their parent and their parents lost them; lookup targets adopted
      new nodes; and every attached new node is keepable. */
  ghost predicate GraftInv(P0: Parents, K0: Kids, A0: seq<Attrs>, lookup: map<string, nat>, gone: set<nat>,
                           parent: Parents, kids: Kids, attrs: seq<Attrs>)
  {
    && |P0| == |K0| == |A0| <= |kids| && |parent| == |kids| == |attrs|
    && (forall v :: 0 <= v < |K0| ==> attrs[v] == A0[v])
    && (forall v :: 0 <= v < |K0| ==> parent[v] == if v in gone then None else P0[v])
    && (forall v :: 0 <= v < |K0| ==> KidsAt(K0[v], gone, v in lookup.Values, |K0|, kids[v]))
    && (forall v :: |K0| <= v < |kids| && parent[v].Some? ==> attrs[v].keepable)
  }

  /** The parent of a grafted node drops it from its list. */
  lemma KidsAtRemove(k0: seq<nat>, gone: set<nat>, B0: nat, kv: seq<nat>, x: nat)
    requires KidsAt(k0, gone, false, B0, kv) && Distinct(k0) && x in k0 && x !in gone
    ensures KidsAt(k0, gone + {x}, false, B0, RemoveFirst(kv, x))
  {
    WithoutRemove(k0, gone, x);
  }

  /** Other lists are not affected by grafting x. */
  lemma KidsAtAbsent(k0: seq<nat>, gone: set<nat>, target: bool, B0: nat, kv: seq<nat>, x: nat)
    requires KidsAt(k0, gone, target, B0, kv) && x !in k0
    ensures KidsAt(k0, gone + {x}, target, B0, kv)
  {
    WithoutAbsent(k0, gone, x);
  }

  /** A lookup target may adopt further new nodes. */
  lemma KidsAtExtend(k0: seq<nat>, gone: set<nat>, B0: nat, kv: seq<nat>, kv': seq<nat>)
    requires KidsAt(k0, gone, true, B0, kv) && kv <= kv'
    requires forall i :: |kv| <= i < |kv'| ==> kv'[i] >= B0
    ensures KidsAt(k0, gone, true, B0, kv')
  {
    var w := Without(k0, gone);
    assert kv'[..|w|] == kv[..|w|];
    forall i | |w| <= i < |kv'| ensures kv'[i] >= B0 {
      if i < |kv| {
        assert kv'[i] == kv[i];
      }
    }
  }

  /** A node appears, once, in its parent's child list and in no other. */
  lemma KidOfParentOnly(parent: Parents, kids: Kids, x: nat)
    requires Linked(parent, kids) && x < |kids| && parent[x].Some?
    ensures x in kids[parent[x].value] && Distinct(kids[parent[x].value])
    ensures forall v :: 0 <= v < |kids| && v != parent[x].value ==> x !in kids[v]
  {
    var p := parent[x].value;
    forall i, j | 0 <= i < j < |kids[p]| ensures kids[p][i] != kids[p][j] {
    }
    forall v | 0 <= v < |kids| && v != p ensures x !in kids[v] {
      forall i | 0 <= i < |kids[v]| ensures kids[v][i] != x {
      }
    }
  }

  /** The child lists of the old nodes after one GraftNode(x, g): x's
      parent p drops x, the target g adopts new nodes, the rest stay. */
  lemma GraftKidsStep(K0: Kids, lookup: map<string, nat>, gone: set<nat>, kids: Kids, kids': Kids,
                      x: nat, p: nat, g: nat)
    requires |K0| <= |kids| <= |kids'|
    requires forall v :: 0 <= v < |K0| ==> KidsAt(K0[v], gone, v in lookup.Values, |K0|, kids[v])
    requires p < |K0| && p !in lookup.Values && x in K0[p] && Distinct(K0[p]) && x !in gone
    requires forall v :: 0 <= v < |K0| && v != p ==> x !in K0[v]
    requires x in kids[p]
    requires g in lookup.Values && g < |K0|
    requires kids'[p] == RemoveFirst(kids[p], x)
    requires forall v :: 0 <= v < |kids| && v != g && v != p ==> kids'[v] == kids[v]
    requires kids[g] <= kids'[g] && forall i :: |kids[g]| <= i < |kids'[g]| ==> kids'[g][i] > |kids|
    ensures forall v :: 0 <= v < |K0| ==> KidsAt(K0[v], gone + {x}, v in lookup.Values, |K0|, kids'[v])
  {
    var B0 := |K0|;
    forall v | 0 <= v < B0 ensures KidsAt(K0[v], gone + {x}, v in lookup.Values, B0, kids'[v]) {
      assert KidsAt(K0[v], gone, v in lookup.Values, B0, kids[v]);
      if v == p {
        KidsAtRemove(K0[p], gone, B0, kids[p], x);
      } else {
        KidsAtAbsent(K0[v], gone, v in lookup.Values, B0, kids[v], x);
        if v == g {
          KidsAtExtend(K0[v], gone + {x}, B0, kids[v], kids'[v]);
        }
      }
    }
  }

  /** The parent links of the old nodes after one GraftNode(x, g). */
  lemma GraftParentsStep(P0: Parents, gone: set<nat>, parent: Parents, parent': Parents, x: nat)
    requires |P0| <= |parent| <= |parent'|
    requires forall v :: 0 <= v < |P0| ==> parent[v] == if v in gone then None else P0[v]
    requires forall v :: 0 <= v < |parent| ==> parent'[v] == if v == x then None else parent[v]
    ensures forall v :: 0 <= v < |P0| ==> parent'[v] == if v in gone + {x} then None else P0[v]
  {
  }

  /** The new nodes after one GraftNode(x, g): those attached are keepable. */
  lemma GraftNewStep(B0: nat, parent: Parents, attrs: seq<Attrs>, parent': Parents, attrs': seq<Attrs>)
    requires B0 <= |parent| == |attrs| < |parent'| == |attrs'|
    requires forall v :: B0 <= v < |parent| && parent[v].Some? ==> attrs[v].keepable
    requires forall v :: 0 <= v < |parent| ==> attrs'[v] == attrs[v]
    requires forall v :: B0 <= v < |parent| ==> parent'[v] == parent[v]
    requires forall v :: |parent| < v < |parent'| ==> (parent'[v].Some? <==> attrs'[v].keepable)
    requires parent'[|parent|].None?
    ensures forall v :: B0 <= v < |parent'| && parent'[v].Some? ==> attrs'[v].keepable
  {
    forall v | B0 <= v < |parent'| && parent'[v].Some? ensures attrs'[v].keepable {
      if v < |parent| {
        assert parent'[v] == parent[v] && attrs'[v] == attrs[v];
      }
    }
  }

  /** The invariant survives one GraftNode(x, g), for x attached and not yet
      grafted, whose parent p is no lookup target; the requirements after
      GraftInv are what GraftNode promises. */
  lemma GraftInvStep(P0: Parents, K0: Kids, A0: seq<Attrs>, lookup: map<string, nat>, gone: set<nat>,
                     parent: Parents, kids: Kids, attrs: seq<Attrs>,
                     parent': Parents, kids': Kids, attrs': seq<Attrs>, x: nat, p: nat, g: nat)
    requires GraftInv(P0, K0, A0, lookup, gone, parent, kids, attrs)
    requires x < |K0| && p < |K0| && P0[x] == Some(p) && x !in gone && p !in lookup.Values
    requires x in K0[p] && Distinct(K0[p]) && forall v :: 0 <= v < |K0| && v != p ==> x !in K0[v]
    requires g in lookup.Values && g < |K0|
    requires Linked(parent, kids)
    requires |kids'| > |kids| && |parent'| == |kids'| && |attrs'| == |kids'|
    requires forall v :: 0 <= v < |kids| ==> attrs'[v] == attrs[v]
    requires forall v :: 0 <= v < |kids| ==> parent'[v] == if v == x then None else parent[v]
    requires forall v :: 0 <= v < |kids| && v != g ==> kids'[v] == DetachKids(parent, kids, x)[v]
    requires DetachKids(parent, kids, x)[g] <= kids'[g]
    requires forall i :: |DetachKids(parent, kids, x)[g]| <= i < |kids'[g]| ==> kids'[g][i] > |kids|
    requires forall v :: |kids| < v < |kids'| ==> (parent'[v].Some? <==> attrs'[v].keepable)
    requires parent'[|kids|].None?
    ensures GraftInv(P0, K0, A0, lookup, gone + {x}, parent', kids', attrs')
  {
    assert parent[x] == Some(p);
    assert KidsAt(K0[p], gone, false, |K0|, kids[p]);
    var d := DetachKids(parent, kids, x);
    assert d == kids[p := RemoveFirst(kids[p], x)];
    assert p != g;
    GraftKidsStep(K0, lookup, gone, kids, kids', x, p, g);
    GraftParentsStep(P0, gone, parent, parent', x);
    GraftNewStep(|K0|, parent, attrs, parent', attrs');
  }

  /** What the loop knows at position i of other's postorder: x = order[i]
      is neither other nor grafted yet, hangs below its original parent,
      which lies in other's tree, and is grafted exactly when it is named
      and still has children. */
  lemma VisitFacts(P0: Parents, K0: Kids, A0: seq<Attrs>, lookup: map<string, nat>, other: nat, i: nat)
    requires Linked(P0, K0) && other < |K0| && |A0| == |K0|
    requires i < |Post(K0, other)| - 1
    requires forall j :: 0 <= j < |Post(K0, other)| ==> Post(K0, other)[j] < |K0|
    ensures var order, x := Post(K0, other), Post(K0, other)[i];
      var gone := Grafted(order, K0, A0, lookup, i);
      && x !in gone && P0[x].Some? && P0[x].value in order && x in order
      && (Matched(K0, A0, lookup, x) <==> Named(A0[x], lookup) && Without(K0[x], gone) != [])
      && Grafted(order, K0, A0, lookup, i + 1) == gone + (if Matched(K0, A0, lookup, x) then {x} else {})
  {
    var order := Post(K0, other);
    var x := order[i];
    PostDistinct(P0, K0, other);
    PostRange(K0, other);
    PostChildrenFirst(K0, other);
    GraftedNext(order, K0, A0, lookup, i);
    TipAtVisit(K0, A0, lookup, order, i);
    assert x in order;
    assert x != other by {
      assert order[|order| - 1] == other;
    }
    PostIff(P0, K0, other, x);
    PostIff(P0, K0, other, P0[x].value);
  }

  /** The invariant holds before the loop. */
  lemma GraftInvInit(P0: Parents, K0: Kids, A0: seq<Attrs>, lookup: map<string, nat>)
    requires |P0| == |K0| == |A0|
    ensures GraftInv(P0, K0, A0, lookup, {}, P0, K0, A0)
  {
    forall v | 0 <= v < |K0| ensures KidsAt(K0[v], {}, v in lookup.Values, |K0|, K0[v]) {
      WithoutNone(K0[v], {});
    }
  }

  /** After the loop, with every node of other's tree visited. */
  lemma GraftInvDone(P0: Parents, K0: Kids, A0: seq<Attrs>, lookup: map<string, nat>, other: nat,
                     parent: Parents, kids: Kids, attrs: seq<Attrs>)
    requires Linked(P0, K0) && other < |K0| && |A0| == |K0|
    requires forall g :: g in lookup.Values ==> g < |K0| && g !in Post(K0, other)
    requires GraftInv(P0, K0, A0, lookup, GraftedIn(K0, A0, lookup, other), parent, kids, attrs)
    ensures forall g :: g in lookup.Values ==> K0[g] <= kids[g]
    ensures forall g, i :: g in lookup.Values && |K0[g]| <= i < |kids[g]| ==> kids[g][i] >= |K0|
  {
    var gone := GraftedIn(K0, A0, lookup, other);
    forall g | g in lookup.Values ensures K0[g] <= kids[g] && forall i :: |K0[g]| <= i < |kids[g]| ==> kids[g][i] >= |K0| {
      forall c | c in K0[g] ensures c !in gone {
        if c in gone {
          PostIff(P0, K0, other, c);
          PostIff(P0, K0, other, g);
        }
      }
      WithoutNone(K0[g], gone);
      assert KidsAt(K0[g], gone, true, |K0|, kids[g]);
    }
  }

  /** The grafting branch of one turn: x, attached, not yet grafted, and
      with its parent outside the lookup targets, is grafted under g. */
  method GraftAt(h: Heap, ghost P0: Parents, ghost K0: Kids, ghost A0: seq<Attrs>, lookup: map<string, nat>,
                 ghost gone: set<nat>, x: nat, g: nat)
    requires h.Valid() && Linked(P0, K0) && GraftInv(P0, K0, A0, lookup, gone, h.parent, h.kids, h.attrs)
    requires x < |K0| && x !in gone && P0[x].Some? && x !in lookup.Values && P0[x].value !in lookup.Values
    requires g in lookup.Values && g < |K0|
    modifies h
    ensures h.Valid() && GraftInv(P0, K0, A0, lookup, gone + {x}, h.parent, h.kids, h.attrs)
  {
    ghost var p := P0[x].value;
    ghost var parent, kids, attrs := h.parent, h.kids, h.attrs;
    KidOfParentOnly(P0, K0, x);
    GraftNode(h, x, g);
    GraftInvStep(P0, K0, A0, lookup, gone, parent, kids, attrs, h.parent, h.kids, h.attrs, x, p, g);
  }

  /** One turn of the loop of graft_from_other, at position i of the
      postorder of other: a tip is skipped; a node named in the lookup is
      grafted under its entry. */
  method GraftVisit(h: Heap, ghost P0: Parents, ghost K0: Kids, ghost A0: seq<Attrs>, lookup: map<string, nat>,
                    other: nat, order: seq<nat>, i: nat)
    requires h.Valid() && Linked(P0, K0) && other < |K0| && |A0| == |K0|
    requires order == Post(K0, other) && i < |order| - 1
    requires forall j :: 0 <= j < |order| ==> order[j] < |K0|
    requires forall g :: g in lookup.Values ==> g < |K0| && g !in order
    requires GraftInv(P0, K0, A0, lookup, Grafted(order, K0, A0, lookup, i), h.parent, h.kids, h.attrs)
    modifies h
    ensures h.Valid()
    ensures GraftInv(P0, K0, A0, lookup, Grafted(order, K0, A0, lookup, i + 1), h.parent, h.kids, h.attrs)
  {
    var x := order[i];
    ghost var gone := Grafted(order, K0, A0, lookup, i);
    VisitFacts(P0, K0, A0, lookup, other, i);
    ghost var p := P0[x].value;
    assert x !in lookup.Values && p !in lookup.Values;
    assert KidsAt(K0[x], gone, false, |K0|, h.kids[x]);
    assert h.attrs[x] == A0[x];
    if h.kids[x] == [] {
      assert Grafted(order, K0, A0, lookup, i + 1) == gone;
    } else if h.attrs[x].name.Some? && h.attrs[x].name.value in lookup {
      assert Grafted(order, K0, A0, lookup, i + 1) == gone + {x};
      var g := lookup[h.attrs[x].name.value];
      GraftAt(h, P0, K0, A0, lookup, gone, x, g);
    } else {
      assert Grafted(order, K0, A0, lookup, i + 1) == gone;
    }
  }

  /** `graft_from_other(other, lookup)`: in postorder, each node below
      other that is not a tip and whose name is in the lookup leaves the
      tree, and the keepable part of a copy of its subtree is appended to
      the children of its lookup entry. The entries lie outside other's
      tree. */
  method GraftFromOther(h: Heap, other: nat, lookup: map<string, nat>)
    requires h.Valid() && other < |h.kids|
    requires forall g :: g in lookup.Values ==> g < |h.kids| && g !in Post(h.kids, other)
    modifies h
    ensures h.Valid() && |h.kids| >= |old(h.kids)|
    ensures forall v :: 0 <= v < |old(h.kids)| ==> h.attrs[v] == old(h.attrs[v])
    ensures forall v :: 0 <= v < |old(h.kids)| ==>
      h.parent[v] == if v in GraftedIn(old(h.kids), old(h.attrs), lookup, other) then None else old(h.parent[v])
    ensures forall v :: 0 <= v < |old(h.kids)| && v !in lookup.Values ==>
      h.kids[v] == Without(old(h.kids[v]), GraftedIn(old(h.kids), old(h.attrs), lookup, other))
    ensures forall g :: g in lookup.Values ==> old(h.kids[g]) <= h.kids[g]
    ensures forall g, i :: g in lookup.Values && |old(h.kids[g])| <= i < |h.kids[g]| ==> h.kids[g][i] >= |old(h.kids)|
    ensures forall v :: |old(h.kids)| <= v < |h.kids| && h.parent[v].Some? ==> h.attrs[v].keepable
  {
    ghost var P0, K0, A0 := h.parent, h.kids, h.attrs;
    var order := Post(h.kids, other);
    GraftedAll(P0, K0, A0, lookup, other);
    GraftInvInit(P0, K0, A0, lookup);
    assert Grafted(order, K0, A0, lookup, 0) == {};
    for i := 0 to |order| - 1
      invariant h.Valid()
      invariant GraftInv(P0, K0, A0, lookup, Grafted(order, K0, A0, lookup, i), h.parent, h.kids, h.attrs)
    {
      GraftVisit(h, P0, K0, A0, lookup, other, order, i);
    }
    GraftInvDone(P0, K0, A0, lookup, other, h.parent, h.kids, h.attrs);
    forall v | 0 <= v < |K0| && v !in lookup.Values
      ensures h.kids[v] == Without(K0[v], GraftedIn(K0, A0, lookup, other))
    {
      assert KidsAt(K0[v], GraftedIn(K0, A0, lookup, other), false, |K0|, h.kids[v]);
    }
  }
}
