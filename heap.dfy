/** The skbio TreeNode objects that the tree code edits in place, kept in one
    heap: a node is a handle into the heap, its links are described by the
    values of module Forest and its other attributes by an `Attrs` record.
    Detached nodes stay in the heap, as detached Python objects stay alive. */
module TreeHeap {
  import opened Wrappers
  import opened Forest

  /** The per-node attributes the tree code reads or sets. `rank` is the
      `Rank` attribute of an LTP consensus tree (-1 on the bridge root). */
  datatype Attrs = Attrs(
    name: Option<string>,
    rank: int,
    keepable: bool,
    speciesCover: bool,
    genomeCover: bool,
    lineage: seq<string>)

  /** The position of the first occurrence of x in s. */
  function IndexOf(s: seq<nat>, x: nat): (i: nat)
    requires x in s
    ensures i < |s| && s[i] == x && x !in s[..i]
  {
    if s[0] == x then 0 else 1 + IndexOf(s[1..], x)
  }

  /** `list.remove(x)`: drops the first occurrence of x. */
  function RemoveFirst(s: seq<nat>, x: nat): (r: seq<nat>)
    requires x in s
  {
    var i := IndexOf(s, x);
    s[..i] + s[i + 1..]
  }

  /** In a list without repeats, removing x keeps exactly the other
      elements, still without repeats. */
  lemma RemoveFirstDistinct(s: seq<nat>, x: nat)
    requires x in s && Distinct(s)
    ensures Distinct(RemoveFirst(s, x))
    ensures forall y :: y in RemoveFirst(s, x) <==> y in s && y != x
  {
    var i := IndexOf(s, x);
    var r := RemoveFirst(s, x);
    assert r == s[..i] + s[i + 1..];
    forall y ensures y in r <==> y in s && y != x {
      if y in s && y != x {
        var k :| 0 <= k < |s| && s[k] == y;
        if k < i { assert r[k] == y; } else { assert k > i; assert r[k - 1] == y; }
      }
    }
    forall a, b | 0 <= a < b < |r| ensures r[a] != r[b] {
      var a' := if a < i then a else a + 1;
      var b' := if b < i then b else b + 1;
      assert r[a] == s[a'] && r[b] == s[b'] && a' < b';
    }
  }

  /** The first element of a list is the one `remove` drops. */
  lemma RemoveFirstHead(s: seq<nat>)
    requires |s| > 0
    ensures RemoveFirst(s, s[0]) == s[1..]
  {
  }

  // ---------------------------------------------------------------------
  // `node.parent.remove(node)` on the link values

  /** The child lists after c leaves its parent. */
  function DetachKids(parent: Parents, kids: Kids, c: nat): Kids
    requires Linked(parent, kids) && c < |parent| && parent[c].Some?
  {
    var p := parent[c].value;
    kids[p := RemoveFirst(kids[p], c)]
  }

  /** Detaching a node keeps the links consistent. */
  lemma DetachLinked(parent: Parents, kids: Kids, c: nat)
    requires Linked(parent, kids) && c < |parent| && parent[c].Some?
    ensures Linked(parent[c := None], DetachKids(parent, kids, c))
    ensures var k := DetachKids(parent, kids, c);
      forall v :: 0 <= v < |kids| && v != parent[c].value ==> k[v] == kids[v]
  {
    var p := parent[c].value;
    var parent', kids' := parent[c := None], DetachKids(parent, kids, c);
    assert Distinct(kids[p]) by {
      forall a, b | 0 <= a < b < |kids[p]| ensures kids[p][a] != kids[p][b] { }
    }
    RemoveFirstDistinct(kids[p], c);
    forall v, i | 0 <= v < |kids'| && 0 <= i < |kids'[v]|
      ensures v < kids'[v][i] < |kids'| && parent'[kids'[v][i]] == Some(v)
    {
      if v == p {
        assert kids'[v][i] in kids[p];
      } else {
        assert kids[v][i] != c;
      }
    }
    forall y | 0 <= y < |parent'| && parent'[y].Some?
      ensures parent'[y].value < y && y in kids'[parent'[y].value]
    {
    }
    forall v, i, j | 0 <= v < |kids'| && 0 <= i < j < |kids'[v]| ensures kids'[v][i] != kids'[v][j] {
    }
    assert |parent'| == |kids'| && Ordered(kids');
    assert Linked(parent', kids');
  }

  /** After c is detached, u still lies below r exactly when it did before
      and the path from u up to r did not run through c (strictly below r). */
  lemma {:induction false} DetachBelow(parent: Parents, c: nat, u: nat, r: nat)
    requires c < |parent| && parent[c].Some?
    ensures Below(parent[c := None], u, r) <==>
      Below(parent, u, r) && !(Below(parent, u, c) && c != r && Below(parent, c, r))
    decreases u
  {
    var parent' := parent[c := None];
    if u >= |parent| || u == r {
      if u == r && u < |parent| && Below(parent, u, c) && Below(parent, c, r) {
        BelowBound(parent, u, c);
        BelowBound(parent, c, r);
      }
    } else if u == c {
    } else if parent[u].Some? && parent[u].value < u {
      DetachBelow(parent, c, parent[u].value, r);
    }
  }

  /** The next node of a children-first order without repeats is not yet
      done, and its children are. */
  lemma NextInPostorder(kids: Kids, order: seq<nat>, i: nat, done: set<nat>)
    requires ChildrenFirst(kids, order) && Distinct(order) && i < |order|
    requires done == set j | 0 <= j < i :: order[j]
    ensures order[i] < |kids| && order[i] !in done
    ensures forall c :: c in kids[order[i]] ==> c in done
    ensures done + {order[i]} == set j | 0 <= j < i + 1 :: order[j]
  {
    forall c | c in kids[order[i]] ensures c in done {
      assert c in order[..i];
      var j :| 0 <= j < i && order[..i][j] == c;
      assert order[j] == c;
    }
  }

  // ---------------------------------------------------------------------
  // Bottom-up flags: `species_cover`, `genome_represented` and the
  // `keepable` pass of `graft_from_other`

  /** A tip is flagged by its own mark; any other node is flagged when at
      least one of its children is. */
  function Flagged(kids: Kids, mark: seq<bool>, v: nat): bool
    requires Ordered(kids) && |mark| == |kids| && v < |kids|
    decreases |kids| - v, 1, 0
  {
    if kids[v] == [] then mark[v] else AnyFlagged(kids, mark, v, |kids[v]|)
  }

  /** Some of the first i children of v is flagged. */
  function AnyFlagged(kids: Kids, mark: seq<bool>, v: nat, i: nat): bool
    requires Ordered(kids) && |mark| == |kids| && v < |kids| && i <= |kids[v]|
    decreases |kids| - v, 0, i
  {
    i > 0 && (AnyFlagged(kids, mark, v, i - 1) || Flagged(kids, mark, kids[v][i - 1]))
  }

  /** Some tip listed in s carries a mark. */
  ghost predicate SomeMarkedTip(kids: Kids, mark: seq<bool>, s: seq<nat>)
    requires |mark| == |kids|
  {
    exists t :: t in s && t < |kids| && kids[t] == [] && mark[t]
  }

  lemma SomeMarkedTipConcat(kids: Kids, mark: seq<bool>, a: seq<nat>, b: seq<nat>)
    requires |mark| == |kids|
    ensures SomeMarkedTip(kids, mark, a + b) <==> SomeMarkedTip(kids, mark, a) || SomeMarkedTip(kids, mark, b)
  {
    if SomeMarkedTip(kids, mark, a + b) {
      var t :| t in a + b && t < |kids| && kids[t] == [] && mark[t];
    }
    if SomeMarkedTip(kids, mark, a) {
      var t :| t in a && t < |kids| && kids[t] == [] && mark[t];
      assert t in a + b;
    }
    if SomeMarkedTip(kids, mark, b) {
      var t :| t in b && t < |kids| && kids[t] == [] && mark[t];
      assert t in a + b;
    }
  }

  /** A node is flagged exactly when some tip of its subtree is marked. */
  lemma {:induction false} FlaggedIff(kids: Kids, mark: seq<bool>, v: nat)
    requires Ordered(kids) && |mark| == |kids| && v < |kids|
    ensures Flagged(kids, mark, v) <==> SomeMarkedTip(kids, mark, Post(kids, v))
    decreases |kids| - v, 1, 0
  {
    SomeMarkedTipConcat(kids, mark, PostKids(kids, v, |kids[v]|), [v]);
    if kids[v] == [] {
      assert PostKids(kids, v, 0) == [];
    } else {
      AnyFlaggedIff(kids, mark, v, |kids[v]|);
    }
  }

  lemma {:induction false} AnyFlaggedIff(kids: Kids, mark: seq<bool>, v: nat, i: nat)
    requires Ordered(kids) && |mark| == |kids| && v < |kids| && i <= |kids[v]|
    ensures AnyFlagged(kids, mark, v, i) <==> SomeMarkedTip(kids, mark, PostKids(kids, v, i))
    decreases |kids| - v, 0, i
  {
    if i > 0 {
      AnyFlaggedIff(kids, mark, v, i - 1);
      FlaggedIff(kids, mark, kids[v][i - 1]);
      SomeMarkedTipConcat(kids, mark, PostKids(kids, v, i - 1), Post(kids, kids[v][i - 1]));
    }
  }

  /** Every tip listed in s has a mark (a name the test can read). */
  ghost predicate TipsMarked(kids: Kids, mark: seq<Option<bool>>, s: seq<nat>)
    requires |mark| == |kids|
  {
    forall t :: t in s && t < |kids| && kids[t] == [] ==> mark[t].Some?
  }

  function Unwrap(mark: seq<Option<bool>>): (m: seq<bool>)
    ensures |m| == |mark|
  {
    seq(|mark|, v requires 0 <= v < |mark| => mark[v].GetOr(false))
  }

  // ---------------------------------------------------------------------
  // The heap

  class Heap {
    var parent: Parents
    var kids: Kids
    var attrs: seq<Attrs>

    /** Links are consistent and every node has attributes. */
    ghost predicate Valid()
      reads this
    {
      Linked(parent, kids) && |attrs| == |kids|
    }

    /** A heap holding the given nodes. */
    constructor (parent: Parents, kids: Kids, attrs: seq<Attrs>)
      requires Linked(parent, kids) && |attrs| == |kids|
      ensures Valid()
      ensures this.parent == parent && this.kids == kids && this.attrs == attrs
    {
      this.parent := parent;
      this.kids := kids;
      this.attrs := attrs;
    }

    /** `node.parent.remove(node)`: c leaves its parent's child list and has
        no parent afterwards. */
    method Detach(c: nat)
      requires Valid() && c < |kids| && parent[c].Some?
      modifies this
      ensures Valid()
      ensures parent == old(parent)[c := None]
      ensures kids == DetachKids(old(parent), old(kids), c)
      ensures attrs == old(attrs)
    {
      DetachLinked(parent, kids, c);
      kids := DetachKids(parent, kids, c);
      parent := parent[c := None];
    }
  }

  /** The postorder pass shared by `species_cover`, `genome_represented` and
      the `keepable` recomputation: each node of root's subtree, children
      first, gets its tip mark or the OR of its children's flags; the pass
      fails with TypeError at a tip whose mark cannot be computed (a tip
      without a name). Nodes outside the subtree keep their prior flag. */
  method FlagPass(h: Heap, root: nat, mark: seq<Option<bool>>, prior: seq<bool>) returns (r: Result<seq<bool>>)
    requires h.Valid() && root < |h.kids| && |mark| == |h.kids| && |prior| == |h.kids|
    ensures r.Ok? <==> TipsMarked(h.kids, mark, Post(h.kids, root))
    ensures r.Ok? ==> |r.value| == |prior|
    ensures r.Ok? ==> forall v :: 0 <= v < |prior| ==>
      r.value[v] == if v in Post(h.kids, root) then Flagged(h.kids, Unwrap(mark), v) else prior[v]
    ensures r.Err? ==> r.error.TypeError?
  {
    var kids := h.kids;
    var order := Post(kids, root);
    var flags := prior;
    ghost var done: set<nat> := {};
    PostRange(kids, root);
    PostDistinct(h.parent, kids, root);
    PostChildrenFirst(kids, root);
    for i := 0 to |order|
      invariant done == set j | 0 <= j < i :: order[j]
      invariant FlagsFrom(kids, mark, prior, flags, done)
    {
      var v := order[i];
      NextInPostorder(kids, order, i, done);
      var f := NodeFlag(h, v, mark, flags);
      if f.None? {
        assert v in order;
        return Err(TypeError("argument of type 'NoneType' is not iterable"));
      }
      FlagsFromStep(kids, mark, prior, flags, done, v, f.value);
      flags := flags[v := f.value];
      done := done + {v};
    }
    assert done == set v | v in order;
    FlagsFromAll(kids, mark, prior, flags, order);
    return Ok(flags);
  }

  /** The flags after the pass has visited the nodes of `done`. */
  ghost predicate FlagsFrom(kids: Kids, mark: seq<Option<bool>>, prior: seq<bool>, flags: seq<bool>, done: set<nat>)
    requires Ordered(kids) && |mark| == |kids|
  {
    && |flags| == |prior|
    && (forall v :: 0 <= v < |flags| && v !in done ==> flags[v] == prior[v])
    && (forall v :: v in done ==> v < |kids| && v < |flags| && flags[v] == Flagged(kids, Unwrap(mark), v))
    && (forall v :: v in done && v < |kids| && kids[v] == [] ==> mark[v].Some?)
  }

  lemma FlagsFromStep(kids: Kids, mark: seq<Option<bool>>, prior: seq<bool>, flags: seq<bool>, done: set<nat>, v: nat, f: bool)
    requires Ordered(kids) && |mark| == |kids| && |prior| == |kids|
    requires FlagsFrom(kids, mark, prior, flags, done)
    requires v < |kids| && f == Flagged(kids, Unwrap(mark), v) && (kids[v] == [] ==> mark[v].Some?)
    ensures FlagsFrom(kids, mark, prior, flags[v := f], done + {v})
  {
  }

  lemma FlagsFromAll(kids: Kids, mark: seq<Option<bool>>, prior: seq<bool>, flags: seq<bool>, s: seq<nat>)
    requires Ordered(kids) && |mark| == |kids| && |prior| == |kids|
    requires FlagsFrom(kids, mark, prior, flags, set v | v in s)
    ensures TipsMarked(kids, mark, s)
    ensures forall v :: 0 <= v < |prior| ==> flags[v] == if v in s then Flagged(kids, Unwrap(mark), v) else prior[v]
  {
  }

  /** The flag of one node in the postorder pass, its children's flags
      being final: None when it is a tip without a mark. */
  method NodeFlag(h: Heap, v: nat, mark: seq<Option<bool>>, flags: seq<bool>) returns (f: Option<bool>)
    requires h.Valid() && v < |h.kids| && |mark| == |h.kids| && |flags| == |h.kids|
    requires forall c :: c in h.kids[v] ==> flags[c] == Flagged(h.kids, Unwrap(mark), c)
    ensures f.None? <==> h.kids[v] == [] && mark[v].None?
    ensures f.Some? ==> f.value == Flagged(h.kids, Unwrap(mark), v)
  {
    if h.kids[v] == [] {
      return mark[v];
    }
    var any := false;
    for k := 0 to |h.kids[v]|
      invariant any == AnyFlagged(h.kids, Unwrap(mark), v, k)
    {
      any := any || flags[h.kids[v][k]];
    }
    return Some(any);
  }
}
