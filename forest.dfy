/** The shape of a heap of tree nodes (skbio TreeNode objects), as values:
    node handles are indices, `kids[v]` lists the children of v in order and
    `parent[v]` is its parent, if any. A child always has a larger handle
    than its parent (a node is created before it adopts anything created
    after it), which gives every traversal a measure. */
module Forest {
  import opened Wrappers

  type Kids = seq<seq<nat>>
  type Parents = seq<Option<nat>>

  /** Children lie in the heap and have larger handles than their parent. */
  predicate Ordered(kids: Kids) {
    forall v, i :: 0 <= v < |kids| && 0 <= i < |kids[v]| ==> v < kids[v][i] < |kids|
  }

  /** The parent links and the child lists describe the same edges, and no
      node lists a child twice. */
  predicate Linked(parent: Parents, kids: Kids) {
    && |parent| == |kids| && Ordered(kids)
    && (forall v, i :: 0 <= v < |kids| && 0 <= i < |kids[v]| ==> parent[kids[v][i]] == Some(v))
    && (forall c :: 0 <= c < |parent| && parent[c].Some? ==> parent[c].value < c && c in kids[parent[c].value])
    && (forall v, i, j :: 0 <= v < |kids| && 0 <= i < j < |kids[v]| ==> kids[v][i] != kids[v][j])
  }

  // ---------------------------------------------------------------------
  // Traversals

  /** `v.postorder(include_self=True)`: each child's subtree in order, then v. */
  function Post(kids: Kids, v: nat): seq<nat>
    requires Ordered(kids) && v < |kids|
    decreases |kids| - v, 1, 0
  {
    PostKids(kids, v, |kids[v]|) + [v]
  }

  /** The postorders of the first i children of v, one after the other. */
  function PostKids(kids: Kids, v: nat, i: nat): seq<nat>
    requires Ordered(kids) && v < |kids| && i <= |kids[v]|
    decreases |kids| - v, 0, i
  {
    if i == 0 then [] else PostKids(kids, v, i - 1) + Post(kids, kids[v][i - 1])
  }

  /** `v.preorder(include_self=True)`: v, then each child's subtree in order. */
  function Pre(kids: Kids, v: nat): seq<nat>
    requires Ordered(kids) && v < |kids|
    decreases |kids| - v, 1, 0
  {
    [v] + PreKids(kids, v, |kids[v]|)
  }

  /** The preorders of the first i children of v, one after the other. */
  function PreKids(kids: Kids, v: nat, i: nat): seq<nat>
    requires Ordered(kids) && v < |kids| && i <= |kids[v]|
    decreases |kids| - v, 0, i
  {
    if i == 0 then [] else PreKids(kids, v, i - 1) + Pre(kids, kids[v][i - 1])
  }

  /** u is v or lies below v: following parent links from u reaches v. */
  predicate Below(parent: Parents, u: nat, v: nat)
    decreases u
  {
    u < |parent| && (u == v || (parent[u].Some? && parent[u].value < u && Below(parent, parent[u].value, v)))
  }

  predicate Distinct(s: seq<nat>) {
    forall i, j :: 0 <= i < j < |s| ==> s[i] != s[j]
  }

  // ---------------------------------------------------------------------
  // Members of a traversal

  /** A subtree holds v and handles no smaller than v. */
  lemma {:induction false} PostRange(kids: Kids, v: nat)
    requires Ordered(kids) && v < |kids|
    ensures v in Post(kids, v)
    ensures forall x :: x in Post(kids, v) ==> v <= x < |kids|
    decreases |kids| - v, 1, 0
  {
    PostKidsRange(kids, v, |kids[v]|);
  }

  lemma {:induction false} PostKidsRange(kids: Kids, v: nat, i: nat)
    requires Ordered(kids) && v < |kids| && i <= |kids[v]|
    ensures forall x :: x in PostKids(kids, v, i) ==> v < x < |kids|
    decreases |kids| - v, 0, i
  {
    if i > 0 {
      PostKidsRange(kids, v, i - 1);
      PostRange(kids, kids[v][i - 1]);
    }
  }

  /** The preorder and the postorder of a subtree hold the same nodes. */
  lemma {:induction false} PreSamePost(kids: Kids, v: nat)
    requires Ordered(kids) && v < |kids|
    ensures forall x :: x in Pre(kids, v) <==> x in Post(kids, v)
    decreases |kids| - v, 1, 0
  {
    PreKidsSamePostKids(kids, v, |kids[v]|);
  }

  lemma {:induction false} PreKidsSamePostKids(kids: Kids, v: nat, i: nat)
    requires Ordered(kids) && v < |kids| && i <= |kids[v]|
    ensures forall x :: x in PreKids(kids, v, i) <==> x in PostKids(kids, v, i)
    decreases |kids| - v, 0, i
  {
    if i > 0 {
      PreKidsSamePostKids(kids, v, i - 1);
      PreSamePost(kids, kids[v][i - 1]);
    }
  }

  /** A member of the children's postorders lies in one child's subtree. */
  lemma {:induction false} PostKidsMember(kids: Kids, v: nat, i: nat, x: nat)
    requires Ordered(kids) && v < |kids| && i <= |kids[v]|
    requires x in PostKids(kids, v, i)
    ensures exists j :: 0 <= j < i && x in Post(kids, kids[v][j])
  {
    if x !in Post(kids, kids[v][i - 1]) {
      PostKidsMember(kids, v, i - 1, x);
    }
  }

  /** Every child's subtree is part of the children's postorders. */
  lemma {:induction false} PostKidsHas(kids: Kids, v: nat, i: nat, j: nat, x: nat)
    requires Ordered(kids) && v < |kids| && j < i <= |kids[v]|
    requires x in Post(kids, kids[v][j])
    ensures x in PostKids(kids, v, i)
  {
    if j < i - 1 {
      PostKidsHas(kids, v, i - 1, j, x);
    }
  }

  /** Following parent links only goes to smaller handles. */
  lemma {:induction false} BelowBound(parent: Parents, u: nat, v: nat)
    requires Below(parent, u, v)
    ensures v <= u
    decreases u
  {
    if u != v {
      BelowBound(parent, parent[u].value, v);
    }
  }

  /** The nodes above u form one chain: of two of them, the larger lies
      below the smaller. */
  lemma {:induction false} BelowChain(parent: Parents, u: nat, a: nat, b: nat)
    requires Below(parent, u, a) && Below(parent, u, b) && a <= b
    ensures Below(parent, b, a)
    decreases u
  {
    if u != b {
      BelowBound(parent, u, b);
      if u == a {
        BelowBound(parent, u, b);
      } else {
        BelowChain(parent, parent[u].value, a, b);
      }
    }
  }

  /** Whatever a postorder of v holds lies below v. */
  lemma {:induction false} PostBelow(parent: Parents, kids: Kids, v: nat, x: nat)
    requires Linked(parent, kids) && v < |kids| && x in Post(kids, v)
    ensures Below(parent, x, v)
    decreases |kids| - v
  {
    if x != v {
      PostKidsMember(kids, v, |kids[v]|, x);
      var j :| 0 <= j < |kids[v]| && x in Post(kids, kids[v][j]);
      var c := kids[v][j];
      PostBelow(parent, kids, c, x);
      BelowStep(parent, kids, x, c, v);
    }
  }

  /** Below a child of v is below v. */
  lemma {:induction false} BelowStep(parent: Parents, kids: Kids, x: nat, c: nat, v: nat)
    requires Linked(parent, kids) && v < |kids| && c in kids[v] && Below(parent, x, c)
    ensures Below(parent, x, v)
    decreases x
  {
    if x == c {
      var i :| 0 <= i < |kids[v]| && kids[v][i] == c;
      assert parent[c] == Some(v);
    } else {
      BelowStep(parent, kids, parent[x].value, c, v);
    }
  }

  /** A subtree of a member of a postorder lies inside that postorder. */
  lemma {:induction false} PostNested(kids: Kids, v: nat, p: nat, x: nat)
    requires Ordered(kids) && v < |kids| && p < |kids| && p in Post(kids, v) && x in Post(kids, p)
    ensures x in Post(kids, v)
    decreases |kids| - v
  {
    if p != v {
      PostKidsMember(kids, v, |kids[v]|, p);
      var j :| 0 <= j < |kids[v]| && p in Post(kids, kids[v][j]);
      PostRange(kids, v);
      PostNested(kids, kids[v][j], p, x);
      PostKidsHas(kids, v, |kids[v]|, j, x);
    }
  }

  /** A child of v is in v's postorder. */
  lemma KidInPost(kids: Kids, v: nat, j: nat)
    requires Ordered(kids) && v < |kids| && j < |kids[v]|
    ensures kids[v][j] in Post(kids, v)
  {
    PostRange(kids, kids[v][j]);
    PostKidsHas(kids, v, |kids[v]|, j, kids[v][j]);
  }

  /** Whatever lies below v is in v's postorder. */
  lemma {:induction false} BelowInPost(parent: Parents, kids: Kids, v: nat, x: nat)
    requires Linked(parent, kids) && v < |kids| && Below(parent, x, v)
    ensures x in Post(kids, v)
    decreases x
  {
    if x == v {
      PostRange(kids, v);
    } else {
      var p := parent[x].value;
      BelowInPost(parent, kids, v, p);
      var j :| 0 <= j < |kids[p]| && kids[p][j] == x;
      KidInPost(kids, p, j);
      PostNested(kids, v, p, x);
    }
  }

  /** The members of a subtree are exactly the nodes below its root. */
  lemma PostIff(parent: Parents, kids: Kids, v: nat, x: nat)
    requires Linked(parent, kids) && v < |kids|
    ensures x in Post(kids, v) <==> Below(parent, x, v)
    ensures x in Pre(kids, v) <==> Below(parent, x, v)
  {
    PreSamePost(kids, v);
    if x in Post(kids, v) {
      PostBelow(parent, kids, v, x);
    }
    if Below(parent, x, v) {
      BelowInPost(parent, kids, v, x);
    }
  }

  // ---------------------------------------------------------------------
  // Each node once

  /** Subtrees of two different children of v share no node. */
  lemma SiblingsApart(parent: Parents, kids: Kids, v: nat, a: nat, b: nat, x: nat)
    requires Linked(parent, kids) && v < |kids| && a < |kids[v]| && b < |kids[v]| && a != b
    requires x in Post(kids, kids[v][a])
    ensures x !in Post(kids, kids[v][b])
  {
    var ca, cb := kids[v][a], kids[v][b];
    PostBelow(parent, kids, ca, x);
    if x in Post(kids, cb) {
      PostBelow(parent, kids, cb, x);
      assert parent[ca] == Some(v) && parent[cb] == Some(v);
      if ca <= cb {
        BelowChain(parent, x, ca, cb);
        BelowBound(parent, v, ca);
      } else {
        BelowChain(parent, x, cb, ca);
        BelowBound(parent, v, cb);
      }
    }
  }

  /** A postorder visits each node once. */
  lemma {:induction false} PostDistinct(parent: Parents, kids: Kids, v: nat)
    requires Linked(parent, kids) && v < |kids|
    ensures Distinct(Post(kids, v))
    decreases |kids| - v, 1, 0
  {
    PostKidsDistinct(parent, kids, v, |kids[v]|);
    PostKidsRange(kids, v, |kids[v]|);
    DistinctConcat(PostKids(kids, v, |kids[v]|), [v]);
  }

  lemma {:induction false} PostKidsDistinct(parent: Parents, kids: Kids, v: nat, i: nat)
    requires Linked(parent, kids) && v < |kids| && i <= |kids[v]|
    ensures Distinct(PostKids(kids, v, i))
    decreases |kids| - v, 0, i
  {
    if i > 0 {
      var a, b := PostKids(kids, v, i - 1), Post(kids, kids[v][i - 1]);
      PostKidsDistinct(parent, kids, v, i - 1);
      PostDistinct(parent, kids, kids[v][i - 1]);
      forall x | x in a ensures x !in b {
        PostKidsMember(kids, v, i - 1, x);
        var j :| 0 <= j < i - 1 && x in Post(kids, kids[v][j]);
        SiblingsApart(parent, kids, v, j, i - 1, x);
      }
      DistinctConcat(a, b);
    }
  }

  lemma DistinctConcat(a: seq<nat>, b: seq<nat>)
    requires Distinct(a) && Distinct(b) && forall x :: x in a ==> x !in b
    ensures Distinct(a + b)
  {
    forall i, j | 0 <= i < j < |a + b| ensures (a + b)[i] != (a + b)[j] {
      if i < |a| && j >= |a| {
        assert (a + b)[i] in a && (a + b)[j] in b;
      }
    }
  }

  /** A preorder visits each node once. */
  lemma {:induction false} PreDistinct(parent: Parents, kids: Kids, v: nat)
    requires Linked(parent, kids) && v < |kids|
    ensures Distinct(Pre(kids, v))
    decreases |kids| - v, 1, 0
  {
    PreKidsDistinct(parent, kids, v, |kids[v]|);
    PreKidsSamePostKids(kids, v, |kids[v]|);
    PostKidsRange(kids, v, |kids[v]|);
    DistinctConcat([v], PreKids(kids, v, |kids[v]|));
  }

  lemma {:induction false} PreKidsDistinct(parent: Parents, kids: Kids, v: nat, i: nat)
    requires Linked(parent, kids) && v < |kids| && i <= |kids[v]|
    ensures Distinct(PreKids(kids, v, i))
    decreases |kids| - v, 0, i
  {
    if i > 0 {
      var a, b := PreKids(kids, v, i - 1), Pre(kids, kids[v][i - 1]);
      PreKidsDistinct(parent, kids, v, i - 1);
      PreDistinct(parent, kids, kids[v][i - 1]);
      PreKidsSamePostKids(kids, v, i - 1);
      PreSamePost(kids, kids[v][i - 1]);
      forall x | x in a ensures x !in b {
        PostKidsMember(kids, v, i - 1, x);
        var j :| 0 <= j < i - 1 && x in Post(kids, kids[v][j]);
        SiblingsApart(parent, kids, v, j, i - 1, x);
      }
      DistinctConcat(a, b);
    }
  }

  // ---------------------------------------------------------------------
  // Visiting order

  /** Every child of a visited node was visited before it. */
  predicate ChildrenFirst(kids: Kids, s: seq<nat>) {
    forall i :: 0 <= i < |s| ==> s[i] < |kids| && forall c :: c in kids[s[i]] ==> c in s[..i]
  }

  lemma ChildrenFirstConcat(kids: Kids, a: seq<nat>, b: seq<nat>)
    requires ChildrenFirst(kids, a) && ChildrenFirst(kids, b)
    ensures ChildrenFirst(kids, a + b)
  {
    forall i | 0 <= i < |a + b| ensures (a + b)[i] < |kids| && forall c :: c in kids[(a + b)[i]] ==> c in (a + b)[..i] {
      if i < |a| {
        assert (a + b)[..i] == a[..i];
      } else {
        assert (a + b)[i] == b[i - |a|];
        forall c | c in kids[b[i - |a|]] ensures c in (a + b)[..i] {
          assert c in b[..i - |a|];
          var k :| 0 <= k < i - |a| && b[k] == c;
          assert (a + b)[|a| + k] == c;
        }
      }
    }
  }

  /** A postorder visits children before their parent. */
  lemma {:induction false} PostChildrenFirst(kids: Kids, v: nat)
    requires Ordered(kids) && v < |kids|
    ensures ChildrenFirst(kids, Post(kids, v))
    decreases |kids| - v, 1, 0
  {
    var a := PostKids(kids, v, |kids[v]|);
    PostKidsChildrenFirst(kids, v, |kids[v]|);
    forall c | c in kids[v] ensures c in a {
      var j :| 0 <= j < |kids[v]| && kids[v][j] == c;
      PostRange(kids, c);
      PostKidsHas(kids, v, |kids[v]|, j, c);
    }
    assert (a + [v])[..|a|] == a;
    forall i | 0 <= i < |a + [v]| ensures (a + [v])[i] < |kids| && forall c :: c in kids[(a + [v])[i]] ==> c in (a + [v])[..i] {
      if i < |a| {
        assert (a + [v])[..i] == a[..i];
      }
    }
  }

  lemma {:induction false} PostKidsChildrenFirst(kids: Kids, v: nat, i: nat)
    requires Ordered(kids) && v < |kids| && i <= |kids[v]|
    ensures ChildrenFirst(kids, PostKids(kids, v, i))
    decreases |kids| - v, 0, i
  {
    if i > 0 {
      PostKidsChildrenFirst(kids, v, i - 1);
      PostChildrenFirst(kids, kids[v][i - 1]);
      ChildrenFirstConcat(kids, PostKids(kids, v, i - 1), Post(kids, kids[v][i - 1]));
    }
  }

  /** The parent of every visited node other than the first was visited
      before it. */
  predicate ParentFirst(parent: Parents, s: seq<nat>) {
    forall i :: 0 < i < |s| ==> s[i] < |parent| && parent[s[i]].Some? && parent[s[i]].value in s[..i]
  }

  /** A preorder visits a parent before its children. */
  lemma {:induction false} PreParentFirst(parent: Parents, kids: Kids, v: nat)
    requires Linked(parent, kids) && v < |kids|
    ensures ParentFirst(parent, Pre(kids, v))
    decreases |kids| - v, 1, 0
  {
    var s := Pre(kids, v);
    var a := PreKids(kids, v, |kids[v]|);
    PreKidsParentFirst(parent, kids, v, |kids[v]|);
    forall i | 0 < i < |s| ensures s[i] < |parent| && parent[s[i]].Some? && parent[s[i]].value in s[..i] {
      assert s[i] == a[i - 1];
      assert s[..i][0] == v;
      if parent[a[i - 1]] != Some(v) {
        var k :| 0 <= k < i - 1 && a[k] == parent[a[i - 1]].value;
        assert s[k + 1] == a[k];
      }
    }
  }

  /** Within the children's preorders, a node's parent is v or came earlier. */
  lemma {:induction false} PreKidsParentFirst(parent: Parents, kids: Kids, v: nat, i: nat)
    requires Linked(parent, kids) && v < |kids| && i <= |kids[v]|
    ensures forall t :: 0 <= t < |PreKids(kids, v, i)| ==>
      var x := PreKids(kids, v, i)[t];
      x < |parent| && parent[x].Some? && (parent[x] == Some(v) || parent[x].value in PreKids(kids, v, i)[..t])
    decreases |kids| - v, 0, i
  {
    if i > 0 {
      var a, c := PreKids(kids, v, i - 1), kids[v][i - 1];
      var b := Pre(kids, c);
      PreKidsParentFirst(parent, kids, v, i - 1);
      PreParentFirst(parent, kids, c);
      PostRange(kids, c);
      PreSamePost(kids, c);
      forall t | 0 <= t < |a + b|
        ensures var x := (a + b)[t];
          x < |parent| && parent[x].Some? && (parent[x] == Some(v) || parent[x].value in (a + b)[..t])
      {
        if t < |a| {
          assert (a + b)[..t] == a[..t];
        } else if t == |a| {
          assert (a + b)[t] == c && parent[c] == Some(v);
        } else {
          var x := b[t - |a|];
          assert (a + b)[t] == x;
          var k :| 0 <= k < t - |a| && b[k] == parent[x].value;
          assert (a + b)[|a| + k] == b[k];
        }
      }
    }
  }
}
