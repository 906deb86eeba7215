/** What the reply tree built by `Node::populate`, `list` and `view`
    (src/comment.rs) contains, proved about the specification functions of
    module Comment. */
module CommentTreeFacts {
  import opened Prelude
  import opened Seqs
  import opened Comment

  /** The comments held by a sequence of nodes, in order. */
  function Comments(ns: seq<Node>): (r: seq<Comment>)
    ensures |r| == |ns| && forall i :: 0 <= i < |ns| ==> r[i] == ns[i].comment
  {
    seq(|ns|, i requires 0 <= i < |ns| => ns[i].comment)
  }

  /** A tree in which every node's children are exactly the replies to its
      comment, in list order, each child populated in the same way. */
  predicate Populated(list: seq<Comment>, n: Node)
    decreases n
  {
    Comments(n.children) == Children(list, n.comment.id) &&
    forall i :: 0 <= i < |n.children| ==> Populated(list, n.children[i])
  }

  /** Every comment of a tree, in pre-order. */
  function Flatten(n: Node): (r: seq<Comment>)
    ensures |r| >= 1 && r[0] == n.comment
    decreases n
  {
    [n.comment] + FlattenAll(n.children)
  }

  function FlattenAll(ns: seq<Node>): (r: seq<Comment>)
    ensures |ns| > 0 ==> |r| >= |ns|
    decreases ns
  {
    if |ns| == 0 then [] else Flatten(ns[0]) + FlattenAll(ns[1..])
  }

  lemma {:induction false} FlattenAllMember(ns: seq<Node>, x: Comment)
    ensures x in FlattenAll(ns) <==> exists i :: 0 <= i < |ns| && x in Flatten(ns[i])
  {
    if |ns| > 0 {
      FlattenAllMember(ns[1..], x);
      if x in FlattenAll(ns[1..]) {
        var i :| 0 <= i < |ns[1..]| && x in Flatten(ns[1..][i]);
        assert ns[1..][i] == ns[i + 1];
      }
      if exists i :: 0 <= i < |ns| && x in Flatten(ns[i]) {
        var i :| 0 <= i < |ns| && x in Flatten(ns[i]);
        if i > 0 {
          assert ns[1..][i - 1] == ns[i];
        }
      }
    }
  }

  // ---------------------------------------------------------------------------
  // Populate builds the one populated tree

  /** The tree `populate` builds is populated and rooted at the comment. */
  lemma {:induction false} TreeIsPopulated(list: seq<Comment>, c: Comment)
    requires Buildable(list, c)
    ensures Tree(list, c).comment == c
    ensures Populated(list, Tree(list, c))
    decreases |Below(list, c)|
  {
    RepliesBelow(list, c);
    var kids := Children(list, c.id);
    var t := Tree(list, c);
    assert t.children == seq(|kids|, i requires 0 <= i < |kids| => Tree(list, kids[i]));
    forall i | 0 <= i < |t.children| ensures Populated(list, t.children[i]) && t.children[i].comment == kids[i] {
      TreeIsPopulated(list, kids[i]);
    }
    assert Comments(t.children) == kids;
  }

  /** Conversely, a populated tree over a comment of the list is the tree
      `populate` builds: the populated tree is unique. */
  lemma {:induction false} PopulatedIsTree(list: seq<Comment>, n: Node)
    requires Buildable(list, n.comment) && Populated(list, n)
    ensures n == Tree(list, n.comment)
    decreases n
  {
    RepliesBelow(list, n.comment);
    var kids := Children(list, n.comment.id);
    var t := Tree(list, n.comment);
    assert |n.children| == |kids|;
    forall i | 0 <= i < |n.children| ensures n.children[i] == t.children[i] {
      assert n.children[i].comment == kids[i];
      assert kids[i] in kids;
      PopulatedIsTree(list, n.children[i]);
    }
  }

  // ---------------------------------------------------------------------------
  // Which comments a tree holds

  /** Every comment of the tree below `c` is in the list and has `c` among its ancestors. */
  lemma {:induction false} TreeAncestry(list: seq<Comment>, c: Comment, x: Comment)
    requires Buildable(list, c)
    requires x in Flatten(Tree(list, c))
    ensures x in list
    ensures exists k: nat :: Ancestor(list, Some(x), k) == Some(c)
    decreases |Below(list, c)|
  {
    var t := Tree(list, c);
    RepliesBelow(list, c);
    var kids := Children(list, c.id);
    if x == c {
      assert Ancestor(list, Some(x), 0) == Some(c);
    } else {
      assert x in FlattenAll(t.children);
      FlattenAllMember(t.children, x);
      var i :| 0 <= i < |t.children| && x in Flatten(t.children[i]);
      assert t.children[i] == Tree(list, kids[i]);
      assert kids[i] in kids;
      TreeAncestry(list, kids[i], x);
      var k: nat :| Ancestor(list, Some(x), k) == Some(kids[i]);
      FindUnique(list, c);
      assert Ancestor(list, Some(x), k + 1) == Some(c);
    }
  }

  /** The tree below `c` is closed under replies. */
  lemma {:induction false} TreeClosedUnderReplies(list: seq<Comment>, c: Comment, p: Comment, x: Comment)
    requires Buildable(list, c)
    requires p in Flatten(Tree(list, c))
    requires x in list && x.parent == Some(p.id)
    ensures x in Flatten(Tree(list, c))
    decreases |Below(list, c)|
  {
    var t := Tree(list, c);
    RepliesBelow(list, c);
    var kids := Children(list, c.id);
    if p in FlattenAll(t.children) {
      FlattenAllMember(t.children, p);
      var i :| 0 <= i < |t.children| && p in Flatten(t.children[i]);
      assert t.children[i] == Tree(list, kids[i]);
      assert kids[i] in kids;
      TreeClosedUnderReplies(list, kids[i], p, x);
      FlattenAllMember(t.children, x);
    } else {
      assert p == c;
      assert x in kids;
      var i :| 0 <= i < |kids| && kids[i] == x;
      assert t.children[i] == Tree(list, x);
      assert x in Flatten(t.children[i]);
      FlattenAllMember(t.children, x);
    }
  }

  /** The tree below `c` holds exactly the comments of the list that have `c`
      as an ancestor (or are `c`). */
  lemma {:induction false} TreeMembers(list: seq<Comment>, c: Comment, x: Comment)
    requires Buildable(list, c)
    ensures x in Flatten(Tree(list, c)) <==>
      x in list && exists k: nat :: Ancestor(list, Some(x), k) == Some(c)
  {
    if x in Flatten(Tree(list, c)) {
      TreeAncestry(list, c, x);
    } else if x in list && exists k: nat :: Ancestor(list, Some(x), k) == Some(c) {
      var k: nat :| Ancestor(list, Some(x), k) == Some(c);
      TreeContainsDescendant(list, c, x, k);
    }
  }

  lemma {:induction false} TreeContainsDescendant(list: seq<Comment>, c: Comment, x: Comment, k: nat)
    requires Buildable(list, c) && x in list
    requires Ancestor(list, Some(x), k) == Some(c)
    ensures x in Flatten(Tree(list, c))
    decreases k
  {
    if k == 0 {
      assert x == c;
    } else {
      AncestorShift(list, x, k - 1);
      match Up(list, x)
      case None =>
        AncestorOfNone(list, k - 1);
      case Some(p) =>
        TreeContainsDescendant(list, c, p, k - 1);
        TreeClosedUnderReplies(list, c, p, x);
    }
  }

  /** The walk from `x` ends at a comment without a parent. */
  ghost predicate Rooted(list: seq<Comment>, x: Comment)
    requires x in list
  {
    exists k: nat :: Ancestor(list, Some(x), k).Some? && Ancestor(list, Some(x), k).value.parent.None?
  }

  /** Every node of the forest is a comment of the list whose chain reaches a root. */
  lemma ForestNodesRooted(list: seq<Comment>, x: Comment)
    requires UniqueIds(list) && x in FlattenAll(Forest(list))
    ensures x in list && Rooted(list, x)
  {
    RootsBuildable(list);
    var roots := Roots(list);
    var f := Forest(list);
    FlattenAllMember(f, x);
    var i :| 0 <= i < |f| && x in Flatten(f[i]);
    assert f[i] == Tree(list, roots[i]);
    assert roots[i] in roots;
    TreeAncestry(list, roots[i], x);
    var k: nat :| Ancestor(list, Some(x), k) == Some(roots[i]);
    assert Ancestor(list, Some(x), k).value.parent.None?;
  }

  /** Every comment of the list whose chain reaches a root is in the forest. */
  lemma RootedInForest(list: seq<Comment>, x: Comment)
    requires UniqueIds(list) && x in list && Rooted(list, x)
    ensures x in FlattenAll(Forest(list))
  {
    RootsBuildable(list);
    var roots := Roots(list);
    var f := Forest(list);
    var k: nat :| Ancestor(list, Some(x), k).Some? && Ancestor(list, Some(x), k).value.parent.None?;
    var top := Ancestor(list, Some(x), k).value;
    assert top in roots;
    var i :| 0 <= i < |roots| && roots[i] == top;
    TreeContainsDescendant(list, top, x, k);
    assert f[i] == Tree(list, top);
    FlattenAllMember(f, x);
  }

  /** The forest of `list` holds exactly the comments whose parent chain
      reaches a root: every node is a comment of the list, and a comment whose
      chain ends at a missing parent never appears. */
  lemma ForestMembers(list: seq<Comment>, x: Comment)
    requires UniqueIds(list)
    ensures x in FlattenAll(Forest(list)) <==> x in list && Rooted(list, x)
  {
    if x in FlattenAll(Forest(list)) {
      ForestNodesRooted(list, x);
    } else if x in list && Rooted(list, x) {
      RootedInForest(list, x);
    }
  }

  /** The forest's roots are the comments without a parent, in list order,
      each populated with its replies. */
  lemma ForestRoots(list: seq<Comment>)
    requires UniqueIds(list)
    ensures Comments(Forest(list)) == Roots(list)
    ensures forall i :: 0 <= i < |Forest(list)| ==> Populated(list, Forest(list)[i])
  {
    RootsBuildable(list);
    var roots := Roots(list);
    forall i | 0 <= i < |roots| ensures Forest(list)[i].comment == roots[i] && Populated(list, Forest(list)[i]) {
      assert roots[i] in roots;
      TreeIsPopulated(list, roots[i]);
    }
  }

  // ---------------------------------------------------------------------------
  // No comment appears twice

  /** A comment below `u` is not below `v` when neither of the two lies
      above the other. */
  lemma {:induction false} ApartWalk(list: seq<Comment>, y: Comment, u: Comment, v: Comment, a: nat, b: nat)
    requires y in list && u in list && v in list && u != v
    requires Ancestor(list, Some(y), a) == Some(u)
    requires forall d: nat :: 0 < d ==> Ancestor(list, Some(u), d) != Some(v) && Ancestor(list, Some(v), d) != Some(u)
    ensures Ancestor(list, Some(y), b) != Some(v)
  {
    if a < b {
      var d: nat := b - a;
      AncestorAdd(list, Some(y), a, d);
      assert Ancestor(list, Some(y), b) == Ancestor(list, Some(u), d);
    } else if b < a {
      var d: nat := a - b;
      AncestorAdd(list, Some(y), b, d);
      assert Ancestor(list, Ancestor(list, Some(y), b), d) == Some(u);
    }
  }

  /** Contents of sibling trees never overlap: two comments neither of which
      lies above the other hold disjoint trees. */
  lemma ApartTreesDisjoint(list: seq<Comment>, u: Comment, v: Comment)
    requires Buildable(list, u) && Buildable(list, v) && u != v
    requires forall d: nat :: 0 < d ==> Ancestor(list, Some(u), d) != Some(v) && Ancestor(list, Some(v), d) != Some(u)
    ensures forall y :: y in Flatten(Tree(list, u)) ==> y !in Flatten(Tree(list, v))
  {
    forall y | y in Flatten(Tree(list, u)) ensures y !in Flatten(Tree(list, v)) {
      TreeAncestry(list, u, y);
      var a: nat :| Ancestor(list, Some(y), a) == Some(u);
      forall b: nat ensures Ancestor(list, Some(y), b) != Some(v) {
        ApartWalk(list, y, u, v, a, b);
      }
      TreeMembers(list, v, y);
    }
  }

  /** Distinct replies to one comment are never one above the other. */
  lemma SiblingsApart(list: seq<Comment>, c: Comment, u: Comment, v: Comment, d: nat)
    requires Buildable(list, c) && u in Children(list, c.id) && v in Children(list, c.id) && 0 < d
    ensures Ancestor(list, Some(u), d) != Some(v)
  {
    FindUnique(list, c);
    assert Up(list, u) == Some(c) && Up(list, v) == Some(c);
    AncestorShift(list, u, d - 1);
    assert !OnCycle(list, c);
    assert Ancestor(list, Some(c), d) != Some(c);
  }

  /** The walk from a root ends after the root. */
  lemma RootsApart(list: seq<Comment>, u: Comment, d: nat)
    requires u in list && u.parent.None? && 0 < d
    ensures Ancestor(list, Some(u), d) == None
  {
    AncestorShift(list, u, d - 1);
    AncestorOfNone(list, d - 1);
  }

  /** Flattening a sequence of trees that hold no comment twice and share no
      comment holds no comment twice. */
  lemma {:induction false} NoDupsFlattenAll(ns: seq<Node>)
    requires forall i :: 0 <= i < |ns| ==> NoDups(Flatten(ns[i]))
    requires forall i, j, y :: 0 <= i < j < |ns| && y in Flatten(ns[i]) ==> y !in Flatten(ns[j])
    ensures NoDups(FlattenAll(ns))
  {
    if |ns| > 0 {
      var rest := ns[1..];
      forall i | 0 <= i < |rest| ensures rest[i] == ns[i + 1] { }
      NoDupsFlattenAll(rest);
      forall y | y in Flatten(ns[0]) ensures y !in FlattenAll(rest) {
        FlattenAllMember(rest, y);
      }
      NoDupsConcat(Flatten(ns[0]), FlattenAll(rest));
    }
  }

  /** The tree below `c` holds every comment at most once. */
  lemma {:induction false} TreeNoDups(list: seq<Comment>, c: Comment)
    requires Buildable(list, c)
    ensures NoDups(Flatten(Tree(list, c)))
    decreases |Below(list, c)|
  {
    RepliesBelow(list, c);
    FindUnique(list, c);
    var kids := Children(list, c.id);
    var t := Tree(list, c);
    assert t.children == seq(|kids|, i requires 0 <= i < |kids| => Tree(list, kids[i]));
    FilterUniqueBy(list, (x: Comment) => x.parent == Some(c.id), (x: Comment) => x.id);
    forall i | 0 <= i < |kids| ensures NoDups(Flatten(t.children[i])) {
      assert kids[i] in kids;
      TreeNoDups(list, kids[i]);
    }
    forall i, j, y | 0 <= i < j < |kids| && y in Flatten(t.children[i]) ensures y !in Flatten(t.children[j]) {
      assert kids[i] in kids && kids[j] in kids && kids[i].id != kids[j].id;
      forall d: nat | 0 < d ensures Ancestor(list, Some(kids[i]), d) != Some(kids[j]) && Ancestor(list, Some(kids[j]), d) != Some(kids[i]) {
        SiblingsApart(list, c, kids[i], kids[j], d);
        SiblingsApart(list, c, kids[j], kids[i], d);
      }
      ApartTreesDisjoint(list, kids[i], kids[j]);
    }
    NoDupsFlattenAll(t.children);
    forall k: nat | 0 < k ensures Ancestor(list, Some(c), k) != Some(c) {
      assert !OnCycle(list, c);
    }
    forall i | 0 <= i < |kids| ensures c !in Flatten(t.children[i]) {
      assert kids[i] in kids && Up(list, kids[i]) == Some(c);
      forall k: nat ensures Ancestor(list, Some(c), k) != Some(kids[i]) {
        assert Ancestor(list, Some(c), k + 1) != Some(c);
      }
      TreeMembers(list, kids[i], c);
    }
    FlattenAllMember(t.children, c);
    NoDupsConcat([c], FlattenAll(t.children));
  }

  /** The forest holds every comment at most once. */
  lemma ForestNoDups(list: seq<Comment>)
    requires UniqueIds(list)
    ensures NoDups(FlattenAll(Forest(list)))
  {
    RootsBuildable(list);
    var roots := Roots(list);
    var f := Forest(list);
    FilterUniqueBy(list, (x: Comment) => x.parent.None?, (x: Comment) => x.id);
    forall i | 0 <= i < |roots| ensures NoDups(Flatten(f[i])) {
      assert roots[i] in roots;
      TreeNoDups(list, roots[i]);
    }
    forall i, j, y | 0 <= i < j < |roots| && y in Flatten(f[i]) ensures y !in Flatten(f[j]) {
      assert roots[i] in roots && roots[j] in roots && roots[i].id != roots[j].id;
      forall d: nat | 0 < d ensures Ancestor(list, Some(roots[i]), d) != Some(roots[j]) && Ancestor(list, Some(roots[j]), d) != Some(roots[i]) {
        RootsApart(list, roots[i], d);
        RootsApart(list, roots[j], d);
      }
      ApartTreesDisjoint(list, roots[i], roots[j]);
    }
    NoDupsFlattenAll(f);
  }

  /** Each comment whose parent chain reaches a root appears exactly once in
      the forest; every other comment, never. */
  lemma ForestExactlyOnce(list: seq<Comment>, x: Comment)
    requires UniqueIds(list)
    ensures multiset(FlattenAll(Forest(list)))[x] == if x in list && Rooted(list, x) then 1 else 0
  {
    ForestNoDups(list);
    NoDupsMultiplicity(FlattenAll(Forest(list)), x);
    ForestMembers(list, x);
  }

  // ---------------------------------------------------------------------------
  // The context walk of `view`

  /** Walking `a` steps and then `b` more is walking `a + b` steps. */
  lemma {:induction false} AncestorAdd(list: seq<Comment>, s: Option<Comment>, a: nat, b: nat)
    requires s.Some? ==> s.value in list
    ensures Ancestor(list, s, a + b) == Ancestor(list, Ancestor(list, s, a), b)
    decreases b
  {
    if b > 0 {
      AncestorAdd(list, s, a, b - 1);
    }
  }

  /** The walk from a grounded comment stays within the list exactly for
      its height. */
  lemma {:induction false} AncestorHeight(list: seq<Comment>, c: Comment, f: nat, k: nat)
    requires c in list && Grounded(list, c, f)
    ensures Ancestor(list, Some(c), k).Some? <==> k <= Height(list, c, f)
    decreases k
  {
    if k > 0 {
      AncestorShift(list, c, k - 1);
      match Up(list, c)
      case None =>
        AncestorOfNone(list, k - 1);
      case Some(p) =>
        AncestorHeight(list, p, f - 1, k - 1);
    }
  }

  /** Going round a cycle `j` times comes back to its start. */
  lemma {:induction false} CycleRepeats(list: seq<Comment>, a: Comment, m: nat, j: nat)
    requires a in list && Ancestor(list, Some(a), m) == Some(a)
    ensures Ancestor(list, Some(a), j * m) == Some(a)
    decreases j
  {
    if j > 0 {
      CycleRepeats(list, a, m, j - 1);
      AncestorAdd(list, Some(a), (j - 1) * m, m);
      assert (j - 1) * m + m == j * m;
    }
  }

  /** Every comment above a grounded comment is off any cycle. */
  lemma GroundedWalkOffCycle(list: seq<Comment>, c: Comment, f: nat, k: nat)
    requires c in list && Grounded(list, c, f)
    ensures Ancestor(list, Some(c), k).Some? ==> !OnCycle(list, Ancestor(list, Some(c), k).value)
  {
    if Ancestor(list, Some(c), k).Some? {
      var a := Ancestor(list, Some(c), k).value;
      forall m: nat | 0 < m ensures Ancestor(list, Some(a), m) != Some(a) {
        if Ancestor(list, Some(a), m) == Some(a) {
          CycleRepeats(list, a, m, f + 1);
          AncestorAdd(list, Some(c), k, (f + 1) * m);
          assert (f + 1) * m >= f + 1;
          AncestorHeight(list, c, f, k + (f + 1) * m);
          assert false;
        }
      }
    }
  }

  /** `view` with no context: the tree below the comment itself. */
  lemma ContextZero(list: seq<Comment>, c: Comment)
    requires Buildable(list, c)
    ensures ViewTerminates(list, c.id, 0)
    ensures ContextTree(list, c.id, 0) == Some(Tree(list, c))
  {
    FindUnique(list, c);
  }

  /** `view` with `k` steps of context from a comment whose parent chain
      ends: a tree exactly while the walk stays within the list, and then the
      tree below the `k`-th ancestor; one step past the top of the chain
      answers nothing. */
  lemma ContextSteps(list: seq<Comment>, c: Comment, k: nat)
    requires UniqueIds(list) && c in list && Grounded(list, c, |list|)
    ensures Find(list, c.id) == Some(c)
    ensures ViewTerminates(list, c.id, k)
    ensures ContextTree(list, c.id, k).Some? <==> k <= Height(list, c, |list|)
    ensures ContextTree(list, c.id, k).Some? ==>
      ContextTree(list, c.id, k) == Some(Tree(list, Ancestor(list, Some(c), k).value))
    ensures k == Height(list, c, |list|) + 1 ==> ContextTree(list, c.id, k) == None
  {
    FindUnique(list, c);
    AncestorHeight(list, c, |list|, k);
    GroundedWalkOffCycle(list, c, |list|, k);
  }

  // ---------------------------------------------------------------------------
  // Populate as written, and the corrected insert

  /** With enough depth, `populate` as written finishes below any comment off
      a cycle, and builds its tree. */
  lemma {:induction false} PopulateWithinFinishes(list: seq<Comment>, c: Comment, fuel: nat)
    requires Buildable(list, c) && fuel > |Below(list, c)|
    ensures PopulateWithin(list, c, fuel) == Some(Tree(list, c))
    decreases |Below(list, c)|
  {
    RepliesBelow(list, c);
    var kids := Children(list, c.id);
    var t := Tree(list, c);
    assert t.children == seq(|kids|, i requires 0 <= i < |kids| => Tree(list, kids[i]));
    var subs := seq(|kids|, i requires 0 <= i < |kids| => PopulateWithin(list, kids[i], fuel - 1));
    forall i | 0 <= i < |kids| ensures subs[i] == Some(t.children[i]) {
      assert kids[i] in kids;
      PopulateWithinFinishes(list, kids[i], fuel - 1);
    }
    assert forall i :: 0 <= i < |subs| ==> subs[i].Some?;
    var built := Node(c, seq(|subs|, i requires 0 <= i < |subs| => subs[i].value));
    assert PopulateWithin(list, c, fuel) == Some(built);
    assert built.children == t.children;
  }

  /** When every reply is younger than its parent, ids fall strictly along the
      walk, so no comment is on a cycle. */
  lemma {:induction false} EarlierAncestors(list: seq<Comment>, c: Comment, k: nat)
    requires ParentsEarlier(list) && c in list
    ensures Ancestor(list, Some(c), k).Some? ==> Ancestor(list, Some(c), k).value.id <= c.id - k
    decreases k
  {
    if k > 0 {
      EarlierAncestors(list, c, k - 1);
    }
  }

  lemma EarlierParentsNoCycle(list: seq<Comment>, c: Comment)
    requires ParentsEarlier(list) && c in list
    ensures !OnCycle(list, c)
  {
    forall k: nat | 0 < k ensures Ancestor(list, Some(c), k) != Some(c) {
      EarlierAncestors(list, c, k);
    }
  }

  /** When every reply is younger than its parent, every `view` finishes. */
  lemma EarlierParentsViewTerminates(list: seq<Comment>, id: int, context: nat)
    requires ParentsEarlier(list)
    ensures ViewTerminates(list, id, context)
  {
    var end := Ancestor(list, Find(list, id), context);
    if end.Some? {
      EarlierParentsNoCycle(list, end.value);
    }
  }

  /** The same holds for the comments of one article, which `view` walks. */
  lemma EarlierParentsArticleView(rows: seq<Comment>, article: int, id: int, context: nat)
    requires ParentsEarlier(rows)
    ensures ViewTerminates(Filter(rows, (x: Comment) => x.article == article), id, context)
  {
    EarlierParentsViewTerminates(Filter(rows, (x: Comment) => x.article == article), id, context);
  }

  // ---------------------------------------------------------------------------
  // Purge keeps parents

  /** Every reply's parent is in the table. */
  predicate ParentsPresent(list: seq<Comment>)
  {
    forall c :: c in list && c.parent.Some? ==> Find(list, c.parent.value).Some?
  }

  /** A purge goes ahead only when nothing replies to the comment, so it
      never leaves a reply without its parent. */
  lemma PurgeKeepsParents(rows: seq<Comment>, id: int)
    requires ParentsPresent(rows)
    requires forall c :: c in rows ==> c.parent != Some(id)
    ensures ParentsPresent(Filter(rows, (c: Comment) => c.id != id))
  {
    var kept := Filter(rows, (c: Comment) => c.id != id);
    forall c | c in kept && c.parent.Some? ensures Find(kept, c.parent.value).Some? {
      var q := Find(rows, c.parent.value).value;
      assert q in kept;
    }
  }

  // ---------------------------------------------------------------------------
  // Edits and soft deletes keep the threads

  /** A rewrite of rows that keeps what the tree is built from. */
  ghost predicate KeepsThread(f: Comment -> Comment)
  {
    forall c :: f(c).id == c.id && f(c).parent == c.parent && f(c).article == c.article
  }

  lemma EditKeepsThread(id: int, ch: CommentChanges)
    ensures KeepsThread((c: Comment) => Edited(id, ch, c))
  {
  }

  lemma SoftDeleteKeepsThread(id: int)
    ensures KeepsThread((c: Comment) => SoftDeleted(id, c))
  {
  }

  /** The tree `n` with every comment rewritten by `f`. */
  function MapTree(n: Node, f: Comment -> Comment): (r: Node)
    ensures r.comment == f(n.comment) && |r.children| == |n.children|
    decreases n
  {
    Node(f(n.comment), seq(|n.children|, i requires 0 <= i < |n.children| => MapTree(n.children[i], f)))
  }

  function MapForest(ns: seq<Node>, f: Comment -> Comment): (r: seq<Node>)
    ensures |r| == |ns| && forall i :: 0 <= i < |ns| ==> r[i] == MapTree(ns[i], f)
  {
    seq(|ns|, i requires 0 <= i < |ns| => MapTree(ns[i], f))
  }

  lemma MapRowsConcat(a: seq<Comment>, b: seq<Comment>, f: Comment -> Comment)
    ensures MapRows(a + b, f) == MapRows(a, f) + MapRows(b, f)
  {
  }

  lemma {:induction false} FilterMap(l: seq<Comment>, f: Comment -> Comment, p: Comment -> bool)
    requires forall c :: p(f(c)) == p(c)
    ensures Filter(MapRows(l, f), p) == MapRows(Filter(l, p), f)
  {
    if |l| > 0 {
      var m := MapRows(l, f);
      assert m[0] == f(l[0]);
      assert m[1..] == MapRows(l[1..], f);
      FilterMap(l[1..], f, p);
      var h: seq<Comment> := if p(l[0]) then [l[0]] else [];
      assert Filter(l, p) == h + Filter(l[1..], p);
      MapRowsConcat(h, Filter(l[1..], p), f);
      assert MapRows(h, f) == if p(m[0]) then [m[0]] else [];
    }
  }

  lemma {:induction false} FindMap(l: seq<Comment>, f: Comment -> Comment, id: int)
    requires KeepsThread(f)
    ensures Find(MapRows(l, f), id) == if Find(l, id).Some? then Some(f(Find(l, id).value)) else None
  {
    if |l| > 0 {
      assert MapRows(l, f)[1..] == MapRows(l[1..], f);
      FindMap(l[1..], f, id);
    }
  }

  lemma {:induction false} AncestorMap(l: seq<Comment>, f: Comment -> Comment, x: Comment, k: nat)
    requires KeepsThread(f) && x in l
    ensures f(x) in MapRows(l, f)
    ensures Ancestor(MapRows(l, f), Some(f(x)), k) ==
      if Ancestor(l, Some(x), k).Some? then Some(f(Ancestor(l, Some(x), k).value)) else None
    decreases k
  {
    var i :| 0 <= i < |l| && l[i] == x;
    assert MapRows(l, f)[i] == f(x);
    if k > 0 {
      AncestorMap(l, f, x, k - 1);
      var a := Ancestor(l, Some(x), k - 1);
      if a.Some? && a.value.parent.Some? {
        FindMap(l, f, a.value.parent.value);
      }
    }
  }

  lemma BuildableMap(l: seq<Comment>, f: Comment -> Comment, c: Comment)
    requires KeepsThread(f) && Buildable(l, c)
    ensures UniqueIds(MapRows(l, f)) && Buildable(MapRows(l, f), f(c))
  {
    var m := MapRows(l, f);
    UniqueIdsMap(l, f);
    AncestorMap(l, f, c, 0);
    forall k: nat | 0 < k ensures Ancestor(m, Some(f(c)), k) != Some(f(c)) {
      AncestorMap(l, f, c, k);
      assert !OnCycle(l, c);
      var a := Ancestor(l, Some(c), k);
      if a.Some? && a.value.id == c.id {
        UniqueByKeyed(l, (x: Comment) => x.id, a.value, c);
      }
    }
  }

  /** Rewriting the rows and then building a tree is building the tree and
      then rewriting its comments. */
  lemma {:induction false} TreeMap(l: seq<Comment>, f: Comment -> Comment, c: Comment)
    requires KeepsThread(f) && Buildable(l, c)
    ensures Buildable(MapRows(l, f), f(c))
    ensures Tree(MapRows(l, f), f(c)) == MapTree(Tree(l, c), f)
    decreases |Below(l, c)|
  {
    BuildableMap(l, f, c);
    RepliesBelow(l, c);
    var m := MapRows(l, f);
    var kids := Children(l, c.id);
    var t := Tree(l, c);
    assert t.children == seq(|kids|, i requires 0 <= i < |kids| => Tree(l, kids[i]));
    FilterMap(l, f, (x: Comment) => x.parent == Some(c.id));
    var mk := Children(m, f(c).id);
    assert mk == MapRows(kids, f);
    RepliesBelow(m, f(c));
    var tm := Tree(m, f(c));
    assert tm.children == seq(|mk|, i requires 0 <= i < |mk| => Tree(m, mk[i]));
    var want := MapTree(t, f);
    forall i | 0 <= i < |kids| ensures tm.children[i] == want.children[i] {
      assert kids[i] in kids;
      TreeMap(l, f, kids[i]);
    }
    assert tm.children == want.children;
  }

  lemma UniqueIdsMap(l: seq<Comment>, f: Comment -> Comment)
    requires KeepsThread(f) && UniqueIds(l)
    ensures UniqueIds(MapRows(l, f))
  {
    var m := MapRows(l, f);
    forall i, j | 0 <= i < j < |m| ensures m[i].id != m[j].id {
      assert m[i].id == l[i].id && m[j].id == l[j].id;
    }
  }

  lemma ForestMap(l: seq<Comment>, f: Comment -> Comment)
    requires KeepsThread(f) && UniqueIds(l)
    ensures UniqueIds(MapRows(l, f))
    ensures Forest(MapRows(l, f)) == MapForest(Forest(l), f)
  {
    UniqueIdsMap(l, f);
    RootsBuildable(l);
    var m := MapRows(l, f);
    RootsBuildable(m);
    var roots := Roots(l);
    FilterMap(l, f, (x: Comment) => x.parent.None?);
    var mr := Roots(m);
    assert mr == MapRows(roots, f);
    var fm := Forest(m);
    assert fm == seq(|mr|, i requires 0 <= i < |mr| => Tree(m, mr[i]));
    var fl := Forest(l);
    assert fl == seq(|roots|, i requires 0 <= i < |roots| => Tree(l, roots[i]));
    var want := MapForest(fl, f);
    forall i | 0 <= i < |roots| ensures fm[i] == want[i] {
      assert roots[i] in roots;
      TreeMap(l, f, roots[i]);
    }
    assert fm == want;
  }

  /** An edit or a soft delete keeps every article's threads: the forest of
      an article afterwards is the forest before, with the row rewritten in
      place. In particular a soft-deleted comment keeps its replies. */
  lemma RewriteKeepsThreads(rows: seq<Comment>, f: Comment -> Comment, article: int)
    requires KeepsThread(f) && UniqueIds(rows)
    ensures UniqueIds(Filter(rows, (x: Comment) => x.article == article))
    ensures UniqueIds(Filter(MapRows(rows, f), (x: Comment) => x.article == article))
    ensures Forest(Filter(MapRows(rows, f), (x: Comment) => x.article == article)) ==
      MapForest(Forest(Filter(rows, (x: Comment) => x.article == article)), f)
  {
    FilterUniqueBy(rows, (x: Comment) => x.article == article, (x: Comment) => x.id);
    FilterMap(rows, f, (x: Comment) => x.article == article);
    ForestMap(Filter(rows, (x: Comment) => x.article == article), f);
  }
}
