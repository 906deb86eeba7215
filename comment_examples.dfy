/** A worked thread on one article: comment 1 is a root, 2 replies to 1,
    3 replies to 2, and 4 is a second root. The lemmas below compute what
    the tree queries answer for it. */
module CommentExamples {
  import opened Prelude
  import opened Seqs
  import opened Comment
  import opened CommentTreeFacts

  /** A visible comment by a registered user, replying to `parent`. */
  function C(id: int, parent: Option<int>): Comment
  {
    Comment(id, parent, 1, Some("author"), None, "text", 0, true)
  }

  function Thread(): seq<Comment>
  {
    [C(1, None), C(2, Some(1)), C(3, Some(2)), C(4, None)]
  }

  lemma ThreadFind()
    ensures Find(Thread(), 1) == Some(C(1, None))
    ensures Find(Thread(), 2) == Some(C(2, Some(1)))
    ensures Find(Thread(), 3) == Some(C(3, Some(2)))
  {
    var l := Thread();
    assert l[1..] == [C(2, Some(1)), C(3, Some(2)), C(4, None)];
    assert l[1..][1..] == [C(3, Some(2)), C(4, None)];
  }

  /** The thread's ids are unique and every reply comes after its parent, so
      no comment of it is on a cycle. */
  lemma ThreadBuildable()
    ensures UniqueIds(Thread()) && ParentsEarlier(Thread())
    ensures forall c :: c in Thread() ==> Buildable(Thread(), c)
  {
    forall c | c in Thread() ensures !OnCycle(Thread(), c) {
      EarlierParentsNoCycle(Thread(), c);
    }
  }

  lemma FilterFour<T(!new)>(a: T, b: T, c: T, d: T, p: T -> bool)
    ensures Filter([a, b, c, d], p) ==
      (if p(a) then [a] else []) + (if p(b) then [b] else []) +
      (if p(c) then [c] else []) + (if p(d) then [d] else [])
  {
    assert [a, b, c, d] == [a] + [b] + [c] + [d];
    FilterConcat([a] + [b] + [c], [d], p);
    FilterConcat([a] + [b], [c], p);
    FilterConcat([a], [b], p);
    FilterSingle(a, p);
    FilterSingle(b, p);
    FilterSingle(c, p);
    FilterSingle(d, p);
  }

  lemma ThreadChildrenOf1()
    ensures Children(Thread(), 1) == [C(2, Some(1))]
  {
    FilterFour(C(1, None), C(2, Some(1)), C(3, Some(2)), C(4, None), (x: Comment) => x.parent == Some(1));
  }

  lemma ThreadChildrenOf2()
    ensures Children(Thread(), 2) == [C(3, Some(2))]
  {
    FilterFour(C(1, None), C(2, Some(1)), C(3, Some(2)), C(4, None), (x: Comment) => x.parent == Some(2));
  }

  lemma ThreadChildrenOf3()
    ensures Children(Thread(), 3) == []
  {
    FilterFour(C(1, None), C(2, Some(1)), C(3, Some(2)), C(4, None), (x: Comment) => x.parent == Some(3));
  }

  lemma ThreadChildrenOf4()
    ensures Children(Thread(), 4) == []
  {
    FilterFour(C(1, None), C(2, Some(1)), C(3, Some(2)), C(4, None), (x: Comment) => x.parent == Some(4));
  }

  lemma ThreadRoots()
    ensures Roots(Thread()) == [C(1, None), C(4, None)]
  {
    FilterFour(C(1, None), C(2, Some(1)), C(3, Some(2)), C(4, None), (x: Comment) => x.parent.None?);
  }

  lemma ThreadTree3()
    ensures Buildable(Thread(), C(3, Some(2)))
    ensures Tree(Thread(), C(3, Some(2))) == Node(C(3, Some(2)), [])
  {
    ThreadBuildable();
    ThreadChildrenOf3();
  }

  lemma ThreadTree2()
    ensures Buildable(Thread(), C(2, Some(1)))
    ensures Tree(Thread(), C(2, Some(1))) == Node(C(2, Some(1)), [Node(C(3, Some(2)), [])])
  {
    ThreadBuildable();
    ThreadChildrenOf2();
    ThreadTree3();
  }

  lemma ThreadTree1()
    ensures Buildable(Thread(), C(1, None))
    ensures Tree(Thread(), C(1, None)) == Node(C(1, None), [Node(C(2, Some(1)), [Node(C(3, Some(2)), [])])])
  {
    ThreadBuildable();
    ThreadChildrenOf1();
    ThreadTree2();
  }

  lemma ThreadTree4()
    ensures Buildable(Thread(), C(4, None))
    ensures Tree(Thread(), C(4, None)) == Node(C(4, None), [])
  {
    ThreadBuildable();
    ThreadChildrenOf4();
  }

  /** `list` of the article: the roots 1 and 4, with 2 below 1 and 3 below 2. */
  lemma ThreadForest()
    ensures UniqueIds(Thread())
    ensures Forest(Thread()) ==
      [Node(C(1, None), [Node(C(2, Some(1)), [Node(C(3, Some(2)), [])])]), Node(C(4, None), [])]
  {
    ThreadBuildable();
    ThreadRoots();
    ThreadTree1();
    ThreadTree4();
  }

  lemma ThreadAncestors()
    ensures Find(Thread(), 5) == None
    ensures Ancestor(Thread(), Some(C(3, Some(2))), 1) == Some(C(2, Some(1)))
    ensures Ancestor(Thread(), Some(C(3, Some(2))), 2) == Some(C(1, None))
    ensures Ancestor(Thread(), Some(C(3, Some(2))), 3) == None
  {
    ThreadFind();
    var l := Thread();
    assert l[1..][1..][1..][1..] == [];
  }

  /** The context trees of comment 3: context 0, 1, 2 give the trees rooted
      at 3, 2 and 1; context 3 walks past the root and gives no tree. An id the
      list does not hold has no context tree either. */
  lemma ThreadContext()
    ensures UniqueIds(Thread())
    ensures forall k: nat :: ViewTerminates(Thread(), 3, k) && ViewTerminates(Thread(), 5, k)
    ensures ContextTree(Thread(), 3, 0) == Some(Node(C(3, Some(2)), []))
    ensures ContextTree(Thread(), 3, 1) == Some(Node(C(2, Some(1)), [Node(C(3, Some(2)), [])]))
    ensures ContextTree(Thread(), 3, 2) == Some(Node(C(1, None), [Node(C(2, Some(1)), [Node(C(3, Some(2)), [])])]))
    ensures ContextTree(Thread(), 3, 3) == None
    ensures ContextTree(Thread(), 5, 0) == None
  {
    ThreadBuildable();
    forall k: nat ensures ViewTerminates(Thread(), 3, k) && ViewTerminates(Thread(), 5, k) {
      EarlierParentsViewTerminates(Thread(), 3, k);
      EarlierParentsViewTerminates(Thread(), 5, k);
    }
    ThreadFind();
    ThreadAncestors();
    ThreadTree1();
    ThreadTree2();
    ThreadTree3();
  }

  /** A comment stored as a reply to itself. */
  function SelfReply(): Comment
  {
    C(5, Some(5))
  }

  /** For a comment that replies to itself, `view` with no context populates
      a comment on a cycle, and `populate` as written never finishes, however
      deep it is allowed to go. */
  lemma {:induction false} SelfReplyNeverEnds(fuel: nat)
    ensures OnCycle([SelfReply()], SelfReply())
    ensures !ViewTerminates([SelfReply()], 5, 0)
    ensures PopulateWithin([SelfReply()], SelfReply(), fuel) == None
  {
    var s := SelfReply();
    FilterSingle(s, (x: Comment) => x.parent == Some(5));
    assert Children([s], 5) == [s];
    assert Ancestor([s], Some(s), 1) == Some(s);
    assert Find([s], 5) == Some(s);
    if fuel > 0 {
      SelfReplyNeverEnds(fuel - 1);
      var kids := Children([s], s.id);
      var subs := seq(|kids|, i requires 0 <= i < |kids| => PopulateWithin([s], kids[i], fuel - 1));
      assert subs[0].None?;
    }
  }
}
