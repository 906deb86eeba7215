/** Comments (src/comment.rs): the comment record, its authorisation rules,
    the reply tree built from an article's flat comment list, and the comment
    table with its lifecycle operations. */
module Comment {
  import opened Prelude
  import opened Seqs
  import opened Users

  /** A stored comment. `parent` is the id of the comment it replies to;
      `author` is the registered user who wrote it (`None` for a guest);
      `name` is the display name of a guest comment. */
  datatype Comment = Comment(
    id: int,
    parent: Option<int>,
    article: int,
    author: Option<string>,
    name: Option<string>,
    content: string,
    date: int,
    visible: bool)

  /** A comment as submitted: the store assigns its id and date. */
  datatype NewComment = NewComment(
    parent: Option<int>,
    article: int,
    author: Option<string>,
    name: Option<string>,
    content: string,
    visible: bool)

  /** The fields an edit may change. */
  datatype CommentChanges = CommentChanges(name: Option<string>, content: string, visible: bool)

  /** A comment together with its replies, in list order. */
  datatype Node = Node(comment: Comment, children: seq<Node>)

  // ---------------------------------------------------------------------------
  // Authorisation

  /** `Comment::editable`: no session never edits; otherwise the own-or-foreign
      rule with `EditForeignComment` / `EditComment`, where owning means being
      the comment's registered author. */
  function Editable(c: Comment, session: Option<Session>, allowed: Allowed): (r: Result<bool>)
    ensures session.None? ==> r == Ok(false)
    ensures r == Ok(true) <==>
      session.Some? &&
      (allowed(session.value, EditForeignComment) == Ok(true) ||
       (allowed(session.value, EditForeignComment) == Ok(false) &&
        allowed(session.value, EditComment) == Ok(true) &&
        c.author == Some(session.value.user)))
    // a guest comment can only be edited through the foreign permission
    ensures c.author.None? ==>
      (r == Ok(true) <==> session.Some? && allowed(session.value, EditForeignComment) == Ok(true))
    // a failed lookup is answered, the foreign permission's first
    ensures session.Some? && allowed(session.value, EditForeignComment).Err? ==>
      r == allowed(session.value, EditForeignComment)
    ensures (session.Some? && allowed(session.value, EditForeignComment) == Ok(false) &&
       allowed(session.value, EditComment).Err?) ==>
      r == allowed(session.value, EditComment)
    ensures r.Err? ==>
      session.Some? &&
      (r == allowed(session.value, EditForeignComment) ||
       (allowed(session.value, EditForeignComment) == Ok(false) && r == allowed(session.value, EditComment)))
  {
    match session
    case None => Ok(false)
    case Some(s) => OwnOrForeign(s, allowed, EditForeignComment, EditComment, Ok(c.author == Some(s.user)))
  }

  /** `Comment::viewable`: a visible comment is viewable by anyone; a hidden one
      exactly by those who may edit it. */
  function Viewable(c: Comment, session: Option<Session>, allowed: Allowed): (r: Result<bool>)
    ensures c.visible ==> r == Ok(true)
    ensures !c.visible ==> r == Editable(c, session, allowed)
    ensures session.None? ==> r == Ok(c.visible)
  {
    if c.visible then Ok(true) else Editable(c, session, allowed)
  }

  /** `Comment::author`: the display name. A guest name takes precedence;
      otherwise the registered author's name is looked up in `users`
      (user id to display name). With neither, the source unwraps `None`. */
  function AuthorName(c: Comment, users: map<string, string>): (r: Result<string>)
    requires c.name.Some? || c.author.Some?
    ensures c.name.Some? ==> r == Ok(c.name.value)
    ensures c.name.None? ==>
      (r.Ok? <==> c.author.value in users) &&
      (r.Ok? ==> r.value == users[c.author.value]) &&
      (r.Err? ==> r.error == NotFound)
  {
    match c.name
    case Some(n) => Ok(n)
    case None => if c.author.value in users then Ok(users[c.author.value]) else Err(NotFound)
  }

  // ---------------------------------------------------------------------------
  // The reply tree

  /** No two entries share an id (the table's primary key). */
  predicate UniqueIds(list: seq<Comment>)
  {
    UniqueBy(list, (c: Comment) => c.id)
  }

  /** The first comment with the given id (`list.iter().find(..)`). */
  function Find(list: seq<Comment>, id: int): (r: Option<Comment>)
    ensures r.Some? ==> r.value in list && r.value.id == id
    ensures r.None? ==> forall c :: c in list ==> c.id != id
  {
    if |list| == 0 then None
    else if list[0].id == id then Some(list[0])
    else Find(list[1..], id)
  }

  lemma FindUnique(list: seq<Comment>, c: Comment)
    requires UniqueIds(list) && c in list
    ensures Find(list, c.id) == Some(c)
  {
    var f := Find(list, c.id);
    UniqueByKeyed(list, (x: Comment) => x.id, f.value, c);
  }

  /** The parent of `c` within `list`, if it has one there. */
  function Up(list: seq<Comment>, c: Comment): (r: Option<Comment>)
    ensures r.Some? ==> r.value in list && c.parent == Some(r.value.id)
    ensures c.parent.None? ==> r.None?
  {
    match c.parent
    case None => None
    case Some(p) => Find(list, p)
  }

  /** One step of the context walk in `view`: from a comment to its parent;
      from nothing, or from a comment whose parent is absent, to nothing. */
  function Step(list: seq<Comment>, c: Option<Comment>): (r: Option<Comment>)
    ensures r.Some? ==> r.value in list && c.Some? && c.value.parent == Some(r.value.id)
  {
    match c
    case None => None
    case Some(x) => Up(list, x)
  }

  /** The result of `k` walk steps from `start`. */
  function Ancestor(list: seq<Comment>, start: Option<Comment>, k: nat): (r: Option<Comment>)
    requires start.Some? ==> start.value in list
    ensures r.Some? ==> r.value in list
  {
    if k == 0 then start else Step(list, Ancestor(list, start, k - 1))
  }

  /** The walk can be described from the start as well as from the end. */
  lemma {:induction false} AncestorShift(list: seq<Comment>, x: Comment, k: nat)
    requires x in list
    ensures Ancestor(list, Some(x), k + 1) == Ancestor(list, Up(list, x), k)
  {
    if k > 0 {
      AncestorShift(list, x, k - 1);
    }
  }

  lemma {:induction false} AncestorOfNone(list: seq<Comment>, k: nat)
    ensures Ancestor(list, None, k) == None
  {
    if k > 0 {
      AncestorOfNone(list, k - 1);
    }
  }

  /** `c` is its own ancestor: its parent chain runs in a circle. */
  ghost predicate OnCycle(list: seq<Comment>, c: Comment)
    requires c in list
  {
    exists k: nat :: 0 < k && Ancestor(list, Some(c), k) == Some(c)
  }

  /** What building the tree below `c` needs: the list's ids are unique and
      `c` is not on a parent cycle. Without the second, `populate` recurses
      forever: `c` is a reply below itself. */
  ghost predicate Buildable(list: seq<Comment>, c: Comment)
  {
    UniqueIds(list) && c in list && !OnCycle(list, c)
  }

  /** The comments of `list` whose parent chain reaches `c`, `c` included. */
  ghost function Below(list: seq<Comment>, c: Comment): set<Comment>
  {
    set x | x in list && exists k: nat :: Ancestor(list, Some(x), k) == Some(c)
  }

  /** The number of parent steps from `c` that stay within `list`, counting at most `fuel`. */
  function Height(list: seq<Comment>, c: Comment, fuel: nat): (h: nat)
    ensures h <= fuel
    decreases fuel
  {
    if fuel == 0 then 0
    else match Up(list, c)
      case None => 0
      case Some(p) => 1 + Height(list, p, fuel - 1)
  }

  /** The parent chain from `c` ends (at a root or at a parent missing from
      `list`) within `fuel` steps. */
  predicate Grounded(list: seq<Comment>, c: Comment, fuel: nat)
    decreases fuel
  {
    match Up(list, c)
    case None => true
    case Some(p) => fuel > 0 && Grounded(list, p, fuel - 1)
  }

  /** The comments replying to `id`, in list order. */
  function Children(list: seq<Comment>, id: int): (r: seq<Comment>)
    ensures forall x :: x in r <==> x in list && x.parent == Some(id)
  {
    Filter(list, (x: Comment) => x.parent == Some(id))
  }

  /** The comments with no parent, in list order. */
  function Roots(list: seq<Comment>): (r: seq<Comment>)
    ensures forall x :: x in r <==> x in list && x.parent.None?
  {
    Filter(list, (x: Comment) => x.parent.None?)
  }

  /** A reply to a comment that is not on a cycle is not on one either, and
      fewer comments lie below it: the measure on which building the tree
      terminates. */
  lemma RepliesBelow(list: seq<Comment>, c: Comment)
    requires Buildable(list, c)
    ensures forall x :: x in Children(list, c.id) ==>
      Buildable(list, x) && Below(list, x) <= Below(list, c) && |Below(list, x)| < |Below(list, c)|
  {
    FindUnique(list, c);
    forall k: nat | 0 < k ensures Ancestor(list, Some(c), k) != Some(c) {
      assert !OnCycle(list, c);
    }
    assert Ancestor(list, Some(c), 0) == Some(c);
    forall x | x in Children(list, c.id)
      ensures Buildable(list, x) && Below(list, x) <= Below(list, c) && |Below(list, x)| < |Below(list, c)|
    {
      assert Up(list, x) == Some(c);
      forall y | y in Below(list, x) ensures y in Below(list, c) {
        var k: nat :| Ancestor(list, Some(y), k) == Some(x);
        assert Ancestor(list, Some(y), k + 1) == Some(c);
      }
      forall k: nat ensures Ancestor(list, Some(c), k) != Some(x) {
        assert Ancestor(list, Some(c), k + 1) != Some(c);
      }
      forall k: nat | 0 < k ensures Ancestor(list, Some(x), k) != Some(x) {
        AncestorShift(list, x, k - 1);
      }
      StrictSubsetSmaller(Below(list, x), Below(list, c), c);
    }
  }

  /** A comment without a parent is never on a cycle. */
  lemma RootsBuildable(list: seq<Comment>)
    requires UniqueIds(list)
    ensures forall x :: x in Roots(list) ==> Buildable(list, x)
  {
    forall x, k: nat | x in Roots(list) && 0 < k ensures Ancestor(list, Some(x), k) == None {
      AncestorShift(list, x, k - 1);
      AncestorOfNone(list, k - 1);
    }
  }

  /** `Node::new`: a node holding `c` and no children yet. */
  function NewNode(c: Comment): (n: Node)
    ensures n.comment == c && n.children == []
  {
    Node(c, [])
  }

  /** The fully populated tree below `c`: its children are the replies to `c`
      in list order, each populated in the same way. */
  function Tree(list: seq<Comment>, c: Comment): (r: Node)
    requires Buildable(list, c)
    ensures r.comment == c && |r.children| == |Children(list, c.id)|
    decreases |Below(list, c)|
  {
    RepliesBelow(list, c);
    var kids := Children(list, c.id);
    Node(c, seq(|kids|, i requires 0 <= i < |kids| => Tree(list, kids[i])))
  }

  /** The forest of an article: one populated tree per root, in list order. */
  function Forest(list: seq<Comment>): (r: seq<Node>)
    requires UniqueIds(list)
    ensures |r| == |Roots(list)|
  {
    RootsBuildable(list);
    var roots := Roots(list);
    seq(|roots|, i requires 0 <= i < |roots| => Tree(list, roots[i]))
  }

  /** The comment `view` populates, `context` steps above comment `id`, is
      not on a parent cycle, or there is none. */
  ghost predicate ViewTerminates(list: seq<Comment>, id: int, context: nat)
  {
    var end := Ancestor(list, Find(list, id), context);
    end.Some? ==> !OnCycle(list, end.value)
  }

  /** What `view` answers for comment `id` and `context` steps, given the flat
      list of its article. */
  function ContextTree(list: seq<Comment>, id: int, context: nat): (r: Option<Node>)
    requires UniqueIds(list) && ViewTerminates(list, id, context)
    ensures r.Some? <==> Ancestor(list, Find(list, id), context).Some?
    ensures r.Some? ==> r.value.comment == Ancestor(list, Find(list, id), context).value
  {
    match Ancestor(list, Find(list, id), context)
    case None => None
    case Some(a) => Some(Tree(list, a))
  }

  /** `Node::populate`: replaces the node's children by new nodes for the
      replies to its comment, then populates each child in turn. */
  method Populate(node: Node, list: seq<Comment>) returns (r: Node)
    requires Buildable(list, node.comment)
    ensures r == Tree(list, node.comment)
    decreases |Below(list, node.comment)|
  {
    var kids := Children(list, node.comment.id);
    var children := seq(|kids|, i requires 0 <= i < |kids| => NewNode(kids[i]));
    RepliesBelow(list, node.comment);
    for i := 0 to |children|
      invariant |children| == |kids|
      invariant forall k :: 0 <= k < i ==> children[k] == Tree(list, kids[k])
      invariant forall k :: i <= k < |children| ==> children[k] == NewNode(kids[k])
    {
      var child := Populate(children[i], list);
      children := children[i := child];
    }
    r := Node(node.comment, children);
  }

  /** `Node::populate` as written, unfolded at most `fuel` levels deep:
      `None` when the recursion has not finished within that depth. Nothing
      stops it at a comment that is its own ancestor. */
  function PopulateWithin(list: seq<Comment>, c: Comment, fuel: nat): (r: Option<Node>)
    ensures fuel == 0 ==> r.None?
    ensures r.Some? ==> r.value.comment == c && |r.value.children| == |Children(list, c.id)|
    decreases fuel
  {
    if fuel == 0 then None
    else
      var kids := Children(list, c.id);
      var subs := seq(|kids|, i requires 0 <= i < |kids| => PopulateWithin(list, kids[i], fuel - 1));
      if forall i :: 0 <= i < |subs| ==> subs[i].Some? then
        Some(Node(c, seq(|subs|, i requires 0 <= i < |subs| => subs[i].value)))
      else None
  }

  /** The comment fields after an edit. A `None` name leaves the stored name
      as it is (a changeset skips `None` fields). */
  function ApplyChanges(c: Comment, ch: CommentChanges): (r: Comment)
    ensures r.id == c.id && r.parent == c.parent && r.article == c.article
    ensures r.author == c.author && r.date == c.date
    ensures r.name == (if ch.name.Some? then ch.name else c.name)
    ensures r.content == ch.content && r.visible == ch.visible
  {
    c.(name := if ch.name.Some? then ch.name else c.name, content := ch.content, visible := ch.visible)
  }

  /** A row after the edit of comment `id`. */
  function Edited(id: int, ch: CommentChanges, c: Comment): (r: Comment)
    ensures r.id == c.id && r.parent == c.parent && r.article == c.article
    ensures c.id != id ==> r == c
    ensures c.id == id ==>
      (r.content == ch.content && r.visible == ch.visible &&
       r.name == (if ch.name.Some? then ch.name else c.name) &&
       r.author == c.author && r.date == c.date)
  {
    if c.id == id then ApplyChanges(c, ch) else c
  }

  /** A row after the soft delete of comment `id`. */
  function SoftDeleted(id: int, c: Comment): (r: Comment)
    ensures r.id == c.id && r.parent == c.parent && r.article == c.article
    ensures r.visible == (c.visible && c.id != id)
    ensures c.id == id ==>
      (r.author == c.author && r.name == c.name && r.content == c.content && r.date == c.date)
    ensures c.id != id ==> r == c
  {
    if c.id == id then c.(visible := false) else c
  }

  /** Every row rewritten by `f`, in order (an `UPDATE` without reordering). */
  function MapRows(rows: seq<Comment>, f: Comment -> Comment): (r: seq<Comment>)
    ensures |r| == |rows| && forall i :: 0 <= i < |rows| ==> r[i] == f(rows[i])
  {
    seq(|rows|, i requires 0 <= i < |rows| => f(rows[i]))
  }

  // ---------------------------------------------------------------------------
  // The comment table

  /** Every reply has a smaller id than the comment it answers, as it does
      when a reply can only be stored after its parent. */
  predicate ParentsEarlier(list: seq<Comment>)
  {
    forall c :: c in list && c.parent.Some? ==> c.parent.value < c.id
  }

  /** The `comments` table, in the order the store returns its rows. */
  class Table {
    var rows: seq<Comment>
    /** The id the store assigns to the next inserted comment. */
    var nextId: int

    ghost predicate Valid()
      reads this
    {
      UniqueIds(rows) && forall c :: c in rows ==> c.id < nextId
    }

    constructor ()
      ensures Valid() && rows == []
    {
      rows := [];
      nextId := 1;
    }

    /** `list_flat`: the comments of one article, in table order. */
    function ListFlat(article: int): (r: seq<Comment>)
      requires Valid()
      reads this
      ensures UniqueIds(r)
      ensures forall x :: x in r <==> x in rows && x.article == article
    {
      FilterUniqueBy(rows, (x: Comment) => x.article == article, (c: Comment) => c.id);
      Filter(rows, (x: Comment) => x.article == article)
    }

    /** `by_user`: the comments a registered user wrote, in table order. */
    function ByUser(user: string): (r: seq<Comment>)
      reads this
      ensures forall x :: x in r <==> x in rows && x.author == Some(user)
    {
      Filter(rows, (x: Comment) => x.author == Some(user))
    }

    /** `list`: the article's root comments, each populated with its replies. */
    method List(article: int) returns (tree: seq<Node>)
      requires Valid()
      ensures tree == Forest(ListFlat(article))
    {
      var list := ListFlat(article);
      var roots := Roots(list);
      RootsBuildable(list);
      tree := seq(|roots|, i requires 0 <= i < |roots| => NewNode(roots[i]));
      for i := 0 to |tree|
        invariant |tree| == |roots|
        invariant forall k :: 0 <= k < |roots| ==> Buildable(list, roots[k])
        invariant forall k :: 0 <= k < i ==> tree[k] == Tree(list, roots[k])
        invariant forall k :: i <= k < |tree| ==> tree[k] == NewNode(roots[k])
      {
        var n := Populate(tree[i], list);
        tree := tree[i := n];
      }
      assert tree == Forest(list);
    }

    /** `view`: the populated tree rooted `context` parent steps above comment
        `id`. A comment that is not in the table is an error; a walk that runs
        out of parents yields no tree. */
    method View(id: int, context: nat) returns (r: Result<Option<Node>>)
      requires Valid()
      requires Find(rows, id).Some? ==> ViewTerminates(ListFlat(Find(rows, id).value.article), id, context)
      ensures Find(rows, id).None? ==> r == Err(NotFound)
      ensures Find(rows, id).Some? ==>
        r == Ok(ContextTree(ListFlat(Find(rows, id).value.article), id, context))
    {
      var found := Find(rows, id);
      if found.None? {
        return Err(NotFound);
      }
      var list := ListFlat(found.value.article);
      var start := Find(list, id);
      var comment := start;
      for i := 0 to context
        invariant comment == Ancestor(list, start, i)
      {
        comment := Step(list, comment);
      }
      var node := if comment.Some? then Some(NewNode(comment.value)) else None;
      if node.Some? {
        var n := Populate(node.value, list);
        node := Some(n);
      }
      r := Ok(node);
    }

    /** `submit`: inserts the comment with the next id and the current time. */
    method Submit(nc: NewComment, now: int) returns (c: Comment)
      requires Valid()
      modifies this
      ensures Valid()
      ensures c == Comment(old(nextId), nc.parent, nc.article, nc.author, nc.name, nc.content, now, nc.visible)
      ensures rows == old(rows) + [c] && nextId == old(nextId) + 1
    {
      c := Comment(nextId, nc.parent, nc.article, nc.author, nc.name, nc.content, now, nc.visible);
      rows := rows + [c];
      nextId := nextId + 1;
    }

    /** `submit` with the check the insert lacks: a reply to a comment that is
        not stored is refused, so no comment can answer itself or a later one. */
    method SubmitReply(nc: NewComment, now: int) returns (r: Result<Comment>)
      requires Valid()
      modifies this
      ensures Valid()
      ensures ParentsEarlier(old(rows)) ==> ParentsEarlier(rows)
      ensures nc.parent.Some? && Find(old(rows), nc.parent.value).None? ==>
        r == Err(NotFound) && rows == old(rows) && nextId == old(nextId)
      ensures (nc.parent.None? || Find(old(rows), nc.parent.value).Some?) ==>
        r == Ok(Comment(old(nextId), nc.parent, nc.article, nc.author, nc.name, nc.content, now, nc.visible)) &&
        rows == old(rows) + [r.value] && nextId == old(nextId) + 1
    {
      if nc.parent.Some? && Find(rows, nc.parent.value).None? {
        return Err(NotFound);
      }
      var c := Submit(nc, now);
      r := Ok(c);
    }

    /** `edit`: applies the changes to the row with this id; reports how many rows changed. */
    method Edit(id: int, changes: CommentChanges) returns (n: nat)
      requires Valid()
      modifies this
      ensures Valid() && nextId == old(nextId)
      ensures ParentsEarlier(old(rows)) ==> ParentsEarlier(rows)
      ensures n == if Find(old(rows), id).Some? then 1 else 0
      ensures rows == MapRows(old(rows), (c: Comment) => Edited(id, changes, c))
    {
      n := Count(rows, (c: Comment) => c.id == id);
      CountAtMostOne(rows, (c: Comment) => c.id == id);
      rows := MapRows(rows, (c: Comment) => Edited(id, changes, c));
    }

    /** `delete`: the soft delete, hiding the row with this id. */
    method Delete(id: int) returns (n: nat)
      requires Valid()
      modifies this
      ensures Valid() && nextId == old(nextId)
      ensures ParentsEarlier(old(rows)) ==> ParentsEarlier(rows)
      ensures n == if Find(old(rows), id).Some? then 1 else 0
      ensures rows == MapRows(old(rows), (c: Comment) => SoftDeleted(id, c))
    {
      n := Count(rows, (c: Comment) => c.id == id);
      CountAtMostOne(rows, (c: Comment) => c.id == id);
      rows := MapRows(rows, (c: Comment) => SoftDeleted(id, c));
    }

    /** `purge`: the hard delete, refused while any comment replies to `id`. */
    method Purge(id: int) returns (r: Result<nat>)
      requires Valid()
      modifies this
      ensures Valid() && nextId == old(nextId)
      ensures ParentsEarlier(old(rows)) ==> ParentsEarlier(rows)
      ensures (exists c :: c in old(rows) && c.parent == Some(id)) ==>
        r == Err(HasChildren) && rows == old(rows)
      ensures (forall c :: c in old(rows) ==> c.parent != Some(id)) ==>
        r == Ok(if Find(old(rows), id).Some? then 1 else 0) &&
        rows == Filter(old(rows), (c: Comment) => c.id != id) &&
        |rows| == |old(rows)| - r.value
    {
      var childrenCount := Count(rows, (c: Comment) => c.parent == Some(id));
      if childrenCount == 0 {
        var removed := Count(rows, (c: Comment) => c.id == id);
        CountAtMostOne(rows, (c: Comment) => c.id == id);
        FilterCountComplement(rows, (c: Comment) => c.id != id, (c: Comment) => c.id == id);
        FilterUniqueBy(rows, (c: Comment) => c.id != id, (c: Comment) => c.id);
        rows := Filter(rows, (c: Comment) => c.id != id);
        r := Ok(removed);
      } else {
        r := Err(HasChildren);
      }
    }
  }
}
