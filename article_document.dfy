/** The article pages (src/document/article.rs): comment templates that
    mirror the comment tree, the article view with its visibility gate, and
    the edit/create form handler with its permission gate. */
module ArticleDocument {
  import opened Prelude
  import opened Users
  import C = Comment
  import A = Article

  /** What the comment template needs of one comment: the comment, the
      templates of its replies, the session and whether replying is offered. */
  datatype CommentTemplate = CommentTemplate(
    comment: C.Comment,
    children: seq<CommentTemplate>,
    session: Option<Session>,
    canComment: bool)

  /** `CommentTemplate::from_node`: the template tree mirroring a comment tree. */
  function FromNode(tree: C.Node, session: Option<Session>, canComment: bool): (t: CommentTemplate)
    ensures t.comment == tree.comment && |t.children| == |tree.children|
    ensures t.session == session && t.canComment == canComment
    decreases tree
  {
    CommentTemplate(
      tree.comment,
      seq(|tree.children|, i requires 0 <= i < |tree.children| => FromNode(tree.children[i], session, canComment)),
      session,
      canComment)
  }

  /** The comment tree a template tree displays. */
  function Erase(t: CommentTemplate): (r: C.Node)
    ensures r.comment == t.comment && |r.children| == |t.children|
    decreases t
  {
    C.Node(t.comment, seq(|t.children|, i requires 0 <= i < |t.children| => Erase(t.children[i])))
  }

  /** Every template of the tree carries the same session and reply flag. */
  predicate Uniform(t: CommentTemplate, session: Option<Session>, canComment: bool)
    decreases t
  {
    t.session == session && t.canComment == canComment &&
    forall i :: 0 <= i < |t.children| ==> Uniform(t.children[i], session, canComment)
  }

  /** `from_node` preserves the tree: the template tree displays exactly the
      comment tree it was built from, node for node and in order. */
  lemma {:induction false} FromNodeMirrors(tree: C.Node, session: Option<Session>, canComment: bool)
    ensures Erase(FromNode(tree, session, canComment)) == tree
    decreases tree
  {
    var t := FromNode(tree, session, canComment);
    forall i | 0 <= i < |tree.children| ensures Erase(t.children[i]) == tree.children[i] {
      FromNodeMirrors(tree.children[i], session, canComment);
    }
  }

  /** `from_node` hands the same session and reply flag to every node. */
  lemma {:induction false} FromNodeUniform(tree: C.Node, session: Option<Session>, canComment: bool)
    ensures Uniform(FromNode(tree, session, canComment), session, canComment)
    decreases tree
  {
    var t := FromNode(tree, session, canComment);
    forall i | 0 <= i < |tree.children| ensures Uniform(t.children[i], session, canComment) {
      FromNodeUniform(tree.children[i], session, canComment);
    }
  }

  /** `CommentTemplate::from_list`: one childless template per comment, in order. */
  function FromList(list: seq<C.Comment>, session: Option<Session>, canComment: bool): (ts: seq<CommentTemplate>)
    ensures |ts| == |list|
    ensures forall i :: 0 <= i < |ts| ==>
      ts[i].comment == list[i] && ts[i].children == [] && Uniform(ts[i], session, canComment)
  {
    seq(|list|, i requires 0 <= i < |list| => CommentTemplate(list[i], [], session, canComment))
  }

  /** The templates of a forest, one per tree, in order. */
  function FromForest(forest: seq<C.Node>, session: Option<Session>, canComment: bool): (ts: seq<CommentTemplate>)
    ensures |ts| == |forest|
  {
    seq(|forest|, i requires 0 <= i < |forest| => FromNode(forest[i], session, canComment))
  }

  /** Replying is offered when guest comments are enabled or someone is logged in. */
  function CanComment(guestComments: bool, session: Option<Session>): (b: bool)
    ensures b <==> guestComments || session.Some?
    ensures session.Some? ==> b
    ensures !guestComments ==> (b <==> session.Some?)
  {
    guestComments || session.Some?
  }

  /** The outcome of the article view. */
  datatype Page =
    | NotFound404
    | ArticlePage(
        article: A.Article,
        authorName: string,
        comments: seq<CommentTemplate>,
        session: Option<Session>,
        canComment: bool)

  /** `view`: the article page, or a 404 when the session may not view the
      article. `article` is the outcome of looking the article up;
      `users` maps user ids to display names. */
  method View(article: Result<A.Article>, session: Option<Session>, allowed: Allowed,
              guestComments: bool, comments: C.Table, users: map<string, string>)
    returns (r: Result<Page>)
    requires comments.Valid()
    ensures article.Err? ==> r == Err(article.error)
    ensures article.Ok? && A.Viewable(article.value, session, allowed).Err? ==>
      r == Err(A.Viewable(article.value, session, allowed).error)
    ensures article.Ok? ==>
      (r == Ok(NotFound404) <==> A.Viewable(article.value, session, allowed) == Ok(false))
    ensures article.Ok? && A.Viewable(article.value, session, allowed) == Ok(true) ==>
      r == if article.value.author in users then
             Ok(ArticlePage(
               article.value,
               users[article.value.author],
               FromForest(C.Forest(comments.ListFlat(article.value.id)), session, CanComment(guestComments, session)),
               session,
               CanComment(guestComments, session)))
           else Err(NotFound)
  {
    var canComment := CanComment(guestComments, session);
    if article.Err? {
      return Err(article.error);
    }
    var a := article.value;
    var viewable := A.Viewable(a, session, allowed);
    if viewable.Err? {
      return Err(viewable.error);
    }
    if !viewable.value {
      return Ok(NotFound404);
    }
    var tree := comments.List(a.id);
    var templates := FromForest(tree, session, canComment);
    if a.author !in users {
      return Err(NotFound);
    }
    r := Ok(ArticlePage(a, users[a.author], templates, session, canComment));
  }

  /** A posted article form: the edit of an existing article, or a new one.
      The decoded form, or the decoding error, is given. */
  datatype EditRequest =
    | UpdateArticle(id: int, changes: Result<A.ArticleChanges>)
    | CreateArticle(newArticle: Result<A.NewArticle>)

  /** The permission gate for editing an existing article whose author lookup
      gave `author`: no session never passes; otherwise the own-or-foreign
      rule, where the author is looked up only when it matters. */
  function EditGate(session: Option<Session>, allowed: Allowed, author: Result<string>): (r: Result<bool>)
    ensures session.None? ==> r == Ok(false)
    ensures r == Ok(true) <==>
      session.Some? &&
      (allowed(session.value, EditForeignArticle) == Ok(true) ||
       (allowed(session.value, EditForeignArticle) == Ok(false) &&
        allowed(session.value, EditArticle) == Ok(true) &&
        author == Ok(session.value.user)))
    // a failed lookup is answered, in evaluation order: the foreign
    // permission, the own permission, then the author lookup
    ensures session.Some? && allowed(session.value, EditForeignArticle).Err? ==>
      r == allowed(session.value, EditForeignArticle)
    ensures (session.Some? && allowed(session.value, EditForeignArticle) == Ok(false) &&
       allowed(session.value, EditArticle).Err?) ==>
      r == allowed(session.value, EditArticle)
    ensures (session.Some? && allowed(session.value, EditForeignArticle) == Ok(false) &&
       allowed(session.value, EditArticle) == Ok(true) && author.Err?) ==>
      r == Err(author.error)
    ensures r.Err? ==>
      session.Some? &&
      (r == allowed(session.value, EditForeignArticle) ||
       (allowed(session.value, EditForeignArticle) == Ok(false) &&
        (r == allowed(session.value, EditArticle) ||
         (allowed(session.value, EditArticle) == Ok(true) && author.Err? && r == Err(author.error)))))
  {
    match session
    case None => Ok(false)
    case Some(s) =>
      OwnOrForeign(s, allowed, EditForeignArticle, EditArticle,
        match author case Err(e) => Err(e) case Ok(a) => Ok(s.user == a))
  }

  /** For an article that exists, the edit gate is `Article::editable`. */
  lemma EditGateIsEditable(a: A.Article, session: Option<Session>, allowed: Allowed)
    ensures EditGate(session, allowed, Ok(a.author)) == A.Editable(a, session, allowed)
  {
  }

  /** The gate for creating an article: a session holding `CreateArticle`. */
  function CreateGate(session: Option<Session>, allowed: Allowed): (r: Result<bool>)
    ensures r == Ok(true) <==> session.Some? && allowed(session.value, Permission.CreateArticle) == Ok(true)
    ensures session.None? ==> r == Ok(false)
    ensures session.Some? && allowed(session.value, Permission.CreateArticle).Err? ==>
      r == allowed(session.value, Permission.CreateArticle)
    ensures r.Err? ==> session.Some? && r == allowed(session.value, Permission.CreateArticle)
  {
    match session
    case None => Ok(false)
    case Some(s) => allowed(s, Permission.CreateArticle)
  }

  /** `edit_post`: decodes the form, checks the permission, writes the article
      and answers the redirect target `/article/<url>` of the submitted url. */
  method EditPost(req: EditRequest, session: Option<Session>, allowed: Allowed, articles: A.Table, now: int)
    returns (r: Result<string>)
    requires articles.Valid()
    modifies articles
    ensures articles.Valid()
    ensures r.Ok? ==> (
      match req
      case UpdateArticle(_, changes) => changes.Ok? && r.value == "/article/" + changes.value.url
      case CreateArticle(na) => na.Ok? && r.value == "/article/" + na.value.url)
    ensures req.UpdateArticle? ==>
      var changes := req.changes;
      var gate := EditGate(session, allowed, old(articles.AuthorOf(req.id)));
      if changes.Err? then
        r == Err(changes.error) && unchanged(articles)
      else if gate.Err? then
        r == Err(gate.error) && unchanged(articles)
      else if !gate.value then
        r == Err(PermissionDenied) && unchanged(articles)
      else
        r == Ok("/article/" + changes.value.url) &&
        articles.rows == A.EditedRows(old(articles.rows), req.id, changes.value) &&
        articles.nextId == old(articles.nextId)
    ensures req.CreateArticle? ==>
      var na := req.newArticle;
      var gate := CreateGate(session, allowed);
      if na.Err? then
        r == Err(na.error) && unchanged(articles)
      else if gate.Err? then
        r == Err(gate.error) && unchanged(articles)
      else if !gate.value then
        r == Err(PermissionDenied) && unchanged(articles)
      else if !A.UrlAllowed(na.value.url) then
        r == Err(IllegalUrl) && articles.rows == old(articles.rows) && articles.nextId == old(articles.nextId)
      else
        r == Ok("/article/" + na.value.url) &&
        articles.nextId == old(articles.nextId) + 1 &&
        articles.rows == old(articles.rows) +
          [A.Article(old(articles.nextId), na.value.title, na.value.author, na.value.url, na.value.content, now, na.value.visible)]
  {
    match req
    case UpdateArticle(id, changes) =>
      if changes.Err? {
        return Err(changes.error);
      }
      var gate := EditGate(session, allowed, articles.AuthorOf(id));
      if gate.Err? {
        return Err(gate.error);
      }
      if !gate.value {
        return Err(PermissionDenied);
      }
      var _ := articles.Edit(id, changes.value);
      r := Ok("/article/" + changes.value.url);
    case CreateArticle(na) =>
      if na.Err? {
        return Err(na.error);
      }
      var gate := CreateGate(session, allowed);
      if gate.Err? {
        return Err(gate.error);
      }
      if !gate.value {
        return Err(PermissionDenied);
      }
      var submitted := articles.Submit(na.value, now);
      if submitted.Err? {
        return Err(submitted.error);
      }
      r := Ok("/article/" + na.value.url);
  }
}
