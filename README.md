# mogger: comments, articles and the article page, in Dafny

This project models the core of the mogger blogging engine: its stored
comments and articles, the rules that decide who may view or edit them, the
reply tree built from an article's flat comment list, the "view in context"
walk, the comment and article lifecycles (submit, edit, soft delete, purge,
delete), the article description and preview cut-offs, the article-url check,
and the two article-page handlers built on them (the article view with its
404 gate and the edit/create form with its permission gate).

Files and modules:

- `prelude.dfy` (`Prelude`): `Option`, `Result`, the error kinds, `byte`.
- `seqs.dfy` (`Seqs`): `Filter`/`Count`, the model of a `WHERE` query. They
  keep table order. There are also lemmas relating the two and key
  uniqueness.
- `users.dfy` (`Users`): permissions, sessions, and the own-or-foreign rule.
  `Session::allowed` is a parameter `allowed: (Session, Permission) ->
  Result<bool>`, because it is a lookup in the store that can fail.
- `comment.dfy` (`Comment`): the comment record and its authorisation. It
  also holds the tree functions (`Tree`, `Forest`, `ContextTree`), the
  imperative `Populate`, and the class `Table` holding the mutable
  `comments` table.
- `comment_tree_facts.dfy` (`CommentTreeFacts`): what the tree functions
  mean, and why soft delete and purge keep threads intact.
- `comment_examples.dfy` (`CommentExamples`): a worked four-comment thread.
- `article.dfy` (`Article`): the article record and its authorisation,
  description, preview, url check, and the class `Table` for the `articles`
  table.
- `article_document.dfy` (`ArticleDocument`): comment templates, the article
  view and `edit_post`.

Modelling choices:

- `comment::view` with more context steps than the comment has ancestors
  answers `None`. Each step of its loop looks up the parent of the current
  comment with `and_then`; once the walk has passed the root there is no
  current comment, and every further step keeps it that way. The walk does
  not stop at the topmost ancestor, although the comment above the loop
  (src/comment.rs:166) describes it as replacing the comment by its parent
  only while that parent exists: `ContextTree` is `None` for
  `k = Height + 1` (`CommentTreeFacts.ContextSteps`,
  `CommentExamples.ThreadContext`).
- `comment::edit` uses a Diesel changeset, and a changeset skips `None`
  fields. So an edit whose `name` is `None` keeps the stored name
  (`Comment.ApplyChanges`, `Comment.Edited`).
- `article::edit` does not check the url for illegal characters. Only
  `article::submit` does.
- The tree is built before any visibility check. Hidden comments stay in
  the tree (`CommentTreeFacts.TreeMembers` does not mention `visible`), and
  an edit or a soft delete keeps every comment where it was, with its
  replies (`CommentTreeFacts.RewriteKeepsThreads`).
- `populate` descends from a comment to its replies and stops only when a
  comment has none. It therefore finishes below every comment that is not
  its own ancestor, and never finishes below one that is. The tree
  functions require exactly that: `Buildable(list, c)` says the ids are
  unique (the primary key) and `c` is not on a parent cycle. The measure is
  the number of comments whose chain reaches `c`, which falls strictly from
  a comment to each reply (`Comment.RepliesBelow`). `list` starts only from
  roots, which are never on a cycle, so `Forest` and `Comment.Table.List`
  need no more than unique ids: a cycle, or a reply whose parent is
  missing, simply never appears in the forest
  (`CommentTreeFacts.ForestMembers`). `view` populates whatever comment its
  walk ends on, so `Comment.Table.View` requires that one not to be on a
  cycle (`Comment.ViewTerminates`); see "Findings".
- Article content and rendered HTML are UTF-8 byte sequences, because
  `description` and `preview` cut at byte offsets. Other text is `string`.
- The store assigns ids from `nextId` and dates from a `now` parameter.

## Model

| member | source | states |
|---|---|---|
| Users.OwnOrForeign | src/comment.rs:75-82 | the foreign permission alone grants access; otherwise access needs the own permission and ownership; a failed lookup is answered as it is, in the order `?` reaches them (foreign permission, own permission, ownership), and no other failure occurs |
| Comment.Editable | src/comment.rs:70-86 | no session gives `Ok(false)`; `Ok(true)` holds exactly when EditForeignComment is granted, or when it is refused, EditComment is granted and the session's user is the author; a guest comment is editable only through EditForeignComment; a failed EditForeignComment lookup is answered first, a failed EditComment lookup only after EditForeignComment was refused |
| Comment.Viewable | src/comment.rs:57-68 | a visible comment is viewable by anyone; a hidden comment is viewable exactly by those who may edit it; with no session the answer is the visibility flag |
| Comment.AuthorName | src/comment.rs:92-98 | a guest name wins; otherwise the registered author's display name, or NotFound when the user lookup fails |
| Comment.Find | src/comment.rs:164 | the found comment is in the list and has that id; no result means no comment has that id |
| Comment.Children | src/comment.rs:112-117 | the replies to a comment are exactly the list's comments whose parent is that id |
| Comment.Roots | src/comment.rs:140-145 | the roots are exactly the list's comments without a parent |
| Comment.NewNode | src/comment.rs:102-107 | a new node holds the comment and no children |
| Comment.RepliesBelow | src/comment.rs:119-122 | a reply to a comment off any parent cycle is off any cycle too, and strictly fewer comments lie below it, so the recursion of `populate` terminates |
| Comment.Populate | src/comment.rs:110-123 | repopulating a node in place yields `Tree(list, node.comment)`, whatever children the node had before |
| Comment.PopulateWithin | src/comment.rs:110-123 | `populate` as written, followed at most `fuel` levels deep: a result holds the comment and one child per reply |
| Comment.Table.ListFlat | src/comment.rs:127-133 | the article's comments, in table order, with unique ids |
| Comment.Table.ByUser | src/comment.rs:237-241 | exactly the comments whose registered author is the user |
| Comment.Table.List | src/comment.rs:136-153 | for any article with unique ids, the comment tree is `Forest` of its flat list: one populated tree per root, in list order |
| Comment.Table.View | src/comment.rs:157-179 | an unknown id is NotFound; otherwise the answer is `ContextTree`: the populated tree `context` parent steps up, or `None` once the walk passes a root |
| Comment.Table.Submit | src/comment.rs:187-192 | appends exactly one comment, with the next id and the current date, and returns it |
| Comment.Table.SubmitReply | src/comment.rs:187-192 | `submit` with a parent check: a reply to a comment that is not stored is NotFound and changes nothing; otherwise the comment is appended as by `submit`; a table in which every reply is younger than its parent stays so |
| Comment.Table.Edit | src/comment.rs:194-204 | every row is rewritten by `Edited`, so only the row with that id changes; the count is 1 or 0; a table in which every reply is younger than its parent stays so |
| Comment.Table.Delete | src/comment.rs:206-212 | every row is rewritten by `SoftDeleted`, so only the row with that id is hidden; the count is 1 or 0; a table in which every reply is younger than its parent stays so |
| Comment.Edited | src/comment.rs:194-204 | the row with that id takes the new content and visibility, and the new name only when one is given; id, parent, article, author and date are kept; every other row is unchanged |
| Comment.SoftDeleted | src/comment.rs:206-212 | the row with that id is hidden, and its id, parent, article, author, name, content and date are kept; every other row is unchanged |
| Comment.Table.Purge | src/comment.rs:214-229 | a reply to the comment anywhere in the table gives HasChildren and leaves the table alone; otherwise exactly the row with that id is removed and the count says how many went; a table in which every reply is younger than its parent stays so |
| CommentTreeFacts.TreeIsPopulated | src/comment.rs:109-123 | every node of `Tree` has exactly the replies of its comment as children, in list order |
| CommentTreeFacts.PopulatedIsTree | src/comment.rs:109-123 | any node populated that way from its comment is `Tree` of that comment, so the populated tree is unique |
| CommentTreeFacts.TreeMembers | src/comment.rs:110-123 | a comment is in the tree of `c` exactly when it is in the list and some number of parent steps from it reaches `c` |
| CommentTreeFacts.TreeContainsDescendant | src/comment.rs:110-123 | every comment whose parent chain reaches `c` is in `c`'s tree |
| CommentTreeFacts.ForestMembers | src/comment.rs:136-153 | the forest holds exactly the comments whose parent chain ends at a root; a reply under a missing parent never appears |
| CommentTreeFacts.TreeNoDups | src/comment.rs:110-123 | a populated tree holds no comment twice |
| CommentTreeFacts.ForestNoDups | src/comment.rs:136-153 | the forest holds no comment twice: sibling trees and root trees are disjoint |
| CommentTreeFacts.ForestExactlyOnce | src/comment.rs:136-153 | each comment whose parent chain reaches a root appears in the forest exactly once, and every other comment never |
| CommentTreeFacts.ForestRoots | src/comment.rs:140-150 | the forest's top nodes are the roots in list order, each populated with its replies |
| CommentTreeFacts.AncestorHeight | src/comment.rs:167-171 | the context walk from a comment succeeds for exactly as many steps as the comment has ancestors |
| CommentTreeFacts.ContextZero | src/comment.rs:157-179 | with no context, `view` answers the comment's own populated tree |
| CommentTreeFacts.ContextSteps | src/comment.rs:157-179 | with `k` steps, `view` answers the tree of the `k`-th ancestor when there is one, and `None` one step past the root |
| CommentTreeFacts.GroundedWalkOffCycle | src/comment.rs:167-171 | every comment on the walk up from a comment whose chain ends is off any parent cycle, so `view` can populate it |
| CommentTreeFacts.PopulateWithinFinishes | src/comment.rs:110-123 | below a comment off any cycle, `populate` as written finishes once allowed deeper than the number of comments below it, and builds `Tree` |
| CommentTreeFacts.EarlierParentsNoCycle | src/comment.rs:187-192 | when every reply is younger than its parent, no comment is on a parent cycle |
| CommentTreeFacts.EarlierParentsViewTerminates | src/comment.rs:157-179 | when every reply is younger than its parent, every `view` finishes, whatever the id and context |
| CommentTreeFacts.EarlierParentsArticleView | src/comment.rs:161-162 | when every reply in the table is younger than its parent, the article list `view` walks meets its termination requirement for every id and context |
| CommentTreeFacts.PurgeKeepsParents | src/comment.rs:218-225 | because a purge is refused while anything replies to the comment, a table where every reply's parent exists keeps that property |
| CommentTreeFacts.RewriteKeepsThreads | src/comment.rs:194-212 | after an edit or a soft delete every article's forest is the forest before with the rewritten rows in place: nothing moves, and a hidden comment keeps its replies |
| CommentExamples.ThreadForest | src/comment.rs:136-153 | the example thread (1; 2 under 1; 3 under 2; 4) gives two roots, 1 with 2 with 3, and 4 alone |
| CommentExamples.ThreadContext | src/comment.rs:157-179 | in the example, the context trees of comment 3 with context 0, 1, 2 are the trees of 3, 2, 1; context 3 gives no tree, and neither does an id the list does not hold (`view` itself answers NotFound for that id, before any walk) |
| CommentExamples.SelfReplyNeverEnds | src/comment.rs:173-176 | a comment stored as a reply to itself is on a cycle, `view` of it with no context does not terminate, and `populate` as written does not finish at any depth |
| Article.Editable | src/article.rs:59-70 | no session gives `Ok(false)`; `Ok(true)` holds exactly when EditForeignArticle is granted, or when it is refused, EditArticle is granted and the session's user is the author; a failed EditForeignArticle lookup is answered first, a failed EditArticle lookup only after EditForeignArticle was refused |
| Article.Viewable | src/article.rs:44-54 | a published article is viewable by anyone; an unpublished one exactly by those who may edit it |
| Article.Description | src/article.rs:84-91 | a prefix of the content of at most 160 bytes, ending on a character boundary, and the longest such prefix; short content is kept whole |
| Article.NthParagraph | src/article.rs:103-107 | the `n`-th non-overlapping `<p>` match, if any, is a tag with exactly `n` tags before it; none means there are at most `n` tags |
| Article.Preview | src/article.rs:93-111 | a rendering under 500 bytes is kept; a longer one is cut just before its third `<p>` (or kept whole with fewer than three) and ends with an ellipsis |
| Article.ContainsIllegalChar | src/article.rs:164-167 | the scan `submit` makes of the url: true exactly when some character of the url is one of the twenty illegal ones listed at src/article.rs:16-20 |
| Article.EditedRows | src/article.rs:173-183 | the same rows in the same order; the row of that id takes the changed title, url, content and visibility and keeps its id, author and date; every other row is unchanged |
| Article.Table.AuthorOf | src/article.rs:199-202 | the author of the article with that id, or NotFound when there is none |
| Article.Table.Submit | src/article.rs:164-171 | a url with an illegal character is refused and nothing changes; otherwise exactly one article is appended, with the next id |
| Article.Table.Edit | src/article.rs:173-183 | the rows become `EditedRows`; the count is 1 or 0 |
| Article.Table.Delete | src/article.rs:185-189 | exactly the article with that id is removed, the order of the rest is kept, and the count says how many went |
| Article.CommentCount | src/article.rs:191-197 | the article's comment count is the length of the flat list its tree is built from |
| ArticleDocument.FromNode | src/document/article.rs:45-62 | the template holds the node's comment, one child template per child, and the given session and reply flag |
| ArticleDocument.FromNodeMirrors | src/document/article.rs:45-62 | the template tree displays exactly the comment tree it was built from |
| ArticleDocument.FromNodeUniform | src/document/article.rs:45-62 | every template in the tree carries the same session and reply flag |
| ArticleDocument.FromList | src/document/article.rs:64-79 | one childless template per comment, in order, all with the given session and flag |
| ArticleDocument.CanComment | src/document/article.rs:95 | replying is offered exactly when guest comments are enabled or a session is logged in |
| ArticleDocument.View | src/document/article.rs:90-120 | for any article, a failed lookup propagates; it gives a 404 exactly when the article is not viewable; a viewable article's page shows the author's name and the templates of its comment forest, or NotFound when the author has no user record |
| ArticleDocument.EditGate | src/document/article.rs:143-152 | with no session the edit gate is closed; it opens exactly when the session holds EditForeignArticle, or is refused it, holds EditArticle and is the article's author; a failed lookup is answered in evaluation order: the foreign permission, then the own permission, then the author lookup |
| ArticleDocument.EditGateIsEditable | src/document/article.rs:143-152 | for an article that exists, the edit gate is `Article::editable` |
| ArticleDocument.CreateGate | src/document/article.rs:159-162 | the create gate opens exactly for a session holding CreateArticle; no session closes it; a failed permission lookup is answered as it is |
| ArticleDocument.EditPost | src/document/article.rs:136-172 | a decoding error, a failed permission lookup or a closed gate returns an error and leaves the table alone; an edit rewrites the rows to `EditedRows`; a create is refused for an illegal url, or appends the article; success redirects to `/article/<url>` of the submitted form |

## Left out

- Database I/O, connections and Diesel errors: every table is a sequence in memory. Constraint violations in the store are not modelled. For example, `submit` of a comment whose parent is missing is accepted.
- Markdown rendering (`formatted`): `Article.Preview` takes the rendered HTML as its input.
- `article::view`, `article::list`, `article::id_from_url` and `document::article::edit`: lookups and template rendering outside the modelled core. `ArticleDocument.View` takes the outcome of the article lookup as a parameter.
- `Session::allowed` and group membership, from src/user.rs: modelled only as the `allowed` oracle.
- Author anonymisation on account deletion: a bulk update that is not in the modelled files.
- `comment::view_single` and `comment::author(conn, id)`: a single-row lookup and a single-column lookup that no modelled operation calls.
- Comment.Table.View: `context` is a `nat`, not a 32-bit unsigned integer, and `i32` ids are unbounded integers. No modelled operation depends on the width.
- Comment.AuthorName: requires a name or an author, because the source's `unwrap` panics on a comment with neither.
- Comment.Table.View: requires that the comment its walk ends on is not on a parent cycle, because the source recurses forever there (see "Findings"); with `Comment.Table.SubmitReply` in place of `Submit`, every table operation (`SubmitReply`, `Edit`, `Delete`, `Purge`) keeps `ParentsEarlier`, under which the requirement holds for every id and context (`CommentTreeFacts.EarlierParentsArticleView`).
- Templates, HTTP responses and the `303 See Other` status of `edit_post`: `ArticleDocument.EditPost` answers only the redirect target.
- The visibility filtering of comments at render time happens in the HTML templates, which are not part of this model.

## Findings

| source | as written | input that shows it | evidently intended | confidence | as-written member | corrected member |
|---|---|---|---|---|---|---|
| src/comment.rs:173-176 | `view` populates the comment its walk ends on, and `populate` recurses into every reply with no cycle guard; `submit` stores any parent id, including the comment's own | a comment stored with `parent` equal to its own id (5 replying to 5), then `view(5, 0)`: the comment is its own reply, so `populate` never returns | every `view` answers a finite tree; a reply can only be stored under a comment that already exists | not executed | CommentExamples.SelfReplyNeverEnds (on Comment.PopulateWithin) | Comment.Table.SubmitReply, with CommentTreeFacts.EarlierParentsViewTerminates |
