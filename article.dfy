/** Articles (src/article.rs): the article record, its authorisation rules,
    the description and preview cut-offs, url validation, and the article
    table with its lifecycle operations. */
module Article {
  import opened Prelude
  import opened Seqs
  import opened Users
  import Comment

  /** The longest preview-free rendering, in bytes. */
  const PREVIEW_LEN: nat := 500
  /** The most bytes a description keeps. */
  const DESCRIPTION_LEN: nat := 160

  /** Characters that may not appear in an article url. */
  const ILLEGAL_URL_CHARS: seq<char> :=
    ['^', '"', '&', ',', '@', '#', '$', '%', '+', '*', ':', '?', ';', '<', '>', '[', ']', '`', '{', '}']

  /** The opening paragraph tag `<p>`, in bytes. */
  const PARAGRAPH: seq<byte> := [0x3C, 0x70, 0x3E]
  /** The ellipsis character U+2026, UTF-8 encoded. */
  const ELLIPSIS: seq<byte> := [0xE2, 0x80, 0xA6]

  /** A stored article. `content` is the UTF-8 encoded markdown body;
      `visible` says whether it has been published. */
  datatype Article = Article(
    id: int,
    title: string,
    author: string,
    url: string,
    content: seq<byte>,
    date: int,
    visible: bool)

  /** An article as submitted: the store assigns its id and date. */
  datatype NewArticle = NewArticle(title: string, url: string, content: seq<byte>, author: string, visible: bool)

  /** The fields an edit replaces. */
  datatype ArticleChanges = ArticleChanges(title: string, url: string, content: seq<byte>, visible: bool)

  // ---------------------------------------------------------------------------
  // Authorisation

  /** `Article::editable`: no session never edits; otherwise the own-or-foreign
      rule with `EditForeignArticle` / `EditArticle`, where owning means being
      the article's author. */
  function Editable(a: Article, session: Option<Session>, allowed: Allowed): (r: Result<bool>)
    ensures session.None? ==> r == Ok(false)
    ensures r == Ok(true) <==>
      session.Some? &&
      (allowed(session.value, EditForeignArticle) == Ok(true) ||
       (allowed(session.value, EditForeignArticle) == Ok(false) &&
        allowed(session.value, EditArticle) == Ok(true) &&
        a.author == session.value.user))
    // a failed lookup is answered, the foreign permission's first
    ensures session.Some? && allowed(session.value, EditForeignArticle).Err? ==>
      r == allowed(session.value, EditForeignArticle)
    ensures (session.Some? && allowed(session.value, EditForeignArticle) == Ok(false) &&
       allowed(session.value, EditArticle).Err?) ==>
      r == allowed(session.value, EditArticle)
    ensures r.Err? ==>
      session.Some? &&
      (r == allowed(session.value, EditForeignArticle) ||
       (allowed(session.value, EditForeignArticle) == Ok(false) && r == allowed(session.value, EditArticle)))
  {
    match session
    case None => Ok(false)
    case Some(s) => OwnOrForeign(s, allowed, EditForeignArticle, EditArticle, Ok(a.author == s.user))
  }

  /** `Article::viewable`: a published article is viewable by anyone; an
      unpublished one exactly by those who may edit it. */
  function Viewable(a: Article, session: Option<Session>, allowed: Allowed): (r: Result<bool>)
    ensures a.visible ==> r == Ok(true)
    ensures !a.visible ==> r == Editable(a, session, allowed)
    ensures session.None? ==> r == Ok(a.visible)
  {
    if a.visible then Ok(true) else Editable(a, session, allowed)
  }

  // ---------------------------------------------------------------------------
  // Description

  /** A UTF-8 continuation byte (`10xxxxxx`): it never starts a character. */
  predicate IsContinuation(b: byte)
  {
    0x80 <= b < 0xC0
  }

  /** `str::is_char_boundary`: position 0, the end, or a byte that starts a
      character; positions past the end are not boundaries. */
  predicate IsCharBoundary(s: seq<byte>, i: nat)
  {
    i == 0 || i == |s| || (i < |s| && !IsContinuation(s[i]))
  }

  /** `description`: the content cut at the last character boundary at or
      before byte 160. */
  method Description(a: Article) returns (d: seq<byte>)
    ensures |d| <= DESCRIPTION_LEN && |d| <= |a.content|
    ensures d == a.content[..|d|]
    ensures IsCharBoundary(a.content, |d|)
    ensures forall k: nat :: |d| < k <= DESCRIPTION_LEN ==> !IsCharBoundary(a.content, k)
    ensures |a.content| <= DESCRIPTION_LEN ==> d == a.content
  {
    var end: nat := DESCRIPTION_LEN;
    while !IsCharBoundary(a.content, end)
      invariant end <= DESCRIPTION_LEN
      invariant forall k: nat :: end < k <= DESCRIPTION_LEN ==> !IsCharBoundary(a.content, k)
      decreases end
    {
      end := end - 1;
    }
    d := a.content[..end];
    assert IsCharBoundary(a.content, |a.content|);
  }

  // ---------------------------------------------------------------------------
  // Preview

  /** A `<p>` tag starts at byte `i`. */
  predicate IsParagraph(s: seq<byte>, i: nat)
  {
    i + |PARAGRAPH| <= |s| && s[i..i + |PARAGRAPH|] == PARAGRAPH
  }

  /** The number of `<p>` tags starting in `[lo, hi)`. */
  function CountParagraphs(s: seq<byte>, lo: nat, hi: nat): (k: nat)
    ensures lo <= hi ==> k <= hi - lo
    ensures lo >= hi ==> k == 0
    decreases hi - lo
  {
    if lo >= hi then 0 else (if IsParagraph(s, lo) then 1 else 0) + CountParagraphs(s, lo + 1, hi)
  }

  /** Tags cannot overlap: the two bytes after a tag's start start no tag. */
  lemma SkipParagraph(s: seq<byte>, i: nat, hi: nat)
    requires IsParagraph(s, i) && i + |PARAGRAPH| <= hi
    ensures CountParagraphs(s, i, hi) == 1 + CountParagraphs(s, i + |PARAGRAPH|, hi)
  {
    assert s[i + 1] == s[i..i + 3][1] == 0x70;
    assert s[i + 2] == s[i..i + 3][2] == 0x3E;
    assert !IsParagraph(s, i + 1);
    assert !IsParagraph(s, i + 2);
    assert CountParagraphs(s, i, hi) == 1 + CountParagraphs(s, i + 1, hi);
    assert CountParagraphs(s, i + 1, hi) == CountParagraphs(s, i + 2, hi);
    assert CountParagraphs(s, i + 2, hi) == CountParagraphs(s, i + 3, hi);
  }

  /** No tag starts where fewer than three bytes remain. */
  lemma {:induction false} NoRoomNoParagraph(s: seq<byte>, lo: nat, hi: nat)
    requires lo + |PARAGRAPH| > |s|
    ensures CountParagraphs(s, lo, hi) == 0
    decreases hi - lo
  {
    if lo < hi {
      NoRoomNoParagraph(s, lo + 1, hi);
    }
  }

  /** `match_indices("<p>").nth(n)` from byte `from`: the start of the tag
      preceded by exactly `n` tags since `from`, if there is one. Matches are
      found left to right and do not overlap. */
  function NthParagraph(s: seq<byte>, from: nat, n: nat): (r: Option<nat>)
    requires from <= |s|
    ensures r.Some? ==> from <= r.value && IsParagraph(s, r.value) && CountParagraphs(s, from, r.value) == n
    ensures r.None? ==> CountParagraphs(s, from, |s|) <= n
    decreases |s| - from
  {
    if from + |PARAGRAPH| > |s| then
      NoRoomNoParagraph(s, from, |s|);
      None
    else if IsParagraph(s, from) then
      if n == 0 then Some(from)
      else
        var r := NthParagraph(s, from + |PARAGRAPH|, n - 1);
        SkipParagraph(s, from, if r.Some? then r.value else |s|);
        r
    else
      NthParagraph(s, from + 1, n)
  }

  /** `preview` of the rendered body: short renderings are kept whole; longer
      ones are cut before their third `<p>` tag (or kept whole when they have
      fewer than three) and end with an ellipsis. */
  method Preview(rendered: seq<byte>) returns (p: seq<byte>)
    ensures |rendered| < PREVIEW_LEN ==> p == rendered
    ensures |rendered| >= PREVIEW_LEN ==>
      exists end :: 0 <= end <= |rendered| && p == rendered[..end] + ELLIPSIS &&
        ((IsParagraph(rendered, end) && CountParagraphs(rendered, 0, end) == 2) ||
         (end == |rendered| && CountParagraphs(rendered, 0, |rendered|) < 3))
  {
    p := rendered;
    var len := |p|;
    if len < PREVIEW_LEN {
      return;
    }
    var end := match NthParagraph(p, 0, 2) case Some(idx) => idx case None => len;
    p := p[..end];
    p := p + ELLIPSIS;
  }

  // ---------------------------------------------------------------------------
  // Url validation

  /** No character of the url is illegal. */
  predicate UrlAllowed(url: string)
  {
    forall i :: 0 <= i < |url| ==> url[i] !in ILLEGAL_URL_CHARS
  }

  /** Scans the url, one character at a time, for any character of `ILLEGAL_URL_CHARS`. */
  method ContainsIllegalChar(url: string) returns (found: bool)
    ensures found <==> !UrlAllowed(url)
  {
    found := false;
    var i := 0;
    while i < |url| && !found
      invariant 0 <= i <= |url|
      invariant found <==> exists j :: 0 <= j < i && url[j] in ILLEGAL_URL_CHARS
    {
      found := url[i] in ILLEGAL_URL_CHARS;
      i := i + 1;
    }
  }

  // ---------------------------------------------------------------------------
  // The article table

  predicate UniqueIds(rows: seq<Article>)
  {
    UniqueBy(rows, (a: Article) => a.id)
  }

  /** The article with the given id, if any. */
  function Find(rows: seq<Article>, id: int): (r: Option<Article>)
    ensures r.Some? ==> r.value in rows && r.value.id == id
    ensures r.None? ==> forall a :: a in rows ==> a.id != id
  {
    if |rows| == 0 then None
    else if rows[0].id == id then Some(rows[0])
    else Find(rows[1..], id)
  }

  /** The fields of an article after an edit. */
  function ApplyChanges(a: Article, ch: ArticleChanges): (r: Article)
    // the changeset carries no id, author or date: those are kept
    ensures r.id == a.id && r.author == a.author && r.date == a.date
    ensures r.title == ch.title && r.url == ch.url && r.content == ch.content && r.visible == ch.visible
  {
    a.(title := ch.title, url := ch.url, content := ch.content, visible := ch.visible)
  }

  /** The rows after updating the article with this id. */
  function EditedRows(rows: seq<Article>, id: int, ch: ArticleChanges): (r: seq<Article>)
    ensures |r| == |rows|
    ensures forall i :: 0 <= i < |r| ==>
      r[i] == if rows[i].id == id then ApplyChanges(rows[i], ch) else rows[i]
    ensures forall i :: 0 <= i < |r| && rows[i].id == id ==>
      r[i].id == id && r[i].author == rows[i].author && r[i].date == rows[i].date &&
      r[i].title == ch.title && r[i].url == ch.url && r[i].content == ch.content && r[i].visible == ch.visible
    ensures forall i :: 0 <= i < |r| && rows[i].id != id ==> r[i] == rows[i]
  {
    seq(|rows|, i requires 0 <= i < |rows| => if rows[i].id == id then ApplyChanges(rows[i], ch) else rows[i])
  }

  /** The `articles` table, in the order the store returns its rows. */
  class Table {
    var rows: seq<Article>
    /** The id the store assigns to the next inserted article. */
    var nextId: int

    ghost predicate Valid()
      reads this
    {
      UniqueIds(rows) && forall a :: a in rows ==> a.id < nextId
    }

    constructor ()
      ensures Valid() && rows == []
    {
      rows := [];
      nextId := 1;
    }

    /** `author`: the author of the article with this id; an error if there is none. */
    function AuthorOf(id: int): (r: Result<string>)
      reads this
      ensures r.Ok? <==> Find(rows, id).Some?
      ensures r.Ok? ==> r.value == Find(rows, id).value.author
      ensures r.Err? ==> r.error == NotFound
    {
      match Find(rows, id)
      case None => Err(NotFound)
      case Some(a) => Ok(a.author)
    }

    /** `submit`: refuses a url with an illegal character; otherwise inserts
        the article with the next id and the current time. */
    method Submit(na: NewArticle, now: int) returns (r: Result<nat>)
      requires Valid()
      modifies this
      ensures Valid()
      ensures !UrlAllowed(na.url) ==>
        r == Err(IllegalUrl) && rows == old(rows) && nextId == old(nextId)
      ensures UrlAllowed(na.url) ==>
        r == Ok(1) && nextId == old(nextId) + 1 &&
        rows == old(rows) + [Article(old(nextId), na.title, na.author, na.url, na.content, now, na.visible)]
    {
      var illegal := ContainsIllegalChar(na.url);
      if illegal {
        return Err(IllegalUrl);
      }
      rows := rows + [Article(nextId, na.title, na.author, na.url, na.content, now, na.visible)];
      nextId := nextId + 1;
      r := Ok(1);
    }

    /** `edit`: replaces title, url, content and visibility of the article
        with this id; reports how many rows changed. The url is not checked. */
    method Edit(id: int, changes: ArticleChanges) returns (n: nat)
      requires Valid()
      modifies this
      ensures Valid() && nextId == old(nextId)
      ensures n == if Find(old(rows), id).Some? then 1 else 0
      ensures rows == EditedRows(old(rows), id, changes)
    {
      n := Count(rows, (a: Article) => a.id == id);
      CountAtMostOne(rows, (a: Article) => a.id == id);
      rows := EditedRows(rows, id, changes);
    }

    /** `delete`: removes the article with this id; reports how many rows went. */
    method Delete(id: int) returns (n: nat)
      requires Valid()
      modifies this
      ensures Valid() && nextId == old(nextId)
      ensures n == if Find(old(rows), id).Some? then 1 else 0
      ensures rows == Filter(old(rows), (a: Article) => a.id != id)
      ensures forall a :: a in rows <==> a in old(rows) && a.id != id
      ensures |rows| == |old(rows)| - n
    {
      n := Count(rows, (a: Article) => a.id == id);
      CountAtMostOne(rows, (a: Article) => a.id == id);
      FilterCountComplement(rows, (a: Article) => a.id != id, (a: Article) => a.id == id);
      FilterUniqueBy(rows, (a: Article) => a.id != id, (a: Article) => a.id);
      rows := Filter(rows, (a: Article) => a.id != id);
    }
  }

  /** `comment_count`: the number of comments of the article, which is the
      length of the flat list its comment tree is built from. */
  function CommentCount(comments: Comment.Table, id: int): (n: nat)
    requires comments.Valid()
    reads comments
    ensures n == |comments.ListFlat(id)|
  {
    CountIsFilterLength(comments.rows, (c: Comment.Comment) => c.article == id);
    Count(comments.rows, (c: Comment.Comment) => c.article == id)
  }
}
