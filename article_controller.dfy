/**
  The article controller: seven request handlers over an article store and a
  comment store. The stores, which the source reaches through ORM services,
  are maps from id to row with auto-increment counters; the authenticated
  user, the file name returned by the disk write, and the uploaded file's
  original name are parameters. Each handler is atomic and returns a
  response tag in place of the HTTP exceptions it throws.
 */
module Articles {
  import FileFilter

  datatype Option<T> = None | Some(value: T)

  /** The identity the authentication guard attaches to a request. */
  datatype User = User(id: int, username: string)

  /** A stored article; author is the id of the user who created it. */
  datatype Article = Article(id: int, title: string, body: string, author: int, coverImage: string)

  /** A stored comment; article is the id of the article it is linked to, or
      None when the link was left undefined. */
  datatype Comment = Comment(id: int, body: string, article: Option<int>, user: User)

  /** The request body of create and update, with the types the DTO class
      declares for its fields. */
  datatype ArticleRequest = ArticleRequest(title: string, body: string, author: int)

  /** What a handler answers: its data, or the exception it throws (with the
      id, the acting user's id, or the rejected extension it names). */
  datatype Response<T> = Ok(data: T) | NotFound(id: int) | Unauthorized(userId: int) | BadRequest(ext: string)

  /** The ownership check: the stored owner id equals the acting user's id. */
  predicate Owns(ownerId: int, user: User) {
    ownerId == user.id
  }

  /** The keys of m below n whose rows satisfy keep, in ascending order: the
      order in which an auto-increment table returns its rows. */
  function SelectKeys<V>(m: map<int, V>, keep: V -> bool, n: nat): (ks: seq<int>)
    ensures forall i :: 0 <= i < |ks| ==> 0 <= ks[i] < n
    ensures forall i, j :: 0 <= i < j < |ks| ==> ks[i] < ks[j]
    ensures forall k :: k in ks <==> 0 <= k < n && k in m && keep(m[k])
    decreases n
  {
    if n == 0 then []
    else
      var ks := SelectKeys(m, keep, n - 1);
      if n - 1 in m && keep(m[n - 1]) then ks + [n - 1] else ks
  }

  /** The rows stored under the given keys, in the keys' order. */
  function Rows<V>(m: map<int, V>, ks: seq<int>): seq<V>
    requires forall i :: 0 <= i < |ks| ==> ks[i] in m
  {
    seq(|ks|, i requires 0 <= i < |ks| => m[ks[i]])
  }

  /** The comments stored for article a (those whose link is a). */
  function CommentsOf(comments: map<int, Comment>, a: int): set<Comment> {
    set k | k in comments && comments[k].article == Some(a) :: comments[k]
  }

  /** Storing a comment under a fresh key leaves the comments of every article
      it is not linked to as they were. */
  lemma {:induction false} AddUnlinkedComment(comments: map<int, Comment>, k: int, c: Comment, a: int)
    requires k !in comments && c.article != Some(a)
    ensures CommentsOf(comments[k := c], a) == CommentsOf(comments, a)
  {
    var m := comments[k := c];
    forall x | x in CommentsOf(m, a)
      ensures x in CommentsOf(comments, a)
    {
      var j :| j in m && m[j].article == Some(a) && m[j] == x;
      assert j != k;
      assert comments[j] == x;
    }
    forall x | x in CommentsOf(comments, a)
      ensures x in CommentsOf(m, a)
    {
      var j :| j in comments && comments[j].article == Some(a) && comments[j] == x;
      assert m[j] == x;
    }
  }

  /** Storing a comment linked to article a under a fresh key adds exactly
      that comment to the comments of a. */
  lemma {:induction false} AddLinkedComment(comments: map<int, Comment>, k: int, c: Comment, a: int)
    requires k !in comments && c.article == Some(a)
    ensures CommentsOf(comments[k := c], a) == CommentsOf(comments, a) + {c}
  {
    var m := comments[k := c];
    assert m[k] == c;
    forall x | x in CommentsOf(m, a)
      ensures x in CommentsOf(comments, a) + {c}
    {
      var j :| j in m && m[j].article == Some(a) && m[j] == x;
      if j != k {
        assert comments[j] == x;
      }
    }
    forall x | x in CommentsOf(comments, a)
      ensures x in CommentsOf(m, a)
    {
      var j :| j in comments && comments[j].article == Some(a) && comments[j] == x;
      assert m[j] == x;
    }
  }

  class ArticleController {
    var articles: map<int, Article>
    var comments: map<int, Comment>
    var nextArticleId: int
    var nextCommentId: int

    /** Every row is stored under its own id, and every id is below the next
        one the table will hand out. */
    ghost predicate Valid()
      reads this
    {
      && 1 <= nextArticleId && 1 <= nextCommentId
      && (forall k :: k in articles ==> 1 <= k < nextArticleId && articles[k].id == k)
      && (forall k :: k in comments ==> 1 <= k < nextCommentId && comments[k].id == k)
    }

    constructor ()
      ensures Valid()
      ensures articles == map[] && comments == map[]
    {
      articles, comments := map[], map[];
      nextArticleId, nextCommentId := 1, 1;
    }

    /** GET /article: every stored article, each once, in id order. */
    method GetAll() returns (r: seq<Article>)
      requires Valid()
      ensures forall a :: a in r <==> a in articles.Values
      ensures forall i, j :: 0 <= i < j < |r| ==> r[i].id < r[j].id
    {
      var ks := SelectKeys(articles, (a: Article) => true, nextArticleId);
      r := Rows(articles, ks);
      forall a | a in articles.Values
        ensures a in r
      {
        var k :| k in articles && articles[k] == a;
        assert k in ks;
        var i :| 0 <= i < |ks| && ks[i] == k;
        assert r[i] == a;
      }
    }

    /** GET /article/:id: the article as a one-element list, or an empty list
        when there is none; this handler never reports NotFound. */
    method GetArticle(id: int) returns (r: seq<Article>)
      ensures id in articles ==> r == [articles[id]]
      ensures id !in articles ==> r == []
    {
      r := if id in articles then [articles[id]] else [];
    }

    /** POST /article: the upload filter runs first and rejects a disallowed
        extension before anything is stored; otherwise the article is stored
        under a fresh id with the acting user as author and the stored file
        name as cover image, whatever author the request carried. */
    method Create(req: ArticleRequest, originalName: string, filename: string, user: User)
      returns (r: Response<seq<Article>>)
      requires Valid()
      modifies this`articles, this`nextArticleId
      ensures Valid()
      ensures FileFilter.Filter(originalName).Reject? ==>
        && r == BadRequest(FileFilter.Extension(originalName))
        && articles == old(articles) && nextArticleId == old(nextArticleId)
      ensures FileFilter.Filter(originalName) == FileFilter.Accept ==>
        var a := Article(old(nextArticleId), req.title, req.body, user.id, filename);
        && a.id !in old(articles)
        && r == Ok([a])
        && articles == old(articles)[a.id := a]
        && nextArticleId == old(nextArticleId) + 1
    {
      var outcome := FileFilter.Filter(originalName);
      if outcome.Reject? {
        return BadRequest(outcome.ext);
      }
      var a := Article(nextArticleId, req.title, req.body, user.id, filename);
      articles := articles[a.id := a];
      nextArticleId := nextArticleId + 1;
      r := Ok([a]);
    }

    /** PATCH /article/:id: NotFound before Unauthorized; only the owner's
        request changes anything, and then only the title and body of that
        one article. The result carries the number of affected rows. */
    method Update(id: int, req: ArticleRequest, user: User) returns (r: Response<int>)
      requires Valid()
      modifies this`articles
      ensures Valid()
      ensures id !in old(articles) ==> r == NotFound(id) && articles == old(articles)
      ensures id in old(articles) && !Owns(old(articles)[id].author, user) ==>
        r == Unauthorized(user.id) && articles == old(articles)
      ensures id in old(articles) && Owns(old(articles)[id].author, user) ==>
        && r == Ok(1)
        && articles == old(articles)[id := old(articles)[id].(title := req.title, body := req.body)]
    {
      if id !in articles {
        return NotFound(id);
      }
      var article := articles[id];
      if !Owns(article.author, user) {
        return Unauthorized(user.id);
      }
      articles := articles[id := article.(title := req.title, body := req.body)];
      r := Ok(1);
    }

    /** POST /article/:id/comment: NotFound when the article is missing;
        otherwise a comment by the acting user is stored under a fresh id. The
        link to the article is left undefined, so the article's comment list
        does not change. */
    method CreateComment(id: int, body: string, user: User) returns (r: Response<Comment>)
      requires Valid()
      modifies this`comments, this`nextCommentId
      ensures Valid()
      ensures id !in articles ==>
        r == NotFound(id) && comments == old(comments) && nextCommentId == old(nextCommentId)
      ensures id in articles ==>
        var c := Comment(old(nextCommentId), body, None, user);
        && c.id !in old(comments)
        && r == Ok(c)
        && comments == old(comments)[c.id := c]
        && nextCommentId == old(nextCommentId) + 1
      ensures CommentsOf(comments, id) == CommentsOf(old(comments), id)
    {
      if id !in articles {
        return NotFound(id);
      }
      var c := Comment(nextCommentId, body, None, user);
      AddUnlinkedComment(comments, c.id, c, id);
      comments := comments[c.id := c];
      nextCommentId := nextCommentId + 1;
      r := Ok(c);
    }

    /** POST /article/:id/comment as evidently intended: the same checks, but
        the new comment is linked to article id and joins its comment list. */
    method CreateCommentLinked(id: int, body: string, user: User) returns (r: Response<Comment>)
      requires Valid()
      modifies this`comments, this`nextCommentId
      ensures Valid()
      ensures id !in articles ==>
        r == NotFound(id) && comments == old(comments) && nextCommentId == old(nextCommentId)
      ensures id in articles ==>
        var c := Comment(old(nextCommentId), body, Some(id), user);
        && c.id !in old(comments)
        && r == Ok(c)
        && comments == old(comments)[c.id := c]
        && nextCommentId == old(nextCommentId) + 1
        && CommentsOf(comments, id) == CommentsOf(old(comments), id) + {c}
    {
      if id !in articles {
        return NotFound(id);
      }
      var c := Comment(nextCommentId, body, Some(id), user);
      AddLinkedComment(comments, c.id, c, id);
      comments := comments[c.id := c];
      nextCommentId := nextCommentId + 1;
      r := Ok(c);
    }

    /** PATCH /article/:id/comment/:commentId: the article must exist, then the
        comment, then the acting user must be its author; on success only the
        comment's body changes. The comment need not belong to article id. */
    method UpdateComment(id: int, commentId: int, body: string, user: User) returns (r: Response<Comment>)
      requires Valid()
      modifies this`comments
      ensures Valid()
      ensures id !in articles ==> r == NotFound(id) && comments == old(comments)
      ensures id in articles && commentId !in old(comments) ==>
        r == NotFound(commentId) && comments == old(comments)
      ensures id in articles && commentId in old(comments) && !Owns(old(comments)[commentId].user.id, user) ==>
        r == Unauthorized(user.id) && comments == old(comments)
      ensures id in articles && commentId in old(comments) && Owns(old(comments)[commentId].user.id, user) ==>
        var c := old(comments)[commentId].(body := body);
        r == Ok(c) && comments == old(comments)[commentId := c]
    {
      if id !in articles {
        return NotFound(id);
      }
      if commentId !in comments {
        return NotFound(commentId);
      }
      var comment := comments[commentId];
      if !Owns(comment.user.id, user) {
        return Unauthorized(user.id);
      }
      comment := comment.(body := body);
      comments := comments[commentId := comment];
      r := Ok(comment);
    }

    /** GET /article/:id/comment: NotFound when the article is missing,
        otherwise exactly the comments linked to it, in id order. */
    method GetComments(id: int) returns (r: Response<seq<Comment>>)
      requires Valid()
      ensures id !in articles ==> r == NotFound(id)
      ensures id in articles ==>
        && r.Ok?
        && (forall c :: c in r.data <==> c in CommentsOf(comments, id))
        && (forall i, j :: 0 <= i < j < |r.data| ==> r.data[i].id < r.data[j].id)
    {
      if id !in articles {
        return NotFound(id);
      }
      var ks := SelectKeys(comments, (c: Comment) => c.article == Some(id), nextCommentId);
      var rows := Rows(comments, ks);
      forall c | c in CommentsOf(comments, id)
        ensures c in rows
      {
        var k :| k in comments && comments[k] == c;
        assert k in ks;
        var i :| 0 <= i < |ks| && ks[i] == k;
        assert rows[i] == c;
      }
      r := Ok(rows);
    }
  }

  /** A client run through the handlers: the asymmetry between reading and
      updating a missing article, the author taken from the session, and an
      update refused to a user who is not the author. */
  method ClientRun() {
    var ctl := new ArticleController();
    var missing := ctl.GetArticle(999);
    assert missing == [];
    var patch := ctl.Update(999, ArticleRequest("Hello World", "This is a sufficiently long body.", 9), User(9, "nine"));
    assert patch == NotFound(999);

    FileFilter.LowerCaseExtensionAccepted();
    var req := ArticleRequest("Hello World", "This is a sufficiently long body.", 3);
    var created := ctl.Create(req, "photo.jpg", "stored-photo.jpg", User(7, "seven"));
    assert created.Ok? && created.data[0].author == 7;
    var id := created.data[0].id;

    var denied := ctl.Update(id, req, User(9, "nine"));
    assert denied == Unauthorized(9);
    var allowed := ctl.Update(id, ArticleRequest("New title", "A new and longer body.", 9), User(7, "seven"));
    assert allowed == Ok(1);
    var after := ctl.GetArticle(id);
    assert after == [Article(id, "New title", "A new and longer body.", 7, "stored-photo.jpg")];
  }

  /** A store holding one article, by user 3, and no comments. */
  method OneArticle() returns (ctl: ArticleController, id: int)
    ensures fresh(ctl) && ctl.Valid()
    ensures id in ctl.articles && ctl.articles[id].author == 3
    ensures ctl.comments == map[]
  {
    ctl := new ArticleController();
    FileFilter.LowerCaseExtensionAccepted();
    var req := ArticleRequest("Hello World", "This is a sufficiently long body.", 3);
    var created := ctl.Create(req, "photo.jpg", "stored-photo.jpg", User(3, "three"));
    id := created.data[0].id;
  }

  /** A comment created as the handler is written is not listed under its
      article; one created with the link set is. */
  method CommentListingRun() {
    var ctl, id := OneArticle();
    var unlinked := ctl.CreateComment(id, "First!", User(5, "five"));
    var listed := ctl.GetComments(id);
    assert unlinked.Ok? && listed.Ok?;
    assert CommentsOf(ctl.comments, id) == {};
    assert unlinked.data !in listed.data;

    var linked := ctl.CreateCommentLinked(id, "Second!", User(5, "five"));
    listed := ctl.GetComments(id);
    assert linked.Ok? && listed.Ok?;
    assert linked.data in listed.data;
  }

  /** Only the comment's author may edit it, and the edit keeps its id, link
      and author. */
  method CommentEditRun() {
    var ctl, id := OneArticle();
    var linked := ctl.CreateCommentLinked(id, "Second!", User(5, "five"));
    assert linked.Ok?;
    var denied := ctl.UpdateComment(id, linked.data.id, "Edited", User(3, "three"));
    assert denied == Unauthorized(3);
    var edited := ctl.UpdateComment(id, linked.data.id, "Edited", User(5, "five"));
    assert edited == Ok(Comment(linked.data.id, "Edited", Some(id), User(5, "five")));
  }
}
