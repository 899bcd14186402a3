/** The comments handler: `GET` lists a pin's comments that are not hidden,
    newest first, with their authors; `POST` stores a comment with trimmed,
    non-empty content and answers with it joined to its author. */
module CommentsHandler {
  import opened Seqs
  import opened Sorting
  import opened Text
  import opened Rules
  import opened Schema

  /** A comment joined with its author's name and verified flag. */
  datatype CommentView = CommentView(comment: Comment, author: string, authorVerified: bool)

  predicate CommentHasAuthor(users: seq<User>, c: Comment)
  {
    FindUser(users, c.authorId).Some?
  }

  /** Which comments the listing shows: the pin's own, not hidden, with a known author. */
  predicate Shown(users: seq<User>, c: Comment, pinId: Id)
  {
    c.pinId == pinId && CommentVisible(c) && CommentHasAuthor(users, c)
  }

  function NewestFirst(c: Comment): int
  {
    -c.createdAt
  }

  /** Every row the listing query matches, in stored order. */
  function MatchingComments(comments: seq<Comment>, users: seq<User>, pinId: Id): (r: seq<Comment>)
    ensures forall c :: c in r <==> c in comments && Shown(users, c, pinId)
  {
    Filter(comments, (c: Comment) => Shown(users, c, pinId))
  }

  /** The rows of the listing query, newest first. */
  function ShownRows(comments: seq<Comment>, users: seq<User>, pinId: Id): (r: seq<Comment>)
    ensures multiset(r) == multiset(MatchingComments(comments, users, pinId))
    ensures SortedBy(r, NewestFirst)
    ensures forall i :: 0 <= i < |r| ==> r[i] in comments && Shown(users, r[i], pinId)
    ensures forall c :: c in comments && Shown(users, c, pinId) ==> c in r
  {
    var shown := MatchingComments(comments, users, pinId);
    var r := SortBy(shown, NewestFirst);
    assert forall c :: c in r <==> c in multiset(shown);
    r
  }

  /** Attaches the author columns to comments that all have an author. */
  function AttachCommentAuthors(cs: seq<Comment>, users: seq<User>): (r: seq<CommentView>)
    requires forall i :: 0 <= i < |cs| ==> CommentHasAuthor(users, cs[i])
    ensures |r| == |cs|
    ensures forall i :: 0 <= i < |r| ==>
      r[i].comment == cs[i] && CommentHasAuthor(users, cs[i]) &&
      r[i].author == FindUser(users, cs[i].authorId).value.username &&
      r[i].authorVerified == FindUser(users, cs[i].authorId).value.isVerified
  {
    seq(|cs|, i requires 0 <= i < |cs| =>
      assert CommentHasAuthor(users, cs[i]);
      var u := FindUser(users, cs[i].authorId).value;
      CommentView(cs[i], u.username, u.isVerified))
  }

  /** `GET`: the pin's visible comments with their authors, newest first. */
  function ListComments(comments: seq<Comment>, users: seq<User>, pinId: Id): (r: seq<CommentView>)
    ensures |r| == |ShownRows(comments, users, pinId)| &&
            forall i :: 0 <= i < |r| ==> r[i].comment == ShownRows(comments, users, pinId)[i]
    ensures forall i :: 0 <= i < |r| ==>
      r[i].comment in comments && r[i].comment.pinId == pinId && CommentVisible(r[i].comment) &&
      CommentHasAuthor(users, r[i].comment) &&
      r[i].author == FindUser(users, r[i].comment.authorId).value.username &&
      r[i].authorVerified == FindUser(users, r[i].comment.authorId).value.isVerified
    ensures forall i, j :: 0 <= i < j < |r| ==> r[i].comment.createdAt >= r[j].comment.createdAt
  {
    var rows := ShownRows(comments, users, pinId);
    var r := AttachCommentAuthors(rows, users);
    assert forall i, j :: 0 <= i < j < |r| ==> NewestFirst(rows[i]) <= NewestFirst(rows[j]);
    r
  }

  /** Every visible comment of the pin whose author exists is listed. */
  lemma ListCommentsComplete(comments: seq<Comment>, users: seq<User>, pinId: Id, c: Comment)
    requires c in comments && c.pinId == pinId && CommentVisible(c) && CommentHasAuthor(users, c)
    ensures exists i :: 0 <= i < |ListComments(comments, users, pinId)| &&
                        ListComments(comments, users, pinId)[i].comment == c
  {
    var rows := ShownRows(comments, users, pinId);
    var i :| 0 <= i < |rows| && rows[i] == c;
    assert ListComments(comments, users, pinId)[i].comment == c;
  }

  /** The pin's own state does not matter: the comments of a hidden or private
      pin are listed like any other. */
  lemma ListingIgnoresPin(comments: seq<Comment>, users: seq<User>, p: Pin, c: Comment)
    requires !PinVisible(p) && p.isPrivate
    requires c in comments && c.pinId == p.id && CommentVisible(c) && CommentHasAuthor(users, c)
    ensures ListComments(comments, users, p.id) != []
  {
    ListCommentsComplete(comments, users, p.id, c);
  }

  /** Five reports hide a comment from the listing. */
  lemma FiveReportsHide(comments: seq<Comment>, users: seq<User>, c: Comment)
    requires c.reports >= CommentHideThreshold
    ensures forall i :: 0 <= i < |ListComments(comments, users, c.pinId)| ==>
              ListComments(comments, users, c.pinId)[i].comment != c
  {
  }

  /** The comment `POST` would store: trimmed content, no reports. */
  function NewComment(id: Id, pinId: Id, authorId: Id, content: string, now: int): (c: Comment)
    ensures c.id == id && c.pinId == pinId && c.authorId == authorId && c.createdAt == now
    ensures c.content == Trim(content) && c.reports == 0 && CommentVisible(c)
  {
    Comment(id, pinId, authorId, Trim(content), 0, now)
  }

  datatype CommentsResponse =
    | MissingPinId
    | Comments(comments: seq<CommentView>)
    | MissingFields
    | Created(view: CommentView)
    | AuthorMissing   // the comment is committed, then the author lookup fails

  /** `GET`. Nothing is written. */
  method HandleGet(db: Database, pinId: Option<Id>) returns (resp: CommentsResponse)
    ensures pinId.None? <==> resp == MissingPinId
    ensures pinId.Some? ==> resp == Comments(ListComments(db.comments, db.users, pinId.value))
  {
    if pinId.None? {
      return MissingPinId;
    }
    resp := Comments(ListComments(db.comments, db.users, pinId.value));
  }

  /** `POST`. The new row's id comes from the caller, who guarantees it is not
      yet in use (the table's serial key). */
  method HandlePost(db: Database, pinId: Option<Id>, authorId: Option<Id>, content: string,
                    id: Id, now: int) returns (resp: CommentsResponse)
    requires db.Valid()
    requires forall c :: c in db.comments ==> c.id != id
    modifies db`comments
    ensures db.Valid()
    ensures (pinId.None? || authorId.None? || Trim(content) == []) ==>
              resp == MissingFields && db.comments == old(db.comments)
    ensures pinId.Some? && authorId.Some? && Trim(content) != [] ==>
              var c := NewComment(id, pinId.value, authorId.value, content, now);
              db.comments == old(db.comments) + [c] &&
              (CommentHasAuthor(db.users, c) ==>
                 resp == Created(CommentView(c, FindUser(db.users, c.authorId).value.username,
                                             FindUser(db.users, c.authorId).value.isVerified))) &&
              (!CommentHasAuthor(db.users, c) ==> resp == AuthorMissing)
  {
    var text := Trim(content);
    if pinId.None? || authorId.None? || text == [] {
      return MissingFields;
    }
    var c := NewComment(id, pinId.value, authorId.value, content, now);
    assert UniqueCommentIds(db.comments + [c]) by {
      var after := db.comments + [c];
      forall a, b | 0 <= a < b < |after| ensures after[a].id != after[b].id {
        if b == |db.comments| {
          assert after[a] in db.comments;
        }
      }
    }
    db.comments := db.comments + [c];
    var author := FindUser(db.users, c.authorId);
    if author.None? {
      return AuthorMissing;
    }
    resp := Created(CommentView(c, author.value.username, author.value.isVerified));
  }

  /** A comment just posted by an existing user appears in its pin's listing. */
  lemma PostedCommentIsListed(comments: seq<Comment>, users: seq<User>, c: Comment)
    requires CommentVisible(c) && CommentHasAuthor(users, c)
    ensures exists i :: 0 <= i < |ListComments(comments + [c], users, c.pinId)| &&
                        ListComments(comments + [c], users, c.pinId)[i].comment == c
  {
    ListCommentsComplete(comments + [c], users, c.pinId, c);
  }
}
