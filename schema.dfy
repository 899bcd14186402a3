/** The backend database: the rows of the five tables the handlers read and
    write, the lookups they share, and the `Database` object whose fields are
    the tables. Every table keeps its rows in insertion order, which is the
    order a query without `ORDER BY` (or with ties in its `ORDER BY`) is taken
    to return.

    A request parameter that Python treats as false (missing, `None`, `0`,
    the empty string) is `None`. */
module Schema {
  import opened Seqs
  import opened Rules

  type Id = int

  datatype User = User(id: Id, username: string, password: string,
                       isVerified: bool, isBanned: bool, createdAt: int)

  datatype Pin = Pin(id: Id, title: string, content: string, authorId: Id,
                     isPrivate: bool, tags: seq<string>,
                     views: int, reports: int, createdAt: int)

  datatype Comment = Comment(id: Id, pinId: Id, authorId: Id, content: string,
                             reports: int, createdAt: int)

  /** A row of `favorites`: the edge from a user to a pin. */
  datatype Favorite = Favorite(userId: Id, pinId: Id, createdAt: int)

  /** A row of `reports`: one reporter address, entity kind and entity id. */
  datatype ReportGuard = ReportGuard(userIp: string, entityType: string, entityId: Id)

  /** A pin joined with its author (`u.username AS author, u.is_verified AS author_verified`). */
  datatype PinView = PinView(pin: Pin, author: string, authorVerified: bool)

  predicate PinVisible(p: Pin)
  {
    p.reports < PinHideThreshold
  }

  predicate CommentVisible(c: Comment)
  {
    c.reports < CommentHideThreshold
  }

  /** The first user row with this id, if any. */
  function FindUser(users: seq<User>, id: Id): (r: Option<User>)
    ensures r.Some? ==> r.value in users && r.value.id == id
    ensures r.None? <==> forall u :: u in users ==> u.id != id
  {
    if users == [] then None
    else if users[0].id == id then Some(users[0])
    else FindUser(users[1..], id)
  }

  /** The caller is the administrator: a given id naming a user called exactly `Developer`. */
  predicate IsAdmin(users: seq<User>, callerId: Option<Id>)
    ensures IsAdmin(users, callerId) ==>
              callerId.Some? && exists u :: u in users && u.id == callerId.value && u.username == AdminName
  {
    callerId.Some? &&
    var u := FindUser(users, callerId.value);
    u.Some? && u.value.username == AdminName
  }

  /** The inner join on `p.author_id = u.id` keeps the pin. */
  predicate HasAuthor(users: seq<User>, p: Pin)
  {
    FindUser(users, p.authorId).Some?
  }

  /** Attaches the author columns to pins that all have an author. */
  function AttachAuthors(ps: seq<Pin>, users: seq<User>): (r: seq<PinView>)
    requires forall i :: 0 <= i < |ps| ==> HasAuthor(users, ps[i])
    ensures |r| == |ps|
    ensures forall i :: 0 <= i < |r| ==>
      r[i].pin == ps[i] && HasAuthor(users, ps[i]) &&
      r[i].author == FindUser(users, ps[i].authorId).value.username &&
      r[i].authorVerified == FindUser(users, ps[i].authorId).value.isVerified
  {
    seq(|ps|, i requires 0 <= i < |ps| =>
      assert HasAuthor(users, ps[i]);
      var u := FindUser(users, ps[i].authorId).value;
      PinView(ps[i], u.username, u.isVerified))
  }

  predicate UniqueUserIds(users: seq<User>)
  {
    forall i, j :: 0 <= i < j < |users| ==> users[i].id != users[j].id
  }

  predicate UniqueUsernames(users: seq<User>)
  {
    forall i, j :: 0 <= i < j < |users| ==> users[i].username != users[j].username
  }

  predicate UniquePinIds(pins: seq<Pin>)
  {
    forall i, j :: 0 <= i < j < |pins| ==> pins[i].id != pins[j].id
  }

  predicate UniqueCommentIds(comments: seq<Comment>)
  {
    forall i, j :: 0 <= i < j < |comments| ==> comments[i].id != comments[j].id
  }

  /** The unique key on (user_id, pin_id) that `ON CONFLICT DO NOTHING` relies on. */
  predicate UniqueEdges(favorites: seq<Favorite>)
  {
    forall i, j :: 0 <= i < j < |favorites| ==>
      (favorites[i].userId, favorites[i].pinId) != (favorites[j].userId, favorites[j].pinId)
  }

  /** The shared database every handler opens a connection to. */
  class Database {
    var users: seq<User>
    var pins: seq<Pin>
    var comments: seq<Comment>
    var favorites: seq<Favorite>
    var reports: set<ReportGuard>

    /** The keys the tables are declared with. */
    ghost predicate Valid()
      reads this
    {
      UniqueUserIds(users) && UniqueUsernames(users) && UniquePinIds(pins) &&
      UniqueCommentIds(comments) && UniqueEdges(favorites)
    }

    constructor ()
      ensures Valid()
      ensures users == [] && pins == [] && comments == [] && favorites == [] && reports == {}
    {
      users, pins, comments, favorites, reports := [], [], [], [], {};
    }
  }
}
