/** The pins handler: `GET` with an id (count a view, then return the pin if
    it is not hidden), `GET` without one (the visible listing with privacy,
    title search, sort order and limit), `POST` (create after validation) and
    `DELETE` (the administrator hides a pin by overwriting its report counter). */
module PinsHandler {
  import opened Seqs
  import opened Sorting
  import opened Text
  import opened Rules
  import opened Schema

  datatype SortKey = Newest | Oldest | MostViewed

  /** The `ORDER BY` chosen from the `sort` parameter; anything unknown is `newest`. */
  function ParseSort(s: string): (k: SortKey)
    ensures k == Oldest <==> s == "oldest"
    ensures k == MostViewed <==> s == "views"
    ensures k == Newest <==> s != "oldest" && s != "views"
  {
    if s == "oldest" then Oldest else if s == "views" then MostViewed else Newest
  }

  /** The sort key as an ascending integer rank: descending orders negate. */
  function Rank(k: SortKey): Pin -> int
  {
    match k
    case Newest => (p: Pin) => -p.createdAt
    case Oldest => (p: Pin) => p.createdAt
    case MostViewed => (p: Pin) => -p.views
  }

  /** What each sort key promises, written out. */
  predicate InOrder(ps: seq<Pin>, k: SortKey)
  {
    match k
    case Newest => forall i, j :: 0 <= i < j < |ps| ==> ps[i].createdAt >= ps[j].createdAt
    case Oldest => forall i, j :: 0 <= i < j < |ps| ==> ps[i].createdAt <= ps[j].createdAt
    case MostViewed => forall i, j :: 0 <= i < j < |ps| ==> ps[i].views >= ps[j].views
  }

  lemma RankOrder(ps: seq<Pin>, k: SortKey)
    requires SortedBy(ps, Rank(k))
    ensures InOrder(ps, k)
  {
    match k
    case Newest =>
      forall i, j | 0 <= i < j < |ps| ensures ps[i].createdAt >= ps[j].createdAt {
        assert Rank(k)(ps[i]) <= Rank(k)(ps[j]);
      }
    case Oldest =>
      forall i, j | 0 <= i < j < |ps| ensures ps[i].createdAt <= ps[j].createdAt {
        assert Rank(k)(ps[i]) <= Rank(k)(ps[j]);
      }
    case MostViewed =>
      forall i, j | 0 <= i < j < |ps| ensures ps[i].views >= ps[j].views {
        assert Rank(k)(ps[i]) <= Rank(k)(ps[j]);
      }
  }

  /** The viewer: the `user_id` parameter, or 0 when it is missing. */
  function Viewer(userId: Option<Id>): (v: Id)
    ensures userId.Some? ==> v == userId.value
    ensures userId.None? ==> v == 0
  {
    if userId.Some? then userId.value else 0
  }

  /** Which pins the listing shows: not hidden, public or the viewer's
      own, title containing the search text case-insensitively, author present. */
  predicate Listed(users: seq<User>, p: Pin, viewer: Id, search: string)
  {
    PinVisible(p) && (!p.isPrivate || p.authorId == viewer) &&
    ContainsIgnoreCase(p.title, search) && HasAuthor(users, p)
  }

  /** Every row the listing query matches, before ordering and limit. */
  function Matching(pins: seq<Pin>, users: seq<User>, viewer: Id, search: string): (r: seq<Pin>)
    ensures forall p :: p in r <==> p in pins && Listed(users, p, viewer, search)
  {
    Filter(pins, (p: Pin) => Listed(users, p, viewer, search))
  }

  /** The pins of a listing, without the author columns. */
  function PinsOf(vs: seq<PinView>): (ps: seq<Pin>)
    ensures |ps| == |vs| && forall i :: 0 <= i < |vs| ==> ps[i] == vs[i].pin
  {
    seq(|vs|, i requires 0 <= i < |vs| => vs[i].pin)
  }

  /** The ordered, limited rows of the listing query. */
  function ListedPage(pins: seq<Pin>, users: seq<User>, viewer: Id, k: SortKey, search: string)
    : (page: seq<Pin>)
    ensures var n := |Matching(pins, users, viewer, search)|;
            |page| == if n <= ListLimit then n else ListLimit
    ensures forall i :: 0 <= i < |page| ==> page[i] in pins && Listed(users, page[i], viewer, search)
    ensures SortedBy(page, Rank(k))
  {
    var matching := Matching(pins, users, viewer, search);
    var sorted := SortBy(matching, Rank(k));
    var page := Take(sorted, ListLimit);
    TakeSorted(sorted, ListLimit, Rank(k));
    SortByMembers(matching, Rank(k));
    forall i | 0 <= i < |page| ensures page[i] in pins && Listed(users, page[i], viewer, search) {
      assert page[i] == sorted[i] && sorted[i] in sorted;
    }
    page
  }

  /** `GET` without an id: at most 100 listed pins in the requested order. */
  function ListPins(pins: seq<Pin>, users: seq<User>, userId: Option<Id>,
                    sort: string, search: string): (r: seq<PinView>)
    ensures var n := |Matching(pins, users, Viewer(userId), search)|;
            |r| == if n <= ListLimit then n else ListLimit
    ensures forall i :: 0 <= i < |r| ==>
      r[i].pin in pins && PinVisible(r[i].pin) &&
      (!r[i].pin.isPrivate || r[i].pin.authorId == Viewer(userId)) &&
      ContainsIgnoreCase(r[i].pin.title, search) &&
      HasAuthor(users, r[i].pin) &&
      r[i].author == FindUser(users, r[i].pin.authorId).value.username &&
      r[i].authorVerified == FindUser(users, r[i].pin.authorId).value.isVerified
    ensures InOrder(PinsOf(r), ParseSort(sort))
    ensures PinsOf(r) == ListedPage(pins, users, Viewer(userId), ParseSort(sort), search)
  {
    var page := ListedPage(pins, users, Viewer(userId), ParseSort(sort), search);
    var r := AttachAuthors(page, users);
    assert PinsOf(r) == page;
    RankOrder(page, ParseSort(sort));
    r
  }

  /** `p` comes no later than `q` in the order of `k`. */
  predicate NoLater(p: Pin, q: Pin, k: SortKey)
  {
    match k
    case Newest => p.createdAt >= q.createdAt
    case Oldest => p.createdAt <= q.createdAt
    case MostViewed => p.views >= q.views
  }

  /** The page is the head of the order: a matching pin left off by the
      limit ranks no better than any pin on the page. */
  lemma ListedPageIsTop(pins: seq<Pin>, users: seq<User>, viewer: Id, k: SortKey, search: string, q: Pin)
    requires q in multiset(Matching(pins, users, viewer, search)) -
                  multiset(ListedPage(pins, users, viewer, k, search))
    ensures multiset(ListedPage(pins, users, viewer, k, search)) <= multiset(Matching(pins, users, viewer, search))
    ensures forall p :: p in ListedPage(pins, users, viewer, k, search) ==> NoLater(p, q, k)
  {
    var matching := Matching(pins, users, viewer, search);
    var sorted := SortBy(matching, Rank(k));
    var page := ListedPage(pins, users, viewer, k, search);
    assert page == Take(sorted, ListLimit);
    TakeIsTop(sorted, ListLimit, Rank(k), q);
    forall p | p in page ensures NoLater(p, q, k) {
      assert Rank(k)(p) <= Rank(k)(q);
    }
  }

  /** The listing is the head of the order: the listed pins are matching
      pins, and a matching pin left off by the limit comes no earlier than
      any listed one. */
  lemma ListPinsIsTop(pins: seq<Pin>, users: seq<User>, userId: Option<Id>,
                      sort: string, search: string, q: Pin)
    requires q in multiset(Matching(pins, users, Viewer(userId), search)) -
                  multiset(PinsOf(ListPins(pins, users, userId, sort, search)))
    ensures multiset(PinsOf(ListPins(pins, users, userId, sort, search))) <=
            multiset(Matching(pins, users, Viewer(userId), search))
    ensures forall i :: 0 <= i < |ListPins(pins, users, userId, sort, search)| ==>
              NoLater(ListPins(pins, users, userId, sort, search)[i].pin, q, ParseSort(sort))
  {
    var page := ListedPage(pins, users, Viewer(userId), ParseSort(sort), search);
    var r := ListPins(pins, users, userId, sort, search);
    ListedPageIsTop(pins, users, Viewer(userId), ParseSort(sort), search, q);
    forall i | 0 <= i < |r| ensures NoLater(r[i].pin, q, ParseSort(sort)) {
      assert r[i].pin == page[i] && page[i] in page;
    }
  }

  /** When the query matches no more than the limit, every matching pin is listed. */
  lemma ListPinsComplete(pins: seq<Pin>, users: seq<User>, userId: Option<Id>,
                         sort: string, search: string, p: Pin)
    requires |Matching(pins, users, Viewer(userId), search)| <= ListLimit
    requires p in pins && Listed(users, p, Viewer(userId), search)
    ensures exists i :: 0 <= i < |ListPins(pins, users, userId, sort, search)| &&
                        ListPins(pins, users, userId, sort, search)[i].pin == p
  {
    var page := ListedPage(pins, users, Viewer(userId), ParseSort(sort), search);
    ListedPageComplete(pins, users, Viewer(userId), ParseSort(sort), search, p);
    var i :| 0 <= i < |page| && page[i] == p;
    var r := ListPins(pins, users, userId, sort, search);
    assert PinsOf(r)[i] == p;
  }

  /** The page-level half: a matching pin is on the page. */
  lemma ListedPageComplete(pins: seq<Pin>, users: seq<User>, viewer: Id, k: SortKey, search: string, p: Pin)
    requires |Matching(pins, users, viewer, search)| <= ListLimit
    requires p in pins && Listed(users, p, viewer, search)
    ensures p in ListedPage(pins, users, viewer, k, search)
  {
    var matching := Matching(pins, users, viewer, search);
    var sorted := SortBy(matching, Rank(k));
    SortByMembers(matching, Rank(k));
    assert ListedPage(pins, users, viewer, k, search) == Take(sorted, ListLimit) == sorted;
  }

  /** The view counter bump: the pins with that id gain exactly one view and nothing else changes. */
  function IncrementViews(pins: seq<Pin>, id: Id): (r: seq<Pin>)
    ensures |r| == |pins|
    ensures forall i :: 0 <= i < |pins| ==>
      r[i] == pins[i].(views := r[i].views) &&
      r[i].views == pins[i].views + (if pins[i].id == id then 1 else 0)
  {
    seq(|pins|, i requires 0 <= i < |pins| =>
      if pins[i].id == id then pins[i].(views := pins[i].views + 1) else pins[i])
  }

  /** The single-pin query: the pin with that id, if it is not hidden and has an author. */
  function LookupPin(pins: seq<Pin>, users: seq<User>, id: Id): (r: Option<PinView>)
    ensures r.Some? ==> r.value.pin in pins && r.value.pin.id == id && PinVisible(r.value.pin)
    ensures r.Some? ==> HasAuthor(users, r.value.pin) &&
                        r.value.author == FindUser(users, r.value.pin.authorId).value.username &&
                        r.value.authorVerified == FindUser(users, r.value.pin.authorId).value.isVerified
    ensures r.None? <==> forall p :: p in pins && p.id == id && PinVisible(p) ==> !HasAuthor(users, p)
  {
    var hits := Filter(pins, (p: Pin) => p.id == id && PinVisible(p) && HasAuthor(users, p));
    if hits == [] then None
    else
      assert hits[0] in hits;
      Some(AttachAuthors([hits[0]], users)[0])
  }

  /** Lookup by id does not look at `is_private`: a private pin that is not
      hidden is returned to any caller. */
  lemma LookupIgnoresPrivacy(pins: seq<Pin>, users: seq<User>, p: Pin)
    requires UniquePinIds(pins)
    requires p in pins && p.isPrivate && PinVisible(p) && HasAuthor(users, p)
    ensures LookupPin(pins, users, p.id) == Some(PinView(p, FindUser(users, p.authorId).value.username,
                                                       FindUser(users, p.authorId).value.isVerified))
  {
    var r := LookupPin(pins, users, p.id);
    var q := r.value.pin;
    var i :| 0 <= i < |pins| && pins[i] == p;
    var j :| 0 <= j < |pins| && pins[j] == q;
    assert i == j;
  }

  /** Opening a hidden pin still counts the view, and the caller gets not-found. */
  lemma HiddenPinStillCountsView(pins: seq<Pin>, users: seq<User>, i: nat)
    requires UniquePinIds(pins)
    requires i < |pins| && !PinVisible(pins[i])
    ensures IncrementViews(pins, pins[i].id)[i].views == pins[i].views + 1
    ensures LookupPin(IncrementViews(pins, pins[i].id), users, pins[i].id).None?
  {
    var after := IncrementViews(pins, pins[i].id);
    forall q | q in after && q.id == pins[i].id ensures !PinVisible(q) {
      var j :| 0 <= j < |after| && after[j] == q;
      assert pins[j].id == pins[i].id;
    }
  }

  /** The report counter set to a fixed value on every pin row with this id. */
  function SetReports(pins: seq<Pin>, id: Id, n: int): (r: seq<Pin>)
    ensures |r| == |pins|
    ensures forall i :: 0 <= i < |pins| ==>
      r[i] == pins[i].(reports := r[i].reports) &&
      r[i].reports == (if pins[i].id == id then n else pins[i].reports)
  {
    seq(|pins|, i requires 0 <= i < |pins| =>
      if pins[i].id == id then pins[i].(reports := n) else pins[i])
  }

  /** After the administrator's delete, lookup and every listing leave the pin out. */
  lemma DeletedPinIsHidden(pins: seq<Pin>, users: seq<User>, id: Id,
                           userId: Option<Id>, sort: string, search: string)
    ensures LookupPin(SetReports(pins, id, DeletedReports), users, id).None?
    ensures forall v :: v in ListPins(SetReports(pins, id, DeletedReports), users, userId, sort, search) ==>
                        v.pin.id != id
  {
    var after := SetReports(pins, id, DeletedReports);
    forall q | q in after && q.id == id ensures !PinVisible(q) {
      var j :| 0 <= j < |after| && after[j] == q;
    }
  }

  // ---------------------------------------------------------------------
  // The handler

  /** The `GET` query string. */
  datatype PinsQuery = PinsQuery(id: Option<Id>, userId: Option<Id>, sort: string, search: string)

  /** The `POST` body; `is_private` defaults to false and `tags` to empty. */
  datatype NewPinRequest = NewPinRequest(title: string, content: string, authorId: Option<Id>,
                                         isPrivate: bool, tags: seq<string>)

  datatype PinsResponse =
    | Found(view: PinView)
    | NotFound
    | Listing(views: seq<PinView>)
    | Created(pin: Pin)
    | MissingFields
    | MissingIds
    | Deleted
    | NotAuthorized

  /** `POST` validation: trimmed title and content are non-empty and an author is given. */
  predicate AcceptsNewPin(req: NewPinRequest)
    ensures AcceptsNewPin(req) <==> !IsBlank(req.title) && !IsBlank(req.content) && req.authorId.Some?
  {
    Trim(req.title) != [] && Trim(req.content) != [] && req.authorId.Some?
  }

  /** The row `POST` inserts; `views`, `reports` and `created_at` take the
      table defaults 0, 0 and the current time. */
  function NewPin(req: NewPinRequest, id: Id, now: int): (p: Pin)
    requires req.authorId.Some?
    ensures p.id == id && p.title == Trim(req.title) && p.content == Trim(req.content)
    ensures p.authorId == req.authorId.value && p.isPrivate == req.isPrivate && p.tags == req.tags
    ensures p.views == 0 && p.reports == 0 && p.createdAt == now
  {
    Pin(id, Trim(req.title), Trim(req.content), req.authorId.value, req.isPrivate, req.tags, 0, 0, now)
  }

  method HandleGet(db: Database, q: PinsQuery) returns (resp: PinsResponse)
    requires db.Valid()
    modifies db`pins
    ensures db.Valid()
    ensures q.id.Some? ==> db.pins == IncrementViews(old(db.pins), q.id.value)
    ensures q.id.Some? ==> resp == match LookupPin(db.pins, db.users, q.id.value)
                                  case Some(v) => Found(v)
                                  case None => NotFound
    ensures q.id.None? ==> db.pins == old(db.pins)
    ensures q.id.None? ==> resp == Listing(ListPins(db.pins, db.users, q.userId, q.sort, q.search))
  {
    if q.id.Some? {
      db.pins := IncrementViews(db.pins, q.id.value);
      var found := LookupPin(db.pins, db.users, q.id.value);
      if found.Some? {
        resp := Found(found.value);
      } else {
        resp := NotFound;
      }
    } else {
      resp := Listing(ListPins(db.pins, db.users, q.userId, q.sort, q.search));
    }
  }

  /** Appending a row whose id is not yet in use keeps the pin ids unique. */
  lemma FreshIdKeepsPinIdsUnique(pins: seq<Pin>, p: Pin)
    requires UniquePinIds(pins) && forall q :: q in pins ==> q.id != p.id
    ensures UniquePinIds(pins + [p])
  {
    var after := pins + [p];
    forall a, b | 0 <= a < b < |after| ensures after[a].id != after[b].id {
      if b == |pins| {
        assert after[a] in pins;
      }
    }
  }

  /** The `INSERT` of a row whose id is not yet in use. */
  method Insert(db: Database, p: Pin)
    requires db.Valid()
    requires forall q :: q in db.pins ==> q.id != p.id
    modifies db`pins
    ensures db.Valid()
    ensures db.pins == old(db.pins) + [p]
  {
    FreshIdKeepsPinIdsUnique(db.pins, p);
    db.pins := db.pins + [p];
  }

  method HandlePost(db: Database, req: NewPinRequest, id: Id, now: int) returns (resp: PinsResponse)
    requires db.Valid()
    requires forall p :: p in db.pins ==> p.id != id
    modifies db`pins
    ensures db.Valid()
    ensures !AcceptsNewPin(req) ==> resp == MissingFields && db.pins == old(db.pins)
    ensures AcceptsNewPin(req) ==> resp == Created(NewPin(req, id, now)) &&
                                   db.pins == old(db.pins) + [NewPin(req, id, now)]
  {
    if !AcceptsNewPin(req) {
      resp := MissingFields;
      return;
    }
    var pin := NewPin(req, id, now);
    Insert(db, pin);
    resp := Created(pin);
  }

  method HandleDelete(db: Database, pinId: Option<Id>, userId: Option<Id>) returns (resp: PinsResponse)
    requires db.Valid()
    modifies db`pins
    ensures db.Valid()
    ensures (pinId.None? || userId.None?) ==> resp == MissingIds && db.pins == old(db.pins)
    ensures pinId.Some? && userId.Some? && IsAdmin(db.users, userId) ==>
              resp == Deleted && db.pins == SetReports(old(db.pins), pinId.value, DeletedReports)
    ensures pinId.Some? && userId.Some? && !IsAdmin(db.users, userId) ==>
              resp == NotAuthorized && db.pins == old(db.pins)
  {
    if pinId.None? || userId.None? {
      resp := MissingIds;
      return;
    }
    if IsAdmin(db.users, userId) {
      db.pins := SetReports(db.pins, pinId.value, DeletedReports);
      resp := Deleted;
    } else {
      resp := NotAuthorized;
    }
  }
}
