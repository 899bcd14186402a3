/** The administration handler: the user search an administrator sees and the
    four moderation switches (ban, unban, verify, unverify). Both methods
    first require the caller to be the user named `Developer`. */
module AdminHandler {
  import opened Seqs
  import opened Sorting
  import opened Text
  import opened Rules
  import opened Schema

  /** The columns the search returns: everything but the password. */
  datatype UserSummary = UserSummary(id: Id, username: string, isVerified: bool,
                                     isBanned: bool, createdAt: int)

  function Summary(u: User): (s: UserSummary)
    ensures s.id == u.id && s.username == u.username && s.createdAt == u.createdAt
    ensures s.isVerified == u.isVerified && s.isBanned == u.isBanned
  {
    UserSummary(u.id, u.username, u.isVerified, u.isBanned, u.createdAt)
  }

  /** The user search: the name contains the search text, ignoring case. */
  predicate NameMatches(u: User, search: string)
  {
    ContainsIgnoreCase(u.username, search)
  }

  /** Newest account first. */
  function Newest(u: User): int
  {
    -u.createdAt
  }

  /** Every row the search query matches, before ordering and limit. */
  function MatchingUsers(users: seq<User>, search: string): (r: seq<User>)
    ensures forall u :: u in r <==> u in users && NameMatches(u, search)
  {
    Filter(users, (u: User) => NameMatches(u, search))
  }

  /** The matching users, newest first, one hundred of them when more match. */
  function SearchPage(users: seq<User>, search: string): (r: seq<User>)
    ensures var n := |MatchingUsers(users, search)|;
            |r| == if n <= ListLimit then n else ListLimit
    ensures SortedBy(r, Newest)
    ensures forall i :: 0 <= i < |r| ==> r[i] in users && NameMatches(r[i], search)
  {
    var matching := MatchingUsers(users, search);
    var sorted := SortBy(matching, Newest);
    var page := Take(sorted, ListLimit);
    TakeSorted(sorted, ListLimit, Newest);
    forall i | 0 <= i < |page| ensures page[i] in users && NameMatches(page[i], search) {
      assert page[i] == sorted[i];
      assert sorted[i] in multiset(matching);
      assert sorted[i] in matching;
    }
    page
  }

  /** The search the administrator panel runs: at most one hundred users,
      each matching the search text, newest account first. */
  function SearchUsers(users: seq<User>, search: string): (r: seq<UserSummary>)
    ensures var n := |MatchingUsers(users, search)|;
            |r| == if n <= ListLimit then n else ListLimit
    ensures forall i :: 0 <= i < |r| ==>
      exists u :: u in users && NameMatches(u, search) && r[i] == Summary(u)
    ensures forall i, j :: 0 <= i < j < |r| ==> r[i].createdAt >= r[j].createdAt
    ensures r == Summaries(SearchPage(users, search))
  {
    var page := SearchPage(users, search);
    SummariesOfMatches(users, search, page);
    Summaries(page)
  }

  /** Each summary of a page of matching users is the summary of a matching user. */
  lemma SummariesOfMatches(users: seq<User>, search: string, page: seq<User>)
    requires forall i :: 0 <= i < |page| ==> page[i] in users && NameMatches(page[i], search)
    ensures forall i :: 0 <= i < |Summaries(page)| ==>
      exists u :: u in users && NameMatches(u, search) && Summaries(page)[i] == Summary(u)
  {
    var r := Summaries(page);
    forall i | 0 <= i < |r| ensures exists u :: u in users && NameMatches(u, search) && r[i] == Summary(u) {
      assert r[i] == Summary(page[i]);
    }
  }

  /** The summaries of users in order; newest-first users give summaries
      with descending dates. */
  function Summaries(us: seq<User>): (r: seq<UserSummary>)
    ensures |r| == |us|
    ensures forall i :: 0 <= i < |r| ==> r[i] == Summary(us[i])
    ensures SortedBy(us, Newest) ==> forall i, j :: 0 <= i < j < |r| ==> r[i].createdAt >= r[j].createdAt
  {
    var r := seq(|us|, i requires 0 <= i < |us| => Summary(us[i]));
    assert SortedBy(us, Newest) ==> forall i, j :: 0 <= i < j < |r| ==> r[i].createdAt >= r[j].createdAt by {
      if SortedBy(us, Newest) {
        forall i, j | 0 <= i < j < |r| ensures r[i].createdAt >= r[j].createdAt {
          assert Newest(us[i]) <= Newest(us[j]);
        }
      }
    }
    r
  }

  /** When the search matches no more than the limit, every matching user is listed. */
  lemma SearchUsersComplete(users: seq<User>, search: string, u: User)
    requires |MatchingUsers(users, search)| <= ListLimit
    requires u in users && NameMatches(u, search)
    ensures Summary(u) in SearchUsers(users, search)
  {
    var page := SearchPage(users, search);
    SearchPageComplete(users, search, u);
    var i :| 0 <= i < |page| && page[i] == u;
    var r := SearchUsers(users, search);
    assert r == Summaries(page);
    assert r[i] == Summary(u);
  }

  /** The page-level half: a matching user is on the page. */
  lemma SearchPageComplete(users: seq<User>, search: string, u: User)
    requires |MatchingUsers(users, search)| <= ListLimit
    requires u in users && NameMatches(u, search)
    ensures u in SearchPage(users, search)
  {
    var matching := MatchingUsers(users, search);
    var sorted := SortBy(matching, Newest);
    SortByMembers(matching, Newest);
    assert SearchPage(users, search) == Take(sorted, ListLimit) == sorted;
  }

  /** The page is the head of the newest-first order: its users are matching
      users, and a matching user left off by the limit registered no later
      than any listed one. */
  lemma SearchPageIsTop(users: seq<User>, search: string, q: User)
    requires q in multiset(MatchingUsers(users, search)) - multiset(SearchPage(users, search))
    ensures multiset(SearchPage(users, search)) <= multiset(MatchingUsers(users, search))
    ensures forall u :: u in SearchPage(users, search) ==> u.createdAt >= q.createdAt
  {
    var sorted := SortBy(MatchingUsers(users, search), Newest);
    assert SearchPage(users, search) == Take(sorted, ListLimit);
    TakeIsTop(sorted, ListLimit, Newest, q);
    forall u | u in SearchPage(users, search) ensures u.createdAt >= q.createdAt {
      assert Newest(u) <= Newest(q);
    }
  }

  /** With an empty search text and at most one hundred accounts, the search
      lists every account. */
  lemma EmptySearchListsEveryone(users: seq<User>, u: User)
    requires |users| <= ListLimit && u in users
    ensures Summary(u) in SearchUsers(users, "")
  {
    assert |MatchingUsers(users, "")| <= ListLimit;
    EmptySearchMatchesAll(u.username);
    SearchUsersComplete(users, "", u);
  }

  datatype AdminAction = Ban | Unban | Verify | Unverify

  /** The four action names; any other is an invalid action. */
  function ParseAction(s: string): (r: Option<AdminAction>)
    ensures r == Some(Ban) <==> s == "ban"
    ensures r == Some(Unban) <==> s == "unban"
    ensures r == Some(Verify) <==> s == "verify"
    ensures r == Some(Unverify) <==> s == "unverify"
  {
    if s == "ban" then Some(Ban)
    else if s == "unban" then Some(Unban)
    else if s == "verify" then Some(Verify)
    else if s == "unverify" then Some(Unverify)
    else None
  }

  /** The user row after one switch. */
  function Switch(u: User, a: AdminAction): (v: User)
    ensures a == Ban ==> v == u.(isBanned := true)
    ensures a == Unban ==> v == u.(isBanned := false)
    ensures a == Verify ==> v == u.(isVerified := true)
    ensures a == Unverify ==> v == u.(isVerified := false)
  {
    match a
    case Ban => u.(isBanned := true)
    case Unban => u.(isBanned := false)
    case Verify => u.(isVerified := true)
    case Unverify => u.(isVerified := false)
  }

  /** The switch applied to every row with the target id; every other row is
      left as it was, and a missing target matches no row. */
  function ApplyAction(users: seq<User>, target: Option<Id>, a: AdminAction): (r: seq<User>)
    ensures |r| == |users|
    ensures forall i :: 0 <= i < |users| ==>
      r[i] == (if target == Some(users[i].id) then Switch(users[i], a) else users[i])
  {
    seq(|users|, i requires 0 <= i < |users| =>
      if target == Some(users[i].id) then Switch(users[i], a) else users[i])
  }

  /** Only the two flags can change: ids, names, passwords and dates are kept. */
  lemma KeepsIdentity(users: seq<User>, target: Option<Id>, a: AdminAction)
    ensures var r := ApplyAction(users, target, a);
      forall i :: 0 <= i < |users| ==>
        r[i].id == users[i].id && r[i].username == users[i].username &&
        r[i].password == users[i].password && r[i].createdAt == users[i].createdAt
  {
  }

  /** The action keeps both keys of the users table. */
  lemma KeepsKeys(users: seq<User>, target: Option<Id>, a: AdminAction)
    requires UniqueUserIds(users) && UniqueUsernames(users)
    ensures UniqueUserIds(ApplyAction(users, target, a))
    ensures UniqueUsernames(ApplyAction(users, target, a))
  {
    KeepsIdentity(users, target, a);
  }

  /** Applying the same switch twice is applying it once. */
  lemma ActionIdempotent(users: seq<User>, target: Option<Id>, a: AdminAction)
    ensures ApplyAction(ApplyAction(users, target, a), target, a) == ApplyAction(users, target, a)
  {
  }

  /** Unban undoes ban and unverify undoes verify on the target's row flag. */
  lemma ActionsAreOpposites(users: seq<User>, target: Option<Id>)
    ensures var r := ApplyAction(ApplyAction(users, target, Ban), target, Unban);
            forall i :: 0 <= i < |users| ==> r[i] == ApplyAction(users, target, Unban)[i]
    ensures var r := ApplyAction(ApplyAction(users, target, Verify), target, Unverify);
            forall i :: 0 <= i < |users| ==> r[i] == ApplyAction(users, target, Unverify)[i]
  {
  }

  /** A target that names no user changes nothing. */
  lemma UnknownTargetChangesNothing(users: seq<User>, target: Option<Id>, a: AdminAction)
    requires target.None? || FindUser(users, target.value).None?
    ensures ApplyAction(users, target, a) == users
  {
  }

  datatype AdminResponse =
    | NotAuthorized
    | Users(users: seq<UserSummary>)
    | InvalidAction
    | Success

  /** `GET`: the search, for the administrator only. Nothing is written. */
  method HandleGet(db: Database, adminId: Option<Id>, search: string) returns (resp: AdminResponse)
    ensures !IsAdmin(db.users, adminId) <==> resp == NotAuthorized
    ensures IsAdmin(db.users, adminId) ==> resp == Users(SearchUsers(db.users, search))
  {
    if adminId.None? {
      return NotAuthorized;
    }
    var admin := FindUser(db.users, adminId.value);
    if admin.None? || admin.value.username != AdminName {
      return NotAuthorized;
    }
    resp := Users(SearchUsers(db.users, search));
  }

  /** `POST`: one switch on one user. The caller is checked before the action
      name, and the answer is a success whether or not the target exists. */
  method HandlePost(db: Database, adminId: Option<Id>, action: string, target: Option<Id>)
    returns (resp: AdminResponse)
    requires db.Valid()
    modifies db`users
    ensures db.Valid()
    ensures !IsAdmin(old(db.users), adminId) ==> resp == NotAuthorized && db.users == old(db.users)
    ensures IsAdmin(old(db.users), adminId) && ParseAction(action).None? ==>
              resp == InvalidAction && db.users == old(db.users)
    ensures IsAdmin(old(db.users), adminId) && ParseAction(action).Some? ==>
              resp == Success && db.users == ApplyAction(old(db.users), target, ParseAction(action).value)
  {
    if adminId.None? {
      return NotAuthorized;
    }
    var admin := FindUser(db.users, adminId.value);
    if admin.None? || admin.value.username != AdminName {
      return NotAuthorized;
    }
    var a := ParseAction(action);
    if a.None? {
      return InvalidAction;
    }
    KeepsKeys(db.users, target, a.value);
    db.users := ApplyAction(db.users, target, a.value);
    resp := Success;
  }

  /** The administrator stays the administrator after any switch: no action
      renames a user. */
  lemma AdminSurvivesActions(users: seq<User>, adminId: Option<Id>, target: Option<Id>, a: AdminAction)
    requires IsAdmin(users, adminId)
    ensures IsAdmin(ApplyAction(users, target, a), adminId)
  {
    KeepsIdentity(users, target, a);
    FindUserKeepsIdentity(users, ApplyAction(users, target, a), adminId.value);
  }

  /** Lookup by id sees the same name in two tables whose ids and names agree row by row. */
  lemma {:induction false} FindUserKeepsIdentity(a: seq<User>, b: seq<User>, id: Id)
    requires |a| == |b|
    requires forall i :: 0 <= i < |a| ==> a[i].id == b[i].id && a[i].username == b[i].username
    ensures FindUser(a, id).Some? <==> FindUser(b, id).Some?
    ensures FindUser(a, id).Some? ==> FindUser(a, id).value.username == FindUser(b, id).value.username
  {
    if a != [] && a[0].id != id {
      FindUserKeepsIdentity(a[1..], b[1..], id);
    }
  }
}
