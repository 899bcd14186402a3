/** The actions handler: reports (guard row plus counter increment),
    favourite edges (insert or delete), the favourites listing and the two
    membership checks. */
module ActionsHandler {
  import opened Seqs
  import opened Sorting
  import opened Text
  import opened Rules
  import opened Schema

  /** The reporter address: the first comma-separated entry of
      `X-Forwarded-For`, or `0.0.0.0` when the header is absent. */
  function ClientIp(forwardedFor: Option<string>): (ip: string)
    ensures ',' !in ip
    ensures forwardedFor.None? ==> ip == "0.0.0.0"
    ensures forwardedFor.Some? ==> StartsWith(forwardedFor.value, ip)
    ensures forwardedFor.Some? ==> |ip| == |forwardedFor.value| || forwardedFor.value[|ip|] == ','
  {
    if forwardedFor.None? then "0.0.0.0"
    else
      var parts := Split(forwardedFor.value, ',');
      FirstPieceIsPrefix(parts, ',');
      parts[0]
  }

  /** The first piece of a join is its prefix, ended by the separator when
      more pieces follow. */
  lemma FirstPieceIsPrefix(parts: seq<string>, sep: char)
    requires parts != []
    ensures StartsWith(Join(parts, sep), parts[0])
    ensures |parts| == 1 ==> Join(parts, sep) == parts[0]
    ensures |parts| > 1 ==> Join(parts, sep)[|parts[0]|] == sep
  {
    if |parts| > 1 {
      assert Join(parts, sep) == parts[0] + [sep] + Join(parts[1..], sep);
      assert Join(parts, sep)[..|parts[0]|] == parts[0];
    }
  }

  /** One more report on every pin row with this id. */
  function IncrementPinReports(pins: seq<Pin>, id: Id): (r: seq<Pin>)
    ensures |r| == |pins|
    ensures forall i :: 0 <= i < |pins| ==>
      r[i] == pins[i].(reports := r[i].reports) &&
      r[i].reports == pins[i].reports + (if pins[i].id == id then 1 else 0)
  {
    seq(|pins|, i requires 0 <= i < |pins| =>
      if pins[i].id == id then pins[i].(reports := pins[i].reports + 1) else pins[i])
  }

  /** One more report on every comment row with this id. */
  function IncrementCommentReports(comments: seq<Comment>, id: Id): (r: seq<Comment>)
    ensures |r| == |comments|
    ensures forall i :: 0 <= i < |comments| ==>
      r[i] == comments[i].(reports := r[i].reports) &&
      r[i].reports == comments[i].reports + (if comments[i].id == id then 1 else 0)
  {
    seq(|comments|, i requires 0 <= i < |comments| =>
      if comments[i].id == id then comments[i].(reports := comments[i].reports + 1) else comments[i])
  }

  /** Reporting the same pin twice from the same address: the second guard
      insert conflicts and changes nothing, yet the counter grows by two,
      because the increment does not consult the guard. */
  lemma ReportTwiceCountsTwice(pins: seq<Pin>, i: nat)
    requires UniquePinIds(pins) && i < |pins|
    ensures IncrementPinReports(IncrementPinReports(pins, pins[i].id), pins[i].id)[i].reports
            == pins[i].reports + 2
  {
  }

  /** `k` reports of one pin, guarded or not: the rows with the id gain
      exactly `k` reports and nothing else changes. */
  function ReportPinTimes(pins: seq<Pin>, id: Id, k: nat): (r: seq<Pin>)
    ensures |r| == |pins|
    ensures forall j :: 0 <= j < |pins| ==>
      r[j] == pins[j].(reports := r[j].reports) &&
      r[j].reports == pins[j].reports + (if pins[j].id == id then k else 0)
  {
    if k == 0 then pins else IncrementPinReports(ReportPinTimes(pins, id, k - 1), id)
  }

  /** Every report of a pin adds one to its counter, so any ten reports hide
      it, whoever sends them. */
  lemma {:induction false} ReportsAccumulate(pins: seq<Pin>, i: nat, k: nat)
    requires i < |pins|
    ensures |ReportPinTimes(pins, pins[i].id, k)| == |pins|
    ensures ReportPinTimes(pins, pins[i].id, k)[i] == pins[i].(reports := pins[i].reports + k)
  {
    if k > 0 {
      ReportsAccumulate(pins, i, k - 1);
    }
  }

  lemma TenReportsHideAFreshPin(pins: seq<Pin>, i: nat)
    requires i < |pins| && pins[i].reports == 0
    ensures !PinVisible(ReportPinTimes(pins, pins[i].id, PinHideThreshold)[i])
  {
    ReportsAccumulate(pins, i, PinHideThreshold);
  }

  // ---------------------------------------------------------------------
  // Favourites

  predicate HasFavorite(favorites: seq<Favorite>, userId: Id, pinId: Id)
  {
    exists f :: f in favorites && f.userId == userId && f.pinId == pinId
  }

  /** Adds the favourite edge unless it is already there. */
  function AddFavorite(favorites: seq<Favorite>, userId: Id, pinId: Id, now: int): (r: seq<Favorite>)
    ensures HasFavorite(r, userId, pinId)
    ensures HasFavorite(favorites, userId, pinId) ==> r == favorites
    ensures !HasFavorite(favorites, userId, pinId) ==> r == favorites + [Favorite(userId, pinId, now)]
    ensures forall u, p :: HasFavorite(r, u, p) <==> HasFavorite(favorites, u, p) || (u == userId && p == pinId)
  {
    if HasFavorite(favorites, userId, pinId) then favorites
    else
      var r := favorites + [Favorite(userId, pinId, now)];
      assert Favorite(userId, pinId, now) in r;
      r
  }

  /** Removes every favourite edge from this user to this pin. */
  function RemoveFavorite(favorites: seq<Favorite>, userId: Id, pinId: Id): (r: seq<Favorite>)
    ensures !HasFavorite(r, userId, pinId)
    ensures forall f :: f in r <==> f in favorites && (f.userId, f.pinId) != (userId, pinId)
    ensures forall u, p :: HasFavorite(r, u, p) <==> HasFavorite(favorites, u, p) && (u, p) != (userId, pinId)
  {
    Filter(favorites, (f: Favorite) => (f.userId, f.pinId) != (userId, pinId))
  }

  /** Adding an edge that exists is a no-op. */
  lemma AddFavoriteIdempotent(favorites: seq<Favorite>, userId: Id, pinId: Id, t1: int, t2: int)
    ensures AddFavorite(AddFavorite(favorites, userId, pinId, t1), userId, pinId, t2)
            == AddFavorite(favorites, userId, pinId, t1)
  {
  }

  /** Removing an edge that is absent is a no-op. */
  lemma {:induction false} RemoveFavoriteIdempotent(favorites: seq<Favorite>, userId: Id, pinId: Id)
    ensures RemoveFavorite(RemoveFavorite(favorites, userId, pinId), userId, pinId)
            == RemoveFavorite(favorites, userId, pinId)
  {
    var once := RemoveFavorite(favorites, userId, pinId);
    FilterKeepsAll(once, (f: Favorite) => (f.userId, f.pinId) != (userId, pinId));
  }

  /** Adding then removing an edge leaves the table as removing alone would. */
  lemma {:induction false} RemoveUndoesAdd(favorites: seq<Favorite>, userId: Id, pinId: Id, now: int)
    ensures RemoveFavorite(AddFavorite(favorites, userId, pinId, now), userId, pinId)
            == RemoveFavorite(favorites, userId, pinId)
  {
    if !HasFavorite(favorites, userId, pinId) {
      var keep := (f: Favorite) => (f.userId, f.pinId) != (userId, pinId);
      FilterConcat(favorites, [Favorite(userId, pinId, now)], keep);
      assert Filter([Favorite(userId, pinId, now)], keep) == [];
    }
  }

  /** The `favorite` action with its `is_favorite` flag. */
  function SetFavorite(favorites: seq<Favorite>, userId: Id, pinId: Id, desired: bool, now: int)
    : (r: seq<Favorite>)
    ensures HasFavorite(r, userId, pinId) == desired
    ensures forall u, p :: (u, p) != (userId, pinId) ==> (HasFavorite(r, u, p) <==> HasFavorite(favorites, u, p))
  {
    if desired then AddFavorite(favorites, userId, pinId, now) else RemoveFavorite(favorites, userId, pinId)
  }

  lemma {:induction false} SetFavoriteKeepsEdgesUnique(favorites: seq<Favorite>, userId: Id, pinId: Id,
                                                      desired: bool, now: int)
    requires UniqueEdges(favorites)
    ensures UniqueEdges(SetFavorite(favorites, userId, pinId, desired, now))
  {
    if !desired {
      var r := RemoveFavorite(favorites, userId, pinId);
      var keep := (f: Favorite) => (f.userId, f.pinId) != (userId, pinId);
      FilterIsSubsequence(favorites, keep);
      SubsequenceKeepsEdgesUnique(r, favorites);
    } else if !HasFavorite(favorites, userId, pinId) {
      var r := favorites + [Favorite(userId, pinId, now)];
      forall i, j | 0 <= i < j < |r|
        ensures (r[i].userId, r[i].pinId) != (r[j].userId, r[j].pinId)
      {
        if j == |favorites| {
          assert r[i] in favorites;
        }
      }
    }
  }

  lemma {:induction false} SubsequenceKeepsEdgesUnique(r: seq<Favorite>, s: seq<Favorite>)
    requires IsSubsequence(r, s) && UniqueEdges(s)
    ensures UniqueEdges(r)
    decreases |s|
  {
    if r != [] && s != [] {
      assert UniqueEdges(s[1..]) by {
        forall i, j | 0 <= i < j < |s[1..]|
          ensures (s[1..][i].userId, s[1..][i].pinId) != (s[1..][j].userId, s[1..][j].pinId)
        {
          assert s[1..][i] == s[i + 1] && s[1..][j] == s[j + 1];
        }
      }
      if r[0] == s[0] {
        SubsequenceKeepsEdgesUnique(r[1..], s[1..]);
        SubsequenceMembers(r[1..], s[1..]);
        forall j | 0 < j < |r| ensures (r[0].userId, r[0].pinId) != (r[j].userId, r[j].pinId) {
          assert r[j] == r[1..][j - 1];
          assert r[j] in r[1..];
          assert r[j] in s[1..];
          var k :| 0 <= k < |s[1..]| && s[1..][k] == r[j];
          assert s[k + 1] == r[j];
        }
        forall i, j | 0 <= i < j < |r| ensures (r[i].userId, r[i].pinId) != (r[j].userId, r[j].pinId) {
          if i > 0 {
            assert r[i] == r[1..][i - 1] && r[j] == r[1..][j - 1];
          }
        }
      } else {
        SubsequenceKeepsEdgesUnique(r, s[1..]);
      }
    }
  }

  lemma {:induction false} SubsequenceMembers<T>(r: seq<T>, s: seq<T>)
    requires IsSubsequence(r, s)
    ensures forall x :: x in r ==> x in s
    decreases |s|
  {
    if r != [] && s != [] {
      if r[0] == s[0] {
        SubsequenceMembers(r[1..], s[1..]);
        assert r == [r[0]] + r[1..];
      } else {
        SubsequenceMembers(r, s[1..]);
      }
    }
  }

  /** The visible pins (with authors) that carry the given id: the join of one favourite row. */
  function FavoriteTargets(pins: seq<Pin>, users: seq<User>, pinId: Id): (r: seq<Pin>)
    ensures forall p :: p in r <==> p in pins && p.id == pinId && PinVisible(p) && HasAuthor(users, p)
  {
    Filter(pins, (p: Pin) => p.id == pinId && PinVisible(p) && HasAuthor(users, p))
  }

  /** With unique pin ids, the pins joining one favourite row have distinct
      ids, so there is at most one of them. */
  lemma TargetsUnique(pins: seq<Pin>, users: seq<User>, pinId: Id)
    requires UniquePinIds(pins)
    ensures UniquePinIds(FavoriteTargets(pins, users, pinId))
  {
    FilterKeepsPinIdsUnique(pins, (p: Pin) => p.id == pinId && PinVisible(p) && HasAuthor(users, p));
  }

  lemma {:induction false} FilterKeepsPinIdsUnique(pins: seq<Pin>, keep: Pin -> bool)
    requires UniquePinIds(pins)
    ensures UniquePinIds(Filter(pins, keep))
    decreases |pins|
  {
    if pins != [] {
      var tail := pins[1..];
      assert UniquePinIds(tail) by {
        forall i, j | 0 <= i < j < |tail| ensures tail[i].id != tail[j].id {
          assert tail[i] == pins[i + 1] && tail[j] == pins[j + 1];
        }
      }
      FilterKeepsPinIdsUnique(tail, keep);
      var rest := Filter(tail, keep);
      if keep(pins[0]) {
        assert Filter(pins, keep) == [pins[0]] + rest;
        forall q | q in tail ensures q.id != pins[0].id {
          var k :| 0 <= k < |tail| && tail[k] == q;
          assert pins[k + 1] == q;
        }
        PrependUniqueId(pins[0], rest);
      } else {
        assert Filter(pins, keep) == rest;
      }
    }
  }

  lemma PrependUniqueId(p: Pin, rest: seq<Pin>)
    requires UniquePinIds(rest) && forall q :: q in rest ==> q.id != p.id
    ensures UniquePinIds([p] + rest)
  {
    var r := [p] + rest;
    forall i, j | 0 <= i < j < |r| ensures r[i].id != r[j].id {
      assert r[j] == rest[j - 1] && r[j] in rest;
      if i > 0 {
        assert r[i] == rest[i - 1];
      }
    }
  }

  /** No favourite row is repeated and no two rows point at the same pin:
      what `UniqueEdges` gives for the rows of one user. */
  predicate OnePerTarget(favs: seq<Favorite>)
  {
    (forall f :: f in favs ==> multiset(favs)[f] <= 1) &&
    (forall f, g :: f in favs && g in favs && f.pinId == g.pinId ==> f == g)
  }

  /** Rows of one user, drawn from a table without duplicate pairs, are one per target. */
  lemma OneUserOnePerTarget(favorites: seq<Favorite>, mine: seq<Favorite>, userId: Id)
    requires UniqueEdges(favorites)
    requires multiset(mine) <= multiset(favorites)
    requires forall f :: f in mine ==> f.userId == userId
    ensures OnePerTarget(mine)
  {
    UniqueEdgesNoRepeats(favorites);
    forall f ensures multiset(mine)[f] <= 1 {
      assert multiset(mine)[f] <= multiset(favorites)[f];
    }
    forall f, g | f in mine && g in mine && f.pinId == g.pinId ensures f == g {
      assert f in multiset(mine) && g in multiset(mine);
      var i :| 0 <= i < |favorites| && favorites[i] == f;
      var j :| 0 <= j < |favorites| && favorites[j] == g;
    }
  }

  /** The same holds for the user's rows in any order. */
  lemma ReorderedRowsOnePerTarget(favorites: seq<Favorite>, mine: seq<Favorite>, ordered: seq<Favorite>, userId: Id)
    requires UniqueEdges(favorites)
    requires multiset(mine) <= multiset(favorites) && multiset(ordered) == multiset(mine)
    requires forall f :: f in mine ==> f.userId == userId
    ensures OnePerTarget(ordered)
  {
    forall f | f in ordered ensures f.userId == userId {
      assert f in multiset(mine);
    }
    OneUserOnePerTarget(favorites, ordered, userId);
  }

  lemma {:induction false} UniqueEdgesNoRepeats(s: seq<Favorite>)
    requires UniqueEdges(s)
    ensures forall f :: multiset(s)[f] <= 1
    decreases |s|
  {
    if s != [] {
      var tail := s[1..];
      assert UniqueEdges(tail) by {
        forall i, j | 0 <= i < j < |tail|
          ensures (tail[i].userId, tail[i].pinId) != (tail[j].userId, tail[j].pinId)
        {
          assert tail[i] == s[i + 1] && tail[j] == s[j + 1];
        }
      }
      UniqueEdgesNoRepeats(tail);
      assert s == [s[0]] + tail;
      assert s[0] !in tail;
    }
  }

  /** The rows after the first are one per target and point elsewhere. */
  lemma OnePerTargetTail(favs: seq<Favorite>)
    requires favs != [] && OnePerTarget(favs)
    ensures OnePerTarget(favs[1..])
    ensures forall f :: f in favs[1..] ==> f.pinId != favs[0].pinId
  {
    assert favs == [favs[0]] + favs[1..];
    forall f ensures multiset(favs[1..])[f] <= 1 {
      assert multiset(favs[1..])[f] <= multiset(favs)[f];
    }
  }

  /** Rows with the id and distinct ids, followed by distinct rows with
      other ids, have distinct ids. */
  lemma DistinctIdsConcat(head: seq<PinView>, rest: seq<PinView>, id: Id)
    requires forall i :: 0 <= i < |head| ==> head[i].pin.id == id
    requires DistinctPins(head)
    requires forall i :: 0 <= i < |rest| ==> rest[i].pin.id != id
    requires DistinctPins(rest)
    ensures DistinctPins(head + rest)
  {
    var r := head + rest;
    forall i, j | 0 <= i < j < |r| ensures r[i].pin.id != r[j].pin.id {
      if j >= |head| {
        if i < |head| {
          assert r[i] == head[i] && r[j] == rest[j - |head|];
        } else {
          assert r[i] == rest[i - |head|] && r[j] == rest[j - |head|];
        }
      }
    }
  }

  /** No pin is listed twice. */
  predicate DistinctPins(r: seq<PinView>)
  {
    forall i, j :: 0 <= i < j < |r| ==> r[i].pin.id != r[j].pin.id
  }

  /** Some favourite row points at the pin. */
  predicate PointsAt(favs: seq<Favorite>, pinId: Id)
  {
    exists f :: f in favs && f.pinId == pinId
  }

  /** One step of the join keeps pin ids distinct. */
  lemma JoinStepDistinct(favs: seq<Favorite>, pins: seq<Pin>, users: seq<User>, rest: seq<PinView>)
    requires favs != [] && OnePerTarget(favs) && UniquePinIds(pins)
    requires forall i :: 0 <= i < |rest| ==> PointsAt(favs[1..], rest[i].pin.id)
    requires DistinctPins(rest)
    ensures DistinctPins(AttachAuthors(FavoriteTargets(pins, users, favs[0].pinId), users) + rest)
  {
    RestPointsElsewhere(favs, rest);
    var head := AttachAuthors(FavoriteTargets(pins, users, favs[0].pinId), users);
    TargetRows(pins, users, favs[0].pinId);
    DistinctIdsConcat(head, rest, favs[0].pinId);
  }

  /** The joined rows of one favourite row carry its pin id, each once. */
  lemma TargetRows(pins: seq<Pin>, users: seq<User>, pinId: Id)
    requires UniquePinIds(pins)
    ensures var head := AttachAuthors(FavoriteTargets(pins, users, pinId), users);
            (forall i :: 0 <= i < |head| ==> head[i].pin.id == pinId) && DistinctPins(head)
  {
    var targets := FavoriteTargets(pins, users, pinId);
    TargetsUnique(pins, users, pinId);
    forall i | 0 <= i < |targets| ensures targets[i].id == pinId {
      assert targets[i] in targets;
    }
  }

  /** The rows joined for the later favourite rows are other pins than the first row's. */
  lemma RestPointsElsewhere(favs: seq<Favorite>, rest: seq<PinView>)
    requires favs != [] && OnePerTarget(favs)
    requires forall i :: 0 <= i < |rest| ==> PointsAt(favs[1..], rest[i].pin.id)
    ensures forall i :: 0 <= i < |rest| ==> rest[i].pin.id != favs[0].pinId
  {
    OnePerTargetTail(favs);
    forall i | 0 <= i < |rest| ensures rest[i].pin.id != favs[0].pinId {
      assert PointsAt(favs[1..], rest[i].pin.id);
      var f :| f in favs[1..] && f.pinId == rest[i].pin.id;
    }
  }

  /** One step of the join: the first row's pins, then the rest's, keep
      every per-row fact. */
  lemma JoinStep(favs: seq<Favorite>, pins: seq<Pin>, users: seq<User>, rest: seq<PinView>)
    requires favs != []
    requires forall i :: 0 <= i < |rest| ==>
      rest[i].pin in pins && PinVisible(rest[i].pin) && PointsAt(favs[1..], rest[i].pin.id)
    requires forall v :: v in rest ==>
      HasAuthor(users, v.pin) &&
      v.author == FindUser(users, v.pin.authorId).value.username &&
      v.authorVerified == FindUser(users, v.pin.authorId).value.isVerified
    ensures var r := AttachAuthors(FavoriteTargets(pins, users, favs[0].pinId), users) + rest;
            forall i :: 0 <= i < |r| ==>
              r[i].pin in pins && PinVisible(r[i].pin) && PointsAt(favs, r[i].pin.id)
    ensures var r := AttachAuthors(FavoriteTargets(pins, users, favs[0].pinId), users) + rest;
            forall v :: v in r ==>
              HasAuthor(users, v.pin) &&
              v.author == FindUser(users, v.pin.authorId).value.username &&
              v.authorVerified == FindUser(users, v.pin.authorId).value.isVerified
  {
    var head := AttachAuthors(FavoriteTargets(pins, users, favs[0].pinId), users);
    var r := head + rest;
    forall i | 0 <= i < |r| ensures r[i].pin in pins && PinVisible(r[i].pin) && PointsAt(favs, r[i].pin.id) {
      if i < |head| {
        assert r[i] == head[i];
        assert head[i].pin in FavoriteTargets(pins, users, favs[0].pinId);
        assert favs[0] in favs;
      } else {
        assert r[i] == rest[i - |head|];
        assert PointsAt(favs[1..], rest[i - |head|].pin.id);
        var f :| f in favs[1..] && f.pinId == rest[i - |head|].pin.id;
        assert f in favs;
      }
    }
    forall v | v in r ensures HasAuthor(users, v.pin) &&
      v.author == FindUser(users, v.pin.authorId).value.username &&
      v.authorVerified == FindUser(users, v.pin.authorId).value.isVerified
    {
      if v in head {
        var i :| 0 <= i < |head| && head[i] == v;
      }
    }
  }

  /** The join over favourite rows in the given order: each joined pin with
      its author columns, and no pin twice when the rows point at distinct
      pins and pin ids are unique. */
  function JoinFavorites(favs: seq<Favorite>, pins: seq<Pin>, users: seq<User>): (r: seq<PinView>)
    ensures forall i :: 0 <= i < |r| ==>
      r[i].pin in pins && PinVisible(r[i].pin) && PointsAt(favs, r[i].pin.id)
    ensures forall v :: v in r ==>
      HasAuthor(users, v.pin) &&
      v.author == FindUser(users, v.pin.authorId).value.username &&
      v.authorVerified == FindUser(users, v.pin.authorId).value.isVerified
  {
    if favs == [] then []
    else
      var head := AttachAuthors(FavoriteTargets(pins, users, favs[0].pinId), users);
      var rest := JoinFavorites(favs[1..], pins, users);
      JoinStep(favs, pins, users, rest);
      head + rest
  }

  /** When the rows point at distinct pins and pin ids are unique, no pin is joined twice. */
  lemma {:induction false} JoinFavoritesDistinct(favs: seq<Favorite>, pins: seq<Pin>, users: seq<User>)
    requires OnePerTarget(favs) && UniquePinIds(pins)
    ensures DistinctPins(JoinFavorites(favs, pins, users))
    decreases |favs|
  {
    if favs != [] {
      var head := AttachAuthors(FavoriteTargets(pins, users, favs[0].pinId), users);
      var rest := JoinFavorites(favs[1..], pins, users);
      assert JoinFavorites(favs, pins, users) == head + rest;
      OnePerTargetTail(favs);
      JoinFavoritesDistinct(favs[1..], pins, users);
      JoinStepDistinct(favs, pins, users, rest);
    }
  }

  /** A visible pin with an author is among the joined targets of its own id. */
  lemma TargetIsJoined(pins: seq<Pin>, users: seq<User>, p: Pin)
    requires p in pins && PinVisible(p) && HasAuthor(users, p)
    ensures exists i :: 0 <= i < |AttachAuthors(FavoriteTargets(pins, users, p.id), users)| &&
                        AttachAuthors(FavoriteTargets(pins, users, p.id), users)[i].pin == p
  {
    var targets := FavoriteTargets(pins, users, p.id);
    assert p in targets;
    var i: int :| 0 <= i < |targets| && targets[i] == p;
    assert AttachAuthors(targets, users)[i].pin == p;
  }

  /** A pin listed in either part is listed in the concatenation. */
  lemma ListedInConcat(head: seq<PinView>, rest: seq<PinView>, p: Pin)
    requires (exists i :: 0 <= i < |head| && head[i].pin == p) ||
             (exists i :: 0 <= i < |rest| && rest[i].pin == p)
    ensures exists i :: 0 <= i < |head + rest| && (head + rest)[i].pin == p
  {
    if exists i :: 0 <= i < |head| && head[i].pin == p {
      var i :| 0 <= i < |head| && head[i].pin == p;
      assert (head + rest)[i] == head[i];
    } else {
      var i :| 0 <= i < |rest| && rest[i].pin == p;
      assert (head + rest)[|head| + i] == rest[i];
    }
  }

  lemma {:induction false} JoinFavoritesComplete(favs: seq<Favorite>, pins: seq<Pin>, users: seq<User>,
                                                f: Favorite, p: Pin)
    requires f in favs && p in pins && p.id == f.pinId && PinVisible(p) && HasAuthor(users, p)
    ensures exists i :: 0 <= i < |JoinFavorites(favs, pins, users)| && JoinFavorites(favs, pins, users)[i].pin == p
    decreases |favs|
  {
    var head: seq<PinView> := AttachAuthors(FavoriteTargets(pins, users, favs[0].pinId), users);
    var rest: seq<PinView> := JoinFavorites(favs[1..], pins, users);
    var all: seq<PinView> := head + rest;
    assert JoinFavorites(favs, pins, users) == all;
    if f == favs[0] {
      TargetIsJoined(pins, users, p);
    } else {
      JoinFavoritesComplete(favs[1..], pins, users, f, p);
    }
    ListedInConcat(head, rest, p);
  }

  /** `get_favorites`: the user's favourite rows, most recent first, joined to
      the pins that are not hidden; no privacy filter. */
  function FavoritePins(favorites: seq<Favorite>, pins: seq<Pin>, users: seq<User>, userId: Id)
    : (r: seq<PinView>)
    ensures forall i :: 0 <= i < |r| ==>
      r[i].pin in pins && PinVisible(r[i].pin) && HasFavorite(favorites, userId, r[i].pin.id)
    ensures forall v :: v in r ==>
      HasAuthor(users, v.pin) &&
      v.author == FindUser(users, v.pin.authorId).value.username &&
      v.authorVerified == FindUser(users, v.pin.authorId).value.isVerified
    ensures UniqueEdges(favorites) && UniquePinIds(pins) ==>
      forall i, j :: 0 <= i < j < |r| ==> r[i].pin.id != r[j].pin.id
  {
    var mine := Filter(favorites, (f: Favorite) => f.userId == userId);
    var ordered := SortBy(mine, (f: Favorite) => -f.createdAt);
    assert UniqueEdges(favorites) ==> OnePerTarget(ordered) by {
      if UniqueEdges(favorites) {
        ReorderedRowsOnePerTarget(favorites, mine, ordered, userId);
      }
    }
    var r := JoinFavorites(ordered, pins, users);
    assert OnePerTarget(ordered) && UniquePinIds(pins) ==> DistinctPins(r) by {
      if OnePerTarget(ordered) && UniquePinIds(pins) {
        JoinFavoritesDistinct(ordered, pins, users);
      }
    }
    assert forall i :: 0 <= i < |r| ==> HasFavorite(favorites, userId, r[i].pin.id) by {
      forall i | 0 <= i < |r| ensures HasFavorite(favorites, userId, r[i].pin.id) {
        assert PointsAt(ordered, r[i].pin.id);
        var f :| f in ordered && f.pinId == r[i].pin.id;
        assert f in multiset(mine);
      }
    }
    r
  }

  /** Every favourited pin that is not hidden is listed, private or not. */
  lemma FavoritePinsComplete(favorites: seq<Favorite>, pins: seq<Pin>, users: seq<User>, userId: Id, p: Pin)
    requires HasFavorite(favorites, userId, p.id)
    requires p in pins && PinVisible(p) && HasAuthor(users, p)
    ensures exists i :: 0 <= i < |FavoritePins(favorites, pins, users, userId)| &&
                        FavoritePins(favorites, pins, users, userId)[i].pin == p
  {
    var f :| f in favorites && f.userId == userId && f.pinId == p.id;
    var mine := Filter(favorites, (f: Favorite) => f.userId == userId);
    var ordered := SortBy(mine, (f: Favorite) => -f.createdAt);
    assert f in mine;
    assert f in multiset(ordered) by {
      assert f in multiset(mine);
    }
    assert f in ordered;
    JoinFavoritesComplete(ordered, pins, users, f, p);
    assert FavoritePins(favorites, pins, users, userId) == JoinFavorites(ordered, pins, users);
  }

  // ---------------------------------------------------------------------
  // The handler

  datatype ActionsRequest = ActionsRequest(
    httpMethod: string,
    action: string,
    entityType: string,
    entityId: Id,
    userId: Id,
    pinId: Id,
    isFavorite: bool,   // true when the body leaves it out
    forwardedFor: Option<string>)

  datatype ActionsResponse =
    | Preflight
    | Success
    | FavoritesList(views: seq<PinView>)
    | IsFavoriteAnswer(isFavorite: bool)
    | ReportedAnswer(reported: bool)
    | InvalidAction

  /** The action names each method serves; everything else except a preflight
      is an invalid action. */
  predicate Recognised(req: ActionsRequest)
  {
    (req.httpMethod == "POST" && req.action in {"report", "favorite", "get_favorites", "is_favorite"}) ||
    (req.httpMethod == "GET" && req.action == "check_report")
  }

  method Handle(db: Database, req: ActionsRequest, now: int) returns (resp: ActionsResponse)
    requires db.Valid()
    modifies db`reports, db`pins, db`comments, db`favorites
    ensures db.Valid()
    ensures req.httpMethod == "OPTIONS" ==> resp == Preflight
    ensures req.httpMethod != "OPTIONS" && !Recognised(req) ==> resp == InvalidAction
    ensures !(req.httpMethod == "POST" && req.action in {"report", "favorite"}) ==>
              db.reports == old(db.reports) && db.pins == old(db.pins) &&
              db.comments == old(db.comments) && db.favorites == old(db.favorites)
    ensures req.httpMethod == "POST" && req.action == "report" ==>
              resp == Success &&
              db.reports == old(db.reports) + {ReportGuard(ClientIp(req.forwardedFor), req.entityType, req.entityId)} &&
              db.pins == (if req.entityType == "pin" then IncrementPinReports(old(db.pins), req.entityId)
                          else old(db.pins)) &&
              db.comments == (if req.entityType == "comment"
                              then IncrementCommentReports(old(db.comments), req.entityId)
                              else old(db.comments)) &&
              db.favorites == old(db.favorites)
    ensures req.httpMethod == "POST" && req.action == "favorite" ==>
              resp == Success &&
              db.favorites == SetFavorite(old(db.favorites), req.userId, req.pinId, req.isFavorite, now) &&
              db.reports == old(db.reports) && db.pins == old(db.pins) && db.comments == old(db.comments)
    ensures req.httpMethod == "POST" && req.action == "get_favorites" ==>
              resp == FavoritesList(FavoritePins(db.favorites, db.pins, db.users, req.userId))
    ensures req.httpMethod == "POST" && req.action == "is_favorite" ==>
              resp == IsFavoriteAnswer(HasFavorite(db.favorites, req.userId, req.pinId))
    ensures req.httpMethod == "GET" && req.action == "check_report" ==>
              resp == ReportedAnswer(ReportGuard(ClientIp(req.forwardedFor), req.entityType, req.entityId)
                                     in db.reports)
  {
    if req.httpMethod == "OPTIONS" {
      return Preflight;
    }
    if req.httpMethod == "POST" {
      if req.action == "report" {
        var ip := ClientIp(req.forwardedFor);
        db.reports := db.reports + {ReportGuard(ip, req.entityType, req.entityId)};
        if req.entityType == "pin" {
          db.pins := IncrementPinReports(db.pins, req.entityId);
        } else if req.entityType == "comment" {
          db.comments := IncrementCommentReports(db.comments, req.entityId);
        }
        resp := Success;
        return;
      } else if req.action == "favorite" {
        SetFavoriteKeepsEdgesUnique(db.favorites, req.userId, req.pinId, req.isFavorite, now);
        db.favorites := SetFavorite(db.favorites, req.userId, req.pinId, req.isFavorite, now);
        resp := Success;
        return;
      } else if req.action == "get_favorites" {
        resp := FavoritesList(FavoritePins(db.favorites, db.pins, db.users, req.userId));
        return;
      } else if req.action == "is_favorite" {
        resp := IsFavoriteAnswer(HasFavorite(db.favorites, req.userId, req.pinId));
        return;
      }
    } else if req.httpMethod == "GET" {
      if req.action == "check_report" {
        var ip := ClientIp(req.forwardedFor);
        resp := ReportedAnswer(ReportGuard(ip, req.entityType, req.entityId) in db.reports);
        return;
      }
    }
    resp := InvalidAction;
  }
}
