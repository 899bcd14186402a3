/** The pin detail view of the older interface: the comments shown under a
    pin, reporting the pin or one of its comments once per user, posting a
    comment and toggling the pin in the user's favourites. Reporting the pin
    does not write storage itself: it hands the updated pin to the enclosing
    list (`onUpdate`), which is the `update` result of `HandleReport`. */
module PinDetailView {
  import opened Seqs
  import opened Text
  import opened Rules
  import opened Storage

  /** The comments shown under a pin: that pin's comments with fewer than five
      reports (`CommentHideThreshold`, the same threshold as the backend's
      comment listing), in stored order. */
  function ShownComments(all: seq<LocalComment>, pinId: string): (r: seq<LocalComment>)
    ensures forall c :: c in r <==> c in all && c.pinId == pinId && LocalCommentVisible(c)
    ensures IsSubsequence(r, all)
  {
    var keep := (c: LocalComment) => c.pinId == pinId && LocalCommentVisible(c);
    FilterIsSubsequence(all, keep);
    Filter(all, keep)
  }

  /** Every stored comment with the id gains one report; nothing else changes. */
  function IncrementLocalCommentReports(all: seq<LocalComment>, id: string): (r: seq<LocalComment>)
    ensures |r| == |all|
    ensures forall i :: 0 <= i < |all| ==>
      r[i] == all[i].(reports := r[i].reports) &&
      r[i].reports == all[i].reports + (if all[i].id == id then 1 else 0)
  {
    seq(|all|, i requires 0 <= i < |all| =>
      if all[i].id == id then all[i].(reports := all[i].reports + 1) else all[i])
  }

  /** The comment a post appends: the id is the first clock reading in
      decimal, the date the second one, the text is kept as typed. */
  function NewLocalComment(pinId: string, author: string, text: string, t1: nat, t2: int)
    : (c: LocalComment)
    ensures c.id == DecimalString(t1) && c.pinId == pinId && c.author == author
    ensures c.content == text && c.createdAt == t2 && c.reports == 0
  {
    LocalComment(DecimalString(t1), pinId, author, text, t2, 0)
  }

  /** The user's favourite list after a toggle: every copy of the id removed
      when the view shows the pin as a favourite, the id appended otherwise. */
  function ToggledFavorites(ids: seq<string>, pinId: string, isFavorite: bool): (r: seq<string>)
    ensures isFavorite ==> pinId !in r && forall x :: x in r <==> x in ids && x != pinId
    ensures !isFavorite ==> r == ids + [pinId]
  {
    if isFavorite then Filter(ids, (x: string) => x != pinId) else ids + [pinId]
  }

  /** Two toggles from a view that agrees with storage give the list back
      its old membership. */
  lemma ToggleTwiceRestoresMembership(ids: seq<string>, pinId: string)
    ensures var once := ToggledFavorites(ids, pinId, pinId in ids);
            var twice := ToggledFavorites(once, pinId, !(pinId in ids));
            (pinId in once <==> pinId !in ids) &&
            forall x :: x in twice <==> x in ids
  {
  }

  /** A view that missed another tab's change appends the id a second time. */
  lemma StaleToggleDuplicates(ids: seq<string>, pinId: string)
    requires pinId in ids
    ensures multiset(ToggledFavorites(ids, pinId, false))[pinId] >= 2
  {
  }

  class PinDetail {
    const store: LocalStorage
    const pin: LocalPin
    const currentUser: string
    var comments: seq<LocalComment>
    var newComment: string
    var isFavorite: bool

    /** Opening the view: one load of the comments and of the favourite flag. */
    constructor (store: LocalStorage, pin: LocalPin, currentUser: string)
      ensures this.store == store && this.pin == pin && this.currentUser == currentUser
      ensures comments == ShownComments(store.comments, pin.id)
      ensures isFavorite == (pin.id in FavoritesOf(store.favorites, currentUser))
      ensures newComment == []
    {
      this.store := store;
      this.pin := pin;
      this.currentUser := currentUser;
      comments := ShownComments(store.comments, pin.id);
      isFavorite := pin.id in FavoritesOf(store.favorites, currentUser);
      newComment := [];
    }

    /** One poll of the stored comments. */
    method LoadComments()
      modifies this`comments
      ensures comments == ShownComments(store.comments, pin.id)
    {
      comments := ShownComments(store.comments, pin.id);
    }

    /** Reporting the pin: refused when this user's guard key is set; otherwise
        the key is set and the pin, with one more report, goes to `onUpdate`. */
    method HandleReport() returns (update: Option<LocalPin>)
      modifies store`flags
      ensures var key := PinReportKey(currentUser, pin.id);
              (key in old(store.flags) ==> update.None? && store.flags == old(store.flags)) &&
              (key !in old(store.flags) ==>
                 update == Some(pin.(reports := pin.reports + 1)) &&
                 store.flags == old(store.flags) + {key})
    {
      var key := PinReportKey(currentUser, pin.id);
      if key in store.flags {
        return None;
      }
      store.flags := store.flags + {key};
      update := Some(pin.(reports := pin.reports + 1));
    }

    /** Reporting a comment: refused when this user's guard key is set;
        otherwise the key is set and the comment with that id gains a report
        both in storage and in the shown list, which is not filtered again. */
    method HandleCommentReport(commentId: string) returns (reported: bool)
      modifies store`flags, store`comments, this`comments
      ensures var key := CommentReportKey(currentUser, commentId);
              reported == (key !in old(store.flags)) &&
              (!reported ==> store.flags == old(store.flags) && store.comments == old(store.comments) &&
                             comments == old(comments)) &&
              (reported ==> store.flags == old(store.flags) + {key} &&
                            store.comments == IncrementLocalCommentReports(old(store.comments), commentId) &&
                            comments == IncrementLocalCommentReports(old(comments), commentId))
    {
      var key := CommentReportKey(currentUser, commentId);
      if key in store.flags {
        return false;
      }
      store.flags := store.flags + {key};
      store.comments := IncrementLocalCommentReports(store.comments, commentId);
      comments := IncrementLocalCommentReports(comments, commentId);
      reported := true;
    }

    /** Posting the typed comment, unless it is blank. The clock is read twice:
        `t1` names the comment, `t2` dates it. */
    method HandlePostComment(t1: nat, t2: int)
      modifies store`comments, this`comments, this`newComment
      ensures IsBlank(old(newComment)) ==>
                store.comments == old(store.comments) && comments == old(comments) &&
                newComment == old(newComment)
      ensures !IsBlank(old(newComment)) ==>
                var c := NewLocalComment(pin.id, currentUser, old(newComment), t1, t2);
                store.comments == old(store.comments) + [c] && comments == old(comments) + [c] &&
                newComment == []
    {
      if Trim(newComment) == [] {
        return;
      }
      var c := NewLocalComment(pin.id, currentUser, newComment, t1, t2);
      store.comments := store.comments + [c];
      comments := comments + [c];
      newComment := [];
    }

    /** Toggling the pin in the user's favourites; only that user's list changes. */
    method ToggleFavorite()
      modifies store`favorites, this`isFavorite
      ensures store.favorites ==
              old(store.favorites)[currentUser := ToggledFavorites(FavoritesOf(old(store.favorites), currentUser),
                                                                   pin.id, old(isFavorite))]
      ensures isFavorite == !old(isFavorite)
    {
      var ids := FavoritesOf(store.favorites, currentUser);
      store.favorites := store.favorites[currentUser := ToggledFavorites(ids, pin.id, isFavorite)];
      isFavorite := !isFavorite;
    }
  }

  /** A comment reported up to the threshold stays in the shown list until
      the next poll, which drops it. */
  lemma ReportedCommentShownUntilReload(shown: seq<LocalComment>, stored: seq<LocalComment>,
                                        pinId: string, i: nat, j: nat)
    requires i < |shown| && j < |stored| && shown[i] == stored[j]
    requires stored[j].pinId == pinId && stored[j].reports == CommentHideThreshold - 1
    ensures IncrementLocalCommentReports(shown, shown[i].id)[i].reports == CommentHideThreshold
    ensures IncrementLocalCommentReports(stored, stored[j].id)[j] !in
            ShownComments(IncrementLocalCommentReports(stored, stored[j].id), pinId)
  {
  }
}
