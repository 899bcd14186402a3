/** The publish form of the older interface: a pin with trimmed title and
    content is appended to the stored pins. The clock is read twice, once for
    the id and once for the date. */
module CreatePinView {
  import opened Seqs
  import opened Sorting
  import opened Text
  import opened Rules
  import opened Storage
  import MainFeedView

  /** The pin a publish appends: id from the first clock reading, date from
      the second, no views and no reports. */
  function NewLocalPin(title: string, content: string, author: string, t1: nat, t2: int): (p: LocalPin)
    ensures p.id == DecimalString(t1) && p.createdAt == t2
    ensures p.title == Trim(title) && p.content == Trim(content) && p.author == author
    ensures p.views == 0 && p.reports == 0 && LocalPinVisible(p)
  {
    LocalPin(DecimalString(t1), Trim(title), Trim(content), author, t2, 0, 0)
  }

  /** The id spells the date exactly when both clock readings agree. */
  lemma IdMatchesDateIffSameReading(title: string, content: string, author: string, t1: nat, t2: nat)
    ensures NewLocalPin(title, content, author, t1, t2).id == DecimalString(t2) <==> t1 == t2
  {
    if DecimalString(t1) == DecimalString(t2) {
      DecimalStringInjective(t1, t2);
    }
  }

  /** Pins published at different first readings have different ids, and
      their ids hold no underscore, so their report keys never collide. */
  lemma DistinctReadingsDistinctKeys(user: string, t1: nat, t1': nat)
    requires t1 != t1'
    ensures PinReportKey(user, DecimalString(t1)) != PinReportKey(user, DecimalString(t1'))
  {
    if PinReportKey(user, DecimalString(t1)) == PinReportKey(user, DecimalString(t1')) {
      ClockIdsHaveNoUnderscore(t1);
      ClockIdsHaveNoUnderscore(t1');
      PinReportKeyInjective(user, DecimalString(t1), user, DecimalString(t1'));
      DecimalStringInjective(t1, t1');
    }
  }

  /** A published pin shows in the feed once it is loaded again. */
  lemma PublishedPinInFeed(stored: seq<LocalPin>, p: LocalPin, k: MainFeedView.FeedSort)
    requires LocalPinVisible(p)
    ensures p in MainFeedView.FilteredPins(VisibleLocalPins(stored + [p]), "", k)
  {
    EmptySearchMatchesAll(p.title);
  }

  class CreatePin {
    const store: LocalStorage
    const currentUser: string
    var title: string
    var content: string

    constructor (store: LocalStorage, currentUser: string)
      ensures this.store == store && this.currentUser == currentUser && title == [] && content == []
    {
      this.store := store;
      this.currentUser := currentUser;
      title := [];
      content := [];
    }

    /** Publishing: refused while the title or the content is blank; otherwise
        exactly one pin is appended and the form is cleared. */
    method HandlePublish(t1: nat, t2: int) returns (published: bool)
      modifies store`pins, this`title, this`content
      ensures published <==> !IsBlank(old(title)) && !IsBlank(old(content))
      ensures !published ==> store.pins == old(store.pins) && title == old(title) && content == old(content)
      ensures published ==>
                store.pins == old(store.pins) + [NewLocalPin(old(title), old(content), currentUser, t1, t2)] &&
                title == [] && content == []
    {
      if Trim(title) == [] || Trim(content) == [] {
        return false;
      }
      var pin := NewLocalPin(title, content, currentUser, t1, t2);
      store.pins := store.pins + [pin];
      title := [];
      content := [];
      published := true;
    }
  }
}
