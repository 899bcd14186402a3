/** The feed of the older interface: the stored pins that are not hidden,
    narrowed by a case-insensitive title search and put in the chosen order;
    opening a pin counts a view, and a pin handed back by the detail view
    replaces its stored copy. Both writes store the loaded list, which holds
    only the visible pins. */
module MainFeedView {
  import opened Seqs
  import opened Sorting
  import opened Text
  import opened Rules
  import opened Storage

  datatype FeedSort = MostViewed | Newest | Oldest

  /** The comparator as an ascending integer rank. */
  function FeedRank(k: FeedSort): LocalPin -> int
  {
    match k
    case MostViewed => (p: LocalPin) => -p.views
    case Newest => (p: LocalPin) => -p.createdAt
    case Oldest => (p: LocalPin) => p.createdAt
  }

  /** What each order promises, written out. */
  predicate FeedInOrder(ps: seq<LocalPin>, k: FeedSort)
  {
    match k
    case MostViewed => forall i, j :: 0 <= i < j < |ps| ==> ps[i].views >= ps[j].views
    case Newest => forall i, j :: 0 <= i < j < |ps| ==> ps[i].createdAt >= ps[j].createdAt
    case Oldest => forall i, j :: 0 <= i < j < |ps| ==> ps[i].createdAt <= ps[j].createdAt
  }

  lemma FeedRankOrder(ps: seq<LocalPin>, k: FeedSort)
    requires SortedBy(ps, FeedRank(k))
    ensures FeedInOrder(ps, k)
  {
    match k
    case MostViewed =>
      forall i, j | 0 <= i < j < |ps| ensures ps[i].views >= ps[j].views {
        assert FeedRank(k)(ps[i]) <= FeedRank(k)(ps[j]);
      }
    case Newest =>
      forall i, j | 0 <= i < j < |ps| ensures ps[i].createdAt >= ps[j].createdAt {
        assert FeedRank(k)(ps[i]) <= FeedRank(k)(ps[j]);
      }
    case Oldest =>
      forall i, j | 0 <= i < j < |ps| ensures ps[i].createdAt <= ps[j].createdAt {
        assert FeedRank(k)(ps[i]) <= FeedRank(k)(ps[j]);
      }
  }

  predicate TitleMatches(p: LocalPin, query: string)
  {
    ContainsIgnoreCase(p.title, query)
  }

  /** The loaded pins whose title contains the query, in loaded order. */
  function TitleMatching(pins: seq<LocalPin>, query: string): (r: seq<LocalPin>)
    ensures forall p :: p in r <==> p in pins && TitleMatches(p, query)
    ensures (forall p :: p in pins ==> TitleMatches(p, query)) ==> r == pins
  {
    var keep := (p: LocalPin) => TitleMatches(p, query);
    if forall p :: p in pins ==> TitleMatches(p, query) then
      FilterKeepsAll(pins, keep);
      Filter(pins, keep)
    else
      Filter(pins, keep)
  }

  /** The displayed list: the loaded pins whose title contains the query
      case-insensitively, in the chosen order (ties keep loaded order). */
  function FilteredPins(pins: seq<LocalPin>, query: string, k: FeedSort): (r: seq<LocalPin>)
    ensures multiset(r) == multiset(TitleMatching(pins, query))
    ensures forall p :: p in r <==> p in pins && TitleMatches(p, query)
    ensures FeedInOrder(r, k)
  {
    var matching := TitleMatching(pins, query);
    var r := SortBy(matching, FeedRank(k));
    FeedRankOrder(r, k);
    SortByMembers(matching, FeedRank(k));
    r
  }

  /** With an empty query the displayed list is a reordering of all loaded pins. */
  lemma EmptyQueryShowsAll(pins: seq<LocalPin>, k: FeedSort)
    ensures multiset(FilteredPins(pins, "", k)) == multiset(pins)
  {
    forall p | p in pins ensures TitleMatches(p, "") {
      EmptySearchMatchesAll(p.title);
    }
  }

  /** A list already in the chosen order is displayed as it is. */
  lemma SortedListUnchanged(pins: seq<LocalPin>, k: FeedSort)
    requires SortedBy(pins, FeedRank(k))
    ensures FilteredPins(pins, "", k) == pins
  {
    forall p | p in pins ensures TitleMatches(p, "") {
      EmptySearchMatchesAll(p.title);
    }
    SortBySorted(pins, FeedRank(k));
  }

  /** Opening a pin from the feed stores the loaded list with one more view on
      that pin: every hidden pin is gone from storage afterwards. */
  lemma ClickDropsHiddenPins(stored: seq<LocalPin>, id: string)
    ensures var after := IncrementLocalViews(VisibleLocalPins(stored), id);
            (forall p :: p in after ==> LocalPinVisible(p)) &&
            ((exists p :: p in stored && !LocalPinVisible(p)) ==> |after| < |stored|)
  {
    var visible := VisibleLocalPins(stored);
    var after := IncrementLocalViews(visible, id);
    forall p | p in after ensures LocalPinVisible(p) {
      var i :| 0 <= i < |after| && after[i] == p;
      assert visible[i] in visible;
    }
    if exists p :: p in stored && !LocalPinVisible(p) {
      var p :| p in stored && !LocalPinVisible(p);
      StrictFilterShorter(stored, p);
    }
  }

  /** Leaving out a member of the list makes the visible list shorter. */
  lemma {:induction false} StrictFilterShorter(stored: seq<LocalPin>, p: LocalPin)
    requires p in stored && !LocalPinVisible(p)
    ensures |VisibleLocalPins(stored)| < |stored|
  {
    var visible := VisibleLocalPins(stored);
    assert multiset(visible) <= multiset(stored);
    assert p !in multiset(visible);
    var smaller := multiset(visible) + multiset{p};
    assert smaller <= multiset(stored);
    assert multiset(stored) == smaller + (multiset(stored) - smaller);
    assert |multiset(stored)| == |smaller| + |multiset(stored) - smaller|;
  }

  class MainFeed {
    const store: LocalStorage
    const currentUser: string
    var pins: seq<LocalPin>
    var searchQuery: string
    var sortBy: FeedSort
    var selectedPin: Option<LocalPin>

    /** Mounting: one load, empty search, newest first, nothing open. */
    constructor (store: LocalStorage, currentUser: string)
      ensures this.store == store && this.currentUser == currentUser
      ensures pins == VisibleLocalPins(store.pins)
      ensures searchQuery == [] && sortBy == Newest && selectedPin.None?
    {
      this.store := store;
      this.currentUser := currentUser;
      pins := VisibleLocalPins(store.pins);
      searchQuery := [];
      sortBy := Newest;
      selectedPin := None;
    }

    /** The list the feed displays. */
    function Displayed(): (r: seq<LocalPin>)
      reads this
      ensures multiset(r) == multiset(TitleMatching(pins, searchQuery))
      ensures forall p :: p in r <==> p in pins && TitleMatches(p, searchQuery)
      ensures FeedInOrder(r, sortBy)
    {
      FilteredPins(pins, searchQuery, sortBy)
    }

    /** One poll of the stored pins. */
    method LoadPins()
      modifies this`pins
      ensures pins == VisibleLocalPins(store.pins)
    {
      pins := VisibleLocalPins(store.pins);
    }

    /** Opening a pin: one more view on the loaded list, which is written back
        to storage, and the pin opens with its view counted. */
    method HandlePinClick(pin: LocalPin)
      modifies this`pins, this`selectedPin, store`pins
      ensures pins == IncrementLocalViews(old(pins), pin.id)
      ensures store.pins == pins
      ensures selectedPin == Some(pin.(views := pin.views + 1))
    {
      var updated := IncrementLocalViews(pins, pin.id);
      pins := updated;
      store.pins := updated;
      selectedPin := Some(pin.(views := pin.views + 1));
    }

    /** The detail view hands back a changed pin: it replaces the loaded copy,
        the loaded list is written back and the pin stays open. */
    method OnUpdate(updated: LocalPin)
      modifies this`pins, this`selectedPin, store`pins
      ensures pins == ReplaceLocalPin(old(pins), updated)
      ensures store.pins == pins
      ensures selectedPin == Some(updated)
    {
      var next := ReplaceLocalPin(pins, updated);
      pins := next;
      store.pins := next;
      selectedPin := Some(updated);
    }

    method OnClose()
      modifies this`selectedPin
      ensures selectedPin.None?
    {
      selectedPin := None;
    }
  }
}
