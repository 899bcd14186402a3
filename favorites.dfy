/** The favourites page of the older interface: the stored pins whose id is in
    the user's favourite list and that are not hidden, in stored pin order.
    Unlike the feed, opening a pin and taking back an updated pin work on the
    full stored list. */
module FavoritesView {
  import opened Seqs
  import opened Rules
  import opened Storage

  /** The listed pins: favourite ids that name a visible stored pin, in stored order. */
  function FavoritePins(pins: seq<LocalPin>, ids: seq<string>): (r: seq<LocalPin>)
    ensures forall p :: p in r <==> p in pins && p.id in ids && LocalPinVisible(p)
    ensures IsSubsequence(r, pins)
  {
    var keep := (p: LocalPin) => p.id in ids && LocalPinVisible(p);
    FilterIsSubsequence(pins, keep);
    Filter(pins, keep)
  }

  /** A favourite id that names no stored pin adds nothing to the list. */
  lemma {:induction false} DanglingIdsIgnored(pins: seq<LocalPin>, ids: seq<string>, dangling: string)
    requires forall p :: p in pins ==> p.id != dangling
    ensures FavoritePins(pins, ids + [dangling]) == FavoritePins(pins, ids)
    decreases |pins|
  {
    if pins != [] {
      assert pins[0] in pins;
      DanglingIdsIgnored(pins[1..], ids, dangling);
    }
  }

  /** The list holds no pin twice unless storage does, whatever duplicates
      the favourite list holds. */
  lemma DuplicateIdsListedOnce(pins: seq<LocalPin>, ids: seq<string>, p: LocalPin)
    ensures multiset(FavoritePins(pins, ids))[p] <= multiset(pins)[p]
  {
  }

  /** Opening a pin counts the view on the full stored list: hidden pins stay
      stored, and only the pins with that id change. */
  lemma ClickKeepsHiddenPins(stored: seq<LocalPin>, id: string)
    ensures var after := IncrementLocalViews(stored, id);
            |after| == |stored| &&
            forall i :: 0 <= i < |stored| ==>
              after[i].reports == stored[i].reports && after[i].id == stored[i].id &&
              (stored[i].id != id ==> after[i] == stored[i])
  {
  }

  class Favorites {
    const store: LocalStorage
    const currentUser: string
    var favoritePins: seq<LocalPin>
    var selectedPin: Option<LocalPin>

    /** Mounting: one load, nothing open. */
    constructor (store: LocalStorage, currentUser: string)
      ensures this.store == store && this.currentUser == currentUser
      ensures favoritePins == FavoritePins(store.pins, FavoritesOf(store.favorites, currentUser))
      ensures selectedPin.None?
    {
      this.store := store;
      this.currentUser := currentUser;
      favoritePins := FavoritePins(store.pins, FavoritesOf(store.favorites, currentUser));
      selectedPin := None;
    }

    /** One poll of the favourite ids and the stored pins. */
    method LoadFavorites()
      modifies this`favoritePins
      ensures favoritePins == FavoritePins(store.pins, FavoritesOf(store.favorites, currentUser))
    {
      favoritePins := FavoritePins(store.pins, FavoritesOf(store.favorites, currentUser));
    }

    /** Opening a pin: one more view on the full stored list; the pin opens
        with its view counted. The listed pins wait for the next poll. */
    method HandlePinClick(pin: LocalPin)
      modifies store`pins, this`selectedPin
      ensures store.pins == IncrementLocalViews(old(store.pins), pin.id)
      ensures selectedPin == Some(pin.(views := pin.views + 1))
    {
      store.pins := IncrementLocalViews(store.pins, pin.id);
      selectedPin := Some(pin.(views := pin.views + 1));
    }

    /** The detail view hands back a changed pin: it replaces the stored copy
        in the full stored list and stays open. */
    method OnUpdate(updated: LocalPin)
      modifies store`pins, this`selectedPin
      ensures store.pins == ReplaceLocalPin(old(store.pins), updated)
      ensures selectedPin == Some(updated)
    {
      store.pins := ReplaceLocalPin(store.pins, updated);
      selectedPin := Some(updated);
    }

    method OnClose()
      modifies this`selectedPin
      ensures selectedPin.None?
    {
      selectedPin := None;
    }
  }
}
