/** The plain-text page of the older interface: the content of the first
    stored pin with the id in the address, shown whatever its reports, or a
    fixed notice when no stored pin has that id. The page only reads storage. */
module RawPinView {
  import opened Seqs
  import opened Rules
  import opened Storage

  const NotFoundText: string := "Pin not found"

  /** The text the page shows for the stored pins and the id in the address. */
  function RawText(pins: seq<LocalPin>, id: string): (text: string)
    ensures (forall p :: p in pins ==> p.id != id) ==> text == NotFoundText
    ensures (exists p :: p in pins && p.id == id) ==>
              exists i :: 0 <= i < |pins| && pins[i].id == id && text == pins[i].content &&
                          forall j :: 0 <= j < i ==> pins[j].id != id
  {
    match FindLocalPin(pins, id)
    case Some(p) => p.content
    case None => NotFoundText
  }

  /** A hidden pin is still served in full: hiding only affects the lists. */
  lemma HiddenPinStillServed(pins: seq<LocalPin>, p: LocalPin)
    requires p in pins && !LocalPinVisible(p)
    requires forall q :: q in pins && q.id == p.id ==> q == p
    ensures RawText(pins, p.id) == p.content
  {
  }

  /** Counting views never changes what the page shows. */
  lemma {:induction false} ViewsKeepRawText(pins: seq<LocalPin>, viewed: string, id: string)
    ensures RawText(IncrementLocalViews(pins, viewed), id) == RawText(pins, id)
    decreases |pins|
  {
    if pins != [] {
      var after := IncrementLocalViews(pins, viewed);
      assert after[1..] == IncrementLocalViews(pins[1..], viewed);
      ViewsKeepRawText(pins[1..], viewed, id);
    }
  }
}
