/** The publish form that talks to the backend: comma-separated tags are
    split, trimmed and emptied pieces dropped; the request carries the
    trimmed title and content, the private flag, the tags and the user's id;
    the form is cleared only when the backend answers with the new pin. */
module CreatePinNewView {
  import opened Seqs
  import opened Text
  import opened Schema
  import PinsHandler

  /** Every piece trimmed. */
  function TrimAll(pieces: seq<string>): (r: seq<string>)
    ensures |r| == |pieces|
    ensures forall i :: 0 <= i < |r| ==> r[i] == Trim(pieces[i])
  {
    seq(|pieces|, i requires 0 <= i < |pieces| => Trim(pieces[i]))
  }

  predicate NonEmpty(t: string)
  {
    t != []
  }

  /** The tags typed as `a, b ,c`: the trimmed non-empty pieces between commas, in order. */
  function ParseTags(input: string): (tags: seq<string>)
    ensures forall t :: t in tags ==> t != [] && Trim(t) == t && ',' !in t
  {
    var pieces := Split(input, ',');
    CleanPieces(pieces);
    Filter(TrimAll(pieces), NonEmpty)
  }

  /** Pieces free of commas stay free of them once trimmed, and trimming them
      again changes nothing. */
  lemma CleanPieces(pieces: seq<string>)
    requires forall p :: p in pieces ==> ',' !in p
    ensures forall t :: t in Filter(TrimAll(pieces), NonEmpty) ==> t != [] && Trim(t) == t && ',' !in t
  {
    var trimmed := TrimAll(pieces);
    forall t | t in Filter(trimmed, NonEmpty) ensures Trim(t) == t && ',' !in t {
      var i :| 0 <= i < |trimmed| && trimmed[i] == t;
      assert pieces[i] in pieces;
      TrimIdempotent(pieces[i]);
      TrimKeepsAbsentChar(pieces[i], ',');
    }
  }

  /** There is at most one tag more than there are commas. */
  lemma TagCountBound(input: string)
    ensures |ParseTags(input)| <= Count(input, ',') + 1
  {
    var pieces := Split(input, ',');
    assert |TrimAll(pieces)| == Count(input, ',') + 1;
  }

  /** Every non-empty trimmed piece becomes a tag, as many times as it is
      typed; only the empty pieces are dropped. */
  lemma ParseTagsComplete(input: string)
    ensures multiset(ParseTags(input)) == multiset(TrimAll(Split(input, ',')))[[] := 0]
  {
    DropEmptyPieces(TrimAll(Split(input, ',')));
  }

  lemma {:induction false} DropEmptyPieces(s: seq<string>)
    ensures multiset(Filter(s, NonEmpty)) == multiset(s)[[] := 0]
    decreases |s|
  {
    if s != [] {
      DropEmptyPieces(s[1..]);
      assert s == [s[0]] + s[1..];
      assert multiset(s) == multiset{s[0]} + multiset(s[1..]);
      if s[0] != [] {
        assert Filter(s, NonEmpty) == [s[0]] + Filter(s[1..], NonEmpty);
        assert multiset(s)[[] := 0] == multiset{s[0]} + multiset(s[1..])[[] := 0];
      } else {
        assert Filter(s, NonEmpty) == Filter(s[1..], NonEmpty);
        assert multiset(s)[[] := 0] == multiset(s[1..])[[] := 0];
      }
    }
  }

  /** The tags keep the order of the pieces they come from. */
  lemma ParseTagsKeepsOrder(input: string)
    ensures IsSubsequence(ParseTags(input), TrimAll(Split(input, ',')))
  {
    FilterIsSubsequence(TrimAll(Split(input, ',')), NonEmpty);
  }

  /** Trimming adds no character. */
  lemma TrimKeepsAbsentChar(s: string, c: char)
    requires c !in s
    ensures c !in Trim(s)
  {
    TrimIsSlice(s);
    var i :| OccursAt(s, Trim(s), i);
    forall k | 0 <= k < |Trim(s)| ensures Trim(s)[k] != c {
      assert Trim(s)[k] == s[i + k];
    }
  }

  /** Only blank input gives no tags. */
  lemma BlankInputNoTags(input: string)
    requires IsBlank(input)
    ensures ParseTags(input) == []
  {
    assert Split(input, ',') == [input] by {
      CommaFreeSplit(input);
    }
    assert TrimAll([input]) == [[]];
    assert Filter([[]], NonEmpty) == Filter([], NonEmpty);
  }

  /** A text without a comma is one piece. */
  lemma {:induction false} CommaFreeSplit(s: string)
    requires forall k :: 0 <= k < |s| ==> s[k] != ','
    ensures Split(s, ',') == [s]
  {
    if s != [] {
      CommaFreeSplit(s[1..]);
    }
  }

  /** A comma after a comma-free head splits off exactly that head. */
  lemma {:induction false} SplitAfterHead(head: string, rest: string)
    requires forall k :: 0 <= k < |head| ==> head[k] != ','
    ensures Split(head + [','] + rest, ',') == [head] + Split(rest, ',')
  {
    var s := head + [','] + rest;
    if head == [] {
      assert s[1..] == rest;
    } else {
      assert s[1..] == head[1..] + [','] + rest;
      SplitAfterHead(head[1..], rest);
      assert head == [head[0]] + head[1..];
    }
  }

  /** Repeated tags are kept: a tag typed twice is parsed twice. */
  lemma DuplicatesKept(t: string)
    requires t != [] && Trim(t) == t && ',' !in t
    ensures ParseTags(t + [','] + t) == [t, t]
  {
    SplitAfterHead(t, t);
    CommaFreeSplit(t);
    assert Split(t + [','] + t, ',') == [t, t];
    assert TrimAll([t, t]) == [t, t];
    FilterKeepsAll([t, t], NonEmpty);
  }

  /** `author_id` as the backend reads it: a zero id counts as missing. */
  function AuthorParam(userId: Id): (r: Option<Id>)
    ensures r.Some? <==> userId != 0
    ensures r.Some? ==> r.value == userId
  {
    if userId == 0 then None else Some(userId)
  }

  /** The request body the form sends. */
  function CreateRequest(title: string, content: string, userId: Id, isPrivate: bool, tagsInput: string)
    : (req: PinsHandler.NewPinRequest)
    ensures req.title == Trim(title) && req.content == Trim(content)
    ensures req.authorId == AuthorParam(userId) && req.isPrivate == isPrivate
    ensures req.tags == ParseTags(tagsInput)
  {
    PinsHandler.NewPinRequest(Trim(title), Trim(content), AuthorParam(userId), isPrivate, ParseTags(tagsInput))
  }

  /** Whatever the form lets through the backend accepts, and it stores the
      very text the form sent: trimming again changes nothing. */
  lemma FormAndBackendAgree(title: string, content: string, userId: Id, isPrivate: bool,
                            tagsInput: string, id: Id, now: int)
    requires !IsBlank(title) && !IsBlank(content) && userId != 0
    ensures var req := CreateRequest(title, content, userId, isPrivate, tagsInput);
            PinsHandler.AcceptsNewPin(req) &&
            PinsHandler.NewPin(req, id, now).title == Trim(title) &&
            PinsHandler.NewPin(req, id, now).content == Trim(content) &&
            PinsHandler.NewPin(req, id, now).tags == ParseTags(tagsInput) &&
            PinsHandler.NewPin(req, id, now).authorId == userId
  {
    TrimIdempotent(title);
    TrimIdempotent(content);
  }

  /** The form may be sent: neither the title nor the content is blank. */
  predicate FormReady(title: string, content: string)
    ensures FormReady(title, content) <==> !IsBlank(title) && !IsBlank(content)
  {
    Trim(title) != [] && Trim(content) != []
  }

  class CreatePinNew {
    const currentUserId: Id
    var title: string
    var content: string
    var tagsInput: string
    var isPrivate: bool
    var loading: bool

    constructor (currentUserId: Id)
      ensures this.currentUserId == currentUserId
      ensures title == [] && content == [] && tagsInput == [] && !isPrivate && !loading
    {
      this.currentUserId := currentUserId;
      title, content, tagsInput := [], [], [];
      isPrivate, loading := false, false;
    }

    /** The request the form would send now. */
    function Request(): (req: PinsHandler.NewPinRequest)
      reads this
      ensures FormReady(title, content) && currentUserId != 0 ==> PinsHandler.AcceptsNewPin(req)
    {
      CreateRequest(title, content, currentUserId, isPrivate, tagsInput)
    }

    /** The form after a successful publish: every field empty again. */
    method Clear()
      modifies this`title, this`content, this`tagsInput, this`isPrivate
      ensures title == "" && content == "" && tagsInput == "" && !isPrivate
    {
      title, content, tagsInput := "", "", "";
      isPrivate := false;
    }

    /** Publishing. Blank title or content sends nothing. Otherwise `Request()`
        is sent and `answer` is what comes back: the pins handler's response,
        or `None` when the connection fails. The form is cleared only when a
        pin comes back, and loading ends in every case. */
    method HandlePublish(answer: Option<PinsHandler.PinsResponse>)
      returns (sent: Option<PinsHandler.NewPinRequest>)
      modifies this`title, this`content, this`tagsInput, this`isPrivate, this`loading
      ensures !FormReady(old(title), old(content)) ==> sent.None? && loading == old(loading)
      ensures FormReady(old(title), old(content)) ==>
                !loading &&
                sent == Some(CreateRequest(old(title), old(content), currentUserId, old(isPrivate), old(tagsInput)))
      ensures FormReady(old(title), old(content)) && answer.Some? && answer.value.Created? ==>
                title == "" && content == "" && tagsInput == "" && !isPrivate
      ensures !(FormReady(old(title), old(content)) && answer.Some? && answer.value.Created?) ==>
                title == old(title) && content == old(content) && tagsInput == old(tagsInput) &&
                isPrivate == old(isPrivate)
    {
      if !FormReady(title, content) {
        return None;
      }
      loading := true;
      sent := Some(CreateRequest(title, content, currentUserId, isPrivate, tagsInput));
      if answer.Some? && answer.value.Created? {
        Clear();
      }
      loading := false;
    }
  }
}
