/** The browser's `localStorage` as the older components use it: the pin and
    comment arrays under `newbin_pins` and `newbin_comments`, the
    name-to-password object under `newbin_users`, one favourite id list per
    user under `newbin_favorites_<user>`, and the report guard keys
    `newbin_report_<user>_<pin>` and `newbin_comment_report_<user>_<comment>`
    whose value is `'true'`.

    A key that was never written reads as an empty array or object. */
module Storage {
  import opened Seqs
  import opened Text
  import opened Rules

  datatype LocalPin = LocalPin(id: string, title: string, content: string, author: string,
                               createdAt: int, views: int, reports: int)

  datatype LocalComment = LocalComment(id: string, pinId: string, author: string, content: string,
                                       createdAt: int, reports: int)

  class LocalStorage {
    /** `newbin_pins` */
    var pins: seq<LocalPin>
    /** `newbin_comments` */
    var comments: seq<LocalComment>
    /** `newbin_users` */
    var users: map<string, string>
    /** `newbin_favorites_<user>`, by user */
    var favorites: map<string, seq<string>>
    /** The report guard keys that hold `'true'`. */
    var flags: set<string>

    constructor ()
      ensures pins == [] && comments == [] && users == map[] && favorites == map[] && flags == {}
    {
      pins, comments, users, favorites, flags := [], [], map[], map[], {};
    }
  }

  predicate LocalPinVisible(p: LocalPin)
  {
    p.reports < PinHideThreshold
  }

  predicate LocalCommentVisible(c: LocalComment)
  {
    c.reports < CommentHideThreshold
  }

  /** The user's favourite id list; a list never written reads as empty. */
  function FavoritesOf(favorites: map<string, seq<string>>, user: string): (ids: seq<string>)
    ensures user !in favorites ==> ids == []
    ensures user in favorites ==> ids == favorites[user]
  {
    if user in favorites then favorites[user] else []
  }

  /** The guard key of a pin report: the `newbin_report_` prefix, the user,
      an underscore and the pin id. */
  function PinReportKey(user: string, pinId: string): (k: string)
    ensures |k| == 14 + |user| + 1 + |pinId|
    ensures k[|k| - |pinId|..] == pinId
  {
    "newbin_report_" + user + "_" + pinId
  }

  /** The guard key of a comment report: the `newbin_comment_report_`
      prefix, the user, an underscore and the comment id. */
  function CommentReportKey(user: string, commentId: string): (k: string)
    ensures |k| == 22 + |user| + 1 + |commentId|
    ensures k[|k| - |commentId|..] == commentId
  {
    "newbin_comment_report_" + user + "_" + commentId
  }

  /** A pin guard and a comment guard never share a key: the two prefixes
      differ in their eighth character. */
  lemma GuardKindsDisjoint(u1: string, pinId: string, u2: string, commentId: string)
    ensures PinReportKey(u1, pinId) != CommentReportKey(u2, commentId)
  {
    assert PinReportKey(u1, pinId)[7] == 'r';
    assert CommentReportKey(u2, commentId)[7] == 'c';
  }

  /** The text after the last separator (all of it when there is none). */
  function AfterLast(s: string, sep: char): (r: string)
    ensures |r| <= |s| && sep !in r
  {
    if s == [] || s[|s| - 1] == sep then []
    else AfterLast(s[..|s| - 1], sep) + [s[|s| - 1]]
  }

  lemma {:induction false} AfterLastOfJoin(a: string, x: string, sep: char)
    requires sep !in x
    ensures AfterLast(a + [sep] + x, sep) == x
    decreases |x|
  {
    var s := a + [sep] + x;
    if x != [] {
      var x' := x[..|x| - 1];
      assert x[|x| - 1] in x;
      assert s[..|s| - 1] == a + [sep] + x';
      AfterLastOfJoin(a, x', sep);
    }
  }

  /** Splitting at the last separator: when neither tail holds the separator,
      equal joins have equal heads and equal tails. */
  lemma SplitAtLastSeparator(a: string, x: string, b: string, y: string, sep: char)
    requires sep !in x && sep !in y
    requires a + [sep] + x == b + [sep] + y
    ensures a == b && x == y
  {
    AfterLastOfJoin(a, x, sep);
    AfterLastOfJoin(b, y, sep);
    var s := a + [sep] + x;
    assert a == s[..|a|];
    assert b == s[..|b|];
  }

  /** Guard keys identify their reporter and their pin whenever pin ids hold
      no underscore, whatever the user names hold. */
  lemma {:induction false} PinReportKeyInjective(u1: string, p1: string, u2: string, p2: string)
    requires '_' !in p1 && '_' !in p2
    requires PinReportKey(u1, p1) == PinReportKey(u2, p2)
    ensures u1 == u2 && p1 == p2
  {
    var prefix := "newbin_report_";
    assert PinReportKey(u1, p1) == prefix + (u1 + "_" + p1);
    assert PinReportKey(u2, p2) == prefix + (u2 + "_" + p2);
    assert u1 + "_" + p1 == PinReportKey(u1, p1)[|prefix|..];
    assert u2 + "_" + p2 == PinReportKey(u2, p2)[|prefix|..];
    SplitAtLastSeparator(u1, p1, u2, p2, '_');
  }

  /** The same for comment guards. */
  lemma {:induction false} CommentReportKeyInjective(u1: string, c1: string, u2: string, c2: string)
    requires '_' !in c1 && '_' !in c2
    requires CommentReportKey(u1, c1) == CommentReportKey(u2, c2)
    ensures u1 == u2 && c1 == c2
  {
    var prefix := "newbin_comment_report_";
    assert CommentReportKey(u1, c1) == prefix + (u1 + "_" + c1);
    assert CommentReportKey(u2, c2) == prefix + (u2 + "_" + c2);
    assert u1 + "_" + c1 == CommentReportKey(u1, c1)[|prefix|..];
    assert u2 + "_" + c2 == CommentReportKey(u2, c2)[|prefix|..];
    SplitAtLastSeparator(u1, c1, u2, c2, '_');
  }

  /** Ids made from a clock reading hold no underscore. */
  lemma ClockIdsHaveNoUnderscore(t: nat)
    ensures '_' !in DecimalString(t)
  {
    var s := DecimalString(t);
    assert forall k :: 0 <= k < |s| ==> s[k] != '_';
  }

  /** When an id may hold an underscore the key is ambiguous: user `a` on pin
      `b_c` and user `a_b` on pin `c` share one guard. */
  lemma UnderscoreIdsCollide()
    ensures PinReportKey("a", "b_c") == PinReportKey("a_b", "c")
  {
  }

  /** The first stored pin with the id, if any. */
  function FindLocalPin(pins: seq<LocalPin>, id: string): (r: Option<LocalPin>)
    ensures r.Some? ==> r.value in pins && r.value.id == id
    ensures r.None? <==> forall p :: p in pins ==> p.id != id
    ensures r.Some? ==> exists i :: 0 <= i < |pins| && pins[i] == r.value &&
                                    forall j :: 0 <= j < i ==> pins[j].id != id
  {
    if pins == [] then None
    else if pins[0].id == id then Some(pins[0])
    else
      var r := FindLocalPin(pins[1..], id);
      if r.Some? then
        var i :| 0 <= i < |pins[1..]| && pins[1..][i] == r.value &&
                 forall j :: 0 <= j < i ==> pins[1..][j].id != id;
        assert pins[i + 1] == r.value;
        assert forall j :: 0 < j < i + 1 ==> pins[j].id == pins[1..][j - 1].id;
        r
      else r
  }

  /** One more view on every stored pin with the id. */
  function IncrementLocalViews(pins: seq<LocalPin>, id: string): (r: seq<LocalPin>)
    ensures |r| == |pins|
    ensures forall i :: 0 <= i < |pins| ==>
      r[i] == pins[i].(views := r[i].views) &&
      r[i].views == pins[i].views + (if pins[i].id == id then 1 else 0)
  {
    seq(|pins|, i requires 0 <= i < |pins| =>
      if pins[i].id == id then pins[i].(views := pins[i].views + 1) else pins[i])
  }

  /** Every stored pin with the updated pin's id replaced by the updated pin. */
  function ReplaceLocalPin(pins: seq<LocalPin>, updated: LocalPin): (r: seq<LocalPin>)
    ensures |r| == |pins|
    ensures forall i :: 0 <= i < |pins| ==>
      r[i] == (if pins[i].id == updated.id then updated else pins[i])
  {
    seq(|pins|, i requires 0 <= i < |pins| =>
      if pins[i].id == updated.id then updated else pins[i])
  }

  /** The pins that are not hidden, in stored order. */
  function VisibleLocalPins(pins: seq<LocalPin>): (r: seq<LocalPin>)
    ensures forall p :: p in r <==> p in pins && LocalPinVisible(p)
    ensures IsSubsequence(r, pins)
  {
    FilterIsSubsequence(pins, LocalPinVisible);
    Filter(pins, LocalPinVisible)
  }

  /** A write-back of a pin that was read earlier overwrites whatever the
      stored pin holds by then: a report counted meanwhile is lost. */
  lemma StaleWriteBackLosesReports(pins: seq<LocalPin>, snapshot: LocalPin, i: nat)
    requires i < |pins| && pins[i].id == snapshot.id && pins[i].reports > snapshot.reports + 1
    ensures ReplaceLocalPin(pins, snapshot.(reports := snapshot.reports + 1))[i].reports < pins[i].reports
  {
  }
}
