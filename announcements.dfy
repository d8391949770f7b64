/** The announcement board (AnnouncementController): announcements are
    posted, listed newest first, counted as unread when nobody has viewed
    them, and marked read for a user by inserting one view row per
    announcement that user has not viewed. */
module Announcements {
  import opened Common
  import opened Calendar

  datatype Announcement = Announcement(id: nat, content: string, createdAt: DateTime)

  /** The `user_id` of the request; `None` when the request carries none,
      in which case the query matches view rows with a null user and the
      inserted rows carry a null user. */
  type UserRef = Option<int>

  /** A row saying that a user has read an announcement. */
  datatype AnnouncementView = AnnouncementView(id: nat, announcementId: nat, userId: UserRef)

  /** The `max:10000` rule on the posted text. */
  const MaxContentLength: nat := 10000

  /** The chunk size `each` reads the query with. */
  const ChunkSize: nat := 1000

  /** Both tables with their auto-increment counters. */
  datatype Board = Board(
    announcements: seq<Announcement>,
    views: seq<AnnouncementView>,
    nextAnnouncementId: nat,
    nextViewId: nat)

  predicate IdsIncreasing(s: seq<Announcement>)
  {
    forall i, j :: 0 <= i < j < |s| ==> s[i].id < s[j].id
  }

  /** No two view rows record the same announcement for the same user. */
  predicate UniquePairs(vs: seq<AnnouncementView>)
  {
    forall k, m :: 0 <= k < m < |vs| ==> !(vs[k].announcementId == vs[m].announcementId && vs[k].userId == vs[m].userId)
  }

  predicate Inv(b: Board)
  {
    && IdsIncreasing(b.announcements)
    && (forall i :: 0 <= i < |b.announcements| ==> b.announcements[i].id < b.nextAnnouncementId)
    && (forall k, m :: 0 <= k < m < |b.views| ==> b.views[k].id < b.views[m].id)
    && (forall k :: 0 <= k < |b.views| ==> b.views[k].id < b.nextViewId && b.views[k].announcementId < b.nextAnnouncementId)
    && UniquePairs(b.views)
  }

  // ---------------------------------------------------------------------
  // Posting

  predicate ContentPasses(input: Input)
  {
    IsRequiredStringMax(input, MaxContentLength)
  }

  /** `storeAnnouncement`: the text must be a non-empty string of at most
      10000 characters; the new announcement takes the next id and the
      current time. */
  function StoreAnnouncement(b: Board, input: Input, now: DateTime): (r: Result<Announcement>)
    ensures r.Err? <==> !(input.Text? && input.s != "" && |input.s| <= MaxContentLength)
    ensures r.Err? ==> r.failure == Unprocessable
    ensures r.Ok? ==> r.value.content == input.s && r.value.id == b.nextAnnouncementId && r.value.createdAt == now
  {
    if !ContentPasses(input) then Err(Unprocessable)
    else Ok(Announcement(b.nextAnnouncementId, input.s, now))
  }

  /** The board after a successful post. */
  function Post(b: Board, a: Announcement): Board
  {
    b.(announcements := b.announcements + [a], nextAnnouncementId := b.nextAnnouncementId + 1)
  }

  lemma PostKeepsInv(b: Board, input: Input, now: DateTime)
    requires Inv(b) && StoreAnnouncement(b, input, now).Ok?
    ensures Inv(Post(b, StoreAnnouncement(b, input, now).value))
  {
  }

  // ---------------------------------------------------------------------
  // Listing

  predicate NewestFirst(s: seq<Announcement>)
  {
    forall i, j :: 0 <= i < j < |s| ==> !Earlier(s[i].createdAt, s[j].createdAt)
  }

  /** Places `a` before the first announcement not later than it. */
  function InsertByDate(a: Announcement, s: seq<Announcement>): (r: seq<Announcement>)
    requires NewestFirst(s)
    ensures NewestFirst(r)
    ensures multiset(r) == multiset(s) + multiset{a}
    ensures |r| == |s| + 1
    ensures forall i :: 0 <= i < |r| ==> r[i] == a || r[i] in s
  {
    if s == [] || !Earlier(a.createdAt, s[0].createdAt) then
      forall j | 0 <= j < |s| ensures !Earlier(a.createdAt, s[j].createdAt) {
        if j > 0 {
          NotEarlierTotalTransitive(a.createdAt, s[0].createdAt, s[j].createdAt);
        }
      }
      ConsNewestFirst(a, s);
      [a] + s
    else
      assert s == [s[0]] + s[1..];
      var rest := InsertByDate(a, s[1..]);
      forall i | 0 <= i < |rest| ensures !Earlier(s[0].createdAt, rest[i].createdAt) {
        if rest[i] == a {
          NotEarlierTotalTransitive(s[0].createdAt, a.createdAt, a.createdAt);
        }
      }
      ConsNewestFirst(s[0], rest);
      [s[0]] + rest
  }

  /** An announcement not earlier than any of a newest-first list can lead it. */
  lemma ConsNewestFirst(x: Announcement, rest: seq<Announcement>)
    requires NewestFirst(rest)
    requires forall i :: 0 <= i < |rest| ==> !Earlier(x.createdAt, rest[i].createdAt)
    ensures NewestFirst([x] + rest)
  {
    var s := [x] + rest;
    forall i, j | 0 <= i < j < |s| ensures !Earlier(s[i].createdAt, s[j].createdAt) {
      assert s[j] == rest[j - 1];
      if i > 0 {
        assert s[i] == rest[i - 1];
      }
    }
  }

  /** `getAnnouncements`: every announcement, newest first (`latest()`
      orders by the creation time, descending). */
  function GetAnnouncements(s: seq<Announcement>): (r: seq<Announcement>)
    ensures NewestFirst(r)
    ensures multiset(r) == multiset(s)
    ensures |r| == |s|
  {
    if s == [] then []
    else
      assert s == [s[0]] + s[1..];
      InsertByDate(s[0], GetAnnouncements(s[1..]))
  }

  // ---------------------------------------------------------------------
  // Unread count

  /** No user at all has viewed the announcement. */
  function Unviewed(views: seq<AnnouncementView>): Announcement -> bool
  {
    (a: Announcement) => forall k :: 0 <= k < |views| ==> views[k].announcementId != a.id
  }

  /** `getUnreadAnnouncementsCount`: the announcements that have no view row
      from any user, whoever asks. */
  function GetUnreadAnnouncementsCount(b: Board): (n: nat)
    ensures n <= |b.announcements|
    ensures n == 0 <==> forall i :: 0 <= i < |b.announcements| ==> !Unviewed(b.views)(b.announcements[i])
  {
    CountZeroIff(b.announcements, Unviewed(b.views));
    Count(b.announcements, Unviewed(b.views))
  }

  /** Posting adds exactly one to the unread count: the new announcement's
      id is above every id a view row refers to. */
  lemma PostAddsOneUnread(b: Board, input: Input, now: DateTime)
    requires Inv(b) && StoreAnnouncement(b, input, now).Ok?
    ensures var a := StoreAnnouncement(b, input, now).value;
      GetUnreadAnnouncementsCount(Post(b, a)) == GetUnreadAnnouncementsCount(b) + 1
  {
    var a := StoreAnnouncement(b, input, now).value;
    CountAppend(b.announcements, [a], Unviewed(b.views));
    assert Unviewed(b.views)(a);
    assert Count([a], Unviewed(b.views)) == 1 by {
      assert [a][1..] == [];
    }
  }

  // ---------------------------------------------------------------------
  // Marking as read

  predicate ViewedBy(views: seq<AnnouncementView>, a: Announcement, u: UserRef)
  {
    exists k :: 0 <= k < |views| && views[k].announcementId == a.id && views[k].userId == u
  }

  function NotViewedBy(views: seq<AnnouncementView>, u: UserRef): Announcement -> bool
  {
    (a: Announcement) => !ViewedBy(views, a, u)
  }

  /** The announcements `u` has not viewed, in id order. */
  function UnreadBy(b: Board, u: UserRef): seq<Announcement>
  {
    Filter(b.announcements, NotViewedBy(b.views, u))
  }

  /** One view row for `u` per announcement of `ps`, numbered from `start`. */
  function NewViews(ps: seq<Announcement>, u: UserRef, start: nat): (r: seq<AnnouncementView>)
    ensures |r| == |ps|
    ensures forall j :: 0 <= j < |r| ==> r[j] == AnnouncementView(start + j, ps[j].id, u)
  {
    seq(|ps|, j requires 0 <= j < |ps| => AnnouncementView(start + j, ps[j].id, u))
  }

  /** The view rows for one more announcement are the rows so far and one
      row for it. */
  lemma NewViewsSnoc(ps: seq<Announcement>, u: UserRef, start: nat, i: nat)
    requires i < |ps|
    ensures NewViews(ps[..i + 1], u, start) == NewViews(ps[..i], u, start) + [AnnouncementView(start + i, ps[i].id, u)]
  {
    var a, b := NewViews(ps[..i + 1], u, start), NewViews(ps[..i], u, start) + [AnnouncementView(start + i, ps[i].id, u)];
    assert |a| == |b|;
    forall j | 0 <= j < |a| ensures a[j] == b[j] {
    }
  }

  /** `markAnnouncementsAsRead(u)`: a view row for `u` for each announcement
      `u` had not viewed when the call began. */
  function MarkAllRead(b: Board, u: UserRef): Board
  {
    var ps := UnreadBy(b, u);
    b.(views := b.views + NewViews(ps, u, b.nextViewId), nextViewId := b.nextViewId + |ps|)
  }

  /** Afterwards every announcement has a view row for `u`. */
  lemma MarkAllReadCovers(b: Board, u: UserRef)
    ensures var after := MarkAllRead(b, u);
      forall i :: 0 <= i < |b.announcements| ==> ViewedBy(after.views, b.announcements[i], u)
  {
    var ps := UnreadBy(b, u);
    var after := MarkAllRead(b, u);
    var added := NewViews(ps, u, b.nextViewId);
    forall i | 0 <= i < |b.announcements|
      ensures ViewedBy(after.views, b.announcements[i], u)
    {
      var a := b.announcements[i];
      if ViewedBy(b.views, a, u) {
        var k :| 0 <= k < |b.views| && b.views[k].announcementId == a.id && b.views[k].userId == u;
        assert after.views[k] == b.views[k];
      } else {
        assert NotViewedBy(b.views, u)(a);
        var j :| 0 <= j < |ps| && ps[j] == a;
        assert after.views[|b.views| + j] == added[j];
      }
    }
  }

  /** The rows it inserts all carry `u`, and each is for an announcement
      that `u` had not viewed; the rows already there are kept. */
  lemma MarkAllReadInsertsOnlyMissing(b: Board, u: UserRef)
    ensures var after := MarkAllRead(b, u);
      && after.announcements == b.announcements
      && |b.views| <= |after.views| && after.views[..|b.views|] == b.views
      && forall k :: |b.views| <= k < |after.views| ==>
           && after.views[k].userId == u
           && exists i :: 0 <= i < |b.announcements| && b.announcements[i].id == after.views[k].announcementId
                          && !ViewedBy(b.views, b.announcements[i], u)
  {
    var ps := UnreadBy(b, u);
    var after := MarkAllRead(b, u);
    forall k | |b.views| <= k < |after.views|
      ensures exists i :: 0 <= i < |b.announcements| && b.announcements[i].id == after.views[k].announcementId
                          && !ViewedBy(b.views, b.announcements[i], u)
    {
      var j := k - |b.views|;
      assert NotViewedBy(b.views, u)(ps[j]);
      var i :| 0 <= i < |b.announcements| && b.announcements[i] == ps[j];
    }
  }

  /** The announcements `u` has not viewed still have distinct ids. */
  lemma UnreadByIdsIncreasing(b: Board, u: UserRef)
    requires IdsIncreasing(b.announcements)
    ensures forall i, j :: 0 <= i < j < |UnreadBy(b, u)| ==> UnreadBy(b, u)[i].id < UnreadBy(b, u)[j].id
  {
    var R := (x: Announcement, y: Announcement) => x.id < y.id;
    assert Pairwise(b.announcements, R);
    FilterPairwise(b.announcements, NotViewedBy(b.views, u), R);
  }

  /** Marking never records the same announcement twice for one user, and
      keeps the board's other invariants. */
  lemma MarkAllReadKeepsInv(b: Board, u: UserRef)
    requires Inv(b)
    ensures Inv(MarkAllRead(b, u))
  {
    var ps := UnreadBy(b, u);
    var after := MarkAllRead(b, u);
    var n := |b.views|;
    UnreadByIdsIncreasing(b, u);
    forall k, m | 0 <= k < m < |after.views|
      ensures !(after.views[k].announcementId == after.views[m].announcementId && after.views[k].userId == after.views[m].userId)
    {
      if m >= n && k < n {
        assert NotViewedBy(b.views, u)(ps[m - n]);
        assert after.views[k] == b.views[k];
      } else if k >= n {
        assert ps[k - n].id < ps[m - n].id;
      }
    }
    forall k | 0 <= k < |after.views|
      ensures after.views[k].id < after.nextViewId && after.views[k].announcementId < after.nextAnnouncementId
    {
      if k >= n {
        var i :| 0 <= i < |b.announcements| && b.announcements[i] == ps[k - n];
      }
    }
  }

  /** Right after marking, nothing is unread: every announcement has at
      least the view row of `u`. */
  lemma UnreadCountZeroAfterMark(b: Board, u: UserRef)
    ensures GetUnreadAnnouncementsCount(MarkAllRead(b, u)) == 0
  {
    var after := MarkAllRead(b, u);
    MarkAllReadCovers(b, u);
    forall i | 0 <= i < |after.announcements|
      ensures !Unviewed(after.views)(after.announcements[i])
    {
      var k :| 0 <= k < |after.views| && after.views[k].announcementId == after.announcements[i].id && after.views[k].userId == u;
    }
  }

  /** After marking, no announcement is left that `u` has not viewed. */
  lemma NothingUnreadByAfterMark(b: Board, u: UserRef)
    ensures UnreadBy(MarkAllRead(b, u), u) == []
  {
    var after := MarkAllRead(b, u);
    MarkAllReadCovers(b, u);
    var p := NotViewedBy(after.views, u);
    forall i | 0 <= i < |after.announcements| ensures !p(after.announcements[i]) {
    }
    CountZeroIff(after.announcements, p);
    CountIsFilterLength(after.announcements, p);
  }

  /** Marking twice inserts nothing the second time. */
  lemma MarkAllReadIdempotent(b: Board, u: UserRef)
    ensures MarkAllRead(MarkAllRead(b, u), u) == MarkAllRead(b, u)
  {
    var after := MarkAllRead(b, u);
    NothingUnreadByAfterMark(b, u);
    assert NewViews([], u, after.nextViewId) == [];
    assert after.views + [] == after.views;
  }

  // ---------------------------------------------------------------------
  // The sweep as `each` performs it

  /** `each` reads the query "announcements `u` has not viewed, by id" with
      `chunk`: page after page of `size` rows at a growing offset, calling
      back on each row, until a page comes back short. The query is asked
      again for every page, after the inserts of the pages before. The
      answer is the view table at the end. */
  function SweepAsWritten(anns: seq<Announcement>, views: seq<AnnouncementView>, nextViewId: nat,
                          u: UserRef, size: nat, offset: nat): (r: seq<AnnouncementView>)
    requires size >= 1
    decreases |anns| - offset
  {
    var unread := Filter(anns, NotViewedBy(views, u));
    var page := if offset >= |unread| then []
                else unread[offset .. if offset + size <= |unread| then offset + size else |unread|];
    var views' := views + NewViews(page, u, nextViewId);
    if |page| == size then
      assert offset + size <= |anns|;
      SweepAsWritten(anns, views', nextViewId + size, u, size, offset + size)
    else views'
  }

  /** When `u` has viewed none of at least `size` announcements, the first
      page is the first `size` of them: the sweep marks exactly those and
      goes on to the second page. */
  lemma SweepFirstPage(anns: seq<Announcement>, views: seq<AnnouncementView>, nextViewId: nat,
                       u: UserRef, size: nat)
    requires 1 <= size <= |anns|
    requires forall i :: 0 <= i < |anns| ==> !ViewedBy(views, anns[i], u)
    ensures SweepAsWritten(anns, views, nextViewId, u, size, 0)
         == SweepAsWritten(anns, views + NewViews(anns[..size], u, nextViewId), nextViewId + size, u, size, size)
  {
    var p0 := NotViewedBy(views, u);
    forall i | 0 <= i < |anns| ensures p0(anns[i]) {
    }
    FilterAll(anns, p0);
    assert anns[0..size] == anns[..size];
  }

  /** A page that starts at or past the end of the query ends the sweep
      with nothing inserted. */
  lemma SweepStopsPastEnd(anns: seq<Announcement>, views: seq<AnnouncementView>, nextViewId: nat,
                          u: UserRef, size: nat, offset: nat)
    requires size >= 1
    requires |Filter(anns, NotViewedBy(views, u))| <= offset
    ensures SweepAsWritten(anns, views, nextViewId, u, size, offset) == views
  {
    assert NewViews([], u, nextViewId) == [];
    assert views + [] == views;
  }

  /** The first page's inserts mark each of the first `size` announcements. */
  lemma FirstPageMarksPrefix(anns: seq<Announcement>, views: seq<AnnouncementView>, nextViewId: nat,
                             u: UserRef, size: nat)
    requires size <= |anns|
    ensures forall i :: 0 <= i < size ==> ViewedBy(views + NewViews(anns[..size], u, nextViewId), anns[i], u)
  {
    var added := NewViews(anns[..size], u, nextViewId);
    var views1 := views + added;
    forall i | 0 <= i < size ensures ViewedBy(views1, anns[i], u) {
      assert views1[|views| + i] == added[i];
    }
  }

  /** The first page's inserts do not mark the announcement after it. */
  lemma FirstPageLeavesNext(anns: seq<Announcement>, views: seq<AnnouncementView>, nextViewId: nat,
                            u: UserRef, size: nat)
    requires size < |anns| && IdsIncreasing(anns)
    requires !ViewedBy(views, anns[size], u)
    ensures !ViewedBy(views + NewViews(anns[..size], u, nextViewId), anns[size], u)
  {
    var added := NewViews(anns[..size], u, nextViewId);
    var views1 := views + added;
    forall k | 0 <= k < |views1| ensures !(views1[k].announcementId == anns[size].id && views1[k].userId == u) {
      if k >= |views| {
        assert views1[k] == added[k - |views|];
      } else {
        assert views1[k] == views[k];
      }
    }
  }

  /** With one announcement more than a chunk unread, the sweep leaves the
      last one unread: after the first page is marked the query has shrunk
      to one row, and the second page starts past it. With the chunk size
      of 1000, the 1001st unread announcement is skipped. */
  lemma EachSkipsPastFirstChunk(anns: seq<Announcement>, views: seq<AnnouncementView>, nextViewId: nat,
                                u: UserRef, size: nat)
    requires size >= 1 && |anns| == size + 1 && IdsIncreasing(anns)
    requires forall i :: 0 <= i < |anns| ==> !ViewedBy(views, anns[i], u)
    ensures !ViewedBy(SweepAsWritten(anns, views, nextViewId, u, size, 0), anns[size], u)
  {
    var views1 := views + NewViews(anns[..size], u, nextViewId);
    SweepFirstPage(anns, views, nextViewId, u, size);
    FirstPageMarksPrefix(anns, views, nextViewId, u, size);
    var p1 := NotViewedBy(views1, u);
    forall i | 0 <= i < size ensures !p1(anns[i]) {
    }
    FilterSkipsPrefix(anns, p1, size);
    SweepStopsPastEnd(anns, views1, nextViewId + size, u, size, size);
    FirstPageLeavesNext(anns, views, nextViewId, u, size);
  }

  /** Within one chunk the sweep as written is right: when `u` has at most
      `size` announcements unread, it inserts exactly the view rows of the
      corrected definition. */
  lemma SweepAgreesWithinOneChunk(b: Board, u: UserRef, size: nat)
    requires size >= 1 && |UnreadBy(b, u)| <= size
    ensures SweepAsWritten(b.announcements, b.views, b.nextViewId, u, size, 0) == MarkAllRead(b, u).views
  {
    var unread := UnreadBy(b, u);
    assert unread[0..|unread|] == unread;
    if |unread| == 0 {
      assert NewViews([], u, b.nextViewId) == [];
      assert b.views + [] == b.views;
    } else if |unread| == size {
      NothingUnreadByAfterMark(b, u);
      SweepStopsPastEnd(b.announcements, MarkAllRead(b, u).views, b.nextViewId + size, u, size, size);
    }
  }

  // ---------------------------------------------------------------------
  // The board

  class AnnouncementBoard {
    var announcements: seq<Announcement>
    var views: seq<AnnouncementView>
    var nextAnnouncementId: nat
    var nextViewId: nat

    function State(): Board
      reads this
    {
      Board(announcements, views, nextAnnouncementId, nextViewId)
    }

    ghost predicate Valid()
      reads this
    {
      Inv(State())
    }

    constructor ()
      ensures Valid() && announcements == [] && views == []
    {
      announcements := [];
      views := [];
      nextAnnouncementId := 1;
      nextViewId := 1;
    }

    /** `storeAnnouncement`, stamped with the clock reading `now`. */
    method Store(input: Input, now: DateTime) returns (r: Result<Announcement>)
      requires Valid()
      modifies this
      ensures Valid()
      ensures r == StoreAnnouncement(old(State()), input, now)
      ensures r.Ok? ==> State() == Post(old(State()), r.value)
      ensures r.Err? ==> State() == old(State())
    {
      r := StoreAnnouncement(State(), input, now);
      if r.Ok? {
        PostKeepsInv(State(), input, now);
        announcements := announcements + [r.value];
        nextAnnouncementId := nextAnnouncementId + 1;
      }
    }

    /** `markAnnouncementsAsRead`: the announcements `u` has not viewed are
        read once, then each gets a view row for `u`. */
    method MarkAnnouncementsAsRead(u: UserRef)
      requires Valid()
      modifies this
      ensures Valid()
      ensures State() == MarkAllRead(old(State()), u)
    {
      var pending := UnreadBy(State(), u);
      var i := 0;
      while i < |pending|
        invariant 0 <= i <= |pending|
        invariant announcements == old(announcements) && nextAnnouncementId == old(nextAnnouncementId)
        invariant views == old(views) + NewViews(pending[..i], u, old(nextViewId))
        invariant nextViewId == old(nextViewId) + i
      {
        NewViewsSnoc(pending, u, old(nextViewId), i);
        views := views + [AnnouncementView(nextViewId, pending[i].id, u)];
        nextViewId := nextViewId + 1;
        i := i + 1;
      }
      assert pending[..i] == pending;
      MarkAllReadKeepsInv(old(State()), u);
    }
  }
}
