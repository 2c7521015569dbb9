/** The student dashboard's notice list (src/app/student/page.tsx): notices with a read
    marker and the unread badge. */
module StudentDashboard {
  import Keyed

  datatype Priority = High | Medium | Low

  datatype Notice = Notice(id: string, title: string, content: string, date: string, priority: Priority, read: bool)

  function MarkRead(n: Notice): Notice
  {
    n.(read := true)
  }

  /** `markNoticeAsRead`: the notices with the id are read; nothing else changes. */
  function MarkNoticeAsRead(notices: seq<Notice>, id: string): (r: seq<Notice>)
    ensures |r| == |notices|
    ensures forall i :: 0 <= i < |notices| && notices[i].id != id ==> r[i] == notices[i]
    ensures forall i :: 0 <= i < |notices| && notices[i].id == id ==> r[i].read && r[i].(read := notices[i].read) == notices[i]
  {
    Keyed.Update(notices, (n: Notice) => n.id, id, MarkRead)
  }

  /** Marking a notice read twice is marking it once. */
  lemma MarkIdempotent(notices: seq<Notice>, id: string)
    ensures MarkNoticeAsRead(MarkNoticeAsRead(notices, id), id) == MarkNoticeAsRead(notices, id)
  {
    Keyed.UpdateIdempotent(notices, (n: Notice) => n.id, id, MarkRead);
  }

  /** Marking an id no notice has changes nothing. */
  lemma MarkUnknownIsNoop(notices: seq<Notice>, id: string)
    requires forall i :: 0 <= i < |notices| ==> notices[i].id != id
    ensures MarkNoticeAsRead(notices, id) == notices
  {
    Keyed.UpdateAbsentKey(notices, (n: Notice) => n.id, id, MarkRead);
  }

  predicate IsUnread(n: Notice) { !n.read }

  /** The notices with the id that are still unread. */
  function UnreadWithId(id: string): Notice -> bool
  {
    (n: Notice) => n.id == id && !n.read
  }

  /** The number of notices with `read` false, counted from the end of the list. */
  function UnreadTally(notices: seq<Notice>): nat
    decreases |notices|
  {
    if |notices| == 0 then 0
    else UnreadTally(notices[..|notices| - 1]) + (if notices[|notices| - 1].read then 0 else 1)
  }

  /** Filtering out the read notices keeps exactly as many as the tally counts. */
  lemma {:induction false} KeepUnreadIsTally(notices: seq<Notice>)
    ensures |Keyed.Keep(notices, IsUnread)| == UnreadTally(notices)
    decreases |notices|
  {
    if |notices| > 0 {
      var init := notices[..|notices| - 1];
      var last := notices[|notices| - 1];
      assert notices == init + [last];
      Keyed.KeepConcat(init, [last], IsUnread);
      assert [last][1..] == [];
      assert |Keyed.Kept([last], IsUnread)| == if last.read then 0 else 1;
      KeepUnreadIsTally(init);
    }
  }

  /** `unreadNotices`: how many notices are unread. */
  function UnreadCount(notices: seq<Notice>): (n: nat)
    ensures n == UnreadTally(notices)
    ensures n <= |notices|
    ensures n == 0 <==> forall i :: 0 <= i < |notices| ==> notices[i].read
    ensures n == |notices| <==> forall i :: 0 <= i < |notices| ==> !notices[i].read
  {
    var r := Keyed.Keep(notices, IsUnread);
    assert |r| == 0 ==> forall i :: 0 <= i < |notices| ==> notices[i].read by {
      if exists i :: 0 <= i < |notices| && !notices[i].read {
        var i :| 0 <= i < |notices| && !notices[i].read;
        assert notices[i] in r;
      }
    }
    assert |r| > 0 ==> r[0] in notices && !r[0].read;
    KeepUnreadIsTally(notices);
    |r|
  }

  /** Marking a notice read lowers the unread count by the number of unread notices
      carrying that id. */
  lemma {:induction false} MarkLowersUnreadCount(notices: seq<Notice>, id: string)
    ensures UnreadCount(MarkNoticeAsRead(notices, id)) + |Keyed.Keep(notices, UnreadWithId(id))| == UnreadCount(notices)
    decreases |notices|
  {
    if |notices| > 0 {
      var r := MarkNoticeAsRead(notices, id);
      assert r[1..] == MarkNoticeAsRead(notices[1..], id);
      MarkLowersUnreadCount(notices[1..], id);
    }
  }

  predicate UniqueIds(notices: seq<Notice>)
  {
    forall i, j :: 0 <= i < j < |notices| ==> notices[i].id != notices[j].id
  }

  /** With distinct ids at most one notice is unread under a given id. */
  lemma {:induction false} UnreadWithIdAtMostOne(notices: seq<Notice>, id: string)
    requires UniqueIds(notices)
    ensures |Keyed.Keep(notices, UnreadWithId(id))| == if exists i :: 0 <= i < |notices| && notices[i].id == id && !notices[i].read then 1 else 0
    decreases |notices|
  {
    if |notices| > 0 {
      var rest := notices[1..];
      UnreadWithIdAtMostOne(rest, id);
      if notices[0].id == id {
        assert forall i :: 0 <= i < |rest| ==> rest[i].id != id by {
          forall i | 0 <= i < |rest|
            ensures rest[i].id != id
          {
            assert rest[i] == notices[i + 1];
          }
        }
      } else {
        assert (exists i :: 0 <= i < |notices| && notices[i].id == id && !notices[i].read)
               == (exists i :: 0 <= i < |rest| && rest[i].id == id && !rest[i].read) by {
          if exists i :: 0 <= i < |notices| && notices[i].id == id && !notices[i].read {
            var i :| 0 <= i < |notices| && notices[i].id == id && !notices[i].read;
            assert rest[i - 1] == notices[i];
          }
        }
      }
    }
  }

  /** With distinct ids, marking a notice read never raises the unread count, and lowers
      it by one exactly when that notice was unread. */
  lemma MarkUnreadCountStep(notices: seq<Notice>, id: string)
    requires UniqueIds(notices)
    ensures UnreadCount(MarkNoticeAsRead(notices, id)) <= UnreadCount(notices)
    ensures UnreadCount(MarkNoticeAsRead(notices, id)) == UnreadCount(notices) - 1
            <==> exists i :: 0 <= i < |notices| && notices[i].id == id && !notices[i].read
  {
    MarkLowersUnreadCount(notices, id);
    UnreadWithIdAtMostOne(notices, id);
  }
}
