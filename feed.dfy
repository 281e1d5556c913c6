/**
 * The notification feed: newest notice first, each with a read flag, and the
 * badge count of unread notices.
 */
module Feed {
  import opened Lists

  /** A notice; its id is the millisecond clock reading taken when it was posted. */
  datatype Notification = Notification(id: int, message: string, timestamp: string, read: bool)

  predicate Unread(n: Notification) {
    !n.read
  }

  /** `notifications.filter(n => !n.read).length`: at most the number of notices,
      and zero exactly when every notice is read. */
  function UnreadCount(ns: seq<Notification>): (r: nat)
    ensures r <= |ns|
    ensures r == 0 <==> forall i :: 0 <= i < |ns| ==> ns[i].read
  {
    FilterEmptyIff(ns, Unread);
    |Filter(ns, Unread)|
  }

  function NotificationId(n: Notification): int {
    n.id
  }

  function NotificationIds(ns: seq<Notification>): seq<int> {
    Map(ns, NotificationId)
  }

  /** `addNotification`: a new unread notice in front of the others. */
  function Posted(ns: seq<Notification>, id: int, message: string, timestamp: string): seq<Notification> {
    [Notification(id, message, timestamp, false)] + ns
  }

  /** Posting raises the unread count by exactly one and keeps the older notices. */
  lemma PostedSpec(ns: seq<Notification>, id: int, message: string, timestamp: string)
    ensures var r := Posted(ns, id, message, timestamp);
            && UnreadCount(r) == UnreadCount(ns) + 1
            && r[1..] == ns && !r[0].read
  {
    var r := Posted(ns, id, message, timestamp);
    assert r[1..] == ns;
  }

  /** `markNotifRead`: the first notice with the id is flagged read; nothing
      changes when there is none. */
  function MarkedRead(ns: seq<Notification>, id: int): seq<Notification> {
    match IndexOf(NotificationIds(ns), id)
    case None => ns
    case Some(i) => ns[i := ns[i].(read := true)]
  }

  /** Replacing one notice changes the unread count only by that notice's flag. */
  lemma {:induction false} UnreadCountAfterSet(ns: seq<Notification>, i: nat, x: Notification)
    requires i < |ns|
    ensures UnreadCount(ns[i := x]) ==
            UnreadCount(ns) - (if Unread(ns[i]) then 1 else 0) + (if Unread(x) then 1 else 0)
  {
    if i == 0 {
      assert ns[i := x][1..] == ns[1..];
    } else {
      UnreadCountAfterSet(ns[1..], i - 1, x);
      assert ns[i := x][1..] == ns[1..][i - 1 := x];
    }
  }

  lemma MarkedReadSpec(ns: seq<Notification>, id: int)
    ensures var r := MarkedRead(ns, id);
            && |r| == |ns|
            && NotificationIds(r) == NotificationIds(ns)
            && UnreadCount(r) <= UnreadCount(ns)
            && (id !in NotificationIds(ns) ==> r == ns)
            && (id in NotificationIds(ns) ==>
                  exists i :: (0 <= i < |ns| && ns[i].id == id && id !in NotificationIds(ns)[..i]
                               && r[i] == ns[i].(read := true)
                               && UnreadCount(r) == UnreadCount(ns) - (if ns[i].read then 0 else 1)
                               && forall j :: 0 <= j < |ns| && j != i ==> r[j] == ns[j]))
  {
    match IndexOf(NotificationIds(ns), id)
    case None =>
    case Some(i) =>
      UnreadCountAfterSet(ns, i, ns[i].(read := true));
  }

  /** Marking the same notice read twice is marking it once. */
  lemma MarkReadTwice(ns: seq<Notification>, id: int)
    ensures MarkedRead(MarkedRead(ns, id), id) == MarkedRead(ns, id)
  {
    MarkedReadSpec(ns, id);
  }
}
