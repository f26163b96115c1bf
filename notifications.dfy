/** The social API's notification inbox: each user's notifications, unread first and newest
    first, the unread list and count, and marking one notification as read. */
module Notifications {
  import opened Wrappers
  import Ordering

  /** A notification row, with the fields its serializer exposes; `actor` and `verb` are opaque here. */
  datatype Notification = Notification(id: nat, recipient: nat, actor: nat, verb: string, timestamp: int, isRead: bool)

  function ForRecipient(user: nat): Notification -> bool {
    (n: Notification) => n.recipient == user
  }

  function IsUnread(): Notification -> bool {
    (n: Notification) => !n.isRead
  }

  /** `order_by("is_read", "-timestamp")`: false sorts before true, then newer before older. */
  function UnreadThenNewest(): (Notification, Notification) -> bool {
    (a: Notification, b: Notification) =>
      (!a.isRead && b.isRead) || (a.isRead == b.isRead && a.timestamp >= b.timestamp)
  }

  /** `order_by("-timestamp")`. */
  function Newest(): (Notification, Notification) -> bool {
    (a: Notification, b: Notification) => a.timestamp >= b.timestamp
  }

  lemma UnreadThenNewestIsTotal()
    ensures Ordering.TotalPreorder(UnreadThenNewest())
  {
  }

  lemma NewestIsTotal()
    ensures Ordering.TotalPreorder(Newest())
  {
  }

  /** `get_queryset`: the requesting user's notifications, unread first, newest first. */
  function Inbox(rows: seq<Notification>, user: nat): (r: seq<Notification>)
    ensures multiset(r) == multiset(Ordering.Filter(rows, ForRecipient(user)))
  {
    Ordering.SortBy(Ordering.Filter(rows, ForRecipient(user)), UnreadThenNewest())
  }

  /** The inbox holds exactly the user's notifications, every unread one before every read one,
      and newer before older within each group. */
  lemma InboxProperties(rows: seq<Notification>, user: nat)
    ensures forall n :: n in Inbox(rows, user) <==> n in rows && n.recipient == user
    ensures forall i, j :: 0 <= i < j < |Inbox(rows, user)| && Inbox(rows, user)[j].isRead == false ==>
      Inbox(rows, user)[i].isRead == false
    ensures forall i, j :: 0 <= i < j < |Inbox(rows, user)| && Inbox(rows, user)[i].isRead == Inbox(rows, user)[j].isRead ==>
      Inbox(rows, user)[i].timestamp >= Inbox(rows, user)[j].timestamp
  {
    var mine := Ordering.Filter(rows, ForRecipient(user));
    forall n ensures n in Inbox(rows, user) <==> n in rows && n.recipient == user {
      Ordering.SortByMembers(mine, UnreadThenNewest(), n);
      Ordering.FilterMembers(rows, ForRecipient(user), n);
    }
    UnreadThenNewestIsTotal();
    Ordering.SortBySorted(mine, UnreadThenNewest());
  }

  /** `unread`: the user's unread notifications, newest first. */
  function UnreadList(rows: seq<Notification>, user: nat): seq<Notification> {
    Ordering.SortBy(Ordering.Filter(Inbox(rows, user), IsUnread()), Newest())
  }

  lemma UnreadListProperties(rows: seq<Notification>, user: nat)
    ensures forall n :: n in UnreadList(rows, user) <==> n in rows && n.recipient == user && !n.isRead
    ensures Ordering.SortedBy(UnreadList(rows, user), Newest())
  {
    var unread := Ordering.Filter(Inbox(rows, user), IsUnread());
    InboxProperties(rows, user);
    forall n ensures n in UnreadList(rows, user) <==> n in rows && n.recipient == user && !n.isRead {
      Ordering.SortByMembers(unread, Newest(), n);
      Ordering.FilterMembers(Inbox(rows, user), IsUnread(), n);
    }
    NewestIsTotal();
    Ordering.SortBySorted(unread, Newest());
  }

  /** `unread_count`: `get_queryset().filter(is_read=False).count()`. */
  function UnreadCount(rows: seq<Notification>, user: nat): nat {
    |Ordering.Filter(Inbox(rows, user), IsUnread())|
  }

  /** The count is the length of the unread list. */
  lemma UnreadCountIsUnreadLength(rows: seq<Notification>, user: nat)
    ensures UnreadCount(rows, user) == |UnreadList(rows, user)|
  {
  }

  /** The number of the user's unread notifications, read off the store directly. */
  function PendingFor(rows: seq<Notification>, user: nat): nat {
    if rows == [] then 0
    else (if rows[0].recipient == user && !rows[0].isRead then 1 else 0) + PendingFor(rows[1..], user)
  }

  lemma {:induction false} PendingAsFilters(rows: seq<Notification>, user: nat)
    ensures PendingFor(rows, user) == |Ordering.Filter(Ordering.Filter(rows, ForRecipient(user)), IsUnread())|
  {
    if rows != [] {
      PendingAsFilters(rows[1..], user);
    }
  }

  /** Counting is unaffected by the inbox's order. */
  lemma UnreadCountIsPending(rows: seq<Notification>, user: nat)
    ensures UnreadCount(rows, user) == PendingFor(rows, user)
  {
    var mine := Ordering.Filter(rows, ForRecipient(user));
    PendingAsFilters(rows, user);
    Ordering.FilterLengthPermutation(Inbox(rows, user), mine, IsUnread());
  }

  function OwnWithId(user: nat, pk: nat): Notification -> bool {
    (n: Notification) => n.id == pk && n.recipient == user
  }

  /** The position of the user's notification `pk` (`get_object` on the filtered queryset). */
  function IndexOfOwn(rows: seq<Notification>, user: nat, pk: nat): Option<nat> {
    Ordering.IndexWhere(rows, OwnWithId(user, pk))
  }

  function MarkedRead(rows: seq<Notification>, i: nat): (r: seq<Notification>)
    requires i < |rows|
    ensures |r| == |rows| && r[i] == rows[i].(isRead := true)
    ensures forall j :: 0 <= j < |rows| && j != i ==> r[j] == rows[j]
  {
    rows[i := rows[i].(isRead := true)]
  }

  /** Marking is idempotent. */
  lemma MarkedReadIdempotent(rows: seq<Notification>, i: nat)
    requires i < |rows|
    ensures MarkedRead(MarkedRead(rows, i), i) == MarkedRead(rows, i)
  {
  }

  /** Marking one of the user's unread notifications lowers the unread count by exactly one;
      marking a read one leaves it alone. */
  lemma {:induction false} MarkedReadCount(rows: seq<Notification>, i: nat, user: nat)
    requires i < |rows| && rows[i].recipient == user
    ensures PendingFor(MarkedRead(rows, i), user) == PendingFor(rows, user) - (if rows[i].isRead then 0 else 1)
  {
    var m := MarkedRead(rows, i);
    if i == 0 {
      assert m[1..] == rows[1..];
    } else {
      assert m[1..] == MarkedRead(rows[1..], i - 1);
      MarkedReadCount(rows[1..], i - 1, user);
    }
  }

  datatype Outcome = NotAuthenticated | NotFound | Marked

  class NotificationTable {
    var rows: seq<Notification>

    constructor (rows: seq<Notification>)
      ensures this.rows == rows
    {
      this.rows := rows;
    }

    /** `mark_read`: anonymous requests are refused; a notification that is not the user's is
        NotFound, since the lookup goes through the user's own queryset; otherwise that one
        notification becomes read and nothing else changes. */
    method MarkRead(user: Option<nat>, pk: nat) returns (o: Outcome)
      modifies this
      ensures user.None? ==> o == NotAuthenticated
      ensures user.Some? && IndexOfOwn(old(rows), user.value, pk).None? ==> o == NotFound
      ensures o != Marked ==> rows == old(rows)
      ensures o == Marked <==> user.Some? && IndexOfOwn(old(rows), user.value, pk).Some?
      ensures o == Marked ==> rows == MarkedRead(old(rows), IndexOfOwn(old(rows), user.value, pk).value)
    {
      if user.None? {
        return NotAuthenticated;
      }
      var found := IndexOfOwn(rows, user.value, pk);
      if found.None? {
        return NotFound;
      }
      var i := found.value;
      var n := rows[i];
      n := n.(isRead := true);
      rows := rows[i := n];
      o := Marked;
    }
  }
}
