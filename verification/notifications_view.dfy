/**
  The notification panel's local state: the list update after a successful
  mark-read, the unread badge count, and when a card offers "Mark as Read".
 */
module NotificationsView {
  import opened FoodStore

  /** One entry of the fetched notification list. */
  datatype NotificationRow = NotificationRow(id: NotificationId, kind: NotificationType, message: Message, isRead: bool)

  /** `prev.map(n => n.notification_id === id ? { ...n, is_read: true } : n)`:
      every entry with that id is read afterwards, only its `is_read` field
      changed; every other entry, the length and the order stay as they were. */
  function MarkReadLocal(ns: seq<NotificationRow>, id: NotificationId): (r: seq<NotificationRow>)
    ensures |r| == |ns|
    ensures forall i :: 0 <= i < |ns| ==> r[i].id == ns[i].id
    ensures forall i :: 0 <= i < |ns| && ns[i].id == id ==> r[i].isRead
    ensures forall i :: 0 <= i < |ns| ==> r[i].(isRead := ns[i].isRead) == ns[i]
    ensures forall i :: 0 <= i < |ns| && ns[i].id != id ==> r[i] == ns[i]
  {
    if ns == [] then []
    else
      var head := if ns[0].id == id then ns[0].(isRead := true) else ns[0];
      [head] + MarkReadLocal(ns[1..], id)
  }

  /** Marking the same id twice gives the list marking it once gives. */
  lemma MarkReadLocalIdempotent(ns: seq<NotificationRow>, id: NotificationId)
    ensures MarkReadLocal(MarkReadLocal(ns, id), id) == MarkReadLocal(ns, id)
  {
  }

  /** `ns.filter(n => !n.is_read).length`, the badge count. */
  function UnreadCount(ns: seq<NotificationRow>): (c: nat)
    ensures c <= |ns|
  {
    if ns == [] then 0 else (if ns[0].isRead then 0 else 1) + UnreadCount(ns[1..])
  }

  /** The `is_read` flags of the entries, in order. */
  function ReadFlags(ns: seq<NotificationRow>): (r: seq<bool>)
    ensures |r| == |ns|
    ensures forall i :: 0 <= i < |ns| ==> r[i] == ns[i].isRead
  {
    if ns == [] then [] else [ns[0].isRead] + ReadFlags(ns[1..])
  }

  /** The badge count is the number of entries whose flag is false. */
  lemma {:induction false} UnreadCountIsFalseFlags(ns: seq<NotificationRow>)
    ensures UnreadCount(ns) == multiset(ReadFlags(ns))[false]
  {
    if ns != [] {
      UnreadCountIsFalseFlags(ns[1..]);
      assert ReadFlags(ns) == [ns[0].isRead] + ReadFlags(ns[1..]);
    }
  }

  /** The entries with that id that are still unread. */
  function UnreadWithId(ns: seq<NotificationRow>, id: NotificationId): (c: nat)
    ensures c <= UnreadCount(ns)
  {
    if ns == [] then 0
    else (if ns[0].id == id && !ns[0].isRead then 1 else 0) + UnreadWithId(ns[1..], id)
  }

  /** Marking id read lowers the badge count by exactly the number of unread
      entries carrying that id, so it never rises. */
  lemma {:induction false} UnreadAfterMarkRead(ns: seq<NotificationRow>, id: NotificationId)
    ensures UnreadCount(MarkReadLocal(ns, id)) == UnreadCount(ns) - UnreadWithId(ns, id)
    ensures UnreadCount(MarkReadLocal(ns, id)) <= UnreadCount(ns)
  {
    if ns != [] {
      UnreadAfterMarkRead(ns[1..], id);
      assert MarkReadLocal(ns, id)[1..] == MarkReadLocal(ns[1..], id);
    }
  }

  /** A card shows the "Mark as Read" button while its notification is unread. */
  predicate OffersMarkRead(n: NotificationRow) {
    !n.isRead
  }

  /** Some card offers the button exactly when the badge count is positive,
      and after marking id no card with that id offers it. */
  lemma {:induction false} MarkReadButtonVisibility(ns: seq<NotificationRow>, id: NotificationId)
    ensures (exists i :: 0 <= i < |ns| && OffersMarkRead(ns[i])) <==> UnreadCount(ns) > 0
    ensures forall i :: 0 <= i < |ns| && ns[i].id == id ==> !OffersMarkRead(MarkReadLocal(ns, id)[i])
  {
    if ns != [] {
      MarkReadButtonVisibility(ns[1..], id);
      if UnreadCount(ns[1..]) > 0 {
        var j :| 0 <= j < |ns[1..]| && OffersMarkRead(ns[1..][j]);
        assert OffersMarkRead(ns[j + 1]);
      }
      if exists i :: 0 <= i < |ns| && OffersMarkRead(ns[i]) {
        var i :| 0 <= i < |ns| && OffersMarkRead(ns[i]);
        if i > 0 {
          assert OffersMarkRead(ns[1..][i - 1]);
        }
      }
    }
  }
}
