/** PUT /api/notifications/:notification_id/read and the per-user unread count. */
module Notifications {
  import opened Wrappers
  import opened FoodStore

  /** Sets `is_read` on one notification; an unknown id is NotFound. */
  function MarkRead(s: Store, n: NotificationId): (r: Result<Store, ApiError>)
    ensures r.Failure? <==> n !in s.notifications
    ensures r.Failure? ==> r.error == NotFound
    ensures r.Success? ==>
      && r.value.notifications.Keys == s.notifications.Keys
      && r.value.notifications[n].isRead
      && r.value.notifications[n].(isRead := s.notifications[n].isRead) == s.notifications[n]
      && (forall k :: k in s.notifications && k != n ==>
            r.value.notifications[k] == s.notifications[k])
      && r.value.donations == s.donations
      && r.value.requests == s.requests
      && r.value.matches == s.matches
      && r.value.nextRequest == s.nextRequest
      && r.value.nextMatch == s.nextMatch
      && r.value.nextNotification == s.nextNotification
  {
    if n !in s.notifications then Failure(NotFound)
    else Success(s.(notifications := s.notifications[n := s.notifications[n].(isRead := true)]))
  }

  /** Marking an already-read notification succeeds and changes nothing, so
      marking twice is marking once. */
  lemma MarkReadIdempotent(s: Store, n: NotificationId)
    requires n in s.notifications
    ensures s.notifications[n].isRead ==> MarkRead(s, n) == Success(s)
    ensures MarkRead(MarkRead(s, n).value, n) == MarkRead(s, n)
  {
    var t := MarkRead(s, n).value;
    assert t.notifications[n := t.notifications[n].(isRead := true)] == t.notifications;
    if s.notifications[n].isRead {
      assert s.notifications[n := s.notifications[n].(isRead := true)] == s.notifications;
    }
  }

  /** The ids of the unread notifications addressed to user u: the rows the
      frontend's unread badge counts after fetching u's notifications. */
  ghost function UnreadIds(s: Store, u: UserId): set<NotificationId> {
    set n | n in s.notifications && s.notifications[n].user == u && !s.notifications[n].isRead
  }

  /** Marking an unread notification of u lowers u's unread count by exactly
      one; every other user's count, and u's count when the notification was
      already read or belongs to someone else, stay put. */
  lemma MarkReadUnreadCount(s: Store, n: NotificationId, u: UserId)
    requires n in s.notifications
    ensures var t := MarkRead(s, n).value;
      |UnreadIds(t, u)| ==
        |UnreadIds(s, u)| - (if s.notifications[n].user == u && !s.notifications[n].isRead then 1 else 0)
  {
    var t := MarkRead(s, n).value;
    if s.notifications[n].user == u && !s.notifications[n].isRead {
      assert n in UnreadIds(s, u);
      assert UnreadIds(t, u) == UnreadIds(s, u) - {n};
    } else {
      assert UnreadIds(t, u) == UnreadIds(s, u);
    }
  }

  /** Marking read keeps both store invariants. */
  lemma MarkReadKeepsInvariants(s: Store, n: NotificationId)
    requires Valid(s) && Linked(s)
    ensures MarkRead(s, n).Success? ==>
      Valid(MarkRead(s, n).value) && Linked(MarkRead(s, n).value)
  {
  }
}
