/**
  PUT /api/matches/:match_id/status: a participant resolves (or re-schedules) a
  match; the donation status is reconciled and both parties are notified.
 */
module Matches {
  import opened Wrappers
  import opened FoodStore

  /** `!value` in the handler's field check: an absent or falsy field. */
  predicate MissingUser(u: Option<UserId>) {
    u.None? || u.value == 0
  }

  /** The notification text both parties receive: the completed wording for
      "completed", the canceled wording for every other admitted status. */
  function ResolutionMessage(status: Status): Message {
    if status == COMPLETED then CompletedMsg else CanceledMsg
  }

  /** The donation status after the match moves to `status`: completed for
      "completed", available again for "canceled", unchanged otherwise. */
  function ReconciledStatus(status: Status, current: Status): Status {
    if status == COMPLETED then COMPLETED
    else if status == CANCELED then AVAILABLE
    else current
  }

  /** The state after a successful update of match m. */
  ghost predicate ResolveOutcome(s: Store, t: Store, m: MatchId, status: Status)
    requires m in s.matches && s.matches[m].donation in s.donations
  {
    var mt := s.matches[m];
    var D := mt.donation;
    var n := s.nextNotification;
    var msg := if status == COMPLETED then CompletedMsg else CanceledMsg;
    // the match row: status only
    && t.matches.Keys == s.matches.Keys
    && t.matches[m] == mt.(status := status)
    && (forall k :: k in s.matches && k != m ==> t.matches[k] == s.matches[k])
    // the donation row: completed / available / untouched
    && t.donations.Keys == s.donations.Keys
    && t.donations[D].owner == s.donations[D].owner
    && (status == COMPLETED ==> t.donations[D].status == COMPLETED)
    && (status == CANCELED ==> t.donations[D].status == AVAILABLE)
    && (status == SCHEDULED ==> t.donations[D] == s.donations[D])
    && (forall k :: k in s.donations && k != D ==> t.donations[k] == s.donations[k])
    // two `match` notifications with the same text, donor first
    && n !in s.notifications && n + 1 !in s.notifications
    && t.notifications.Keys == s.notifications.Keys + {n, n + 1}
    && t.notifications[n] == Notification(mt.donor, MatchType, msg, false)
    && t.notifications[n + 1] == Notification(mt.recipient, MatchType, msg, false)
    && (forall k :: k in s.notifications ==> t.notifications[k] == s.notifications[k])
    && t.nextNotification == n + 2
    // nothing else
    && t.requests == s.requests
    && t.nextRequest == s.nextRequest
    && t.nextMatch == s.nextMatch
  }

  /** The handler, with its checks in source order: missing fields, status
      value, match existence, participant check, donation existence. The
      match's current status is never consulted. */
  function UpdateMatchStatus(s: Store, m: MatchId, status: Status, actor: Option<UserId>): (r: Result<Store, ApiError>)
    requires Valid(s)
    ensures status == [] || MissingUser(actor) ==> r == Failure(MissingFields)
    ensures (status != [] && !MissingUser(actor) && status !in MATCH_STATUSES) ==>
      r == Failure(InvalidStatus)
    ensures (status in MATCH_STATUSES && !MissingUser(actor) && m !in s.matches) ==>
      r == Failure(NotFound)
    ensures (status in MATCH_STATUSES && !MissingUser(actor) && m in s.matches
             && actor.value != s.matches[m].donor && actor.value != s.matches[m].recipient) ==>
      r == Failure(Unauthorized)
    ensures (status in MATCH_STATUSES && !MissingUser(actor) && m in s.matches
             && (actor.value == s.matches[m].donor || actor.value == s.matches[m].recipient)
             && s.matches[m].donation !in s.donations) ==>
      r == Failure(NotFound)
    ensures r.Success? <==>
      status in MATCH_STATUSES && !MissingUser(actor) && m in s.matches
      && (actor.value == s.matches[m].donor || actor.value == s.matches[m].recipient)
      && s.matches[m].donation in s.donations
    ensures r.Success? ==> Valid(r.value) && ResolveOutcome(s, r.value, m, status)
  {
    if status == [] || MissingUser(actor) then Failure(MissingFields)
    else if status !in MATCH_STATUSES then Failure(InvalidStatus)
    else if m !in s.matches then Failure(NotFound)
    else
      var mt := s.matches[m];
      if actor.value != mt.donor && actor.value != mt.recipient then Failure(Unauthorized)
      else if mt.donation !in s.donations then Failure(NotFound)
      else
        var D := mt.donation;
        var msg := ResolutionMessage(status);
        var n := s.nextNotification;
        Success(s.(
          matches := s.matches[m := mt.(status := status)],
          donations := s.donations[D := s.donations[D].(status := ReconciledStatus(status, s.donations[D].status))],
          notifications := s.notifications[n := Notification(mt.donor, MatchType, msg, false)]
                                          [n + 1 := Notification(mt.recipient, MatchType, msg, false)],
          nextNotification := n + 2))
  }
}
