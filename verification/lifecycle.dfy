/**
  Properties that span several handlers of the lifecycle: the store invariants
  every handler keeps, the sibling-rejection invariant of the accept branch,
  behaviour the handlers show because they do not consult current statuses,
  and the end-to-end walks through request, accept, complete and cancel.
 */
module Lifecycle {
  import opened Wrappers
  import opened FoodStore
  import Requests
  import Matches
  import Donations
  import Notifications

  /** Creating a request keeps referential integrity. */
  lemma CreateRequestKeepsLinked(s: Store, user: UserId, d: DonationId)
    requires Valid(s) && Linked(s)
    ensures Requests.CreateRequest(s, user, d).Success? ==> Linked(Requests.CreateRequest(s, user, d).value)
  {
  }

  /** Updating a request's status keeps referential integrity. */
  lemma UpdateRequestStatusKeepsLinked(s: Store, R: RequestId, status: Status, actor: Option<UserId>)
    requires Valid(s) && Linked(s)
    ensures var r := Requests.UpdateRequestStatus(s, R, status, actor);
            r.Success? ==> Linked(r.value)
  {
  }

  /** Updating a match's status keeps referential integrity. */
  lemma UpdateMatchStatusKeepsLinked(s: Store, m: MatchId, status: Status, actor: Option<UserId>)
    requires Valid(s) && Linked(s)
    ensures var r := Matches.UpdateMatchStatus(s, m, status, actor);
            r.Success? ==> Linked(r.value)
  {
  }

  /** Sibling rejection: once R is accepted, no request on R's donation is
      pending any more, and R is the accepted one. */
  lemma SiblingRejection(s: Store, R: RequestId, actor: Option<UserId>)
    requires Valid(s)
    requires Requests.UpdateRequestStatus(s, R, ACCEPTED, actor).Success?
    ensures var t := Requests.UpdateRequestStatus(s, R, ACCEPTED, actor).value;
            var D := s.requests[R].donation;
            && t.requests[R].status == ACCEPTED
            && forall k :: k in t.requests && t.requests[k].donation == D ==> t.requests[k].status != PENDING
  {
  }

  /** One accept by the donation's owner: it succeeds, keeps the request and
      its donation's owner in place, appends one scheduled match for R under
      the next match id, and keeps every existing match. */
  lemma AcceptByOwner(s: Store, R: RequestId)
    requires Valid(s)
    requires R in s.requests && s.requests[R].donation in s.donations
    ensures var D := s.requests[R].donation;
            var r := Requests.UpdateRequestStatus(s, R, ACCEPTED, Some(s.donations[D].owner));
            && r.Success?
            && Valid(r.value)
            && R in r.value.requests && r.value.requests[R].donation == D
            && D in r.value.donations && r.value.donations[D].owner == s.donations[D].owner
            && r.value.nextMatch == s.nextMatch + 1
            && s.nextMatch in r.value.matches
            && r.value.matches[s.nextMatch].request == R
            && r.value.matches[s.nextMatch].status == SCHEDULED
            && (forall k :: k in s.matches ==> k in r.value.matches && r.value.matches[k] == s.matches[k])
  {
    var D := s.requests[R].donation;
    var r := Requests.UpdateRequestStatus(s, R, ACCEPTED, Some(s.donations[D].owner));
    assert Requests.AcceptOutcome(s, r.value, R);
  }

  /** The accept branch checks neither the request's nor the donation's
      current status: accepting the same request twice succeeds twice and
      leaves two scheduled matches for it. */
  lemma AcceptTwiceMakesTwoMatches(s: Store, R: RequestId)
    requires Valid(s)
    requires R in s.requests && s.requests[R].donation in s.donations
    ensures var owner := s.donations[s.requests[R].donation].owner;
            var r1 := Requests.UpdateRequestStatus(s, R, ACCEPTED, Some(owner));
            && r1.Success?
            && var r2 := Requests.UpdateRequestStatus(r1.value, R, ACCEPTED, Some(owner));
            && r2.Success?
            && s.nextMatch in r2.value.matches && s.nextMatch + 1 in r2.value.matches
            && r2.value.matches[s.nextMatch].request == R
            && r2.value.matches[s.nextMatch + 1].request == R
            && r2.value.matches[s.nextMatch].status == SCHEDULED
            && r2.value.matches[s.nextMatch + 1].status == SCHEDULED
  {
    AcceptByOwner(s, R);
    var owner := s.donations[s.requests[R].donation].owner;
    var t := Requests.UpdateRequestStatus(s, R, ACCEPTED, Some(owner)).value;
    AcceptByOwner(t, R);
  }

  /** The walk of two recipients asking for one donation: both requests start
      pending; the donor accepts the first, which becomes accepted while the
      second is rejected, the donation is claimed, and one scheduled match
      binds the donor to the first recipient. */
  lemma TwoRequestsOneAccepted(s: Store, d: DonationId, u1: UserId, u2: UserId)
    requires Valid(s)
    requires d in s.donations && s.donations[d].status == AVAILABLE
    ensures var owner := s.donations[d].owner;
            var r1 := Requests.CreateRequest(s, u1, d);
            && r1.Success?
            && var r2 := Requests.CreateRequest(r1.value, u2, d);
            && r2.Success?
            && var R1 := s.nextRequest;
            && var R2 := s.nextRequest + 1;
            && r2.value.requests[R1].status == PENDING
            && r2.value.requests[R2].status == PENDING
            && var r3 := Requests.UpdateRequestStatus(r2.value, R1, ACCEPTED, Some(owner));
            && r3.Success?
            && r3.value.requests[R1].status == ACCEPTED
            && r3.value.requests[R2].status == REJECTED
            && r3.value.donations[d].status == CLAIMED
            && r3.value.matches[s.nextMatch] == Match(d, R1, owner, u1, SCHEDULED)
  {
  }

  /** Resolving a match as a participant: completing it completes the
      donation; canceling it reopens the donation, which then takes a new
      request again. */
  lemma ResolveThenRequestAgain(s: Store, m: MatchId, user: UserId, newcomer: UserId)
    requires Valid(s)
    requires m in s.matches && s.matches[m].donation in s.donations
    requires user != 0 && (user == s.matches[m].donor || user == s.matches[m].recipient)
    ensures var D := s.matches[m].donation;
            var done := Matches.UpdateMatchStatus(s, m, COMPLETED, Some(user));
            && done.Success? && done.value.donations[D].status == COMPLETED
            && Requests.CreateRequest(done.value, newcomer, D).Failure?
    ensures var D := s.matches[m].donation;
            var off := Matches.UpdateMatchStatus(s, m, CANCELED, Some(user));
            && off.Success? && off.value.donations[D].status == AVAILABLE
            && Requests.CreateRequest(off.value, newcomer, D).Success?
  {
  }

  /** The match handler does not look at the match's current status: a
      completed match can be canceled afterwards, which sends its donation
      back to available. */
  lemma CompletedMatchCanBeCanceled(s: Store, m: MatchId, user: UserId)
    requires Valid(s)
    requires m in s.matches && s.matches[m].donation in s.donations
    requires user != 0 && (user == s.matches[m].donor || user == s.matches[m].recipient)
    ensures var done := Matches.UpdateMatchStatus(s, m, COMPLETED, Some(user));
            && done.Success?
            && var off := Matches.UpdateMatchStatus(done.value, m, CANCELED, Some(user));
            && off.Success?
            && off.value.matches[m].status == CANCELED
            && off.value.donations[s.matches[m].donation].status == AVAILABLE
  {
  }

  /** The raw overwrite ignores the state machine: a completed donation can be
      put straight back to available. */
  lemma OverwriteIgnoresLifecycle(s: Store, d: DonationId)
    requires d in s.donations && s.donations[d].status == COMPLETED
    ensures Donations.SetDonationStatus(s, d, AVAILABLE).Success?
    ensures Donations.SetDonationStatus(s, d, AVAILABLE).value.donations[d].status == AVAILABLE
  {
  }

  /** Adding one notification under a fresh id raises its addressee's unread
      count by one and leaves every other count alone. */
  lemma OneNewUnread(s: Store, t: Store, n: NotificationId, a: Notification, u: UserId)
    requires n !in s.notifications && !a.isRead
    requires t.notifications == s.notifications[n := a]
    ensures |Notifications.UnreadIds(t, u)| == |Notifications.UnreadIds(s, u)| + (if a.user == u then 1 else 0)
  {
    if a.user == u {
      assert Notifications.UnreadIds(t, u) == Notifications.UnreadIds(s, u) + {n};
    } else {
      assert Notifications.UnreadIds(t, u) == Notifications.UnreadIds(s, u);
    }
  }

  /** Adding two fresh notifications raises each user's unread count by the
      number of them addressed to that user. */
  lemma TwoNewUnread(s: Store, t: Store, a: Notification, b: Notification, u: UserId)
    requires Valid(s)
    requires !a.isRead && !b.isRead
    requires t.notifications == s.notifications[s.nextNotification := a][s.nextNotification + 1 := b]
    ensures |Notifications.UnreadIds(t, u)| ==
            |Notifications.UnreadIds(s, u)| + (if a.user == u then 1 else 0) + (if b.user == u then 1 else 0)
  {
    var n := s.nextNotification;
    var mid := s.(notifications := s.notifications[n := a]);
    OneNewUnread(s, mid, n, a, u);
    OneNewUnread(mid, t, n + 1, b, u);
  }

  /** Accepting a request raises the requester's and the donor's unread counts
      by one each (by two when they are the same user); everyone else's stays. */
  lemma AcceptRaisesUnread(s: Store, R: RequestId, actor: Option<UserId>, u: UserId)
    requires Valid(s)
    requires Requests.UpdateRequestStatus(s, R, ACCEPTED, actor).Success?
    ensures var t := Requests.UpdateRequestStatus(s, R, ACCEPTED, actor).value;
            var requester := s.requests[R].requester;
            var donor := s.donations[s.requests[R].donation].owner;
            |Notifications.UnreadIds(t, u)| ==
              |Notifications.UnreadIds(s, u)| + (if requester == u then 1 else 0) + (if donor == u then 1 else 0)
  {
    var t := Requests.UpdateRequestStatus(s, R, ACCEPTED, actor).value;
    assert Requests.AcceptOutcome(s, t, R);
    var n := s.nextNotification;
    assert t.notifications == s.notifications[n := t.notifications[n]][n + 1 := t.notifications[n + 1]];
    TwoNewUnread(s, t, t.notifications[n], t.notifications[n + 1], u);
  }

  /** Resolving a match raises the donor's and the recipient's unread counts by
      one each; everyone else's stays. */
  lemma ResolveRaisesUnread(s: Store, m: MatchId, status: Status, actor: Option<UserId>, u: UserId)
    requires Valid(s)
    requires Matches.UpdateMatchStatus(s, m, status, actor).Success?
    ensures var t := Matches.UpdateMatchStatus(s, m, status, actor).value;
            |Notifications.UnreadIds(t, u)| ==
              |Notifications.UnreadIds(s, u)| + (if s.matches[m].donor == u then 1 else 0)
                                              + (if s.matches[m].recipient == u then 1 else 0)
  {
    var t := Matches.UpdateMatchStatus(s, m, status, actor).value;
    assert Matches.ResolveOutcome(s, t, m, status);
    var n := s.nextNotification;
    assert t.notifications == s.notifications[n := t.notifications[n]][n + 1 := t.notifications[n + 1]];
    TwoNewUnread(s, t, t.notifications[n], t.notifications[n + 1], u);
  }
}
