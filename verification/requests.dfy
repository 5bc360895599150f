/**
  POST /api/requests and PUT /api/requests/:request_id/status: request creation,
  and the donor's status update whose "accepted" branch creates a match, claims
  the donation, rejects the pending siblings and notifies both parties.
 */
module Requests {
  import opened Wrappers
  import opened FoodStore

  /** Inserts a pending request of `user` for donation d, provided d exists and
      is available; the donation itself is left untouched. */
  function CreateRequest(s: Store, user: UserId, d: DonationId): (r: Result<Store, ApiError>)
    requires Valid(s)
    ensures r.Failure? <==> d !in s.donations || s.donations[d].status != AVAILABLE
    ensures r.Failure? ==> r.error == NotAvailable
    ensures r.Success? ==>
      var id := s.nextRequest;
      && Valid(r.value)
      && id !in s.requests
      && r.value.requests.Keys == s.requests.Keys + {id}
      && r.value.requests[id] == Request(user, d, PENDING)
      && (forall k :: k in s.requests ==> r.value.requests[k] == s.requests[k])
      && r.value.donations == s.donations
      && r.value.matches == s.matches
      && r.value.notifications == s.notifications
      && r.value.nextMatch == s.nextMatch
      && r.value.nextNotification == s.nextNotification
  {
    if d !in s.donations || s.donations[d].status != AVAILABLE then Failure(NotAvailable)
    else
      Success(s.(requests := s.requests[s.nextRequest := Request(user, d, PENDING)],
                 nextRequest := s.nextRequest + 1))
  }

  /** The bulk update that turns every other pending request on donation d
      into a rejected one. */
  function RejectSiblings(rs: map<RequestId, Request>, d: DonationId, keep: RequestId): (r: map<RequestId, Request>)
    ensures r.Keys == rs.Keys
  {
    map k | k in rs ::
      if rs[k].donation == d && k != keep && rs[k].status == PENDING
      then rs[k].(status := REJECTED)
      else rs[k]
  }

  /** The state after the accepted branch, stated declaratively: R accepted,
      the pending siblings of R on its donation rejected and every other request
      as before; exactly one new scheduled match between the donation's owner
      and R's requester; the donation claimed and no other donation touched;
      exactly two new unread notifications, `request_accepted` to the requester
      and `match` to the donor. */
  ghost predicate AcceptOutcome(s: Store, t: Store, R: RequestId)
    requires R in s.requests && s.requests[R].donation in s.donations
  {
    var req := s.requests[R];
    var D := req.donation;
    var donor := s.donations[D].owner;
    var n := s.nextNotification;
    // requests
    && t.requests.Keys == s.requests.Keys
    && t.requests[R] == req.(status := ACCEPTED)
    && (forall k :: k in s.requests && k != R && s.requests[k].donation == D && s.requests[k].status == PENDING ==>
          t.requests[k] == s.requests[k].(status := REJECTED))
    && (forall k :: k in s.requests && k != R && (s.requests[k].donation != D || s.requests[k].status != PENDING) ==>
          t.requests[k] == s.requests[k])
    && t.nextRequest == s.nextRequest
    // matches
    && s.nextMatch !in s.matches
    && t.matches.Keys == s.matches.Keys + {s.nextMatch}
    && t.matches[s.nextMatch] == Match(D, R, donor, req.requester, SCHEDULED)
    && (forall k :: k in s.matches ==> t.matches[k] == s.matches[k])
    && t.nextMatch == s.nextMatch + 1
    // donations
    && t.donations.Keys == s.donations.Keys
    && t.donations[D] == Donation(donor, CLAIMED)
    && (forall k :: k in s.donations && k != D ==> t.donations[k] == s.donations[k])
    // notifications
    && n !in s.notifications && n + 1 !in s.notifications
    && t.notifications.Keys == s.notifications.Keys + {n, n + 1}
    && t.notifications[n] == Notification(req.requester, RequestAcceptedType, AcceptedMsg, false)
    && t.notifications[n + 1] == Notification(donor, MatchType, MatchCreatedMsg, false)
    && (forall k :: k in s.notifications ==> t.notifications[k] == s.notifications[k])
    && t.nextNotification == n + 2
  }

  /** The state after any other status value: only R's status column changed. */
  ghost predicate OnlyStatusWritten(s: Store, t: Store, R: RequestId, status: Status)
    requires R in s.requests
  {
    && t.requests.Keys == s.requests.Keys
    && t.requests[R] == s.requests[R].(status := status)
    && (forall k :: k in s.requests && k != R ==> t.requests[k] == s.requests[k])
    && t.donations == s.donations
    && t.matches == s.matches
    && t.notifications == s.notifications
    && t.nextRequest == s.nextRequest
    && t.nextMatch == s.nextMatch
    && t.nextNotification == s.nextNotification
  }

  /** The accepted branch, run on the store in which R's status has already
      been written. It reads neither R's previous status nor the donation's. */
  function Accept(s: Store, R: RequestId): (t: Store)
    requires Valid(s)
    requires R in s.requests && s.requests[R].donation in s.donations
  {
    var req := s.requests[R];
    var D := req.donation;
    var donor := s.donations[D].owner;
    var n := s.nextNotification;
    s.(matches := s.matches[s.nextMatch := Match(D, R, donor, req.requester, SCHEDULED)],
       nextMatch := s.nextMatch + 1,
       donations := s.donations[D := s.donations[D].(status := CLAIMED)],
       requests := RejectSiblings(s.requests, D, R),
       notifications := s.notifications[n := Notification(req.requester, RequestAcceptedType, AcceptedMsg, false)]
                                       [n + 1 := Notification(donor, MatchType, MatchCreatedMsg, false)],
       nextNotification := n + 2)
  }

  /** The donor's status update. The ownership join must find R and the acting
      `donor_id` must equal the owner of R's donation, otherwise Unauthorized
      with nothing changed (an unknown request is Unauthorized too). The status
      string is not validated: "accepted" runs the accept branch, any other
      value is simply stored. */
  function UpdateRequestStatus(s: Store, R: RequestId, status: Status, actor: Option<UserId>): (r: Result<Store, ApiError>)
    requires Valid(s)
    ensures r.Success? <==>
      R in s.requests && s.requests[R].donation in s.donations
      && actor == Some(s.donations[s.requests[R].donation].owner)
    ensures r.Failure? ==> r.error == Unauthorized
    ensures r.Success? ==> Valid(r.value)
    ensures r.Success? && status == ACCEPTED ==> AcceptOutcome(s, r.value, R)
    ensures r.Success? && status != ACCEPTED ==> OnlyStatusWritten(s, r.value, R, status)
  {
    var owner := RequestOwner(s, R);
    if owner.None? || actor != owner then Failure(Unauthorized)
    else
      var written := s.(requests := s.requests[R := s.requests[R].(status := status)]);
      if status == ACCEPTED then Success(Accept(written, R)) else Success(written)
  }
}
