/**
  The persistent store of the food-sharing backend, reduced to the tables the
  donation -> request -> match lifecycle touches. Each table is a map from its
  serial id to the columns the lifecycle reads or writes; the three tables the
  lifecycle inserts into carry the next value of their serial sequence.
 */
module FoodStore {
  import opened Wrappers

  type UserId = nat
  type DonationId = nat
  type RequestId = nat
  type MatchId = nat
  type NotificationId = nat

  /** Status columns hold plain strings: the request and donation handlers store
      whatever string the client sends, so no enumeration is imposed here. */
  type Status = string

  const AVAILABLE: Status := "available"
  const CLAIMED: Status := "claimed"
  const COMPLETED: Status := "completed"
  const PENDING: Status := "pending"
  const ACCEPTED: Status := "accepted"
  const REJECTED: Status := "rejected"
  const SCHEDULED: Status := "scheduled"
  const CANCELED: Status := "canceled"

  /** The statuses the match handler admits. */
  const MATCH_STATUSES: set<Status> := {SCHEDULED, COMPLETED, CANCELED}

  datatype Donation = Donation(owner: UserId, status: Status)

  datatype Request = Request(requester: UserId, donation: DonationId, status: Status)

  datatype Match = Match(
    donation: DonationId,
    request: RequestId,
    donor: UserId,
    recipient: UserId,
    status: Status)

  /** The `type` column of a notification row. */
  datatype NotificationType = RequestAcceptedType | MatchType

  /** Notification text, kept as a tag: the texts interpolate a donation title
      that the store does not model. */
  datatype Message = AcceptedMsg | MatchCreatedMsg | CompletedMsg | CanceledMsg

  datatype Notification = Notification(
    user: UserId,
    kind: NotificationType,
    message: Message,
    isRead: bool)

  datatype Store = Store(
    donations: map<DonationId, Donation>,
    requests: map<RequestId, Request>,
    matches: map<MatchId, Match>,
    notifications: map<NotificationId, Notification>,
    nextRequest: RequestId,
    nextMatch: MatchId,
    nextNotification: NotificationId)

  /** The errors the lifecycle handlers answer with. */
  datatype ApiError =
    | NotFound        // 404: the addressed row does not exist
    | NotAvailable    // 400: the donation cannot be requested
    | Unauthorized    // 403: the acting user lacks the relationship the handler checks
    | MissingFields   // 400: a required body field is absent or falsy
    | InvalidStatus   // 400: a match status outside the admitted values

  /** Every serial sequence is ahead of every id already in its table, so the
      next value is fresh. */
  ghost predicate Valid(s: Store) {
    && (forall r :: r in s.requests ==> r < s.nextRequest)
    && (forall m :: m in s.matches ==> m < s.nextMatch)
    && (forall n :: n in s.notifications ==> n < s.nextNotification)
  }

  /** Referential integrity: requests name existing donations, matches name
      existing donations and requests. */
  ghost predicate Linked(s: Store) {
    && (forall r :: r in s.requests ==> s.requests[r].donation in s.donations)
    && (forall m :: m in s.matches ==>
          s.matches[m].donation in s.donations && s.matches[m].request in s.requests)
  }

  /** The owner of the donation a request points at, found the way the
      ownership join finds it; None when the join yields no row. */
  function RequestOwner(s: Store, id: RequestId): Option<UserId> {
    if id in s.requests && s.requests[id].donation in s.donations
    then Some(s.donations[s.requests[id].donation].owner)
    else None
  }
}
