/** PUT /api/donations/:donation_id/status: a raw overwrite of the status column. */
module Donations {
  import opened Wrappers
  import opened FoodStore

  /** Replaces the donation's status with the given string, whatever the
      current status is; an unknown id is NotFound. */
  function SetDonationStatus(s: Store, d: DonationId, status: Status): (r: Result<Store, ApiError>)
    ensures r.Failure? <==> d !in s.donations
    ensures r.Failure? ==> r.error == NotFound
    ensures r.Success? ==>
      && r.value.donations.Keys == s.donations.Keys
      && r.value.donations[d].status == status
      && r.value.donations[d].owner == s.donations[d].owner
      && (forall k :: k in s.donations && k != d ==> r.value.donations[k] == s.donations[k])
      && r.value.requests == s.requests
      && r.value.matches == s.matches
      && r.value.notifications == s.notifications
      && r.value.nextRequest == s.nextRequest
      && r.value.nextMatch == s.nextMatch
      && r.value.nextNotification == s.nextNotification
  {
    if d !in s.donations then Failure(NotFound)
    else Success(s.(donations := s.donations[d := s.donations[d].(status := status)]))
  }

  /** Writing a status twice leaves the store as writing it once. */
  lemma SetDonationStatusIdempotent(s: Store, d: DonationId, status: Status)
    requires d in s.donations
    ensures SetDonationStatus(s, d, status).Success?
    ensures SetDonationStatus(SetDonationStatus(s, d, status).value, d, status)
         == SetDonationStatus(s, d, status)
  {
    var t := SetDonationStatus(s, d, status).value;
    assert t.donations[d := t.donations[d].(status := status)] == t.donations;
  }

  /** The overwrite keeps both store invariants. */
  lemma SetDonationStatusKeepsInvariants(s: Store, d: DonationId, status: Status)
    requires Valid(s) && Linked(s)
    ensures SetDonationStatus(s, d, status).Success? ==>
      Valid(SetDonationStatus(s, d, status).value) && Linked(SetDonationStatus(s, d, status).value)
  {
  }
}
