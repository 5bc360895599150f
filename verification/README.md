# FoodShare lifecycle model

A Dafny model of the donation → request → match lifecycle of the FoodShare
backend (an Express + PostgreSQL service), together with two pure reductions
of its React frontend: the statistics and goal of the matches page, and the
local list update and unread count of the notifications panel.

The store is four tables: donations, requests, matches and notifications.
Each is a map from serial id to the columns the lifecycle reads or writes.
Three serial counters give the next request, match and notification id
(`FoodStore.Store`). Each HTTP handler is one pure function from a store to
`Result<Store, ApiError>`. It fails with the error the handler answers
with, and then there is no new store. On success it returns the store after
all of the handler's statements:

| handler | Dafny |
|---|---|
| `PUT /api/donations/:donation_id/status` | `Donations.SetDonationStatus` |
| `POST /api/requests` | `Requests.CreateRequest` |
| `PUT /api/requests/:request_id/status` | `Requests.UpdateRequestStatus` (accept branch: `Requests.Accept`; its bulk rejection of the other pending requests: `Requests.RejectSiblings`) |
| `PUT /api/matches/:match_id/status` | `Matches.UpdateMatchStatus` |
| `PUT /api/notifications/:notification_id/read` | `Notifications.MarkRead` |

The code is modelled as written, not as an idealised lifecycle:

- status columns are strings, and the request and donation handlers store any string they are sent;
- accepting a request checks neither the request's status nor the donation's, so accepting twice gives two matches (`Lifecycle.AcceptTwiceMakesTwoMatches`);
- the match handler never reads the match's current status, so a completed match can still be canceled (`Lifecycle.CompletedMatchCanBeCanceled`);
- an unknown request is refused as Unauthorized, because the ownership join finds no row;
- notification texts are tags (`AcceptedMsg`, `MatchCreatedMsg`, `CompletedMsg`, `CanceledMsg`).

Two store invariants are proved to hold across every handler. `Valid` says each
serial counter is above every id in its table. `Linked` is referential
integrity: requests name existing donations, and matches name existing
donations and requests.

Further consequences of the code as written:

- the match handler validates the status value before it looks up the match;
- "completed" and "canceled" are not terminal;
- a request status is not restricted to pending/accepted/rejected;
- a match is not created "exactly once" per request.

Behaviour that depends on input shape is modelled as follows:

- An acting user id is `Option<UserId>`, and `None` means the body field is absent.
- The match handler's `!user_id` also rejects 0. Its `!status` rejects the empty string.
- In the request handler an absent `donor_id` never equals the owner, so the answer is Unauthorized.

The unread badge uses the same formula in the notifications panel
(src/components/NotificationsModal.js:73) and in the shared hook
(src/hooks/useFoodSharing.js:63). It is modelled once, as
`NotificationsView.UnreadCount` on a fetched list. It is also modelled as
`Notifications.UnreadIds` on the store.

## Model

| member | source | states |
|---|---|---|
| Donations.SetDonationStatus | foodshare-backend/server.js:240-257 | NotFound exactly when the donation id is unknown; otherwise that donation's status becomes the given string whatever it was, its owner is kept, and no other row or counter changes |
| Donations.SetDonationStatusIdempotent | foodshare-backend/server.js:244-247 | writing the same status twice leaves the store that writing it once leaves |
| Donations.SetDonationStatusKeepsInvariants | foodshare-backend/server.js:244-247 | the overwrite keeps the serial-id and referential-integrity invariants |
| Requests.CreateRequest | foodshare-backend/server.js:263-283 | fails with NotAvailable exactly when the donation is missing or its status is not "available"; otherwise adds exactly one request under a fresh id, pending, for that user and donation, changes no existing request, donation, match or notification, and keeps the serial-id invariant |
| Requests.UpdateRequestStatus | foodshare-backend/server.js:312-383 | succeeds exactly when the request exists, its donation exists and the acting donor_id is that donation's owner, else Unauthorized with no new store; "accepted" sets R accepted, rejects exactly the pending siblings on R's donation, adds exactly one scheduled match (donation, R, owner, requester), claims the donation and adds exactly two unread notifications (request_accepted to the requester, match to the donor), with every other row unchanged; any other string only overwrites R's status |
| Matches.UpdateMatchStatus | foodshare-backend/server.js:415-497 | checks in source order: MissingFields for an empty status or absent/zero user, InvalidStatus outside {scheduled, completed, canceled}, NotFound for an unknown match, Unauthorized for a user who is neither donor nor recipient, NotFound for a missing donation; succeeds exactly when all pass, whatever the match's current status, and then sets only the match status, reconciles only that donation, adds two unread `match` notifications with identical text to donor and recipient, and touches no request |
| Notifications.MarkRead | foodshare-backend/server.js:567-583 | NotFound exactly for an unknown id; otherwise that notification is read, its other fields are kept, and no other notification or table changes |
| Notifications.MarkReadIdempotent | foodshare-backend/server.js:570-577 | marking an already-read notification succeeds with the store unchanged, and marking twice equals marking once |
| Notifications.MarkReadUnreadCount | foodshare-backend/server.js:567-577 | marking lowers a user's unread count in the store by one exactly when the notification was theirs and unread, and leaves it unchanged otherwise; this is the count the panel refetches after marking (src/components/NotificationsModal.js:72-74) |
| Notifications.MarkReadKeepsInvariants | foodshare-backend/server.js:570-577 | marking read keeps the serial-id and referential-integrity invariants |
| Lifecycle.CreateRequestKeepsLinked | foodshare-backend/server.js:267-277 | a created request names an existing donation, so referential integrity is kept |
| Lifecycle.UpdateRequestStatusKeepsLinked | foodshare-backend/server.js:335-367 | the new match names an existing donation and request, so referential integrity is kept |
| Lifecycle.UpdateMatchStatusKeepsLinked | foodshare-backend/server.js:459-486 | resolving a match keeps referential integrity |
| Lifecycle.SiblingRejection | foodshare-backend/server.js:355-360 | after an accept, R is accepted and no request on R's donation is still pending |
| Lifecycle.AcceptByOwner | foodshare-backend/server.js:317-353 | an accept sent by the donation's owner always succeeds, appends one scheduled match for the request under the next match id, keeps every existing match, and leaves the request and its donation's owner in place |
| Lifecycle.AcceptTwiceMakesTwoMatches | foodshare-backend/server.js:328-350 | accepting the same request twice succeeds both times and leaves two scheduled matches for it |
| Lifecycle.TwoRequestsOneAccepted | foodshare-backend/server.js:263-367 | two requests on an available donation are both pending; accepting the first makes it accepted and the second rejected, claims the donation and creates the match between the owner and the first requester |
| Lifecycle.ResolveThenRequestAgain | foodshare-backend/server.js:465-476 | a participant completing a match completes the donation, which then refuses new requests; canceling makes it available and it accepts a new request |
| Lifecycle.CompletedMatchCanBeCanceled | foodshare-backend/server.js:423-476 | a completed match can afterwards be canceled by a participant, sending its donation back to available |
| Lifecycle.OverwriteIgnoresLifecycle | foodshare-backend/server.js:244-247 | the raw overwrite takes a completed donation straight back to available |
| Lifecycle.AcceptRaisesUnread | foodshare-backend/server.js:362-367 | an accept raises the requester's and the donor's unread counts by one each and nobody else's |
| Lifecycle.ResolveRaisesUnread | foodshare-backend/server.js:478-486 | a match update raises the donor's and the recipient's unread counts by one each and nobody else's |
| MatchesView.CountStatusIsMultiplicity | src/components/MatchesPage.js:277-278 | the filtered length for a status equals how many rows carry that status (its multiplicity among the statuses) |
| MatchesView.DisjointCountsBounded | src/components/MatchesPage.js:277-280 | counts of two different statuses together never exceed the list length |
| MatchesView.ComputeStats | src/components/MatchesPage.js:276-284 | total is the list length, completed + active never exceeds it, and the XP score lies between 25·total and 125·total |
| MatchesView.StatsMeaning | src/components/MatchesPage.js:277-283 | completed and active are the numbers of rows whose status is "completed" and "scheduled" (their multiplicities among the statuses), and XP is 100 per completed, 50 per scheduled and 25 per row |
| MatchesView.CountAfterStatusChange | src/components/MatchesPage.js:318-319 | changing one row's status moves exactly that row from its old status's count to its new one's |
| MatchesView.StatsAfterComplete | src/components/MatchesPage.js:318-324 | for a list that differs from the old one only in one scheduled row now completed, the stats show one more completed, one fewer active, the same total and 50 more XP |
| MatchesView.StatsAfterCancel | src/components/MatchesPage.js:318-324 | for a list that differs from the old one only in one scheduled row now canceled, the stats show one fewer active, the same completed and total, and 50 less XP |
| MatchesView.FetchedAfterResolve | foodshare-backend/server.js:399-404 | after a participant's status update of a listed match, the user's previous list with that row's status replaced is again exactly the user-matches answer on the new store: the same matches, the user's only, none missing, none twice |
| MatchesView.CountByIds | src/components/MatchesPage.js:317-320 | on a list mirroring the store with no match twice, a status count equals the number of listed matches with that status in the store, and the length equals the number of listed matches |
| MatchesView.FetchedStatsUnique | foodshare-backend/server.js:399-404 | two lists that are both the user-matches answer on one store hold the same matches and give the same page statistics, so the answer's row order does not affect them |
| MatchesView.RefreshAfterComplete | src/components/MatchesPage.js:297-325 | when "Mark Complete" is offered on a row of the list the server answers for the user (each of their matches with an existing donation, once, in any order), the server accepts the update, the old list with that row completed is again that answer on the new store, and the stats of every list that answer may be, whatever its order, equal that list's, which show one more completed, one fewer active, the same total and 50 more XP |
| MatchesView.RefreshAfterCancel | src/components/MatchesPage.js:297-325 | when the cancel button is offered on a row of the list the server answers for the user (each of their matches with an existing donation, once, in any order), the server accepts the update, the old list with that row canceled is again that answer on the new store, and the stats of every list that answer may be, whatever its order, equal that list's, which show one fewer active, the same completed and total, and 50 less XP |
| MatchesView.Goal | src/components/MatchesPage.js:407-410 | the goal is the larger of completed + 5 and 10: at least 10 and at least completed + 5 |
| MatchesView.ProgressMatchesPercentage | src/components/MatchesPage.js:209-226 | for a positive goal the footer's test `Math.min((current / total) * 100, 100) >= 100` (computed as `MatchesView.Percentage`) holds exactly when current has reached total |
| MatchesView.GoalNeverReached | src/components/MatchesPage.js:405-411 | with the page's goal, current stays strictly below the goal, the bar never reaches "goal achieved" and at least 5 more are always asked for |
| MatchesView.ActionGuardAgreesWithServer | src/components/MatchesPage.js:162-186 | when the complete and cancel buttons are offered (a scheduled match, to its donor or recipient, with a non-zero user id), the server accepts both actions; a user who is neither party is refused as Unauthorized for every admitted status |
| MatchesView.StatusStyleAgreement | src/components/MatchesPage.js:39-53 | the colour and icon switches agree; only "scheduled" and "completed" escape the red default, so "canceled" is red |
| NotificationsView.MarkReadLocal | src/components/NotificationsModal.js:70 | after marking id n every entry with id n is read, only its is_read field changed, every other entry is unchanged, and length and order are kept |
| NotificationsView.MarkReadLocalIdempotent | src/components/NotificationsModal.js:70 | marking the same id twice gives the same list as marking it once |
| NotificationsView.UnreadCountIsFalseFlags | src/components/NotificationsModal.js:72-74 | the badge count is the number of entries whose is_read flag is false |
| NotificationsView.UnreadAfterMarkRead | src/components/NotificationsModal.js:70-73 | on the locally marked list, the unread count is lower by exactly the number of previously unread entries with that id, so it never rises (the badge itself is refetched from the server; see `Notifications.MarkReadUnreadCount`) |
| NotificationsView.MarkReadButtonVisibility | src/components/NotificationsModal.js:13-20 | some card offers "Mark as Read" exactly when the unread count is positive, and after marking n no card with id n offers it |

## Left out

- Server plumbing (Express, pg pool, multer, static files, the listen call): I/O with no lifecycle logic.
- Registration and login: credential checks and email uniqueness happen inside the database.
- Transactions: `BEGIN`/`COMMIT`/`ROLLBACK` in the request handler go through the shared pool, and its first `UPDATE` runs before `BEGIN`. Each handler is modelled as one atomic step, with no claim about rollback after a database error. Concurrent accepts are not modelled.
- Database errors: a failing statement answers 500 in every handler. This includes foreign-key failures for unknown user ids and any CHECK constraint on status columns. The schema is not part of this model, so these 500 answers are not modelled.
- The request handler's 404 branch (foodshare-backend/server.js:375-377): the ownership join has just found the row, so in a sequential store the `UPDATE` always finds it too.
- Request body fields with no lifecycle effect: pickup time preference, notes, and the timestamps (`CURRENT_TIMESTAMP`, `match_date`, `pickup_date`).
- A missing `status` body field would be stored as SQL NULL by the request handler (`Requests.UpdateRequestStatus`) and by the donation handler (`Donations.SetDonationStatus`, foodshare-backend/server.js:242-246); this is not modelled, since statuses are strings.
- New notifications are modelled as unread (`isRead == false`). Both INSERTs (foodshare-backend/server.js:363-367, 482-486) name only `user_id`, `type` and `message`, so `is_read` comes from a column default the schema would set; `Requests.UpdateRequestStatus`, `Matches.UpdateMatchStatus`, `Lifecycle.AcceptRaisesUnread` and `Lifecycle.ResolveRaisesUnread` assume that default is false. The frontend's `!n.is_read` (src/components/NotificationsModal.js:13, 73) would treat a NULL the same way.
- Requests.CreateRequest: the requester is a `UserId`, so a body without `user_id` is not modelled; the handler (foodshare-backend/server.js:264, 272-276) never checks it and would insert a NULL requester, or answer 500 if the column forbids NULL. The frontend always sends it.
- JavaScript strict inequality between a body id and a database integer of another JSON type (for example the string "3" against 3): ids are modelled as numbers of one type.
- Notification texts: kept as tags. The accept branch interpolates `title` from a query that selects only `user_id`, so its real text contains "undefined".
- Donation listing (PostGIS distance, ILIKE search), donation creation (file upload, database default status), feedback insert and queries, and the GET list queries. The frontend reductions take the fetched list as input instead of modelling these queries. For the user-matches query (foodshare-backend/server.js:390-404) the answer is characterised by the predicate `MatchesView.FetchedFor` instead: its joins on `users` are taken to find both parties, and its `ORDER BY match_date` is not modelled, since any two lists it may be have the same statistics (`MatchesView.FetchedStatsUnique`).
- MatchesView.Percentage: computed in exact real arithmetic for a positive total; JavaScript float rounding is not modelled, and a total of 0 (Infinity or NaN in JavaScript) is covered only by the case split of `MatchesView.Progress`.
- The 24-hour "new match" flag, axios calls, localStorage, alerts, and all rendering and styling classes beyond the status colour and icon choice.
