/**
  The pure reductions of the matches page: the statistics computed from the
  user's match list (on first load and again after every status update), the
  monthly-goal arithmetic of the progress bar, the guard on the complete and
  cancel buttons, and the status badge styling.
 */
module MatchesView {
  import opened Wrappers
  import opened FoodStore
  import Matches

  /** One row of the user's match list, as the page reads it. */
  datatype MatchRow = MatchRow(id: MatchId, status: Status, donor: UserId, recipient: UserId)

  datatype Stats = Stats(totalMatches: nat, completedMatches: nat, activeMatches: nat, totalXP: nat)

  /** The status column of every row, in order. */
  function Statuses(ms: seq<MatchRow>): (r: seq<Status>)
    ensures |r| == |ms|
    ensures forall i :: 0 <= i < |ms| ==> r[i] == ms[i].status
  {
    if ms == [] then [] else [ms[0].status] + Statuses(ms[1..])
  }

  /** `ms.filter(m => m.match_status === st).length` */
  function CountStatus(ms: seq<MatchRow>, st: Status): (r: nat)
    ensures r <= |ms|
  {
    if ms == [] then 0
    else (if ms[0].status == st then 1 else 0) + CountStatus(ms[1..], st)
  }

  /** The filtered length is the multiplicity of the status among the rows. */
  lemma {:induction false} CountStatusIsMultiplicity(ms: seq<MatchRow>, st: Status)
    ensures CountStatus(ms, st) == multiset(Statuses(ms))[st]
  {
    if ms != [] {
      CountStatusIsMultiplicity(ms[1..], st);
      assert Statuses(ms) == [ms[0].status] + Statuses(ms[1..]);
    }
  }

  /** Rows of two different statuses are counted apart, so together they never
      exceed the list. */
  lemma {:induction false} DisjointCountsBounded(ms: seq<MatchRow>, a: Status, b: Status)
    requires a != b
    ensures CountStatus(ms, a) + CountStatus(ms, b) <= |ms|
  {
    if ms != [] {
      DisjointCountsBounded(ms[1..], a, b);
    }
  }

  /** The statistics of the page: completed rows, scheduled ("active") rows,
      all rows, and the XP score 100 per completed, 50 per active and 25 per
      row. The same reduction runs on first load and after each update. */
  function ComputeStats(ms: seq<MatchRow>): (r: Stats)
    ensures r.totalMatches == |ms|
    ensures r.completedMatches + r.activeMatches <= r.totalMatches
    ensures 25 * r.totalMatches <= r.totalXP <= 125 * r.totalMatches
  {
    DisjointCountsBounded(ms, COMPLETED, SCHEDULED);
    var completed := CountStatus(ms, COMPLETED);
    var active := CountStatus(ms, SCHEDULED);
    Stats(|ms|, completed, active, completed * 100 + active * 50 + |ms| * 25)
  }

  /** What the statistics count: completed and active are the numbers of rows
      whose status is "completed" and "scheduled", and the XP score is
      100 per completed row, 50 per scheduled row and 25 per row. */
  lemma {:induction false} StatsMeaning(ms: seq<MatchRow>)
    ensures ComputeStats(ms).completedMatches == multiset(Statuses(ms))[COMPLETED]
    ensures ComputeStats(ms).activeMatches == multiset(Statuses(ms))[SCHEDULED]
    ensures ComputeStats(ms).totalXP == 100 * multiset(Statuses(ms))[COMPLETED]
                                      + 50 * multiset(Statuses(ms))[SCHEDULED] + 25 * |ms|
  {
    CountStatusIsMultiplicity(ms, COMPLETED);
    CountStatusIsMultiplicity(ms, SCHEDULED);
  }

  /** Changing one row's status moves exactly that row between the counts. */
  lemma {:induction false} CountAfterStatusChange(ms: seq<MatchRow>, i: nat, v: Status, st: Status)
    requires i < |ms|
    ensures CountStatus(ms[i := ms[i].(status := v)], st)
         == CountStatus(ms, st) - (if ms[i].status == st then 1 else 0) + (if v == st then 1 else 0)
  {
    if i == 0 {
      assert ms[i := ms[i].(status := v)][1..] == ms[1..];
    } else {
      CountAfterStatusChange(ms[1..], i - 1, v, st);
      assert ms[i := ms[i].(status := v)][1..] == ms[1..][i - 1 := ms[i].(status := v)];
    }
  }

  /** The refresh after completing a scheduled match: one more completed, one
      fewer active, the same total, 50 more XP. */
  lemma StatsAfterComplete(ms: seq<MatchRow>, i: nat)
    requires i < |ms| && ms[i].status == SCHEDULED
    ensures var before := ComputeStats(ms);
            var after := ComputeStats(ms[i := ms[i].(status := COMPLETED)]);
            && after.completedMatches == before.completedMatches + 1
            && after.activeMatches + 1 == before.activeMatches
            && after.totalMatches == before.totalMatches
            && after.totalXP == before.totalXP + 50
  {
    CountAfterStatusChange(ms, i, COMPLETED, COMPLETED);
    CountAfterStatusChange(ms, i, COMPLETED, SCHEDULED);
  }

  /** The refresh after canceling a scheduled match: one fewer active, the same
      completed count and total, 50 less XP. */
  lemma StatsAfterCancel(ms: seq<MatchRow>, i: nat)
    requires i < |ms| && ms[i].status == SCHEDULED
    ensures var before := ComputeStats(ms);
            var after := ComputeStats(ms[i := ms[i].(status := CANCELED)]);
            && after.completedMatches == before.completedMatches
            && after.activeMatches + 1 == before.activeMatches
            && after.totalMatches == before.totalMatches
            && after.totalXP + 50 == before.totalXP
  {
    CountAfterStatusChange(ms, i, CANCELED, COMPLETED);
    CountAfterStatusChange(ms, i, CANCELED, SCHEDULED);
  }

  /** The monthly goal handed to the progress bar: `max(completed + 5, 10)`. */
  function Goal(completed: nat): (g: nat)
    ensures g >= 10 && g >= completed + 5
    ensures g == 10 || g == completed + 5
  {
    if completed + 5 > 10 then completed + 5 else 10
  }

  /** What the progress bar's footer says. */
  datatype ProgressNote = GoalAchieved | MoreToGo(remaining: int)

  /** The footer: "goal achieved" when the bar is full, otherwise how many
      more are needed. With total 0 JavaScript's division gives Infinity for a
      positive current (a full bar) and NaN for 0 (not full). */
  function Progress(current: nat, total: nat): ProgressNote {
    if (total > 0 && current >= total) || (total == 0 && current > 0) then GoalAchieved
    else MoreToGo(total - current)
  }

  /** The bar's fill, `Math.min((current / total) * 100, 100)`, in exact
      arithmetic for a positive total. */
  function Percentage(current: nat, total: nat): (p: real)
    requires total > 0
    ensures 0.0 <= p <= 100.0
  {
    var raw := (current as real) / (total as real) * 100.0;
    if raw < 100.0 then raw else 100.0
  }

  /** For a positive total the footer's test on the fill, `percentage >= 100`,
      holds exactly when current has reached total; otherwise the footer asks
      for total - current more. */
  lemma ProgressMatchesPercentage(current: nat, total: nat)
    requires total > 0
    ensures Progress(current, total).GoalAchieved? <==> Percentage(current, total) >= 100.0
    ensures Progress(current, total).MoreToGo? ==> Progress(current, total).remaining == total - current
  {
  }

  /** On the page the bar never fills: the goal stays strictly above the
      completed count, and at least 5 more are always asked for. */
  lemma GoalNeverReached(completed: nat)
    ensures completed < Goal(completed)
    ensures Progress(completed, Goal(completed)).MoreToGo?
    ensures Progress(completed, Goal(completed)).remaining >= 5
  {
  }

  /** The complete and cancel buttons are offered for a scheduled match to its
      donor or its recipient. */
  predicate OffersActions(row: MatchRow, user: UserId) {
    row.status == SCHEDULED && (user == row.donor || user == row.recipient)
  }

  /** The row mirrors the stored match it was read from. */
  ghost predicate Mirrors(row: MatchRow, s: Store) {
    row.id in s.matches
    && row.status == s.matches[row.id].status
    && row.donor == s.matches[row.id].donor
    && row.recipient == s.matches[row.id].recipient
  }

  /** The button guard agrees with the server's rule: a button offered to a
      logged-in user (id not falsy, as the page checks before sending) leads
      to a successful update for both actions; a user who is neither party is
      refused by the server whatever the status. */
  lemma ActionGuardAgreesWithServer(s: Store, row: MatchRow, user: UserId, status: Status)
    requires Valid(s) && Linked(s) && Mirrors(row, s) && user != 0
    requires status in MATCH_STATUSES
    ensures OffersActions(row, user) ==>
      Matches.UpdateMatchStatus(s, row.id, COMPLETED, Some(user)).Success?
      && Matches.UpdateMatchStatus(s, row.id, CANCELED, Some(user)).Success?
    ensures user != row.donor && user != row.recipient ==>
      Matches.UpdateMatchStatus(s, row.id, status, Some(user)) == Failure(Unauthorized)
  {
  }

  /** Every row mirrors its stored match, and no match is listed twice. */
  ghost predicate MirrorsAll(ms: seq<MatchRow>, s: Store) {
    && (forall j :: 0 <= j < |ms| ==> Mirrors(ms[j], s))
    && (forall j, k :: 0 <= j < k < |ms| ==> ms[j].id != ms[k].id)
  }

  /** The list `GET /api/users/:user_id/matches` answers for user u, in any
      order: each stored match once, exactly those with u as donor or
      recipient whose donation row exists (the join on donations). The joins
      on users are taken to find both parties. */
  ghost predicate FetchedFor(ms: seq<MatchRow>, s: Store, u: UserId) {
    && MirrorsAll(ms, s)
    && (forall j :: 0 <= j < |ms| ==>
          (ms[j].donor == u || ms[j].recipient == u) && s.matches[ms[j].id].donation in s.donations)
    && (forall m ::
          (m in s.matches && (s.matches[m].donor == u || s.matches[m].recipient == u)
           && s.matches[m].donation in s.donations)
          ==> exists j :: 0 <= j < |ms| && ms[j].id == m)
  }

  /** Resolving a listed match keeps the old list, with that row's status
      replaced, the answer of the fetch on the new store. */
  lemma FetchedAfterResolve(s: Store, t: Store, ms: seq<MatchRow>, i: nat, u: UserId, status: Status)
    requires FetchedFor(ms, s, u) && i < |ms|
    requires Matches.ResolveOutcome(s, t, ms[i].id, status)
    ensures FetchedFor(ms[i := ms[i].(status := status)], t, u)
  {
    var ms' := ms[i := ms[i].(status := status)];
    forall m | m in t.matches && (t.matches[m].donor == u || t.matches[m].recipient == u)
               && t.matches[m].donation in t.donations
      ensures exists j :: 0 <= j < |ms'| && ms'[j].id == m
    {
      var j :| 0 <= j < |ms| && ms[j].id == m;
      assert ms'[j].id == m;
    }
  }

  /** The match ids a list holds. */
  ghost function RowIds(ms: seq<MatchRow>): set<MatchId> {
    set j | 0 <= j < |ms| :: ms[j].id
  }

  /** Those of the given ids whose stored match has status st. */
  ghost function IdsWith(s: Store, ids: set<MatchId>, st: Status): set<MatchId> {
    set m | m in ids && m in s.matches && s.matches[m].status == st
  }

  /** Dropping the first row keeps a list mirroring without repeats, and
      takes exactly the first row's id out of its ids. */
  lemma MirrorsAllTail(ms: seq<MatchRow>, s: Store)
    requires MirrorsAll(ms, s) && ms != []
    ensures MirrorsAll(ms[1..], s)
    ensures RowIds(ms) == {ms[0].id} + RowIds(ms[1..])
    ensures ms[0].id !in RowIds(ms[1..])
  {
  }

  /** For a list that mirrors the store without repeats, a status count is
      the number of listed matches with that status in the store, and the
      length is the number of listed matches. */
  lemma {:induction false} CountByIds(ms: seq<MatchRow>, s: Store, st: Status)
    requires MirrorsAll(ms, s)
    ensures CountStatus(ms, st) == |IdsWith(s, RowIds(ms), st)|
    ensures |ms| == |RowIds(ms)|
  {
    if ms != [] {
      var tl := ms[1..];
      var h := ms[0].id;
      MirrorsAllTail(ms, s);
      CountByIds(tl, s, st);
      assert Mirrors(ms[0], s);
      if ms[0].status == st {
        assert IdsWith(s, RowIds(ms), st) == {h} + IdsWith(s, RowIds(tl), st);
      } else {
        assert IdsWith(s, RowIds(ms), st) == IdsWith(s, RowIds(tl), st);
      }
    }
  }

  /** The fetch's answer is fixed up to order, so any two lists it may be
      hold the same matches and give the same statistics: the row order of
      `ORDER BY match_date` does not reach the page's numbers. */
  lemma FetchedStatsUnique(a: seq<MatchRow>, b: seq<MatchRow>, s: Store, u: UserId)
    requires FetchedFor(a, s, u) && FetchedFor(b, s, u)
    ensures RowIds(a) == RowIds(b)
    ensures ComputeStats(a) == ComputeStats(b)
  {
    assert RowIds(a) == RowIds(b) by {
      forall m | m in RowIds(a) ensures m in RowIds(b) {
        var j :| 0 <= j < |a| && a[j].id == m;
        assert Mirrors(a[j], s);
      }
      forall m | m in RowIds(b) ensures m in RowIds(a) {
        var j :| 0 <= j < |b| && b[j].id == m;
        assert Mirrors(b[j], s);
      }
    }
    CountByIds(a, s, COMPLETED);
    CountByIds(b, s, COMPLETED);
    CountByIds(a, s, SCHEDULED);
    CountByIds(b, s, SCHEDULED);
  }

  /** The refresh after "Mark Complete": the server accepts the update, the
      refetched list is the old one with that row completed, and its stats
      show one more completed, one fewer active, the same total and 50 more XP. */
  lemma RefreshAfterComplete(s: Store, ms: seq<MatchRow>, i: nat, user: UserId)
    requires Valid(s) && Linked(s) && FetchedFor(ms, s, user)
    requires i < |ms| && user != 0 && OffersActions(ms[i], user)
    ensures var r := Matches.UpdateMatchStatus(s, ms[i].id, COMPLETED, Some(user));
            var ms' := ms[i := ms[i].(status := COMPLETED)];
            && r.Success?
            && FetchedFor(ms', r.value, user)
            && (forall f :: FetchedFor(f, r.value, user) ==> ComputeStats(f) == ComputeStats(ms'))
            && ComputeStats(ms').completedMatches == ComputeStats(ms).completedMatches + 1
            && ComputeStats(ms').activeMatches + 1 == ComputeStats(ms).activeMatches
            && ComputeStats(ms').totalMatches == ComputeStats(ms).totalMatches
            && ComputeStats(ms').totalXP == ComputeStats(ms).totalXP + 50
  {
    var r := Matches.UpdateMatchStatus(s, ms[i].id, COMPLETED, Some(user));
    assert Matches.ResolveOutcome(s, r.value, ms[i].id, COMPLETED);
    FetchedAfterResolve(s, r.value, ms, i, user, COMPLETED);
    var ms' := ms[i := ms[i].(status := COMPLETED)];
    forall f | FetchedFor(f, r.value, user) ensures ComputeStats(f) == ComputeStats(ms') {
      FetchedStatsUnique(f, ms', r.value, user);
    }
    StatsAfterComplete(ms, i);
  }

  /** The refresh after the cancel button: the server accepts the update, the
      refetched list is the old one with that row canceled, and its stats show
      one fewer active, the same completed count and total, and 50 less XP. */
  lemma RefreshAfterCancel(s: Store, ms: seq<MatchRow>, i: nat, user: UserId)
    requires Valid(s) && Linked(s) && FetchedFor(ms, s, user)
    requires i < |ms| && user != 0 && OffersActions(ms[i], user)
    ensures var r := Matches.UpdateMatchStatus(s, ms[i].id, CANCELED, Some(user));
            var ms' := ms[i := ms[i].(status := CANCELED)];
            && r.Success?
            && FetchedFor(ms', r.value, user)
            && (forall f :: FetchedFor(f, r.value, user) ==> ComputeStats(f) == ComputeStats(ms'))
            && ComputeStats(ms').completedMatches == ComputeStats(ms).completedMatches
            && ComputeStats(ms').activeMatches + 1 == ComputeStats(ms).activeMatches
            && ComputeStats(ms').totalMatches == ComputeStats(ms).totalMatches
            && ComputeStats(ms').totalXP + 50 == ComputeStats(ms).totalXP
  {
    var r := Matches.UpdateMatchStatus(s, ms[i].id, CANCELED, Some(user));
    assert Matches.ResolveOutcome(s, r.value, ms[i].id, CANCELED);
    FetchedAfterResolve(s, r.value, ms, i, user, CANCELED);
    var ms' := ms[i := ms[i].(status := CANCELED)];
    forall f | FetchedFor(f, r.value, user) ensures ComputeStats(f) == ComputeStats(ms') {
      FetchedStatsUnique(f, ms', r.value, user);
    }
    StatsAfterCancel(ms, i);
  }

  datatype Tone = Blue | Green | Red
  datatype Icon = TargetIcon | CheckIcon | CrossIcon

  /** `getStatusColor`: scheduled blue, completed green, anything else red. */
  function StatusColor(status: Status): Tone {
    if status == SCHEDULED then Blue
    else if status == COMPLETED then Green
    else Red
  }

  /** `getStatusIcon`: target, check, and a cross for anything else. */
  function StatusIcon(status: Status): Icon {
    if status == SCHEDULED then TargetIcon
    else if status == COMPLETED then CheckIcon
    else CrossIcon
  }

  /** The two switches agree, and only scheduled and completed escape the red
      default; canceled, like every unknown string, falls to it. */
  lemma StatusStyleAgreement(status: Status)
    ensures StatusColor(status) == Blue <==> StatusIcon(status) == TargetIcon
    ensures StatusColor(status) == Green <==> StatusIcon(status) == CheckIcon
    ensures StatusColor(status) == Red <==> StatusIcon(status) == CrossIcon
    ensures StatusColor(status) == Red <==> status != SCHEDULED && status != COMPLETED
    ensures StatusColor(CANCELED) == Red
  {
  }
}
