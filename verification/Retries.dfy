/**
  The retry rule of an exchange (src/service/link.rs, `exchange`) in closed
  form: when an attempt is followed by another, and what the caller gets, told
  by counts over the attempts made so far.  Both directions.
 */
module Retries {
  import opened Basics
  import opened Wire
  import opened Decoder
  import opened Operation
  import opened Exchange

  /** Attempt `k` is followed by another: the clock allows it and its budget is not spent. */
  ghost predicate GoesOn(history: seq<Report>, k: nat, p: RetryPolicy, limit: nat)
    requires k < |history|
  {
    var a, made := history[k], history[..k + 1];
    && !a.expired
    && (|| (IsBusy(a.reply) && !a.waitRefused && Replies(made, IsBusy) <= p.busyRetries)
        || (IsDelayed(a.reply) && !a.waitRefused && Replies(made, IsDelayed) <= p.delayedResponsePolls)
        || (IsSilent(a.reply) && Replies(made, IsSilent) <= limit))
  }

  /** What the caller gets after the last attempt. */
  ghost predicate EndsWith(history: seq<Report>, result: Reply, p: RetryPolicy, limit: nat)
    requires history != []
  {
    var reply := history[|history| - 1].reply;
    if IsBusy(reply) then
      result == Err(if Replies(history, IsBusy) > p.busyRetries then Busy(reply.value.responseCode) else Deadline)
    else if IsDelayed(reply) then
      result == Err(if Replies(history, IsDelayed) > p.delayedResponsePolls then DelayedResponse(reply.value.responseCode) else Deadline)
    else if IsSilent(reply) then
      result == Err(if Replies(history, IsSilent) > limit then ResponseTimeout else Deadline)
    else result == reply
  }

  /** The budgets spent are the replies of each kind so far. */
  ghost predicate Spent(done: seq<Report>, u: Used) {
    && u.transport == Replies(done, IsSilent) && u.busy == Replies(done, IsBusy) && u.polls == Replies(done, IsDelayed)
  }

  lemma {:induction false} RepliesLast(done: seq<Report>, a: Report, p: Reply -> bool)
    ensures Replies(done + [a], p) == Replies(done, p) + if p(a.reply) then 1 else 0
  {
    if done == [] {
      assert [a][1..] == [] && done + [a] == [a];
    } else {
      RepliesLast(done[1..], a, p);
      assert (done + [a])[1..] == done[1..] + [a];
    }
  }

  /** One decision of the loop, by the counts. */
  lemma DecidedByCounts(done: seq<Report>, a: Report, p: RetryPolicy, limit: nat, u: Used)
    requires Spent(done, u)
    ensures var history := done + [a];
      var d := Decide(a, p, limit, u);
      && (d.Again? <==> GoesOn(history, |done|, p, limit))
      && (d.Again? ==> Spent(history, d.used))
      && (d.Stop? ==> EndsWith(history, d.reply, p, limit))
  {
    hide Replies;
    RepliesLast(done, a, IsSilent);
    RepliesLast(done, a, IsBusy);
    RepliesLast(done, a, IsDelayed);
    assert (done + [a])[..|done| + 1] == done + [a];
  }

  /** Every attempt from the n-th on, but for the last, goes on; the last one does not. */
  ghost predicate GoesOnUntilLast(history: seq<Report>, n: nat, p: RetryPolicy, limit: nat)
    requires history != []
  {
    && (forall k :: n <= k < |history| - 1 ==> GoesOn(history, k, p, limit))
    && !GoesOn(history, |history| - 1, p, limit)
  }

  lemma OneEarlier(history: seq<Report>, n: nat, p: RetryPolicy, limit: nat)
    requires n < |history|
    ensures n < |history| - 1 ==>
      (GoesOnUntilLast(history, n, p, limit) <==> GoesOn(history, n, p, limit) && GoesOnUntilLast(history, n + 1, p, limit))
    ensures n == |history| - 1 ==> (GoesOnUntilLast(history, n, p, limit) <==> !GoesOn(history, n, p, limit))
  {
    hide GoesOn;
  }

  /** The rest of a complete run, by the counts over all of it. */
  lemma {:induction false} TrailByCounts(done: seq<Report>, rest: seq<Report>, result: Reply, p: RetryPolicy, limit: nat, u: Used)
    requires Spent(done, u)
    ensures var history := done + rest;
      Trail(rest, result, p, limit, u) <==>
        rest != [] && GoesOnUntilLast(history, |done|, p, limit) && EndsWith(history, result, p, limit)
    decreases |rest|
  {
    hide Spent, GoesOn, GoesOnUntilLast, EndsWith, Decide;
    if rest != [] {
      var a, n := rest[0], |done|;
      var history := done + rest;
      DecidedByCounts(done, a, p, limit, u);
      SameStart(done, rest, p, limit);
      OneEarlier(history, n, p, limit);
      var d := Decide(a, p, limit, u);
      if d.Again? {
        TrailByCounts(done + [a], rest[1..], result, p, limit, d.used);
        assert done + [a] + rest[1..] == history;
      } else if |rest| == 1 {
        assert history == done + [a];
        OnlyEnding(history, result, d.reply, p, limit);
      }
    }
  }

  lemma SameStart(done: seq<Report>, rest: seq<Report>, p: RetryPolicy, limit: nat)
    requires rest != []
    ensures GoesOn(done + rest, |done|, p, limit) == GoesOn(done + [rest[0]], |done|, p, limit)
  {
    hide GoesOn;
    assert (done + rest)[..|done| + 1] == (done + [rest[0]])[..|done| + 1];
    SameUpTo(done + rest, done + [rest[0]], |done|, p, limit);
  }

  lemma OnlyEnding(history: seq<Report>, x: Reply, y: Reply, p: RetryPolicy, limit: nat)
    requires history != [] && EndsWith(history, y, p, limit)
    ensures EndsWith(history, x, p, limit) <==> x == y
  {
    hide Replies;
  }

  /** Whether attempt `k` is followed by another depends on the attempts up to it. */
  lemma SameUpTo(a: seq<Report>, b: seq<Report>, k: nat, p: RetryPolicy, limit: nat)
    requires k < |a| && k < |b| && a[..k + 1] == b[..k + 1]
    ensures GoesOn(a, k, p, limit) == GoesOn(b, k, p, limit)
  {
    hide Replies;
    assert a[k] == a[..k + 1][k] && b[k] == b[..k + 1][k];
  }

  /**
    The retry rule, exactly: the attempts of an exchange are a complete run that
    ends with `result` if and only if every attempt but the last one goes on, the
    last one does not, and `result` is what its reply and the counts call for.
   */
  lemma RetriesExact(history: seq<Report>, result: Reply, p: RetryPolicy, limit: nat)
    ensures Trail(history, result, p, limit, Used(0, 0, 0)) <==>
      && history != []
      && (forall k :: 0 <= k < |history| - 1 ==> GoesOn(history, k, p, limit))
      && !GoesOn(history, |history| - 1, p, limit) && EndsWith(history, result, p, limit)
  {
    hide GoesOn, EndsWith, Trail;
    assert history != [] ==> (GoesOnUntilLast(history, 0, p, limit) <==>
      (forall k :: 0 <= k < |history| - 1 ==> GoesOn(history, k, p, limit)) && !GoesOn(history, |history| - 1, p, limit));
    TrailByCounts([], history, result, p, limit, Used(0, 0, 0));
    assert [] + history == history;
  }

  /** What the first `n` attempts bring. */
  ghost function Reports(buffer: seq<byte>, w: World, f: Frame, l: DecodeLimits, n: nat): seq<Report> {
    seq(n, k requires 0 <= k < n => ReportAt(buffer, w, f, l, k))
  }

  /**
    The exchange is determined: if the first `n` attempts go on and attempt `n`
    does not, then exactly `n + 1` attempts are made and the caller gets what the
    last one calls for.  In particular a reply that is neither busy nor delayed
    is returned, however many silent, busy and delayed attempts within their
    budgets came before it.
   */
  lemma ExchangeDetermined(history: seq<Report>, result: Reply, p: RetryPolicy, limit: nat, n: nat,
                           buffer: seq<byte>, w: World, f: Frame, l: DecodeLimits)
    requires Trail(history, result, p, limit, Used(0, 0, 0))
    requires forall k :: 0 <= k < |history| ==> history[k] == ReportAt(buffer, w, f, l, k)
    requires var made := Reports(buffer, w, f, l, n + 1);
      (forall k :: 0 <= k < n ==> GoesOn(made, k, p, limit)) && !GoesOn(made, n, p, limit)
    ensures history == Reports(buffer, w, f, l, n + 1) && EndsWith(history, result, p, limit)
    ensures var reply := ReportAt(buffer, w, f, l, n).reply;
      reply.Ok? && reply.value.responseCode !in {32, 33, 34} ==> result == reply
  {
    hide GoesOn, ReportAt, Trail;
    RetriesExact(history, result, p, limit);
    var made := Reports(buffer, w, f, l, n + 1);
    var m := |history| - 1;
    if m < n {
      assert history[..m + 1] == made[..m + 1];
      SameUpTo(history, made, m, p, limit);
    } else if n < m {
      assert history[..n + 1] == made[..n + 1];
      SameUpTo(history, made, n, p, limit);
    }
    assert history == made;
    assert history[n] == ReportAt(buffer, w, f, l, n);
  }

  /** A run of pushes in two parts. */
  lemma {:induction false} PushedInParts(buffer: seq<byte>, a: seq<seq<byte>>, b: seq<seq<byte>>, l: DecodeLimits)
    ensures var first := PushAll(buffer, a, l);
      var second := PushAll(first.rest, b, l);
      PushAll(buffer, a + b, l).events == first.events + second.events && PushAll(buffer, a + b, l).rest == second.rest
    decreases |a|
  {
    hide PushOne;
    if a == [] {
      assert a + b == b;
    } else {
      PushedInParts(PushOne(buffer, a[0], l).rest, a[1..], b, l);
      assert (a + b)[0] == a[0] && (a + b)[1..] == a[1..] + b;
    }
  }

  /**
    What one attempt has heard is not lost to the next: a reply that arrives
    partly before and partly after a repetition is heard, as if all of it had
    arrived in one wait.
   */
  lemma HeardAcrossAttempts(buffer: seq<byte>, a: seq<seq<byte>>, b: seq<seq<byte>>, f: Frame, l: DecodeLimits)
    requires forall i :: 0 <= i < |a| ==> a[i] != []
    requires forall i :: 0 <= i < |b| ==> b[i] != []
    requires FirstMatch(PushAll(buffer, a, l).events, f).None?
    ensures var first := Attempted(buffer, Attempt(Sent, AsReads(a) + [ReadTimedOut]), f, l);
      var second := Attempted(first.buffer, Attempt(Sent, AsReads(b) + [ReadTimedOut]), f, l);
      var found := FirstMatch(PushAll(buffer, a + b, l).events, f);
      && IsSilent(first.reply)
      && second.reply == if found.Some? then Ok(found.value) else Err(ResponseTimeout)
  {
    hide PushAll, FirstMatch, Listen;
    assert AsReads(a) + [ReadTimedOut] + [] == AsReads(a) + [ReadTimedOut];
    assert AsReads(b) + [ReadTimedOut] + [] == AsReads(b) + [ReadTimedOut];
    ListenEnds(buffer, a, ReadTimedOut, [], f, l);
    var rest := PushAll(buffer, a, l).rest;
    ListenEnds(rest, b, ReadTimedOut, [], f, l);
    PushedInParts(buffer, a, b, l);
    FirstMatchAppend(PushAll(buffer, a, l).events, PushAll(rest, b, l).events, f);
  }

  /** Which requests are repeated after silence at all. */
  lemma RepeatedAfterSilence(r: Request, p: RetryPolicy, catalog: CommandCode -> Option<Safety>)
    ensures var limit := TransportLimit(p, ResolvedSafety(r, catalog));
      if r.retrySafety == Some(Action) || (r.retrySafety.None? && (catalog(r.command).None? || catalog(r.command) == Some(Action)))
      then limit == 0
      else limit == p.transportRetries
  {}
}
