/**
  The time-to-live sweep at the head of every poll window.
 */
module SweepBound {
  import opened Hub
  import opened Machine
  import opened Wrappers

  /** The entries that are live at their own clock read. */
  function KeepLive(w: Oracle, p: seq<PendingMotorCommand>, ticks: seq<nat>): seq<PendingMotorCommand>
    requires |ticks| == |p|
  {
    if p == [] then []
    else (if IsExpired(p[0].expiresAtEpochMs, w.clock(ticks[0])) then [] else [p[0]]) + KeepLive(w, p[1..], ticks[1..])
  }

  predicate TicksWithin(ticks: seq<nat>, from: nat, to: nat) {
    && (forall i :: 0 <= i < |ticks| ==> from <= ticks[i] < to)
    && (forall i, j :: 0 <= i < j < |ticks| ==> ticks[i] < ticks[j])
  }

  lemma KeepLiveNext(w: Oracle, p: seq<PendingMotorCommand>, tick: nat, rest: seq<nat>)
    requires p != [] && |rest| == |p| - 1
    ensures KeepLive(w, p, [tick] + rest)
         == (if IsExpired(p[0].expiresAtEpochMs, w.clock(tick)) then [] else [p[0]]) + KeepLive(w, p[1..], rest)
  {
    assert ([tick] + rest)[1..] == rest;
  }

  lemma ExtendTicks(rest: seq<nat>, tick: nat, from: nat, to: nat)
    requires TicksWithin(rest, from, to) && tick < from <= to
    ensures TicksWithin([tick] + rest, tick, to)
  {
  }

  lemma Splice(p: seq<PendingMotorCommand>, k: nat, tail: seq<PendingMotorCommand>)
    requires k < |p|
    ensures p[k..] != [] && p[k..][0] == p[k] && p[k..][1..] == p[k + 1..]
    ensures Without(p, k)[..k] == p[..k] && Without(p, k)[k..] == p[k + 1..]
    ensures p[..k + 1] + tail == p[..k] + ([p[k]] + tail)
    ensures p[..k] + tail == p[..k] + ([] + tail)
  {
  }

  /** The sweep keeps, in order, exactly the entries that are live when their turn comes. */
  lemma {:induction false} SweepKeepsLiveFrom(w: Oracle, s: State, k: nat) returns (ticks: seq<nat>)
    requires k <= |s.pending|
    ensures s.tick <= Sweep(w, s, k).tick
    ensures TicksWithin(ticks, s.tick, Sweep(w, s, k).tick) && |ticks| == |s.pending| - k
    ensures Sweep(w, s, k).pending == s.pending[..k] + KeepLive(w, s.pending[k..], ticks)
    decreases |s.pending| - k
  {
    ticks := [];
    var p := s.pending;
    if k == |p| {
      assert p[..k] + [] == p;
    } else {
      var t := Judge(w, s, k);
      var dropped := IsExpired(p[k].expiresAtEpochMs, w.clock(s.tick));
      var rest := SweepKeepsLiveFrom(w, t, if dropped then k else k + 1);
      ticks := [s.tick] + rest;
      ExtendTicks(rest, s.tick, t.tick, Sweep(w, s, k).tick);
      var tail := KeepLive(w, p[k + 1..], rest);
      Splice(p, k, tail);
      KeepLiveNext(w, p[k..], s.tick, rest);
      assert Sweep(w, s, k).pending == if dropped then p[..k] + tail else p[..k + 1] + tail;
    }
  }

  lemma {:induction false} KeepLiveMembers(w: Oracle, p: seq<PendingMotorCommand>, ticks: seq<nat>, i: nat)
    requires |ticks| == |p| && i < |p| && !IsExpired(p[i].expiresAtEpochMs, w.clock(ticks[i]))
    ensures p[i] in KeepLive(w, p, ticks)
    decreases i
  {
    if i > 0 {
      KeepLiveMembers(w, p[1..], ticks[1..], i - 1);
    }
  }

  lemma {:induction false} KeepLiveOnlyLive(w: Oracle, p: seq<PendingMotorCommand>, ticks: seq<nat>, start: EpochMs)
    requires |ticks| == |p| && forall i :: 0 <= i < |ticks| ==> start <= w.clock(ticks[i])
    ensures forall i :: 0 <= i < |KeepLive(w, p, ticks)| ==>
      !IsExpired(KeepLive(w, p, ticks)[i].expiresAtEpochMs, start)
    decreases |p|
  {
    if p != [] {
      KeepLiveOnlyLive(w, p[1..], ticks[1..], start);
    }
  }

  lemma OfferAppendsLive(w: Oracle, s: State, c: PolledCommand, start: EpochMs)
      returns (arrived: seq<PendingMotorCommand>)
    requires ClockNeverGoesBack(w) && start <= w.clock(s.tick)
    ensures Offer(w, s, c).pending == s.pending + arrived && s.tick <= Offer(w, s, c).tick
    ensures forall i :: 0 <= i < |arrived| ==> !IsExpired(arrived[i].expiresAtEpochMs, start)
  {
    var t := Offer(w, s, c);
    assert w.clock(s.tick) <= w.clock(s.tick + 1);
    arrived := t.pending[|s.pending|..];
    assert t.pending == s.pending || |t.pending| == |s.pending| + 1;
  }

  lemma {:induction false} OffersAppendLive(w: Oracle, s: State, cs: seq<PolledCommand>, start: EpochMs)
      returns (arrived: seq<PendingMotorCommand>)
    requires ClockNeverGoesBack(w) && start <= w.clock(s.tick)
    ensures OfferAll(w, s, cs).pending == s.pending + arrived
    ensures forall i :: 0 <= i < |arrived| ==> !IsExpired(arrived[i].expiresAtEpochMs, start)
    decreases |cs|
  {
    arrived := [];
    if cs != [] {
      var first := OfferAppendsLive(w, s, cs[0], start);
      assert w.clock(s.tick) <= w.clock(Offer(w, s, cs[0]).tick);
      var rest := OffersAppendLive(w, Offer(w, s, cs[0]), cs[1..], start);
      arrived := first + rest;
      assert (s.pending + first) + rest == s.pending + arrived;
    }
  }

  /** After a poll window, whether or not the pull failed, nothing pending was overdue when the window opened. */
  lemma PollLeavesNothingOverdue(w: Oracle, s: State, pulled: Option<seq<PolledCommand>>)
    requires ClockNeverGoesBack(w)
    ensures forall i :: 0 <= i < |PollOnce(w, s, pulled).pending| ==>
      var deadline := PollOnce(w, s, pulled).pending[i].expiresAtEpochMs;
      deadline <= 0 || deadline > w.clock(s.tick)
  {
    var swept, start := Sweep(w, s, 0), w.clock(s.tick);
    var ticks := SweepKeepsLiveFrom(w, s, 0);
    assert s.pending[0..] == s.pending;
    KeepLiveOnlyLive(w, s.pending, ticks, start);
    if pulled.Some? {
      assert start <= w.clock(swept.tick);
      var arrived := OffersAppendLive(w, swept, pulled.value, start);
    }
  }

  /** And whatever is still live when the window closes has survived it. */
  lemma LiveCommandsSurvivePoll(w: Oracle, s: State, pulled: Option<seq<PolledCommand>>, i: nat)
    requires ClockNeverGoesBack(w) && i < |s.pending|
    requires s.pending[i].expiresAtEpochMs <= 0 || s.pending[i].expiresAtEpochMs > w.clock(Sweep(w, s, 0).tick)
    ensures s.pending[i] in PollOnce(w, s, pulled).pending
  {
    var swept := Sweep(w, s, 0);
    var ticks := SweepKeepsLiveFrom(w, s, 0);
    assert s.pending[0..] == s.pending;
    assert w.clock(ticks[i]) <= w.clock(swept.tick);
    KeepLiveMembers(w, s.pending, ticks, i);
    if pulled.Some? {
      var arrived := OffersAppendLive(w, swept, pulled.value, w.clock(swept.tick));
    }
  }
}
