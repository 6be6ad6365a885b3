/**
  Every admission's fate is reported by its deadline: the first poll window that opens after it
  leaves the admission settled.
 */
module SettledByDeadline {
  import opened AdmissionLife
  import opened DeliveryOrder
  import opened Hub
  import opened HubSafety
  import opened Machine
  import opened SweepBound
  import opened Tallies
  import opened Wrappers

  /**
    After any run that ends with a poll window, an admission whose deadline lies at or before the opening of
    that window is not pending, and was settled by exactly one report.
   */
  lemma OverdueAdmissionIsSettled(w: Oracle, steps: seq<Step>, pulled: Option<seq<PolledCommand>>, ticket: nat)
    requires ClockNeverGoesBack(w)
    requires var before, log := Run(w, INITIAL, steps), Run(w, INITIAL, steps + [PollWindow(pulled)]).log;
      ticket < |log| && log[ticket].Admitted? && 0 < log[ticket].command.expiresAt <= w.clock(before.tick)
    ensures var after := Run(w, INITIAL, steps + [PollWindow(pulled)]);
      && NotPending(after.pending, ticket)
      && Tally(Settlement, after.log, Admission(ticket)) == 1
      && exists i: nat :: SettlesAdmission(after.log, i, ticket)
  {
    var before, after := Run(w, INITIAL, steps), Run(w, INITIAL, steps + [PollWindow(pulled)]);
    RunSnoc(w, INITIAL, steps, PollWindow(pulled));
    PollLeavesNothingOverdue(w, before, pulled);
    NoCommandVanishes(w, steps + [PollWindow(pulled)], ticket);
    DeliveredInOrder(w, steps + [PollWindow(pulled)]);
    forall k | 0 <= k < |after.pending| ensures after.pending[k].ticket != ticket {
      assert EntryFaithful(after.log, after.pending[k]);
    }
    PendingCountMembers(after.pending, Admission(ticket));
  }
}
