/**
  No command vanishes unreported: what was admitted is still pending or has been reported on.
 */
module Conservation {
  import opened Hub
  import opened Machine
  import opened Tallies

  /** Admissions = entries still pending + acknowledgements that settled one. */
  predicate Balanced(s: State, of: Subject) {
    Tally(Entry, s.log, of) == PendingCount(s.pending, of) + Tally(Settlement, s.log, of)
  }

  lemma MoveKeepsBalance(w: Oracle, s: State, m: Move, of: Subject)
    requires Balanced(s, of)
    ensures Balanced(Apply(w, s, m), of)
  {
    match m
    case JudgeMove(k) =>
      JudgeTally(w, s, Entry, k, of);
      JudgeTally(w, s, Settlement, k, of);
    case OfferMove(c) =>
      OfferTally(w, s, Entry, c, of);
      OfferTally(w, s, Settlement, c, of);
    case HearMove(probe, result) =>
      HearTally(w, s, Entry, probe, result, of);
      HearTally(w, s, Settlement, probe, result, of);
    case SendMove(probe, radio) =>
      SendTally(w, s, Entry, probe, radio, of);
      SendTally(w, s, Settlement, probe, radio, of);
    case CompleteMove(probe, outcome) =>
      CompleteTally(w, s, Entry, probe, outcome, of);
      CompleteTally(w, s, Settlement, probe, outcome, of);
  }
}
