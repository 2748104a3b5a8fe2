/**
 * The cancellation flag is written by the GUI thread and read by the sync
 * engine at fixed poll points. Whenever the write lands, the polls that
 * follow it read true and the ones before it read false, so a run's view of
 * the flag is fully described by the index of the first poll that sees it.
 */
module Cancellation {

  /** Before which poll (counted from 0 within one run) the request lands, if ever. */
  datatype Schedule = Never | BeforePoll(k: nat)

  /** Whether poll number `poll` reads the flag as set. */
  predicate Observed(s: Schedule, poll: nat) {
    s.BeforePoll? && s.k <= poll
  }

  /** No poll numbered below `n` reads the flag as set. */
  predicate QuietBefore(s: Schedule, n: nat) {
    !(s.BeforePoll? && s.k < n)
  }

  /** The schedule a run sees when the flag may already be set when it starts. */
  function Effective(alreadySet: bool, s: Schedule): (e: Schedule)
    ensures alreadySet ==> forall i :: Observed(e, i)
    ensures !alreadySet ==> e == s
  {
    if alreadySet then BeforePoll(0) else s
  }
}
