/**
 `sync_stalled`: one step of the stall tracker. The reader thread keeps the last best
 number seen (`u32`) and how many matched lines in a row repeated it (`u8`); each stderr
 line may update both in place and, when the `best_number` pattern matches, report the
 updated pair to a logger callback.
 */
module Tracker {
  import opened BestNumber

  type u8 = x: int | 0 <= x <= 0xFF

  /** The two variables `sync_stalled` receives by `&mut`. */
  datatype State = State(best: u32, idle: u8)

  /** Why a step panics: `parse().unwrap()` on a number past `u32::MAX`, or `idle_times += 1` past `u8::MAX`. */
  datatype Panic = ParseOverflow | IdleOverflow

  /** What one call of `sync_stalled` does. */
  datatype Outcome =
    | Unmatched                 // no match: nothing changes, the logger is not called
    | Logged(next: State)       // match: the new state, which is also what the logger receives
    | Panicked(reason: Panic)   // the call panics before the logger runs

  /** The step `sync_stalled` performs on state `st` for line `log`. */
  function Observe(st: State, log: string): Outcome {
    match Capture(log)
    case None => Unmatched
    case Some(digits) =>
      match ParseU32(digits)
      case None => Panicked(ParseOverflow)
      case Some(n) =>
        if n == st.best then
          if st.idle == 0xFF then Panicked(IdleOverflow) else Logged(State(st.best, st.idle + 1))
        else Logged(State(n, 0))
  }

  /** The state after a step that did not panic. */
  function After(st: State, o: Outcome): State
    requires !o.Panicked?
  {
    if o.Logged? then o.next else st
  }

  /**
   What one step does to the state, case by case: a line the pattern does not match
   changes nothing; a captured number past `u32::MAX` panics, it is never wrapped or
   ignored; the same number again counts one more idle line; a different number is
   remembered and the count starts afresh.
   */
  lemma ObserveCases(st: State, log: string)
    ensures Capture(log).None? ==> Observe(st, log) == Unmatched
    ensures Capture(log).Some? ==>
              (Observe(st, log) == Panicked(ParseOverflow) <==> DecimalValue(Capture(log).value) > U32_MAX)
    ensures Capture(log).Some? && DecimalValue(Capture(log).value) == st.best ==>
              Observe(st, log) == if st.idle < 0xFF then Logged(State(st.best, st.idle + 1))
                                  else Panicked(IdleOverflow)
    ensures Capture(log).Some? && DecimalValue(Capture(log).value) <= U32_MAX
            && DecimalValue(Capture(log).value) != st.best ==>
              Observe(st, log) == Logged(State(DecimalValue(Capture(log).value), 0))
  {
    if Capture(log).Some? {
      ParseU32Value(Capture(log).value);
    }
  }

  /**
   `sync_stalled(log, &mut previous, &mut idle, logger)`: the two `&mut` become in and
   out parameters, and `logged` is the pair handed to the logger, `None` when it is not
   called. `panic` is set when the call panics; the other outputs then carry no meaning.
   */
  method SyncStalled(log: string, previous: u32, idle: u8)
    returns (newPrevious: u32, newIdle: u8, logged: Option<State>, panic: Option<Panic>)
    // the call panics exactly when the step says so, and for the same reason
    ensures Observe(State(previous, idle), log).Panicked? <==> panic.Some?
    ensures panic.Some? ==> Observe(State(previous, idle), log) == Panicked(panic.value)
    // otherwise the two variables hold the state after the step
    ensures panic.None? ==>
              State(newPrevious, newIdle) == After(State(previous, idle), Observe(State(previous, idle), log))
    // the logger runs exactly on a match that did not panic, with the updated pair
    ensures logged.Some? <==> Capture(log).Some? && panic.None?
    ensures logged.Some? ==> logged.value == State(newPrevious, newIdle)
  {
    newPrevious, newIdle, logged, panic := previous, idle, None, None;
    var captures := Capture(log);
    if captures.Some? {
      var parsed := ParseU32(captures.value);
      if parsed.None? {
        panic := Some(ParseOverflow);
        return;
      }
      var bestNumber := parsed.value;
      if newPrevious == bestNumber {
        if newIdle == 0xFF {
          panic := Some(IdleOverflow);
          return;
        }
        newIdle := newIdle + 1;
      } else {
        newPrevious := bestNumber;
        newIdle := 0;
      }
      logged := Some(State(newPrevious, newIdle));
    }
  }
}
