/**
 The reader thread of `run`: it walks the child's stderr line by line from the state
 (best number 0, idle times 0), calls `sync_stalled` on each line, and as soon as the
 idle count exceeds 3 sends the stall signal 255 on the channel and stops without
 echoing that line; every other line is echoed to stdout.
 */
module Reader {
  import opened BestNumber
  import opened Tracker

  /** Tracker state after a run of steps, or the panic that ended them. */
  datatype Tracked = Tracking(st: State) | Crashed(reason: Panic)

  /** How the loop over the lines ends. */
  datatype Exit =
    | StreamClosed               // every line was read and echoed
    | Stalled                    // 255 was sent and the loop broke out
    | ThreadPanicked(reason: Panic)

  /** Stall signal the thread sends on the channel. */
  const STALL_SIGNAL: int := 255

  /** The loop breaks once the idle count exceeds this. */
  const IDLE_LIMIT: int := 3

  /** The tracker after `sync_stalled` has seen every line of `lines`, starting from `(0, 0)`. */
  function StateAfter(lines: seq<string>): Tracked {
    if lines == [] then Tracking(State(0, 0))
    else
      match StateAfter(lines[..|lines| - 1])
      case Crashed(p) => Crashed(p)
      case Tracking(st) =>
        var o := Observe(st, lines[|lines| - 1]);
        if o.Panicked? then Crashed(o.reason) else Tracking(After(st, o))
  }

  /** One more line: `StateAfter` on a prefix one line longer. */
  lemma StateAfterStep(lines: seq<string>, i: nat, st: State)
    requires i < |lines| && StateAfter(lines[..i]) == Tracking(st)
    ensures var o := Observe(st, lines[i]);
            StateAfter(lines[..i + 1]) == if o.Panicked? then Crashed(o.reason) else Tracking(After(st, o))
  {
    assert lines[..i + 1][..i] == lines[..i];
  }

  /** The numbers carried by the lines the pattern matches, in order. */
  function Values(lines: seq<string>): seq<nat> {
    if lines == [] then []
    else
      var earlier := Values(lines[..|lines| - 1]);
      match Capture(lines[|lines| - 1])
      case None => earlier
      case Some(digits) => earlier + [DecimalValue(digits)]
  }

  /** Length of the longest suffix of `vs` whose elements all equal its last one. */
  function Streak(vs: seq<int>): (r: nat)
    ensures vs == [] ==> r == 0
    ensures vs != [] ==> 1 <= r <= |vs|
    ensures forall k :: |vs| - r <= k < |vs| ==> vs[k] == vs[|vs| - 1]
    ensures r < |vs| ==> vs[|vs| - 1 - r] != vs[|vs| - 1]
  {
    if |vs| <= 1 then |vs|
    else if vs[|vs| - 2] != vs[|vs| - 1] then 1
    else Streak(vs[..|vs| - 1]) + 1
  }

  /**
   The tracker state is the current value and how often it has been seen since it was
   last set: the initial 0 counts as one sighting, so the idle count is the length of the
   final run of equal values in `[0] + Values(lines)`, minus one. Unmatched lines in
   between do not break a run.
   */
  lemma {:induction false} StateIsStreak(lines: seq<string>)
    requires StateAfter(lines).Tracking?
    ensures var h := [0] + Values(lines);
            StateAfter(lines).st.best == h[|h| - 1] && StateAfter(lines).st.idle == Streak(h) - 1
  {
    if lines != [] {
      var earlier := lines[..|lines| - 1];
      var log := lines[|lines| - 1];
      StateIsStreak(earlier);
      var st := StateAfter(earlier).st;
      var h := [0] + Values(earlier);
      match Capture(log)
      case None =>
        assert Values(lines) == Values(earlier);
      case Some(digits) =>
        ParseU32Value(digits);
        var n := DecimalValue(digits);
        assert Values(lines) == Values(earlier) + [n];
        var h' := [0] + Values(lines);
        assert h' == h + [n];
        assert h'[..|h'| - 1] == h;
    }
  }

  /** Stall criterion in terms of sightings: idle count above 3 means at least five. */
  lemma StalledIffFiveSightings(lines: seq<string>)
    requires StateAfter(lines).Tracking?
    ensures StateAfter(lines).st.idle > IDLE_LIMIT <==> Streak([0] + Values(lines)) >= 5
  {
    StateIsStreak(lines);
  }

  function Repeat(log: string, k: nat): (r: seq<string>)
    ensures |r| == k && forall j :: 0 <= j < k ==> r[j] == log
  {
    seq(k, _ => log)
  }

  /**
   A run of `k` equal matching lines from a fresh start: a nonzero number is set by the
   first line and counted idle by the other `k - 1`; the number 0 equals the initial
   best number, so every one of the `k` lines counts idle.
   */
  lemma {:induction false} RepeatedNumber(log: string, k: nat)
    requires Capture(log).Some? && DecimalValue(Capture(log).value) <= U32_MAX
    requires 1 <= k <= 0xFF
    ensures var v := DecimalValue(Capture(log).value);
            StateAfter(Repeat(log, k)) == Tracking(if v == 0 then State(0, k) else State(v, k - 1))
  {
    var lines := Repeat(log, k);
    var v := DecimalValue(Capture(log).value);
    assert lines[..k - 1] == Repeat(log, k - 1);
    var st := if k == 1 then State(0, 0) else if v == 0 then State(0, k - 1) else State(v, k - 2);
    if k > 1 {
      RepeatedNumber(log, k - 1);
    }
    ObserveCases(st, log);
    StateAfterStep(lines, k - 1, st);
    assert lines[..k] == lines;
  }

  /** None of the first `n` prefixes of `lines` ended in a panic or left the idle count above 3. */
  ghost predicate NoStallBefore(lines: seq<string>, n: nat)
    requires n <= |lines| + 1
  {
    forall j :: 0 <= j < n ==>
      StateAfter(lines[..j]).Tracking? && StateAfter(lines[..j]).st.idle <= IDLE_LIMIT
  }

  /** What the loop learns from one call of `sync_stalled` on line `i`. */
  lemma Advance(lines: seq<string>, i: nat, st: State, o: Outcome)
    requires i < |lines| && NoStallBefore(lines, i + 1)
    requires StateAfter(lines[..i]) == Tracking(st) && o == Observe(st, lines[i])
    ensures o.Panicked? ==>
              o.reason == ParseOverflow && StateAfter(lines[..i + 1]) == Crashed(o.reason)
    ensures !o.Panicked? ==> StateAfter(lines[..i + 1]) == Tracking(After(st, o))
    ensures !o.Panicked? && After(st, o).idle <= IDLE_LIMIT ==> NoStallBefore(lines, i + 2)
    ensures !o.Panicked? && After(st, o).idle > IDLE_LIMIT ==>
              After(st, o).idle == IDLE_LIMIT + 1 && Streak([0] + Values(lines[..i + 1])) == 5
  {
    StateAfterStep(lines, i, st);
    if !o.Panicked? {
      StateIsStreak(lines[..i + 1]);
    }
  }

  /** No prefix whose state kept the idle count at most 3 has seen one value five times. */
  lemma SightingsBeforeStall(lines: seq<string>, consumed: nat)
    requires consumed <= |lines| && NoStallBefore(lines, consumed)
    ensures forall j :: 0 <= j < consumed ==> Streak([0] + Values(lines[..j])) <= 4
  {
    forall j | 0 <= j < consumed
      ensures Streak([0] + Values(lines[..j])) <= 4
    {
      StalledIffFiveSightings(lines[..j]);
    }
  }

  /**
   The reader-thread loop over the lines of the child's stderr. It returns the lines
   echoed to stdout, what it sent on the channel, how it ended and how many lines it took
   from the stream.
   */
  method ReadLoop(lines: seq<string>)
    returns (echoed: seq<string>, sent: seq<int>, exit: Exit, consumed: nat)
    ensures consumed <= |lines|
    // what is echoed is the input in order, up to the line that ended the loop
    ensures |echoed| <= |lines| && echoed == lines[..|echoed|]
    // every line before the last one consumed left the idle count at most 3
    ensures NoStallBefore(lines, consumed)
    ensures exit == StreamClosed ==>
              && consumed == |lines| && echoed == lines && sent == []
              && StateAfter(lines).Tracking? && StateAfter(lines).st.idle <= IDLE_LIMIT
    // the stall line is not echoed, 255 is sent once, and no later line is read
    ensures exit == Stalled ==>
              && 1 <= consumed && echoed == lines[..consumed - 1] && sent == [STALL_SIGNAL]
              && StateAfter(lines[..consumed]).Tracking?
              && StateAfter(lines[..consumed]).st.idle == IDLE_LIMIT + 1
    ensures exit.ThreadPanicked? ==>
              && 1 <= consumed && echoed == lines[..consumed - 1] && sent == []
              && StateAfter(lines[..consumed]) == Crashed(exit.reason)
    // the u8 increment never overflows inside this loop
    ensures exit != ThreadPanicked(IdleOverflow)
    // stall in terms of sightings of one value since it was last set
    ensures forall j :: 0 <= j < consumed ==> Streak([0] + Values(lines[..j])) <= 4
    ensures exit == Stalled ==> Streak([0] + Values(lines[..consumed])) == 5
  {
    var bestNumber: u32, idleTimes: u8 := 0, 0;
    echoed, sent, exit := [], [], StreamClosed;
    var i := 0;
    while i < |lines|
      invariant i <= |lines|
      invariant echoed == lines[..i]
      invariant StateAfter(lines[..i]) == Tracking(State(bestNumber, idleTimes))
      invariant idleTimes <= IDLE_LIMIT
      invariant NoStallBefore(lines, i + 1)
      invariant exit == StreamClosed && sent == []
    {
      var log := lines[i];
      var newBest, newIdle, logged, panic := SyncStalled(log, bestNumber, idleTimes);
      Advance(lines, i, State(bestNumber, idleTimes), Observe(State(bestNumber, idleTimes), log));
      if panic.Some? {
        exit := ThreadPanicked(panic.value);
        break;
      }
      bestNumber, idleTimes := newBest, newIdle;
      if idleTimes > IDLE_LIMIT {
        sent := sent + [STALL_SIGNAL];
        exit := Stalled;
        break;
      }
      echoed := echoed + [log];
      i := i + 1;
    }
    consumed := if exit == StreamClosed then i else i + 1;
    assert lines[..|lines|] == lines;
    SightingsBeforeStall(lines, consumed);
  }
}
