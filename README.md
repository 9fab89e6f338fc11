# darwinia-sync stall detector, in Dafny

darwinia-sync supervises a Darwinia node. It starts the node's boot script, reads the
node's stderr line by line and decides when syncing has stalled. This project models
that stall detector from `src/main.rs` and proves its properties. The detector has
three parts:

- **The `best_number` pattern** `.+?best.+?#(\d+)` (module `BestNumber`,
  `best_number.dfy`). It decides whether a log line carries a block height and
  extracts the height. It is written as a hand matcher over `string`, not as a regex
  engine. A line matches when it has at least one character, then `best`, then at
  least one more character, then `#` followed by a digit. Lines come from splitting
  stderr at newlines, so the regex `.` matches every character of a line. Under that
  reading the leftmost match starts at index 0. The two lazy `.+?` pick the
  lexicographically earliest (`best` position, `#` position) pair that completes the
  pattern, and the greedy `\d+` takes the whole digit run after that `#`. The capture
  is then parsed as `u32`. Rust's parse folds the digits front to back with a checked
  multiply and a checked add. The model proves that this fold gives the numeral's
  decimal value, and an error exactly when that value exceeds `u32::MAX`.
- **`sync_stalled`** (module `Tracker`, `sync_stalled.dfy`). It is one step of the
  tracker over the previous best number (`u32`) and the idle count (`u8`). The pure
  function `Observe` specifies the step. The method `SyncStalled` implements it: its
  two `&mut` parameters become in and out parameters, and the logger callback becomes
  an output that holds the pair the logger receives, or `None` when it is not called.
  `parse().unwrap()` on a number past `u32::MAX` panics, and so does the `u8`
  increment past 255; both are explicit `Panic` outcomes.
- **The reader-thread loop** of `run` (module `Reader`, `reader.dfy`). It starts from
  best number 0 and idle count 0 and calls `sync_stalled` on each line. When the idle
  count exceeds 3 it sends 255 on the channel and breaks without echoing that line.
  Otherwise it echoes the line. `ReadLoop` is a `while` loop over `seq<string>`. It is
  proved against `StateAfter`, the tracker state after a prefix of the lines. The idle
  count is characterised as the length of the final run of equal values in
  `[0] + Values(lines)`, minus one, where `Values(lines)` lists the numbers of the
  matching lines. So a stall fires on the fifth sighting of one number since it was
  last set, and the initial 0 counts as a sighting.

`scenarios.dfy` (module `Scenarios`) works through concrete lines. A fresh nonzero
number stalls on its fifth line, and `#0` stalls on its fourth.

## Model

| member | source | states |
|---|---|---|
| `BestNumber.FindBest` | src/main.rs:12 | returns the first index at or after `from` where `best` starts, with no `best` strictly between `from` and it; `None` exactly when there is no `best` from `from` on |
| `BestNumber.FindHashDigit` | src/main.rs:12 | returns the first index at or after `from` holding `#` followed by a digit, with none earlier; `None` exactly when there is none |
| `BestNumber.DigitRunEnd` | src/main.rs:12 | the greedy `\d+`: every character from `i` up to the result is a digit, and the result is the end of the line or a non-digit, so the run is maximal |
| `BestNumber.Capture` | src/main.rs:127-128 | when the pattern matches, capture group 1 is a non-empty string of digits |
| `BestNumber.CaptureIffMatches` | src/main.rs:12 | the matcher finds a capture if and only if some `best` at index 1 or later and some `#`-then-digit at least one character after that `best` complete the pattern |
| `BestNumber.CaptureIsLeftmostFirst` | src/main.rs:12 | the capture is the maximal digit run after the `#` of the lexicographically earliest completing (`best`, `#`) pair; a later `best` or `#` is used only when an earlier one cannot complete the match |
| `BestNumber.CaptureHasLeftmostFirstPair` | src/main.rs:12 | conversely, every capture comes from a lexicographically earliest completing (`best`, `#`) pair and is the maximal digit run after its `#` |
| `BestNumber.ParseFromValue` | src/main.rs:129 | `ParseFrom`, the checked front-to-back fold of digits into `acc`, yields `acc * 10^n + value` when that fits in `u32`, and an error otherwise |
| `BestNumber.ParseU32Value` | src/main.rs:129 | `ParseU32` (the model of `str::parse::<u32>`) on a captured numeral succeeds exactly when its decimal value is at most `u32::MAX`, and then yields that value, never a wrapped one |
| `Tracker.ObserveCases` | src/main.rs:127-136 | `Observe`, the step `sync_stalled` performs on the state: an unmatched line changes nothing; a number past `u32::MAX` panics; a number equal to the previous one increments the idle count, or panics at 255; a different number is stored and the idle count resets to 0 |
| `Tracker.SyncStalled` | src/main.rs:123-140 | panics exactly when the step `Observe` panics, and for the same reason; otherwise the two variables hold the state after the step; the logger runs exactly on a matched line that did not panic, and it receives the updated pair |
| `Reader.Streak` | src/main.rs:130-134 | the length of the longest suffix whose elements all equal the last one: those elements are equal, and the element just before the suffix, if any, differs |
| `Reader.StateIsStreak` | src/main.rs:130-134 | `StateAfter` folds `Observe` over the lines from `(0, 0)` and `Values` lists the numbers of the matching lines; after any prefix of lines without a panic, the best number is the last value of `[0] + Values(lines)`, and the idle count is that sequence's final run length minus one; unmatched lines do not break a run |
| `Reader.StalledIffFiveSightings` | src/main.rs:98 | the idle count exceeds 3 if and only if the current number has been seen at least five times in a row since it was last set, counting the initial 0 |
| `Reader.RepeatedNumber` | src/main.rs:130-134 | `k` equal matching lines from a fresh start leave `(v, k - 1)` for a nonzero number `v`, and `(0, k)` for the number 0 |
| `Reader.ReadLoop` | src/main.rs:79-104 | the loop's state after each line is `StateAfter` of the lines read so far; the echoed lines are a prefix of the input, in order. Every line before the last one read left the idle count at most 3. On a stall, the last line read is not echoed, 255 is sent exactly once, the idle count is exactly 4 (so the `u8` never overflows), no later line is read, and the current number has been seen exactly five times. On a parse panic, nothing is sent. When the stream ends, every line was echoed and nothing was sent |
| `Scenarios.Line10Captures` | src/main.rs:12 | the line `a best #10` captures `10` |
| `Scenarios.NonzeroNeedsFiveLines` | src/main.rs:98 | four equal lines carrying `#10` leave idle count 3, which does not stall; a fifth line makes it 4 |
| `Scenarios.ZeroStallsAfterFourLines` | src/main.rs:79 | lines carrying `#0` count as idle from the first one, because the initial best number is 0; four of them reach idle count 4 |

## Left out

- Process handling in `run`: spawning the boot script, piping stdout and stderr, `darwinia.kill()`, and the 3-second sleep after a stall (src/main.rs:71-77, 111, 114). These are operating-system I/O.
- The worker thread, the `mpsc` channel and `join` (src/main.rs:70, 78, 107-120). The model keeps only the sequential loop the thread runs. What it sends on the channel is the `sent` output of `ReadLoop`.
- `kill` and its `kill -9` shell-out, and the `pid + 1` descendant guess (src/main.rs:112-113, 142-147). These are foreign commands.
- Command-line parsing, logger setup, the Ctrl-C handler and the restart loop in `main` (src/main.rs:33-66).
- The text the logger closure writes, and the lazily initialised supervisor pid (src/main.rs:11, 87-95). The logger is modelled only as "called or not called, with these two values".
- The general `regex` crate. Only this one fixed pattern is modelled.
- The `log.unwrap()` panic on a stderr read error (src/main.rs:81). It is an I/O failure.
- `BestNumber.IsDigit`: `\d` is taken as the ASCII digits `0`-`9`. Rust's `\d` is Unicode-aware, so it also matches other decimal digits, and `parse` would then fail and `unwrap` would panic. That path is not modelled.
- `BestNumber.Capture`: the regex `.` is taken to match every character, because the lines from `lines()` contain no `'\n'`. A line with an embedded newline is outside the model.
- `Tracker.SyncStalled`: the `u8` increment past 255 is modelled as a panic, as in a debug build. A release build would wrap to 0 instead. `ReadLoop` proves that neither can happen, because the loop stops at an idle count of 4.
- `Tracker.SyncStalled`: when the call panics, its other outputs are unspecified, because the thread unwinds and nothing reads them.
- `src/main.rs` has no storage-lock check and no restart back-off.
- A capture that overflows `u32` panics through `unwrap` (src/main.rs:129); it is not ignored.
- A stall needs the idle count to exceed 3 (src/main.rs:98), so a fresh nonzero number needs five equal lines.
