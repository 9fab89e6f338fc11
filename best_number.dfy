/**
 The `best_number` pattern `.+?best.+?#(\d+)` of the stall detector, written as a
 hand matcher over one log line, and the `u32` parse of its capture.

 A line comes from splitting the child's stderr into lines, so it holds no '\n' and
 the regex `.` matches every character of it. Under that reading the leftmost match
 starts at index 0, the two lazy `.+?` pick the lexicographically earliest
 (`best` position, `#` position) pair that completes the pattern, and the greedy
 `\d+` takes the whole run of digits after that `#`.
 */
module BestNumber {

  datatype Option<T> = None | Some(value: T)

  /** Largest value of Rust's `u32`. */
  const U32_MAX: int := 0xFFFF_FFFF

  type u32 = x: int | 0 <= x <= 0xFFFF_FFFF

  predicate IsDigit(c: char) {
    '0' <= c <= '9'
  }

  predicate AllDigits(d: string) {
    forall k :: 0 <= k < |d| ==> IsDigit(d[k])
  }

  function DigitValue(c: char): (v: nat)
    requires IsDigit(c)
    ensures v <= 9
  {
    (c - '0') as nat
  }

  /** The literal `best` occupies `s[p..p+4]`. */
  predicate BestAt(s: string, p: int) {
    0 <= p && p + 4 <= |s| && s[p] == 'b' && s[p + 1] == 'e' && s[p + 2] == 's' && s[p + 3] == 't'
  }

  /** A `#` at `h` with a digit right after it, so that `#(\d+)` can start at `h`. */
  predicate HashDigitAt(s: string, h: int) {
    0 <= h && h + 1 < |s| && s[h] == '#' && IsDigit(s[h + 1])
  }

  /**
   `best` at `p` and `#` at `h` complete the pattern from index 0: the first `.+?`
   needs one character before `best`, the second one character between `best` and `#`.
   */
  predicate Completes(s: string, p: int, h: int) {
    1 <= p && BestAt(s, p) && p + 5 <= h && HashDigitAt(s, h)
  }

  /** The pattern matches somewhere in `s`. */
  ghost predicate Matches(s: string) {
    exists p, h :: Completes(s, p, h)
  }

  /** `(p, h)` is the pair the leftmost-first, lazy-quantifier search settles on. */
  ghost predicate LeftmostFirst(s: string, p: int, h: int) {
    && Completes(s, p, h)
    && forall p', h' :: Completes(s, p', h') ==> p < p' || (p == p' && h <= h')
  }

  /** First position at or after `from` where `best` starts. */
  function FindBest(s: string, from: nat): (r: Option<nat>)
    decreases |s| - from
    ensures r.Some? ==> from <= r.value && BestAt(s, r.value)
    ensures r.Some? ==> forall q :: from <= q < r.value ==> !BestAt(s, q)
    ensures r.None? ==> forall q :: from <= q ==> !BestAt(s, q)
  {
    if |s| < from + 4 then None
    else if BestAt(s, from) then Some(from)
    else FindBest(s, from + 1)
  }

  /** First position at or after `from` holding a `#` followed by a digit. */
  function FindHashDigit(s: string, from: nat): (r: Option<nat>)
    decreases |s| - from
    ensures r.Some? ==> from <= r.value && HashDigitAt(s, r.value)
    ensures r.Some? ==> forall q :: from <= q < r.value ==> !HashDigitAt(s, q)
    ensures r.None? ==> forall q :: from <= q ==> !HashDigitAt(s, q)
  {
    if |s| < from + 2 then None
    else if HashDigitAt(s, from) then Some(from)
    else FindHashDigit(s, from + 1)
  }

  /** End of the maximal run of digits that starts at `i` (the greedy `\d+`). */
  function DigitRunEnd(s: string, i: nat): (e: nat)
    requires i <= |s|
    decreases |s| - i
    ensures i <= e <= |s|
    ensures forall k :: i <= k < e ==> IsDigit(s[k])
    ensures e == |s| || !IsDigit(s[e])
  {
    if i < |s| && IsDigit(s[i]) then DigitRunEnd(s, i + 1) else i
  }

  /** Capture group 1 of `best_number` on `s`, or `None` when the pattern does not match. */
  function Capture(s: string): (r: Option<string>)
    ensures r.Some? ==> |r.value| >= 1 && AllDigits(r.value)
  {
    match FindBest(s, 1)
    case None => None
    case Some(p) =>
      match FindHashDigit(s, p + 5)
      case None => None
      case Some(h) => Some(s[h + 1..DigitRunEnd(s, h + 1)])
  }

  /** The matcher says yes exactly when some `best`/`#` pair completes the pattern. */
  lemma CaptureIffMatches(s: string)
    ensures Capture(s).Some? <==> Matches(s)
  {
    match FindBest(s, 1)
    case None =>
      assert !Matches(s);
    case Some(p) =>
      match FindHashDigit(s, p + 5)
      case None =>
        // any completing pair (p', h') has p' >= p, so h' >= p + 5 would have been found
        assert !Matches(s);
      case Some(h) =>
        assert Completes(s, p, h);
  }

  /**
   The capture is the maximal digit run after the `#` of the lexicographically
   earliest completing pair: a later `best` or `#` is used only when an earlier one
   cannot be completed.
   */
  lemma CaptureIsLeftmostFirst(s: string, p: int, h: int)
    requires LeftmostFirst(s, p, h)
    ensures Capture(s) == Some(s[h + 1..DigitRunEnd(s, h + 1)])
  {
    var p0 := FindBest(s, 1);
    assert p0.Some? && p0.value <= p;
    var h0 := FindHashDigit(s, p0.value + 5);
    assert h0.Some? && h0.value <= h;
    assert Completes(s, p0.value, h0.value);
  }

  /** Conversely, every capture comes from a leftmost-first pair. */
  lemma CaptureHasLeftmostFirstPair(s: string)
    requires Capture(s).Some?
    ensures exists p, h :: LeftmostFirst(s, p, h) && Capture(s).value == s[h + 1..DigitRunEnd(s, h + 1)]
  {
    var p := FindBest(s, 1).value;
    var h := FindHashDigit(s, p + 5).value;
    assert LeftmostFirst(s, p, h);
  }

  /** Value of a decimal numeral, most significant digit first; the empty numeral is 0. */
  function DecimalValue(d: string): nat
    requires AllDigits(d)
  {
    if d == [] then 0 else DecimalValue(d[..|d| - 1]) * 10 + DigitValue(d[|d| - 1])
  }

  function Pow10(n: nat): (r: nat)
    ensures r >= 1
  {
    if n == 0 then 1 else 10 * Pow10(n - 1)
  }

  /**
   `str::parse::<u32>` on a string of digits: the digits are folded front to back into
   `acc` with a checked multiply by ten and a checked add, and the first overflow is an
   error (`None`).
   */
  function ParseFrom(d: string, acc: u32): Option<u32>
    requires AllDigits(d)
  {
    if d == [] then Some(acc)
    else if acc * 10 > U32_MAX then None
    else if acc * 10 + DigitValue(d[0]) > U32_MAX then None
    else ParseFrom(d[1..], acc * 10 + DigitValue(d[0]))
  }

  function ParseU32(d: string): Option<u32>
    requires AllDigits(d)
  {
    ParseFrom(d, 0)
  }

  /** Splitting off the leading digit of a numeral. */
  lemma {:induction false} DecimalValueCons(c: char, d: string)
    requires IsDigit(c) && AllDigits(d)
    ensures DecimalValue([c] + d) == DigitValue(c) * Pow10(|d|) + DecimalValue(d)
  {
    if d == [] {
    } else {
      var init := d[..|d| - 1];
      assert ([c] + d)[..|d|] == [c] + init;
      assert ([c] + d)[|d|] == d[|d| - 1];
      DecimalValueCons(c, init);
      var a, pw, v, t := DigitValue(c), Pow10(|init|), DecimalValue(init), DigitValue(d[|d| - 1]);
      assert DecimalValue(d) == v * 10 + t;
      assert DecimalValue([c] + d) == (a * pw + v) * 10 + t;
      assert Pow10(|d|) == 10 * pw;
      ShiftDigit(a, pw, v, t);
    }
  }

  lemma ShiftDigit(a: int, pw: int, v: int, t: int)
    ensures (a * pw + v) * 10 + t == a * (10 * pw) + (v * 10 + t)
  {
  }

  lemma AppendDigit(acc: int, dg: int, pw: int, v: int)
    requires pw >= 1 && acc >= 0 && dg >= 0
    ensures acc * (10 * pw) + (dg * pw + v) == (acc * 10 + dg) * pw + v
    ensures (acc * 10 + dg) * pw >= acc * 10 + dg
  {
  }

  /** The checked fold yields `acc * 10^|d| + value(d)` or fails exactly when that exceeds `u32::MAX`. */
  lemma {:induction false} ParseFromValue(d: string, acc: u32)
    requires AllDigits(d)
    ensures var v := acc * Pow10(|d|) + DecimalValue(d);
            ParseFrom(d, acc) == if v <= U32_MAX then Some(v) else None
  {
    if d != [] {
      var rest := d[1..];
      assert d == [d[0]] + rest;
      DecimalValueCons(d[0], rest);
      var dg, pw, v := DigitValue(d[0]), Pow10(|rest|), DecimalValue(rest);
      var next := acc * 10 + dg;
      assert Pow10(|d|) == 10 * pw;
      AppendDigit(acc, dg, pw, v);
      if next <= U32_MAX {
        ParseFromValue(rest, next);
      }
    }
  }

  /**
   A captured numeral that does not fit in `u32` is a parse error, never a wrapped
   value; one that fits parses to its decimal value.
   */
  lemma ParseU32Value(d: string)
    requires AllDigits(d)
    ensures ParseU32(d).Some? <==> DecimalValue(d) <= U32_MAX
    ensures ParseU32(d).Some? ==> ParseU32(d).value == DecimalValue(d)
  {
    ParseFromValue(d, 0);
  }
}
