/** The snowflake id generator under a clock that may do anything. */
module Snowflake {
  import opened Json
  import Radix

  const EPOCH_MILLIS := 1735689600000
  const MAX_NODE_ID := 1023
  const MAX_SEQUENCE := 4095
  const MAX_LOGICAL_DRIFT := 5

  // ---- machine words ----

  function Pow2(k: nat): (p: nat)
    ensures p > 0
  {
    if k == 0 then 1 else 2 * Pow2(k - 1)
  }

  /** Bitwise or and and of two bit patterns. */
  function Or(a: nat, b: nat): nat {
    if a == 0 then b else if b == 0 then a
    else 2 * Or(a / 2, b / 2) + if a % 2 == 1 || b % 2 == 1 then 1 else 0
  }

  function And(a: nat, b: nat): nat {
    if a == 0 || b == 0 then 0
    else 2 * And(a / 2, b / 2) + if a % 2 == 1 && b % 2 == 1 then 1 else 0
  }

  /** Or of fields that do not overlap is their sum. */
  lemma {:induction false} OrDisjoint(a: nat, b: nat, k: nat)
    requires b < Pow2(k)
    ensures Or(a * Pow2(k), b) == a * Pow2(k) + b
    decreases k
  {
    if k > 0 && a > 0 && b > 0 {
      var p := Pow2(k - 1);
      assert a * Pow2(k) == 2 * (a * p) by { assert Pow2(k) == 2 * p; }
      OrDisjoint(a, b / 2, k - 1);
      assert a * p > 0;
    }
  }

  /** And with a run of ones is a remainder. */
  lemma {:induction false} AndMask(x: nat, k: nat)
    ensures And(x, Pow2(k) - 1) == x % Pow2(k)
    decreases k
  {
    hide And;
    if k == 0 {
      AndZero(x);
    } else if x == 0 {
      AndZero(Pow2(k) - 1);
    } else {
      AndMask(x / 2, k - 1);
      AndMaskStep(x, Pow2(k - 1));
    }
  }

  lemma AndMaskStep(x: nat, p: nat)
    requires x > 0 && p > 0 && And(x / 2, p - 1) == (x / 2) % p
    ensures And(x, 2 * p - 1) == x % (2 * p)
  {
    hide And;
    AndOdd(x, p);
    HalfMod(x, p);
  }

  lemma AndZero(x: nat)
    ensures And(x, 0) == 0 && And(0, x) == 0
  {
  }

  lemma AndOdd(x: nat, p: nat)
    requires x > 0 && p > 0
    ensures And(x, 2 * p - 1) == 2 * And(x / 2, p - 1) + x % 2
  {
  }

  lemma HalfMod(x: nat, p: nat)
    requires p > 0
    ensures x % (2 * p) == 2 * ((x / 2) % p) + x % 2
  {
    var q := (x / 2) / p;
    var r := 2 * ((x / 2) % p) + x % 2;
    assert x == q * (2 * p) + r by { assert x / 2 == q * p + (x / 2) % p; assert q * (2 * p) == 2 * (q * p); }
    ModUnique(x, q, r, 2 * p);
  }

  lemma ModUnique(x: int, q: int, r: int, m: int)
    requires m > 0 && 0 <= r < m && x == q * m + r
    ensures x % m == r && x / m == q
  {
    var q', r' := x / m, x % m;
    assert x == q' * m + r';
    hide *;
    Radix.NextMultiple(q, q', m);
    Radix.NextMultiple(q', q, m);
  }

  /** The value of a 64-bit pattern read as a signed integer. */
  function Signed(u: nat): int {
    if u < 0x8000_0000_0000_0000 then u else u - 0x1_0000_0000_0000_0000
  }

  // ---- one generated id ----

  datatype State = State(lastTime: int, sequence: nat)

  const FRESH := State(-1, 0)

  /** ((lastTime - epoch) << 22) | (node << 12) | sequence in 64-bit arithmetic. */
  function Pattern(node: nat, s: State): nat
    requires s.lastTime >= EPOCH_MILLIS
  {
    Or(Or(((s.lastTime - EPOCH_MILLIS) * 0x40_0000) % 0x1_0000_0000_0000_0000, node * 0x1000), s.sequence)
  }

  function Id(node: nat, s: State): int
    requires s.lastTime >= EPOCH_MILLIS
  {
    Signed(Pattern(node, s))
  }

  ghost predicate Fields(node: nat, s: State) {
    node <= MAX_NODE_ID && s.lastTime >= EPOCH_MILLIS && s.sequence <= MAX_SEQUENCE
  }

  lemma Powers()
    ensures Pow2(10) == 0x400 && Pow2(12) == 0x1000 && Pow2(22) == 0x40_0000
  {
  }

  /** The or of the three fields is their sum, with the time reduced to 42 bits. */
  lemma PatternIsSum(node: nat, s: State)
    requires Fields(node, s)
    ensures Pattern(node, s) == ((s.lastTime - EPOCH_MILLIS) % 0x400_0000_0000) * 0x40_0000 + node * 0x1000 + s.sequence
  {
    Powers();
    hide Or, Pow2;
    var t := s.lastTime - EPOCH_MILLIS;
    assert (t * 0x40_0000) % 0x1_0000_0000_0000_0000 == (t % 0x400_0000_0000) * 0x40_0000;
    OrDisjoint(t % 0x400_0000_0000, node * 0x1000, 22);
    OrDisjoint((t % 0x400_0000_0000) * 0x400 + node, s.sequence, 12);
  }

  /** Exactly when two ids are equal, for any clock: same node, same sequence, times equal modulo 2^42. */
  lemma IdsEqualIff(n1: nat, s1: State, n2: nat, s2: State)
    requires Fields(n1, s1) && Fields(n2, s2)
    ensures Id(n1, s1) == Id(n2, s2) <==>
      n1 == n2 && s1.sequence == s2.sequence
      && (s1.lastTime - EPOCH_MILLIS) % 0x400_0000_0000 == (s2.lastTime - EPOCH_MILLIS) % 0x400_0000_0000
  {
    hide Pattern, Or;
    PatternIsSum(n1, s1);
    PatternIsSum(n2, s2);
    var t1, t2 := (s1.lastTime - EPOCH_MILLIS) % 0x400_0000_0000, (s2.lastTime - EPOCH_MILLIS) % 0x400_0000_0000;
    SumsEqualIff(t1, n1, s1.sequence, t2, n2, s2.sequence);
  }

  lemma SumsEqualIff(t1: nat, n1: nat, q1: nat, t2: nat, n2: nat, q2: nat)
    requires n1 <= MAX_NODE_ID && n2 <= MAX_NODE_ID && q1 <= MAX_SEQUENCE && q2 <= MAX_SEQUENCE
    ensures t1 * 0x40_0000 + n1 * 0x1000 + q1 == t2 * 0x40_0000 + n2 * 0x1000 + q2 <==> t1 == t2 && n1 == n2 && q1 == q2
  {
  }

  /** While the time since the epoch fits in 41 bits, an id is not negative and its fields can be read back. */
  lemma FieldRoundTrip(node: nat, s: State)
    requires Fields(node, s) && s.lastTime - EPOCH_MILLIS < 0x200_0000_0000
    ensures Id(node, s) >= 0
    ensures Id(node, s) / 0x40_0000 + EPOCH_MILLIS == s.lastTime
    ensures And(Id(node, s) / 0x1000, MAX_NODE_ID) == node
    ensures And(Id(node, s), MAX_SEQUENCE) == s.sequence
  {
    hide Or, Pow2, Pattern, And;
    PatternIsSum(node, s);
    Powers();
    assert Id(node, s) == (s.lastTime - EPOCH_MILLIS) * 0x40_0000 + node * 0x1000 + s.sequence;
    AndMask(Id(node, s), 12);
    AndMask(Id(node, s) / 0x1000, 10);
    hide And;
    hide Id;
    FieldArithmetic(s.lastTime - EPOCH_MILLIS, node, s.sequence);
  }

  lemma FieldArithmetic(t: nat, node: nat, sequence: nat)
    requires node <= MAX_NODE_ID && sequence <= MAX_SEQUENCE
    ensures var v := t * 0x40_0000 + node * 0x1000 + sequence;
      v / 0x40_0000 == t && (v / 0x1000) % 0x400 == node && v % 0x1000 == sequence
  {
  }

  const HALF_RANGE := 0x200_0000_0000
  const FULL_RANGE := 0x400_0000_0000

  /** The times since the epoch fall into eras of 2^42 milliseconds; the first one is cut down to its second half. */
  function Era(s: State): int {
    (s.lastTime - EPOCH_MILLIS + HALF_RANGE) / FULL_RANGE
  }

  /** Within an era an id counts up with the time; across the border it falls back by 2^64. */
  lemma IdInEra(node: nat, s: State)
    requires Fields(node, s)
    ensures Id(node, s) == (s.lastTime - EPOCH_MILLIS - Era(s) * FULL_RANGE) * 0x40_0000 + node * 0x1000 + s.sequence
  {
    PatternIsSum(node, s);
    hide Pattern;
    var t := s.lastTime - EPOCH_MILLIS;
    var q, r := t / FULL_RANGE, t % FULL_RANGE;
    assert t == q * FULL_RANGE + r;
    if r < HALF_RANGE {
      ModUnique(t + HALF_RANGE, q, r + HALF_RANGE, FULL_RANGE);
    } else {
      ModUnique(t + HALF_RANGE, q + 1, r - HALF_RANGE, FULL_RANGE);
    }
  }

  /** Exactly when the sign bit is set: in the second half of every 2^42 milliseconds. */
  lemma SignBitOverflow(node: nat, s: State)
    requires Fields(node, s)
    ensures Id(node, s) < 0 <==> (s.lastTime - EPOCH_MILLIS) % FULL_RANGE >= HALF_RANGE
  {
    PatternIsSum(node, s);
  }

  // ---- one call of Generate ----

  /** lastTime and sequence read as one number. */
  function Rank(s: State): int {
    s.lastTime * 0x1000 + s.sequence
  }

  predicate Started(s: State) {
    s.lastTime >= EPOCH_MILLIS && s.sequence <= MAX_SEQUENCE
  }

  /** nextMillis leaves its loop on this reading. */
  predicate LeavesWait(last: int, reading: int) {
    reading > last || last - reading > MAX_LOGICAL_DRIFT
  }

  /** What nextMillis returns on a run of readings, and the readings it leaves; None while it waits. */
  function Wait(last: int, readings: seq<int>): (w: Option<(int, seq<int>)>)
    ensures w.Some? ==> w.value.0 > last && exists k :: 0 < k <= |readings| && w.value.1 == readings[k..]
  {
    if readings == [] then None
    else if LeavesWait(last, readings[0]) then
      Some((if readings[0] > last then readings[0] else last + 1, readings[1..]))
    else
      var w := Wait(last, readings[1..]);
      assert w.Some? ==> exists k :: 0 < k <= |readings| && w.value.1 == readings[k..] by {
        if w.Some? {
          var j :| 0 < j <= |readings[1..]| && w.value.1 == readings[1..][j..];
          assert readings[1..][j..] == readings[j + 1..];
        }
      }
      w
  }

  /** nextMillis returns exactly when some reading leaves the window [last - 5, last]. */
  lemma {:induction false} WaitEndsIff(last: int, readings: seq<int>)
    ensures Wait(last, readings).Some? <==> exists i :: 0 <= i < |readings| && LeavesWait(last, readings[i])
    decreases readings
  {
    if readings != [] {
      WaitEndsIff(last, readings[1..]);
      assert forall i :: 1 <= i < |readings| ==> readings[i] == readings[1..][i - 1];
    }
  }

  /**
   * nextMillis stops at the first reading outside the window [last - 5, last]. It returns that reading if the clock has
   * moved on, and last + 1 only if the clock has fallen back by more than 5 milliseconds.
   */
  lemma {:induction false} WaitMeaning(last: int, readings: seq<int>) returns (k: nat)
    requires Wait(last, readings).Some?
    ensures k < |readings| && Wait(last, readings).value.1 == readings[k + 1..]
    ensures forall i :: 0 <= i < k ==> last - 5 <= readings[i] <= last
    ensures
      || (readings[k] > last && Wait(last, readings).value.0 == readings[k])
      || (readings[k] < last - 5 && Wait(last, readings).value.0 == last + 1)
    decreases |readings|
  {
    if LeavesWait(last, readings[0]) {
      k := 0;
    } else {
      k := WaitMeaning(last, readings[1..]);
      assert forall i :: 1 <= i < |readings| ==> readings[i] == readings[1..][i - 1];
      k := k + 1;
      assert readings[1..][k..] == readings[k + 1..];
    }
  }

  datatype Step = Step(s: State, rest: seq<int>)

  /** One call of Generate on a run of clock readings; None while it waits for more of them. */
  function GenerateStep(s: State, readings: seq<int>): (r: Option<Step>) {
    if readings == [] then None
    else
      var floor := if readings[0] < EPOCH_MILLIS then EPOCH_MILLIS else readings[0];
      var now := if floor < s.lastTime then s.lastTime else floor;
      if now == s.lastTime then
        var seqNo := And(s.sequence + 1, MAX_SEQUENCE);
        if seqNo == 0 then
          var w := Wait(s.lastTime, readings[1..]);
          if w.None? then None else Some(Step(State(w.value.0, 0), w.value.1))
        else Some(Step(State(now, seqNo), readings[1..]))
      else Some(Step(State(now, 0), readings[1..]))
  }

  lemma NextSequence(n: nat)
    requires n <= MAX_SEQUENCE
    ensures And(n + 1, MAX_SEQUENCE) == if n == MAX_SEQUENCE then 0 else n + 1
  {
    hide Pow2, And;
    Powers();
    AndMask(n + 1, 12);
  }

  function Max(a: int, b: int): int {
    if a < b then b else a
  }

  /** The sequence of this millisecond has run out, so a call that reads this must wait for the clock. */
  predicate MustWait(s: State, reading: int) {
    s.sequence == 4095 && Max(EPOCH_MILLIS, reading) <= s.lastTime
  }

  /**
   * What a finished call does. With sequence numbers left it reads the clock once and takes the largest of the epoch,
   * the last time and the reading; in a new millisecond the sequence starts again, in the same one it counts on.
   * Otherwise it waits for the first reading outside [last - 5, last], and takes that, or last + 1 after a rollback.
   */
  lemma StepExact(s: State, readings: seq<int>) returns (k: nat)
    requires (s == FRESH || Started(s)) && GenerateStep(s, readings).Some?
    ensures k < |readings| && GenerateStep(s, readings).value.rest == readings[k + 1..]
    ensures var next := GenerateStep(s, readings).value.s;
      if !MustWait(s, readings[0]) then
        && k == 0 && next.lastTime == Max(Max(EPOCH_MILLIS, s.lastTime), readings[0])
        && next.sequence == if next.lastTime == s.lastTime then s.sequence + 1 else 0
      else
        && k > 0 && next.sequence == 0
        && (forall i :: 0 < i < k ==> s.lastTime - 5 <= readings[i] <= s.lastTime)
        && (|| (readings[k] > s.lastTime && next.lastTime == readings[k])
            || (readings[k] < s.lastTime - 5 && next.lastTime == s.lastTime + 1))
  {
    hide And, Wait;
    NextSequence(s.sequence);
    k := 0;
    if MustWait(s, readings[0]) {
      k := WaitMeaning(s.lastTime, readings[1..]);
      assert readings[1..][k + 1..] == readings[k + 2..];
      assert forall i :: 1 <= i < |readings| ==> readings[i] == readings[1..][i - 1];
      k := k + 1;
    }
  }

  /** A call is still waiting exactly while it has read nothing, or has to wait and no reading has left the window. */
  lemma StepWaitsIff(s: State, readings: seq<int>)
    requires s == FRESH || Started(s)
    ensures GenerateStep(s, readings).None? <==>
      readings == []
      || (MustWait(s, readings[0]) && forall i :: 0 < i < |readings| ==> s.lastTime - 5 <= readings[i] <= s.lastTime)
  {
    if readings != [] {
      hide And, Wait;
      NextSequence(s.sequence);
      WaitEndsIff(s.lastTime, readings[1..]);
      assert forall i :: 1 <= i < |readings| ==> readings[i] == readings[1..][i - 1];
      if MustWait(s, readings[0]) && forall i :: 0 < i < |readings| ==> s.lastTime - 5 <= readings[i] <= s.lastTime {
        assert forall i :: 0 <= i < |readings[1..]| ==> !LeavesWait(s.lastTime, readings[1..][i]);
      }
    }
  }

  /** The rest is what is left of the readings, and the time is not behind any reading that was consumed. */
  ghost predicate CaughtUp(readings: seq<int>, rest: seq<int>, time: int) {
    && |rest| <= |readings| && rest == readings[|readings| - |rest|..]
    && forall i :: 0 <= i < |readings| - |rest| ==> time >= readings[i]
  }

  lemma CaughtUpTrans(readings: seq<int>, middle: seq<int>, rest: seq<int>, time: int, next: int)
    requires CaughtUp(readings, middle, time) && CaughtUp(middle, rest, next) && time <= next
    ensures CaughtUp(readings, rest, next)
  {
    var c := |readings| - |middle|;
    forall i | 0 <= i < |readings| - |rest| ensures next >= readings[i] {
      if i >= c { assert readings[i] == middle[i - c]; }
    }
  }

  /** A finished call consumes readings and has caught up with them. */
  lemma StepCatchesUp(s: State, readings: seq<int>)
    requires (s == FRESH || Started(s)) && GenerateStep(s, readings).Some?
    ensures var r := GenerateStep(s, readings).value;
      && CaughtUp(readings, r.rest, r.s.lastTime) && |r.rest| < |readings|
      && r.s.lastTime >= EPOCH_MILLIS && r.s.lastTime >= s.lastTime
  {
    var k := StepExact(s, readings);
    hide GenerateStep;
  }

  /** The value M bounds the epoch and every reading. */
  ghost predicate Bounds(m: int, readings: seq<int>) {
    m >= EPOCH_MILLIS && forall i :: 0 <= i < |readings| ==> readings[i] <= m
  }

  lemma {:induction false} WaitBound(last: int, readings: seq<int>, m: int)
    requires Bounds(m, readings) && Wait(last, readings).Some?
    ensures Wait(last, readings).value.0 <= m || Wait(last, readings).value.0 == last + 1
    decreases readings
  {
    if !LeavesWait(last, readings[0]) { WaitBound(last, readings[1..], m); }
  }

  /** Every call moves (lastTime, sequence) forward, and the logical clock gains at most one step in 4096 calls. */
  lemma StepForward(s: State, readings: seq<int>, m: int)
    requires s == FRESH || Started(s)
    requires GenerateStep(s, readings).Some? && Bounds(m, readings)
    ensures var r := GenerateStep(s, readings).value;
      && Started(r.s) && Rank(s) < Rank(r.s)
      && (exists k :: 0 < k <= |readings| && r.rest == readings[k..])
      && (Rank(r.s) <= m * 0x1000 || Rank(r.s) == Rank(s) + 1)
  {
    hide And, Wait;
    NextSequence(s.sequence);
    if s.sequence == MAX_SEQUENCE && Wait(s.lastTime, readings[1..]).Some? {
      WaitBound(s.lastTime, readings[1..], m);
      var w := Wait(s.lastTime, readings[1..]).value.1;
      var k :| 0 < k <= |readings[1..]| && w == readings[1..][k..];
      assert w == readings[k + 1..];
    }
  }

  // ---- any number of calls ----

  datatype Run = Run(states: seq<State>, rest: seq<int>)

  /** The states after each of k calls on a new node; None while the last call waits. */
  function Generated(readings: seq<int>, k: nat): (r: Option<Run>)
    ensures r.Some? ==> |r.value.states| == k
  {
    if k == 0 then Some(Run([], readings))
    else
      var before := Generated(readings, k - 1);
      if before.None? then None
      else
        var step := GenerateStep(LastState(before.value.states), before.value.rest);
        if step.None? then None else Some(Run(before.value.states + [step.value.s], step.value.rest))
  }

  function LastState(states: seq<State>): State {
    if states == [] then FRESH else states[|states| - 1]
  }

  /** Every state is a real one, ranks strictly increase, and the last one is within k steps of m. */
  ghost predicate Forward(states: seq<State>, m: int) {
    && (forall i :: 0 <= i < |states| ==> Started(states[i]))
    && (forall i, j :: 0 <= i < j < |states| ==> Rank(states[i]) < Rank(states[j]))
    && (states != [] ==> Rank(LastState(states)) < m * 0x1000 + |states|)
  }

  lemma Extend(states: seq<State>, s: State, m: int)
    requires Forward(states, m) && Started(s) && m >= EPOCH_MILLIS && Rank(LastState(states)) < Rank(s)
    requires Rank(s) <= m * 0x1000 || Rank(s) == Rank(LastState(states)) + 1
    ensures Forward(states + [s], m)
  {
  }

  lemma {:induction false} RunForward(readings: seq<int>, k: nat, m: int)
    requires Generated(readings, k).Some? && Bounds(m, readings)
    ensures Forward(Generated(readings, k).value.states, m)
    ensures exists c :: 0 <= c <= |readings| && Generated(readings, k).value.rest == readings[c..]
    decreases k
  {
    if k == 0 {
      assert readings == readings[0..];
    } else {
      RunForward(readings, k - 1, m);
      hide GenerateStep, Rank;
      var before := Generated(readings, k - 1).value;
      var c :| 0 <= c <= |readings| && before.rest == readings[c..];
      var s := LastState(before.states);
      StepForward(s, before.rest, m);
      var step := GenerateStep(s, before.rest).value;
      var d :| 0 < d <= |before.rest| && step.rest == before.rest[d..];
      assert before.rest[d..] == readings[c + d..];
      Extend(before.states, step.s, m);
    }
  }

  /** Ids of one node strictly increase, whatever the clock does, until the 41 bits of time run out. */
  lemma IdsIncrease(readings: seq<int>, k: nat, node: nat, i: nat, j: nat)
    requires Generated(readings, k).Some? && node <= MAX_NODE_ID && i < j < k
    requires Generated(readings, k).value.states[j].lastTime - EPOCH_MILLIS < 0x200_0000_0000
    ensures var states := Generated(readings, k).value.states;
      Started(states[i]) && Started(states[j]) && 0 <= Id(node, states[i]) < Id(node, states[j])
  {
    var m := Highest(readings);
    RunForward(readings, k, m);
    var states := Generated(readings, k).value.states;
    IdOrder(node, states[i], states[j]);
  }

  lemma IdOrder(node: nat, s1: State, s2: State)
    requires node <= MAX_NODE_ID && Started(s1) && Started(s2) && Rank(s1) < Rank(s2)
    requires s2.lastTime - EPOCH_MILLIS < 0x200_0000_0000
    ensures 0 <= Id(node, s1) < Id(node, s2)
  {
    hide Pattern, Or;
    PatternIsSum(node, s1);
    PatternIsSum(node, s2);
    var t1, t2 := s1.lastTime - EPOCH_MILLIS, s2.lastTime - EPOCH_MILLIS;
    assert t1 <= t2 && t2 % 0x400_0000_0000 == t2 && t1 % 0x400_0000_0000 == t1;
  }

  lemma EraOrder(a: State, b: State)
    ensures a.lastTime <= b.lastTime ==> Era(a) <= Era(b)
    ensures b.lastTime - a.lastTime < FULL_RANGE ==> Era(b) <= Era(a) + 1
  {
  }

  /** The rank counted within its era. */
  function RankInEra(s: State): int {
    Rank(s) - Era(s) * FULL_RANGE * 0x1000
  }

  /** Exactly when one id of a node is below another, at any two times: ids compare as ranks within their eras do. */
  lemma OrderIff(node: nat, a: State, b: State)
    requires Fields(node, a) && Fields(node, b)
    ensures Id(node, a) < Id(node, b) <==> RankInEra(a) < RankInEra(b)
  {
    IdInEra(node, a);
    IdInEra(node, b);
    hide Id, Era;
    var t, u := a.lastTime - EPOCH_MILLIS - Era(a) * FULL_RANGE, b.lastTime - EPOCH_MILLIS - Era(b) * FULL_RANGE;
    Lexicographic(t, a.sequence, u, b.sequence, node);
  }

  lemma Lexicographic(t: int, q: nat, u: int, r: nat, node: nat)
    requires q <= MAX_SEQUENCE && r <= MAX_SEQUENCE && node <= MAX_NODE_ID
    ensures t * 0x40_0000 + node * 0x1000 + q < u * 0x40_0000 + node * 0x1000 + r <==> t * 0x1000 + q < u * 0x1000 + r
  {
  }

  /** For states less than 2^42 milliseconds apart this means that no era has ended in between. */
  lemma IncreaseIff(node: nat, a: State, b: State)
    requires Fields(node, a) && Fields(node, b) && Rank(a) < Rank(b)
    ensures Id(node, a) < Id(node, b) <==> RankInEra(a) < RankInEra(b)
    ensures Era(a) == Era(b) ==> Id(node, a) < Id(node, b)
    ensures b.lastTime - a.lastTime < FULL_RANGE ==> (Id(node, a) < Id(node, b) <==> Era(a) == Era(b))
  {
    OrderIff(node, a, b);
    assert a.lastTime <= b.lastTime;
    EraOrder(a, b);
    hide Id, Era;
  }

  ghost predicate Increasing(node: nat, states: seq<State>) {
    forall i, j :: 0 <= i < j < |states| ==>
      Started(states[i]) && Started(states[j]) && Id(node, states[i]) < Id(node, states[j])
  }

  /** All ids of a run increase, whatever the clock does, exactly when from call to call the rank in its era grows. */
  lemma RunIncreasesIff(readings: seq<int>, k: nat, node: nat)
    requires Generated(readings, k).Some? && node <= MAX_NODE_ID
    ensures
      var states := Generated(readings, k).value.states;
      Increasing(node, states) <==> forall i :: 0 < i < k ==> RankInEra(states[i - 1]) < RankInEra(states[i])
  {
    RunForward(readings, k, Highest(readings));
    var states := Generated(readings, k).value.states;
    hide Generated, Id, RankInEra;
    if Increasing(node, states) {
      forall i | 0 < i < k ensures RankInEra(states[i - 1]) < RankInEra(states[i]) {
        assert Id(node, states[i - 1]) < Id(node, states[i]);
        OrderIff(node, states[i - 1], states[i]);
      }
    } else if forall i :: 0 < i < k ==> RankInEra(states[i - 1]) < RankInEra(states[i]) {
      forall i, j | 0 <= i < j < k ensures Id(node, states[i]) < Id(node, states[j]) {
        RanksGrow(states, i, j);
        OrderIff(node, states[i], states[j]);
      }
      assert false;
    }
  }

  lemma {:induction false} RanksGrow(states: seq<State>, i: nat, j: nat)
    requires i < j < |states|
    requires forall k :: 0 < k < |states| ==> RankInEra(states[k - 1]) < RankInEra(states[k])
    ensures RankInEra(states[i]) < RankInEra(states[j])
    decreases j
  {
    hide RankInEra;
    assert RankInEra(states[j - 1]) < RankInEra(states[j]);
    if i < j - 1 { RanksGrow(states, i, j - 1); }
  }

  /** All ids of a run of less than 2^42 milliseconds increase exactly when it ends in the era in which it began. */
  lemma EraIncreasesIff(readings: seq<int>, k: nat, node: nat)
    requires Generated(readings, k).Some? && node <= MAX_NODE_ID && k > 0
    requires var states := Generated(readings, k).value.states; states[k - 1].lastTime - states[0].lastTime < FULL_RANGE
    ensures
      var states := Generated(readings, k).value.states;
      && (forall i :: 0 <= i < k ==> Started(states[i]))
      && (Increasing(node, states) <==> Era(states[0]) == Era(states[k - 1]))
  {
    RunForward(readings, k, Highest(readings));
    var states := Generated(readings, k).value.states;
    hide Generated, Id, Era;
    if Era(states[0]) == Era(states[k - 1]) {
      forall i, j | 0 <= i < j < k ensures Id(node, states[i]) < Id(node, states[j]) {
        Ordered(states, 0, i);
        Ordered(states, i, j);
        Ordered(states, j, k - 1);
        IncreaseIff(node, states[i], states[j]);
      }
    } else {
      Ordered(states, 0, k - 1);
      IncreaseIff(node, states[0], states[k - 1]);
    }
  }

  lemma Ordered(states: seq<State>, i: nat, j: nat)
    requires i <= j < |states|
    requires forall k :: 0 <= k < |states| ==> Started(states[k])
    requires forall k, l :: 0 <= k < l < |states| ==> Rank(states[k]) < Rank(states[l])
    ensures states[i].lastTime <= states[j].lastTime && Era(states[i]) <= Era(states[j])
  {
    EraOrder(states[i], states[j]);
  }

  /** Two readings, one millisecond apart, after which the second id is below the first. */
  lemma IdsDrop(node: nat) returns (readings: seq<int>)
    requires node <= MAX_NODE_ID
    ensures Generated(readings, 2).Some?
    ensures
      var states := Generated(readings, 2).value.states;
      && Started(states[0]) && Started(states[1]) && states[1].lastTime == states[0].lastTime + 1
      && Id(node, states[1]) < 0 < Id(node, states[0])
  {
    var first, second := EPOCH_MILLIS + HALF_RANGE - 1, EPOCH_MILLIS + HALF_RANGE;
    readings := [first, second];
    var a, b := State(first, 0), State(second, 0);
    assert readings[1..] == [second] && [second][1..] == [] && [a] + [b] == [a, b];
    var none: seq<State> := [];
    assert Generated(readings, 0) == Some(Run(none, readings)) && LastState(none) == FRESH && none + [a] == [a];
    assert Generated(readings, 1) == Some(Run([a], [second]));
    assert GenerateStep(a, [second]) == Some(Step(b, []));
    assert Generated(readings, 2) == Some(Run([a, b], []));
    IdInEra(node, a);
    IdInEra(node, b);
  }

  /** Different nodes never produce the same id, on any two clocks, however far the time has run. */
  lemma NodesNeverCollide(r1: seq<int>, k1: nat, n1: nat, i: nat, r2: seq<int>, k2: nat, n2: nat, j: nat)
    requires Generated(r1, k1).Some? && Generated(r2, k2).Some? && i < k1 && j < k2
    requires n1 <= MAX_NODE_ID && n2 <= MAX_NODE_ID && n1 != n2
    ensures var s1, s2 := Generated(r1, k1).value.states[i], Generated(r2, k2).value.states[j];
      Started(s1) && Started(s2) && Id(n1, s1) != Id(n2, s2)
  {
    RunForward(r1, k1, Highest(r1));
    RunForward(r2, k2, Highest(r2));
    IdsEqualIff(n1, Generated(r1, k1).value.states[i], n2, Generated(r2, k2).value.states[j]);
  }

  /** After k calls the logical time is ahead of every reading by less than k/4096 milliseconds. */
  lemma DriftBound(readings: seq<int>, k: nat, m: int)
    requires Generated(readings, k).Some? && Bounds(m, readings) && k > 0
    ensures Generated(readings, k).value.states[k - 1].lastTime <= m + (k - 1) / 0x1000
  {
    RunForward(readings, k, m);
  }

  /** After any number of calls the logical time has caught up with every reading that they consumed. */
  lemma {:induction false} RunCatchesUp(readings: seq<int>, k: nat)
    requires Generated(readings, k).Some?
    ensures var run := Generated(readings, k).value;
      && CaughtUp(readings, run.rest, LastState(run.states).lastTime) && |run.rest| <= |readings| - k
      && (k > 0 ==> LastState(run.states).lastTime >= EPOCH_MILLIS)
    decreases k
  {
    if k == 0 {
      assert readings == readings[0..];
    } else {
      OneMoreCall(readings, k);
      hide *;
      RunCatchesUp(readings, k - 1);
      var before := Generated(readings, k - 1).value;
      var s := LastState(before.states);
      StepCatchesUp(s, before.rest);
      var step := GenerateStep(s, before.rest).value;
      CaughtUpTrans(readings, before.rest, step.rest, s.lastTime, step.s.lastTime);
    }
  }

  lemma OneMoreCall(readings: seq<int>, k: nat)
    requires Generated(readings, k).Some? && k > 0
    ensures Generated(readings, k - 1).Some?
    ensures
      var before := Generated(readings, k - 1).value;
      var s := LastState(before.states);
      && (s == FRESH || Started(s)) && GenerateStep(s, before.rest).Some?
      && Generated(readings, k).value.rest == GenerateStep(s, before.rest).value.rest
      && LastState(Generated(readings, k).value.states) == GenerateStep(s, before.rest).value.s
  {
    hide GenerateStep;
    RunForward(readings, k - 1, Highest(readings));
  }

  function Highest(readings: seq<int>): (m: int)
    ensures Bounds(m, readings)
  {
    if readings == [] then EPOCH_MILLIS
    else
      var m := Highest(readings[1..]);
      if readings[0] > m then readings[0] else m
  }

  // ---- the generator itself ----

  /** time.Now().UnixMilli() as a run of arbitrary readings. */
  class Clock {
    var readings: seq<int>

    constructor (readings: seq<int>)
      ensures this.readings == readings
    {
      this.readings := readings;
    }

    method UnixMilli() returns (now: int)
      requires readings != []
      modifies this
      ensures now == old(readings)[0] && readings == old(readings)[1..]
    {
      now := readings[0];
      readings := readings[1..];
    }
  }

  /** nextMillis; None when the readings end while it is still waiting. */
  method NextMillis(clock: Clock, lastTime: int) returns (r: Option<int>)
    modifies clock
    ensures r.Some? <==> exists i :: 0 <= i < |old(clock.readings)| && LeavesWait(lastTime, old(clock.readings)[i])
    ensures r.Some? <==> Wait(lastTime, old(clock.readings)).Some?
    ensures r.Some? ==> (r.value, clock.readings) == Wait(lastTime, old(clock.readings)).value && r.value > lastTime
  {
    WaitEndsIff(lastTime, clock.readings);
    while clock.readings != []
      invariant Wait(lastTime, clock.readings) == Wait(lastTime, old(clock.readings))
      decreases |clock.readings|
    {
      var now := clock.UnixMilli();
      if now > lastTime {
        return Some(now);
      }
      if lastTime - now > MAX_LOGICAL_DRIFT {
        return Some(lastTime + 1);
      }
    }
    r := None;
  }

  /** NewNode returns an error exactly outside [0, 1023]. */
  method NewNode(nodeID: int) returns (node: Node?)
    ensures node == null <==> nodeID < 0 || nodeID > MAX_NODE_ID
    ensures node != null ==> fresh(node) && node.nodeID == nodeID && node.Value() == FRESH
  {
    if nodeID < 0 || nodeID > MAX_NODE_ID {
      return null;
    }
    node := new Node(nodeID);
  }

  lemma IdOf(node: nat, time: int, sequence: nat)
    requires time >= EPOCH_MILLIS
    ensures Id(node, State(time, sequence)) ==
      Signed(Or(Or(((time - EPOCH_MILLIS) * 0x40_0000) % 0x1_0000_0000_0000_0000, node * 0x1000), sequence))
  {
  }

  class Node {
    const nodeID: nat
    var lastTime: int
    var sequence: nat

    ghost function Value(): State
      reads this
    {
      State(lastTime, sequence)
    }

    ghost predicate Valid()
      reads this
    {
      nodeID <= MAX_NODE_ID && (Value() == FRESH || Started(Value()))
    }

    constructor (nodeID: nat)
      ensures this.nodeID == nodeID && Value() == FRESH
    {
      this.nodeID := nodeID;
      lastTime, sequence := -1, 0;
    }

    /** Generate, under its lock; None when the readings end while the call is still waiting for the clock. */
    method Generate(clock: Clock) returns (id: Option<int>)
      requires Valid()
      modifies this, clock
      ensures id.Some? <==> GenerateStep(old(Value()), old(clock.readings)).Some?
      ensures id.Some? ==>
        && Step(Value(), clock.readings) == GenerateStep(old(Value()), old(clock.readings)).value
        && Valid() && Rank(old(Value())) < Rank(Value()) && Value() != FRESH && id.value == Id(nodeID, Value())
    {
      if clock.readings == [] {
        return None;
      }
      ghost var readings := clock.readings;
      if GenerateStep(Value(), readings).Some? {
        StepForward(Value(), readings, Highest(readings));
      }
      hide And, Or, Pow2, Signed, Pattern, Id, Highest;
      var now := clock.UnixMilli();
      if now < EPOCH_MILLIS {
        now := EPOCH_MILLIS;
      }
      if now < lastTime {
        now := lastTime;
      }
      if now == lastTime {
        sequence := And(sequence + 1, MAX_SEQUENCE);
        if sequence == 0 {
          var next := NextMillis(clock, lastTime);
          if next.None? {
            return None;
          }
          now := next.value;
        }
      } else {
        sequence := 0;
      }
      lastTime := now;
      IdOf(nodeID, now, sequence);
      var shifted := ((now - EPOCH_MILLIS) * 0x40_0000) % 0x1_0000_0000_0000_0000;
      id := Some(Signed(Or(Or(shifted, nodeID * 0x1000), sequence)));
    }
  }
}
