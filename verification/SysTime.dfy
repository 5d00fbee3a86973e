/** libntp/systime.c: the monotone clock reader (the branch without signaled I/O) and
    the slewing of the clock with a carried residue.  Readings of the system clock and
    random numbers are parameters; `double` is modelled by `real`. */
module SysTime {
  import Epoch
  import opened Options
  import opened Words
  import opened Intervals

  const JAN_1970 := Epoch.JAN_1970

  /** ntp_random() yields 31 bits. */
  type Random = r: int | 0 <= r < 0x8000_0000

  /** sys_fuzz is at most one second. */
  type Fuzz = f: int | 0 <= f <= 1_000_000_000

  // ---------------------------------------------------------------- the fuzz

  /** dfuzz, in seconds. */
  function Dfuzz(rand: Random, fuzz: Fuzz): real { rand as real * 2.0 / 4294967296.0 * (fuzz as real / 1e9) }

  /** DTOLFP of a non-negative number: units of 2^-32, truncated, in two words. */
  function RealToLfp(d: real): Wide
    requires d >= 0.0
  { Split64(U64((d * 4294967296.0).Floor)) }

  /** The fuzz in units of 2^-32. */
  function FuzzUnits(rand: Random, fuzz: Fuzz): int { 2 * rand * fuzz / NANOSECONDS }

  lemma FuzzIsTruncated(rand: Random, fuzz: Fuzz)
    ensures Dfuzz(rand, fuzz) >= 0.0 && RealToLfp(Dfuzz(rand, fuzz)).Value() == FuzzUnits(rand, fuzz)
    ensures 0 <= FuzzUnits(rand, fuzz) < TWO32
  {
    hide U64;
    var x, n := rand as real * 2.0 / 4294967296.0 * (fuzz as real / 1e9), 2 * rand * fuzz;
    assert rand as real * fuzz as real == (rand * fuzz) as real;
    assert x * 4294967296.0 == n as real / 1e9;
    assert n <= 2 * rand * NANOSECONDS by {
      MulMono(2 * rand, fuzz, NANOSECONDS);
    }
    FloorOfQuotient(n);
    Wrap64(n / NANOSECONDS, 0);
  }

  /** The fuzz, in units of 2^-32 s, lies between 0 and sys_fuzz, and the least and the
      greatest random number take it to both ends. */
  lemma FuzzSpread(rand: Random, fuzz: Fuzz)
    ensures 0 <= FuzzUnits(rand, fuzz) * 1_000_000_000 <= fuzz * TWO32
    ensures FuzzUnits(0, fuzz) == 0
    ensures fuzz * TWO32 - 2 * fuzz - 1_000_000_000 < FuzzUnits(0x7fff_ffff, fuzz) * 1_000_000_000
  {
    WholeFuzz(rand, fuzz);
    WholeFuzz(0, fuzz);
    WholeFuzz(0x7fff_ffff, fuzz);
    hide FuzzUnits;
    MulMono(fuzz, 2 * rand, TWO32);
  }

  lemma WholeFuzz(rand: Random, fuzz: Fuzz)
    ensures FuzzUnits(rand, fuzz) >= 0
    ensures 2 * rand * fuzz - NANOSECONDS < FuzzUnits(rand, fuzz) * NANOSECONDS <= 2 * rand * fuzz
  {
    var n := 2 * rand * fuzz;
    MulMono(fuzz, 0, 2 * rand);
    assert n == NANOSECONDS * (n / NANOSECONDS) + n % NANOSECONDS;
  }

  lemma FloorOfQuotient(n: int)
    ensures (n as real / 1e9).Floor == n / NANOSECONDS
  {
    var q, r := n / NANOSECONDS, n % NANOSECONDS;
    assert n as real == 1e9 * q as real + r as real;
    assert n as real / 1e9 == q as real + r as real / 1e9;
  }

  // --------------------------------------------------------------- one reading

  /** ts_prev, lamport_violated and sys_fuzz_nsec. */
  datatype Reader = Reader(tsPrev: Interval, violated: bool, fuzz: Fuzz)

  /** tspec_stamp_to_lfp */
  function Stamp(ts: Interval): Wide
  {
    var y := IntervalToLfp(ts, NANOSECONDS);
    y.(hi := U32(y.hi + JAN_1970))
  }

  /** The clock reading that is used, or None when the program gives up. */
  function Accepted(s: Reader, ts: Interval): Option<Interval>
  {
    var min := PlusFraction(s.tsPrev, s.fuzz, NANOSECONDS);
    if s.violated || Compare(ts, min) >= 0 then Some(ts)
    else if Minus(min, ts, NANOSECONDS).sec > 0 then None
    else Some(min)
  }

  function Fuzzed(ts: Interval, rand: Random, fuzz: Fuzz): Wide
  {
    FuzzIsTruncated(rand, fuzz);
    Add(Stamp(ts), RealToLfp(Dfuzz(rand, fuzz)))
  }

  /** The result before it is cut to 64 bits. */
  function Full(ts: Interval, rand: Random, fuzz: Fuzz): int
  {
    NearestFraction(Total(ts, NANOSECONDS), NANOSECONDS) + JAN_1970 * TWO32 + FuzzUnits(rand, fuzz)
  }

  /** The reading used is the later of the clock's and the earliest permissible one;
      the program gives up exactly when that needs an advance of a second or more. */
  lemma AcceptedReading(s: Reader, ts: Interval)
    requires Normal(ts, NANOSECONDS)
    ensures var t, earliest := Total(ts, NANOSECONDS), Total(s.tsPrev, NANOSECONDS) + s.fuzz;
            var a := Accepted(s, ts);
            && (a.None? <==> !s.violated && t + NANOSECONDS <= earliest)
            && (a.Some? ==> Normal(a.value, NANOSECONDS))
            && (a.Some? ==> Total(a.value, NANOSECONDS) == if s.violated || t >= earliest then t else earliest)
  {
    hide PlusFraction, Minus, Compare, Total;
    var min := PlusFraction(s.tsPrev, s.fuzz, NANOSECONDS);
    ArithmeticOnTotals(s.tsPrev, ts, s.fuzz, NANOSECONDS);
    CompareNormal(ts, min, NANOSECONDS);
    ArithmeticOnTotals(min, ts, 0, NANOSECONDS);
    SecondsPositive(Minus(min, ts, NANOSECONDS));
  }

  /** A clock one second behind: the advance needed does not exceed a second, and the
      program gives up. */
  lemma GivesUp()
    ensures Accepted(Reader(Interval(1, 0), false, 0), Interval(0, 0)) == None
  {
    AcceptedReading(Reader(Interval(1, 0), false, 0), Interval(0, 0));
  }

  lemma SecondsPositive(x: Interval)
    requires Normal(x, NANOSECONDS)
    ensures x.sec > 0 <==> Total(x, NANOSECONDS) >= NANOSECONDS
  {
  }

  lemma FuzzedValue(ts: Interval, rand: Random, fuzz: Fuzz)
    ensures Fuzzed(ts, rand, fuzz).Value() == U64(Full(ts, rand, fuzz))
  {
    hide U64, U32, IntervalToLfp, NearestFraction, Total, RealToLfp, Dfuzz, FuzzUnits, Add;
    FuzzIsTruncated(rand, fuzz);
    IntervalToLfpValue(ts, NANOSECONDS);
    var y, n := IntervalToLfp(ts, NANOSECONDS), NearestFraction(Total(ts, NANOSECONDS), NANOSECONDS);
    HighWord(y.hi + JAN_1970, y.lo);
    U64Plus(n, JAN_1970 * TWO32);
    U64Plus(n + JAN_1970 * TWO32, FuzzUnits(rand, fuzz));
  }

  // ------------------------------------------------------------- two readings

  /** A reading at least the fuzz later is never stamped earlier, whatever the two
      random numbers. */
  lemma FullMonotone(a: Interval, ra: Random, fa: Fuzz, b: Interval, rb: Random, fb: Fuzz)
    requires Total(a, NANOSECONDS) + fa <= Total(b, NANOSECONDS)
    ensures Full(a, ra, fa) <= Full(b, rb, fb)
  {
    var t, n := Total(a, NANOSECONDS) * TWO32 + NANOSECONDS / 2, 2 * ra * fa;
    FuzzIsTruncated(rb, fb);
    MulMono(fa, 2 * ra, TWO32);
    DivSum(t, n, Total(b, NANOSECONDS) * TWO32 + NANOSECONDS / 2);
  }

  lemma DivSum(t: int, n: int, u: int)
    requires t + n <= u
    ensures t / NANOSECONDS + n / NANOSECONDS <= u / NANOSECONDS
  {
  }

  const MAX_RANDOM: Random := 0x7fff_ffff

  /** The advance of the stamps of two readings. */
  function Advance(a: Interval, b: Interval): int
  {
    NearestFraction(Total(b, NANOSECONDS), NANOSECONDS) - NearestFraction(Total(a, NANOSECONDS), NANOSECONDS)
  }

  /** Whatever the two fuzzes, no pair of random numbers makes the second result earlier
      exactly when the clock's own advance makes up for the largest fuzz of the first. */
  lemma NeverEarlier(a: Interval, fa: Fuzz, b: Interval, fb: Fuzz)
    ensures (forall ra: Random, rb: Random :: Full(a, ra, fa) <= Full(b, rb, fb))
        <==> Advance(a, b) >= FuzzUnits(MAX_RANDOM, fa)
  {
    var gap := LeastGap(a, fa, b, fb);
  }

  lemma LeastGap(a: Interval, fa: Fuzz, b: Interval, fb: Fuzz) returns (gap: int)
    ensures gap == Advance(a, b) - FuzzUnits(MAX_RANDOM, fa) == Full(b, 0, fb) - Full(a, MAX_RANDOM, fa)
    ensures forall ra: Random, rb: Random :: Full(b, rb, fb) - Full(a, ra, fa) >= gap
  {
    hide NearestFraction, Total;
    NoFuzz(fb);
    gap := Full(b, 0, fb) - Full(a, MAX_RANDOM, fa);
    forall ra: Random, rb: Random
      ensures Full(b, rb, fb) - Full(a, ra, fa) >= gap
    {
      FuzzGrows(ra, MAX_RANDOM, fa);
      FuzzGrows(0, rb, fb);
    }
  }

  /** The source promises strictly later results.  That holds of every pair of random
      numbers exactly when the clock's own advance beats the largest fuzz ... */
  lemma StrictlyLater(a: Interval, b: Interval, fuzz: Fuzz)
    ensures (forall ra: Random, rb: Random :: Full(a, ra, fuzz) < Full(b, rb, fuzz))
        <==> Advance(a, b) > FuzzUnits(MAX_RANDOM, fuzz)
  {
    var gap := LeastGap(a, fuzz, b, fuzz);
  }

  lemma NoFuzz(fuzz: Fuzz)
    ensures FuzzUnits(0, fuzz) == 0
  {
  }

  lemma FuzzGrows(r: Random, q: Random, fuzz: Fuzz)
    requires r <= q
    ensures FuzzUnits(r, fuzz) <= FuzzUnits(q, fuzz)
  {
    MulMono(fuzz, 2 * r, 2 * q);
  }

  /** ... in particular whenever it exceeds the fuzz by a nanosecond ... */
  lemma LaterThanEarliest(a: Interval, ra: Random, b: Interval, rb: Random, fuzz: Fuzz)
    requires Total(a, NANOSECONDS) + fuzz < Total(b, NANOSECONDS)
    ensures Full(a, ra, fuzz) < Full(b, rb, fuzz)
  {
    var t, n := Total(a, NANOSECONDS) * TWO32 + NANOSECONDS / 2, 2 * ra * fuzz;
    FuzzIsTruncated(rb, fuzz);
    MulMono(fuzz, 2 * ra, TWO32);
    DivSum(t, n, Total(b, NANOSECONDS) * TWO32 + NANOSECONDS / 2 - NANOSECONDS);
  }

  /** ... but not at the earliest permissible reading: two results can be equal. */
  lemma EqualResults()
    ensures Accepted(Reader(Interval(0, 0), false, 1), Interval(0, 0)) == Some(Interval(0, 1))
    ensures Fuzzed(Interval(0, 1), 0, 1) == Fuzzed(Interval(0, 0), 0x7fff_ffff, 1)
  {
    hide *;
    EarliestReading();
    FuzzedValue(Interval(0, 1), 0, 1);
    FuzzedValue(Interval(0, 0), 0x7fff_ffff, 1);
    EqualFull();
    ValueInjective(Fuzzed(Interval(0, 1), 0, 1), Fuzzed(Interval(0, 0), 0x7fff_ffff, 1));
  }

  lemma EarliestReading()
    ensures Accepted(Reader(Interval(0, 0), false, 1), Interval(0, 0)) == Some(Interval(0, 1))
  {
    hide Accepted, Total;
    var s := Reader(Interval(0, 0), false, 1);
    AcceptedReading(s, Interval(0, 0));
    ZeroTotal(NANOSECONDS);
    OneTotal(Accepted(s, Interval(0, 0)).value);
  }

  lemma OneTotal(x: Interval)
    requires Normal(x, NANOSECONDS) && Total(x, NANOSECONDS) == 1
    ensures x == Interval(0, 1)
  {
  }

  lemma EqualFull()
    ensures Full(Interval(0, 1), 0, 1) == Full(Interval(0, 0), 0x7fff_ffff, 1)
  {
    DivModUnique(TWO32 + NANOSECONDS / 2, NANOSECONDS, 4, 794_967_296);
    DivModUnique(NANOSECONDS / 2, NANOSECONDS, 0, NANOSECONDS / 2);
    DivModUnique(TWO32 - 2, NANOSECONDS, 4, 294_967_294);
    DivModUnique(0, NANOSECONDS, 0, 0);
  }

  // ---------------------------------------------------------------- whole runs

  datatype Event =
    | Read(ts: Interval, rand: Random)
    | Step(back: bool)     // step_systime leaves lamport_violated = (step < 0)
    | SetFuzz(fuzz: Fuzz)

  /** What one reading used; forced: it came first after a backward step. */
  datatype Reading = Reading(ts: Interval, rand: Random, fuzz: Fuzz, forced: bool)

  function After(s: Reader, r: Reading): Reader { s.(tsPrev := r.ts, violated := false) }

  function ReadingOf(s: Reader, ts: Interval, rand: Random): Reading
  { Reading(ts, rand, s.fuzz, s.violated) }

  /** What it returned. */
  function Result(r: Reading): Wide { Fuzzed(r.ts, r.rand, r.fuzz) }

  /** The readings of a run, up to its end or the point where the program gives up. */
  function Run(s: Reader, es: seq<Event>): seq<Reading>
    decreases |es|
  {
    if es == [] then []
    else
      match es[0]
      case Step(back) => Run(s.(violated := back), es[1..])
      case SetFuzz(fuzz) => Run(s.(fuzz := fuzz), es[1..])
      case Read(ts, rand) =>
        var a := Accepted(s, ts);
        if a.None? then []
        else var r := ReadingOf(s, a.value, rand); [r] + Run(After(s, r), es[1..])
  }

  predicate NormalReadings(es: seq<Event>)
  {
    forall e :: e in es && e.Read? ==> Normal(e.ts, NANOSECONDS)
  }

  /** Time of a reading in nanoseconds, and its uncut result. */
  function Raw(r: Reading): int { Total(r.ts, NANOSECONDS) }

  function Uncut(r: Reading): int { Full(r.ts, r.rand, r.fuzz) }

  /** b is a reading that may follow a. */
  predicate Follows(a: Reading, b: Reading)
  {
    && Raw(a) + b.fuzz <= Raw(b)
    && (a.fuzz <= b.fuzz ==> Uncut(a) <= Uncut(b))
    && (Advance(a.ts, b.ts) >= FuzzUnits(MAX_RANDOM, a.fuzz) ==> Uncut(a) <= Uncut(b))
  }

  predicate Advancing(t: seq<Reading>)
  {
    forall i :: 0 < i < |t| && !t[i].forced ==> Follows(t[i - 1], t[i])
  }

  lemma {:induction false} HeadFollows(s: Reader, es: seq<Event>)
    requires NormalReadings(es)
    ensures var t := Run(s, es);
            t != [] && !t[0].forced ==> Total(s.tsPrev, NANOSECONDS) + t[0].fuzz <= Raw(t[0])
    decreases |es|
  {
    hide Total, Accepted;
    if es != [] {
      match es[0]
      case Step(back) => HeadFollows(s.(violated := back), es[1..]);
      case SetFuzz(fuzz) => HeadFollows(s.(fuzz := fuzz), es[1..]);
      case Read(ts, rand) =>
        assert es[0] in es;
        AcceptedReading(s, ts);
    }
  }

  /** In every run, each reading that is not the first after a backward step lies at
      least the fuzz after the one before it.  Its result is not earlier if the fuzz was
      not lowered in between, or the clock has made up for the former fuzz. */
  lemma {:induction false} RunAdvances(s: Reader, es: seq<Event>)
    requires NormalReadings(es)
    ensures Advancing(Run(s, es))
    decreases |es|
  {
    hide Total, Accepted, Full, Advancing, Advance, FuzzUnits;
    if es == [] {
      EmptyAdvances();
    } else {
      match es[0]
      case Step(back) => RunAdvances(s.(violated := back), es[1..]);
      case SetFuzz(fuzz) => RunAdvances(s.(fuzz := fuzz), es[1..]);
      case Read(ts, rand) =>
        var a := Accepted(s, ts);
        EmptyAdvances();
        if a.Some? {
          var r := ReadingOf(s, a.value, rand);
          var rest := Run(After(s, r), es[1..]);
          RunAdvances(After(s, r), es[1..]);
          HeadFollows(After(s, r), es[1..]);
          if rest != [] && !rest[0].forced {
            var b := rest[0];
            if r.fuzz <= b.fuzz {
              FullMonotone(r.ts, r.rand, r.fuzz, b.ts, b.rand, b.fuzz);
            }
            NeverEarlier(r.ts, r.fuzz, b.ts, b.fuzz);
          }
          Prepended(r, rest);
        }
    }
  }

  /** A run in which lowering the fuzz makes a result earlier. */
  lemma LoweredFuzz()
    ensures var five := Interval(5, 0);
            var es := [Read(five, MAX_RANDOM)] + ([SetFuzz(0)] + ([Read(five, 0)] + []));
            var t := Run(Reader(Interval(0, 0), false, NANOSECONDS), es);
            && t == [Reading(five, MAX_RANDOM, NANOSECONDS, false), Reading(five, 0, 0, false)]
            && Uncut(t[1]) < Uncut(t[0])
  {
    hide Run, Accepted, Full, Total;
    var five, s := Interval(5, 0), Reader(Interval(0, 0), false, NANOSECONDS);
    var s1, s2 := Reader(five, false, NANOSECONDS), Reader(five, false, 0);
    Totals(five);
    AsRead(s, five);
    AsRead(s2, five);
    RunStep(s, Read(five, MAX_RANDOM), [SetFuzz(0)] + ([Read(five, 0)] + []));
    RunStep(s1, SetFuzz(0), [Read(five, 0)] + []);
    RunStep(s2, Read(five, 0), []);
    LargestFuzz(five);
  }

  lemma Totals(x: Interval)
    ensures Total(x, NANOSECONDS) == NANOSECONDS * x.sec + x.frac && Total(Interval(0, 0), NANOSECONDS) == 0
  {
  }

  lemma RunStep(s: Reader, e: Event, es: seq<Event>)
    ensures Run(s, []) == []
    ensures e.SetFuzz? ==> Run(s, [e] + es) == Run(s.(fuzz := e.fuzz), es)
    ensures e.Read? && Accepted(s, e.ts) == Some(e.ts) ==>
              var r := ReadingOf(s, e.ts, e.rand); Run(s, [e] + es) == [r] + Run(After(s, r), es)
  {
    hide Accepted;
    assert ([e] + es)[1..] == es;
  }

  /** A reading not before the earliest permissible one is used as it is. */
  lemma AsRead(s: Reader, ts: Interval)
    requires Normal(ts, NANOSECONDS) && Total(s.tsPrev, NANOSECONDS) + s.fuzz <= Total(ts, NANOSECONDS)
    ensures Accepted(s, ts) == Some(ts)
  {
    hide PlusFraction, Compare, Total;
    ArithmeticOnTotals(s.tsPrev, ts, s.fuzz, NANOSECONDS);
    CompareNormal(ts, PlusFraction(s.tsPrev, s.fuzz, NANOSECONDS), NANOSECONDS);
  }

  lemma LargestFuzz(ts: Interval)
    ensures Full(ts, 0, 0) < Full(ts, MAX_RANDOM, NANOSECONDS)
  {
    hide NearestFraction, Total;
    NoFuzz(0);
    DivModUnique(2 * MAX_RANDOM * NANOSECONDS, NANOSECONDS, 2 * MAX_RANDOM, 0);
  }

  lemma EmptyAdvances()
    ensures Advancing([])
  {
  }

  lemma Prepended(r: Reading, rest: seq<Reading>)
    requires rest != [] && !rest[0].forced ==> Follows(r, rest[0])
    requires Advancing(rest)
    ensures Advancing([r] + rest)
  {
    hide Follows;
    var t := [r] + rest;
    forall i | 0 < i < |t| && !t[i].forced
      ensures Follows(t[i - 1], t[i])
    {
      assert t[i] == rest[i - 1];
      assert i > 1 ==> t[i - 1] == rest[i - 2];
    }
  }

  /** Results are uncut values in 64 bits, so within one era they are ordered as the
      uncut ones are, and a result that is not later than the last is equal to it. */
  lemma EraOrdered(a: Reading, b: Reading)
    requires Follows(a, b) && a.fuzz <= b.fuzz && 0 <= Uncut(a) && Uncut(b) < TWO64
    ensures Result(a).Value() <= Result(b).Value()
    ensures !IsGtU(Result(b), Result(a)) ==> Result(b) == Result(a)
  {
    hide Fuzzed, Full, U64;
    FuzzedValue(a.ts, a.rand, a.fuzz);
    FuzzedValue(b.ts, b.rand, b.fuzz);
    Wrap64(Uncut(a), 0);
    Wrap64(Uncut(b), 0);
  }

  /** Over any stretch without a backward step or a lowered fuzz, j - i readings take
      at least (j - i) times the fuzz, and no result is earlier than any before it. */
  lemma {:induction false} StretchOrdered(s: Reader, es: seq<Event>, i: nat, j: nat)
    requires NormalReadings(es) && i <= j < |Run(s, es)|
    requires forall k :: i < k <= j ==> !Run(s, es)[k].forced && Run(s, es)[k - 1].fuzz <= Run(s, es)[k].fuzz
    ensures var t := Run(s, es);
            Raw(t[i]) + (j - i) * t[i].fuzz <= Raw(t[j]) && Uncut(t[i]) <= Uncut(t[j]) && t[i].fuzz <= t[j].fuzz
    decreases j - i
  {
    hide Run, Raw, Uncut;
    RunAdvances(s, es);
    if i < j {
      StretchOrdered(s, es, i, j - 1);
      var t := Run(s, es);
      assert Follows(t[j - 1], t[j]);
      OneMore(Raw(t[i]), j - i, t[i].fuzz);
    }
  }

  lemma OneMore(x: int, n: int, f: int)
    ensures x + n * f == x + (n - 1) * f + f
  {
  }

  /** At most one reading per backward step is exempt. */
  function Forced(t: seq<Reading>): nat
  { if t == [] then 0 else (if t[0].forced then 1 else 0) + Forced(t[1..]) }

  function StepsBack(es: seq<Event>): nat
  { if es == [] then 0 else (if es[0].Step? && es[0].back then 1 else 0) + StepsBack(es[1..]) }

  lemma {:induction false} FewForced(s: Reader, es: seq<Event>)
    ensures Forced(Run(s, es)) <= StepsBack(es) + if s.violated then 1 else 0
    decreases |es|
  {
    hide Accepted;
    if es != [] {
      match es[0]
      case Step(back) => FewForced(s.(violated := back), es[1..]);
      case SetFuzz(fuzz) => FewForced(s.(fuzz := fuzz), es[1..]);
      case Read(ts, rand) =>
        var a := Accepted(s, ts);
        if a.Some? {
          var r := ReadingOf(s, a.value, rand);
          FewForced(After(s, r), es[1..]);
          assert Run(s, es)[1..] == Run(After(s, r), es[1..]);
        }
    }
  }

  // -------------------------------------------------------------- slewing

  /** What adj_systime hands to adjtime, and the residue it keeps. */
  datatype Slew = Slew(sec: int, usec: int, residual: real)

  function Applied(a: Slew): real { a.sec as real + a.usec as real / 1e6 }

  function Quantum(tick: real, fuzz: real): (q: real)
    requires fuzz >= 0.0
    ensures q > 0.0
  { if tick > fuzz then tick else 1e-6 }

  /** Microseconds nearest to `rest` seconds among the multiples of the quantum. */
  function Microseconds(rest: real, quant: real): int
    requires quant > 0.0
  {
    var ticks := (rest / quant + 0.5).Floor;
    (Quanta(ticks as real, quant) * 1e6).Floor
  }

  function Quanta(n: real, quant: real): real { n * quant }

  function SlewOf(total: real, quant: real): Slew
    requires quant > 0.0
  {
    var isneg := total < 0.0;
    var d := if isneg then -total else total;
    var sec := d.Floor;
    var rest := d - sec as real;
    var usec := Microseconds(rest, quant);
    var residual := rest - usec as real / 1e6;
    if isneg then Slew(-sec, -usec, -residual) else Slew(sec, usec, residual)
  }

  /** What the rounding is meant to give: the whole seconds, towards zero; of the rest, the
      multiple of the quantum nearest to it, halves up, in whole microseconds; and a
      residue that leaves nothing out. */
  ghost predicate IsSlew(total: real, quant: real, a: Slew)
    requires quant > 0.0
  {
    && (if total < 0.0 then IsSplit(-total, quant, -a.sec, -a.usec) else IsSplit(total, quant, a.sec, a.usec))
    && Applied(a) + a.residual == total
  }

  ghost predicate IsSplit(d: real, quant: real, sec: int, usec: int)
    requires quant > 0.0
  {
    && sec as real <= d < sec as real + 1.0
    && exists n: int :: IsRounding(n, d, sec, quant, usec)
  }

  /** The n-th multiple of the quantum is nearest to what d has beyond whole seconds, and
      usec its microseconds. */
  predicate IsRounding(n: int, d: real, sec: int, quant: real, usec: int)
    requires quant > 0.0
  {
    var rest := d - sec as real;
    && rest / quant - 0.5 < n as real <= rest / quant + 0.5
    && usec as real <= Quanta(n as real, quant) * 1e6 < usec as real + 1.0
  }

  /** That determines the split. */
  lemma SlewIsUnique(total: real, quant: real, a: Slew)
    requires quant > 0.0
    ensures IsSlew(total, quant, a) <==> a == SlewOf(total, quant)
  {
    hide IsSlew, SlewOf;
    SlewOfIsSlew(total, quant);
    if IsSlew(total, quant, a) {
      SameSlew(total, quant, a, SlewOf(total, quant));
    }
  }

  lemma SlewOfIsSlew(total: real, quant: real)
    requires quant > 0.0
    ensures IsSlew(total, quant, SlewOf(total, quant))
  {
    hide IsSplit, Microseconds;
    var d := if total < 0.0 then -total else total;
    SplitIs(d, quant, d.Floor, Microseconds(d - d.Floor as real, quant));
    SlewExact(total, quant);
    hide Applied;
  }

  lemma SameSlew(total: real, quant: real, a: Slew, b: Slew)
    requires quant > 0.0 && IsSlew(total, quant, a) && IsSlew(total, quant, b)
    ensures a == b
  {
    hide IsSplit, Microseconds;
    var d := if total < 0.0 then -total else total;
    SplitIs(d, quant, if total < 0.0 then -a.sec else a.sec, if total < 0.0 then -a.usec else a.usec);
    SplitIs(d, quant, if total < 0.0 then -b.sec else b.sec, if total < 0.0 then -b.usec else b.usec);
    SameParts(a, b);
    hide Applied;
  }

  lemma SplitIs(d: real, quant: real, sec: int, usec: int)
    requires quant > 0.0
    ensures IsSplit(d, quant, sec, usec) <==> sec == d.Floor && usec == Microseconds(d - d.Floor as real, quant)
  {
    hide Microseconds, IsRounding;
    RoundingIs(d, quant, usec);
    if IsSplit(d, quant, sec, usec) {
      FloorIs(d, sec);
    }
  }

  lemma SameParts(a: Slew, b: Slew)
    requires a.sec == b.sec && a.usec == b.usec
    ensures Applied(a) == Applied(b)
  {
  }

  lemma RoundingIs(d: real, quant: real, usec: int)
    requires quant > 0.0
    ensures (exists n: int :: IsRounding(n, d, d.Floor, quant, usec))
       <==> usec == Microseconds(d - d.Floor as real, quant)
  {
    hide Quanta;
    var rest := d - d.Floor as real;
    var q := rest / quant;
    var ticks := (q + 0.5).Floor;
    if usec == Microseconds(rest, quant) {
      assert IsRounding(ticks, d, d.Floor, quant, usec);
    }
    forall n: int | IsRounding(n, d, d.Floor, quant, usec)
      ensures usec == Microseconds(rest, quant)
    {
      FloorIs(q + 0.5, n);
      FloorIs(Quanta(ticks as real, quant) * 1e6, usec);
    }
  }

  lemma FloorIs(x: real, n: int)
    requires n as real <= x < n as real + 1.0
    ensures n == x.Floor
  {
  }

  /** Nothing is lost between the part handed over and the residue, which is at most
      half a quantum and a microsecond. */
  lemma SlewExact(total: real, quant: real)
    requires quant > 0.0
    ensures var a := SlewOf(total, quant);
            && Applied(a) + a.residual == total
            && -(quant / 2.0 + 1e-6) <= a.residual <= quant / 2.0 + 1e-6
  {
    hide Microseconds;
    var d := if total < 0.0 then -total else total;
    RestBound(d - d.Floor as real, quant);
  }

  lemma RestBound(rest: real, quant: real)
    requires quant > 0.0
    ensures -quant / 2.0 <= rest - Microseconds(rest, quant) as real / 1e6 <= quant / 2.0 + 1e-6
  {
    hide Quanta;
    var q := rest / quant;
    var t := (q + 0.5).Floor as real;
    QuantumError(rest, quant, t);
    Micro(Quanta(t, quant));
  }

  /** The two parts have one sign, so they do not cancel. */
  lemma NothingApplied(total: real, quant: real)
    requires quant > 0.0
    ensures var a := SlewOf(total, quant); Applied(a) == 0.0 <==> a.sec == 0 && a.usec == 0
  {
    var d := if total < 0.0 then -total else total;
    NoNegativePart(d - d.Floor as real, quant);
    hide Microseconds;
  }

  lemma NoNegativePart(rest: real, quant: real)
    requires rest >= 0.0 && quant > 0.0
    ensures Microseconds(rest, quant) >= 0
  {
    hide Quanta;
    var q := rest / quant;
    RealMono(quant, 0.0, (q + 0.5).Floor as real);
    assert Quanta(0.0, quant) == 0.0 by { NoQuanta(quant); }
  }

  lemma NoQuanta(quant: real)
    ensures Quanta(0.0, quant) == 0.0
  {
  }

  lemma Micro(x: real)
    ensures x - 1e-6 <= (x * 1e6).Floor as real / 1e6 <= x
  {
  }

  lemma QuantumError(rest: real, quant: real, ticks: real)
    requires quant > 0.0 && rest / quant - 0.5 <= ticks <= rest / quant + 0.5
    ensures rest - quant / 2.0 <= Quanta(ticks, quant) <= rest + quant / 2.0
  {
    var q := rest / quant;
    assert q * quant == rest;
    assert (q - 0.5) * quant == rest - quant / 2.0;
    assert (q + 0.5) * quant == rest + quant / 2.0;
    RealMono(quant, q - 0.5, ticks);
    RealMono(quant, ticks, q + 0.5);
  }

  lemma RealMono(c: real, x: real, y: real)
    requires c > 0.0 && x <= y
    ensures x * c <= y * c && Quanta(x, c) <= Quanta(y, c)
  {
  }

  /** Rounding to whole quanta; the residue is what rounding left over. */
  method Quantize(total: real, quant: real) returns (adjtv: Slew)
    requires quant > 0.0
    ensures IsSlew(total, quant, adjtv)
    ensures -(quant / 2.0 + 1e-6) <= adjtv.residual <= quant / 2.0 + 1e-6
  {
    var dtemp, isneg := total, false;
    if dtemp < 0.0 {
      isneg := true;
      dtemp := -dtemp;
    }
    var sec := dtemp.Floor;
    dtemp := dtemp - sec as real;
    var ticks := (dtemp / quant + 0.5).Floor;
    var usec := (ticks as real * quant * 1e6).Floor;
    assert usec == Microseconds(dtemp, quant);
    hide Microseconds;
    dtemp := dtemp - usec as real / 1e6;
    var residual := dtemp;
    if isneg {
      sec, usec := -sec, -usec;
      residual := -residual;
    }
    adjtv := Slew(sec, usec, residual);
    assert adjtv == SlewOf(total, quant);
    hide SlewOf, IsSlew;
    SlewIsUnique(total, quant, adjtv);
    SlewExact(total, quant);
  }

  class Clock {
    var reader: Reader
    var lfpPrev: Wide
    var residual: real
    var tick: real
    /** Sums over all calls: requested of adj_systime, done by adjtime, refused by it. */
    ghost var requested: real
    ghost var applied: real
    ghost var refused: real

    ghost predicate Balanced()
      reads this
    {
      applied + refused + residual == requested
    }

    function SysFuzz(): (f: real)
      reads this
      ensures f >= 0.0
    { reader.fuzz as real / 1e9 }

    constructor ()
      ensures reader == Reader(Interval(0, 0), false, 0) && lfpPrev == Wide(0, 0) && Balanced()
      ensures residual == 0.0 && tick == 0.0 && requested == 0.0 && applied == 0.0 && refused == 0.0
    {
      reader, lfpPrev := Reader(Interval(0, 0), false, 0), Wide(0, 0);
      residual, tick := 0.0, 0.0;
      requested, applied, refused := 0.0, 0.0, 0.0;
    }

    /** get_systime; None is the exit of the program.  logged: a result that is not
        later than the previous one is reported. */
    method GetSystime(os: Interval, rand: Random) returns (now: Option<Wide>, logged: bool)
      modifies `reader, `lfpPrev
      ensures var a := Accepted(old(reader), os);
              && now == (if a.None? then None else Some(Fuzzed(a.value, rand, old(reader.fuzz))))
              && reader == (if a.None? then old(reader) else After(old(reader), ReadingOf(old(reader), a.value, rand)))
      ensures lfpPrev == if now.None? then old(lfpPrev) else now.value
      ensures logged <==> now.Some? && old(lfpPrev) != Wide(0, 0) && !old(reader.violated)
                          && !IsGtU(now.value, old(lfpPrev)) && old(reader.fuzz) > 0
    {
      hide Stamp, Dfuzz, RealToLfp, Add, PlusFraction, Minus, Compare;
      logged := false;
      var ts := os;
      var tsMin := PlusFraction(reader.tsPrev, reader.fuzz, NANOSECONDS);
      if Compare(ts, tsMin) < 0 {
        var tsLam := Minus(tsMin, ts, NANOSECONDS);
        if tsLam.sec > 0 && !reader.violated {
          return None, false;
        }
        if !reader.violated {
          ts := tsMin;
        }
      }
      reader := reader.(tsPrev := ts);
      var result := Stamp(ts);
      FuzzIsTruncated(rand, reader.fuzz);
      var lfpFuzz := RealToLfp(Dfuzz(rand, reader.fuzz));
      result := Add(result, lfpFuzz);
      if lfpPrev != Wide(0, 0) && !reader.violated {
        logged := !IsGtU(result, lfpPrev) && reader.fuzz > 0;
      }
      lfpPrev := result;
      if reader.violated {
        reader := reader.(violated := false);
      }
      now := Some(result);
    }

    /** adj_systime; adjtime says whether the system call succeeds.  What was asked for
        reaches the clock or the residue exactly when the call succeeds: a failing one
        loses its part, the residue having been updated by then. */
    method AdjSystime(now: real, adjtime: bool) returns (ok: bool)
      requires Balanced()
      modifies `residual, `requested, `applied, `refused
      ensures Balanced() && requested == old(requested) + now
      ensures now == 0.0 ==> ok && unchanged(`residual) && unchanged(`applied) && unchanged(`refused)
      ensures now != 0.0 ==>
                var quant := if tick > reader.fuzz as real / 1e9 then tick else 0.000001;
                var a := SlewOf(now + old(residual), quant);
                && residual == a.residual
                && (ok <==> adjtime || (a.sec == 0 && a.usec == 0))
                && applied == old(applied) + (if ok then Applied(a) else 0.0)
                && refused == old(refused) + (if ok then 0.0 else Applied(a))
      ensures applied + residual == old(applied + residual) + now <==> ok
    {
      hide SlewOf, Applied, IsSlew;
      requested := requested + now;
      if now == 0.0 {
        return true;
      }
      var quant := Quantum(tick, SysFuzz());
      SlewExact(now + residual, quant);
      var adjtv := Quantize(now + residual, quant);
      SlewIsUnique(now + residual, quant, adjtv);
      NothingApplied(now + residual, quant);
      residual := adjtv.residual;
      if adjtv.sec != 0 || adjtv.usec != 0 {
        if !adjtime {
          refused := refused + Applied(adjtv);
          return false;
        }
      }
      applied := applied + Applied(adjtv);
      return true;
    }
  }

  /** A second refused to a new clock: neither done nor kept for the next call. */
  method LostAdjustment() returns (clock: Clock, ok: bool)
    ensures !ok && clock.requested == 1.0 && clock.applied == 0.0 && clock.residual == 0.0 && clock.refused == 1.0
  {
    clock := new Clock();
    WholeSecond();
    ok := clock.AdjSystime(1.0, false);
  }

  lemma WholeSecond()
    ensures SlewOf(1.0, Quantum(0.0, 0.0)) == Slew(1, 0, 0.0) && Applied(Slew(1, 0, 0.0)) == 1.0
  {
    hide Quanta;
    var q := Quantum(0.0, 0.0);
    assert (0.0 / q + 0.5).Floor == 0;
    NoQuanta(q);
  }
}
