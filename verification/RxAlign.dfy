/** The digital path of the RFIC loopback: pattern generator, 12-bit double-data-rate wire, alignment registers
    and pattern checker, clock cycle by clock cycle. */
module RxAlign {
  import opened Bits

  /** Values of one half word on the wire: the data outputs are 12 bits wide. */
  const HALF := 4096
  const COUNT_END := HALF * HALF
  const ERRORS_END := 0x1_0000_0000

  /** A transmitted word: two 16-bit halves, and the frame bit, the same for both halves. */
  datatype Word = Word(lo: nat, hi: nat, frame: bool)

  /** What a half-cycle of the wire carries. */
  datatype Half = Half(data: nat, frame: bool)

  /** The two samples an input register delivers in one cycle. */
  datatype Pair = Pair(first: Half, second: Half)

  // ----- the wire -----

  /** The wire in half-cycle `i`; `word(n)` is the word of cycle `n`, over an unbounded past. */
  function Slot(word: int -> Word, i: int): Half {
    var w := word(i / 2);
    Half((if i % 2 == 0 then w.lo else w.hi) % HALF, w.frame)
  }

  function First(w: Word): Half {
    Half(w.lo % HALF, w.frame)
  }

  function Second(w: Word): Half {
    Half(w.hi % HALF, w.frame)
  }

  /** The pair sampled in cycle `t`, `lag` cycles after it was sent; a late sampler starts in the middle of a word. */
  function Sampled(word: int -> Word, t: int, lag: nat, late: bool): Pair {
    if late then Pair(Second(word(t - lag - 1)), First(word(t - lag)))
    else Pair(First(word(t - lag)), Second(word(t - lag)))
  }

  /** The samples are two consecutive half-cycles of the wire, the late ones shifted by one. */
  lemma SampledSlots(word: int -> Word, t: int, lag: nat, late: bool)
    ensures var i := 2 * (t - lag) - (if late then 1 else 0);
      Sampled(word, t, lag, late) == Pair(Slot(word, i), Slot(word, i + 1))
  {
    SlotsOf(word, t - lag);
    SlotsOf(word, t - lag - 1);
  }

  lemma SlotsOf(word: int -> Word, n: int)
    ensures Slot(word, 2 * n) == First(word(n)) && Slot(word, 2 * n + 1) == Second(word(n))
  {
    assert 2 * n / 2 == n && (2 * n + 1) / 2 == n;
  }

  /** The 12-bit halves of a word that survive the wire. */
  function Carried(w: Word): Word {
    Word(w.lo % HALF, w.hi % HALF, w.frame)
  }

  // ----- alignment -----

  class Aligner {
    var frame1D: bool
    var data1D: nat
    var frame0: bool
    var frame1: bool
    var lo: nat
    var hi: nat

    constructor (frame1D: bool, data1D: nat)
      ensures this.frame1D == frame1D && this.data1D == data1D
    {
      this.frame1D, this.data1D := frame1D, data1D;
      frame0, frame1, lo, hi := *, *, *, *;
    }

    /** The registers hold `w`, both halves of it. */
    predicate Holds(w: Word)
      reads this
    {
      lo == w.lo && hi == w.hi && frame0 == w.frame && frame1 == w.frame
    }

    /** One clock edge with the samples `q`. */
    method Tick(q: Pair)
      modifies this
      ensures frame1D == q.second.frame && data1D == q.second.data
      ensures if q.first.frame == q.second.frame
        then Half(lo, frame0) == q.first && Half(hi, frame1) == q.second
        else Half(lo, frame0) == Half(old(data1D), old(frame1D)) && Half(hi, frame1) == q.first
    {
      if q.first.frame == q.second.frame {
        frame0, frame1, lo, hi := q.first.frame, q.second.frame, q.first.data, q.second.data;
      } else {
        frame0, frame1, lo, hi := frame1D, q.first.frame, data1D, q.first.data;
      }
      frame1D, data1D := q.second.frame, q.second.data;
    }

    /** One clock edge on the stream `word`, after an edge on its previous samples. The registers then hold a
        transmitted word, exactly if the frame bit changed or the sampler was not late, or the misplaced halves
        happen to agree. */
    method Follow(word: int -> Word, t: int, lag: nat, late: bool)
      requires frame1D == Sampled(word, t - 1, lag, late).second.frame && data1D == Sampled(word, t - 1, lag, late).second.data
      modifies this
      ensures frame1D == Sampled(word, t, lag, late).second.frame && data1D == Sampled(word, t, lag, late).second.data
      ensures Holds(Carried(word(t - Latency(lag, late)))) <==>
        !late || word(t - lag - 1).frame != word(t - lag).frame || Blended(word, t - lag)
    {
      Tick(Sampled(word, t, lag, late));
    }
  }

  /** Cycles between the sending of a word and the edge that registers it. */
  function Latency(lag: nat, late: bool): nat {
    lag + (if late then 1 else 0)
  }

  /** Reading the second half of word `n - 1` and the first half of word `n` as one word gives word `n - 1`. */
  predicate Blended(word: int -> Word, n: int) {
    var a, b := Carried(word(n - 1)), Carried(word(n));
    a.lo == a.hi && a.hi == b.lo
  }

  predicate Alternates(word: int -> Word, n: int) {
    word(n).frame != word(n + 1).frame
  }

  /** The aligner on any stream whose frame bit alternates: after two edges every word comes out, in order, with
      a latency that depends on the sampling phase only. */
  method Receive(a: Aligner, word: int -> Word, lag: nat, late: bool, cycles: nat) returns (out: seq<Word>)
    requires forall n: int {:trigger Alternates(word, n)} :: Alternates(word, n)
    modifies a
    ensures |out| == cycles
    ensures forall t :: 1 <= t < cycles ==> out[t] == Carried(word(t - Latency(lag, late)))
  {
    out := [];
    var t := 0;
    while t < cycles
      invariant |out| == t <= cycles
      invariant t > 0 ==> Half(a.data1D, a.frame1D) == Sampled(word, t - 1, lag, late).second
      invariant forall k :: 1 <= k < t ==> out[k] == Carried(word(k - Latency(lag, late)))
    {
      if t == 0 {
        a.Tick(Sampled(word, t, lag, late));
      } else {
        assert Alternates(word, t - lag - 1);
        a.Follow(word, t, lag, late);
      }
      out := out + [Word(a.lo, a.hi, a.frame0)];
      t := t + 1;
    }
  }

  // ----- generator and checker -----

  /** The two halves of a 24-bit count. */
  function Split(count: nat, frame: bool): Word {
    Word(count % HALF, count / HALF % HALF, frame)
  }

  /** `Cat(data[0:12], data[16:28])`. */
  function Joined(lo: nat, hi: nat): nat {
    lo % HALF + HALF * (hi % HALF)
  }

  lemma JoinedSplit(count: nat, frame: bool)
    requires count < COUNT_END
    ensures var w := Split(count, frame); Carried(w) == w && Joined(w.lo, w.hi) == count
  {
    assert count / HALF < HALF;
  }

  /** Successor of a count. */
  function Next(count: nat): nat {
    (count + 1) % COUNT_END
  }

  class Generator {
    var count: nat
    var data: Word

    predicate Valid()
      reads this
    {
      count < COUNT_END
    }

    constructor (count: nat, data: Word)
      requires count < COUNT_END
      ensures Valid() && this.count == count && this.data == data
    {
      this.count, this.data := count, data;
    }

    method Tick(enable: bool)
      requires Valid()
      modifies this
      ensures Valid() && count == if enable then Next(old(count)) else 0
      ensures data == Split(old(count), !old(data.frame))
      // the low twelve bits go first
      ensures old(count) == data.lo + 4096 * data.hi && data.lo < 4096
    {
      data := Split(count, !data.frame);
      if !enable {
        count := 0;
      } else {
        count := (count + 1) % COUNT_END;
      }
    }
  }

  class Checker {
    /** The increment is compared with 25 bits, as the expression's own width has it, rather than with the 24
        bits of its operands. */
    const wide: bool
    var count: nat
    var errors: nat

    predicate Valid()
      reads this
    {
      count < COUNT_END && errors < ERRORS_END
    }

    constructor (wide: bool)
      ensures Valid() && this.wide == wide
    {
      this.wide := wide;
      count, errors := 0, 0;
    }

    /** A word counts as an error if it is not the successor of the last one; with the wide comparison zero never
        is. Nothing is counted, and the errors so far are forgotten, while the checker is disabled. */
    method Tick(enable: bool, lo: nat, hi: nat)
      requires Valid()
      modifies this
      ensures Valid() && count == Joined(lo, hi) && count % 4096 == lo % 4096 && count / 4096 == hi % 4096
      ensures errors == if !enable then 0
        else if count == Next(old(count)) && !(wide && count == 0) then old(errors) else (old(errors) + 1) % ERRORS_END
    {
      var countError := Joined(lo, hi) != if wide then count + 1 else (count + 1) % COUNT_END;
      if !enable {
        errors := 0;
      } else if countError {
        errors := (errors + 1) % ERRORS_END;
      }
      count := lo % HALF + HALF * (hi % HALF);
    }
  }

  // ----- the loop closed -----

  /** Word `n` of a transmission that began in cycle 0. */
  function Sent(past: int -> Word, sent: seq<Word>, n: int): Word {
    if 0 <= n < |sent| then sent[n] else past(n)
  }

  function Wire(past: int -> Word, sent: seq<Word>): int -> Word {
    n => Sent(past, sent, n)
  }

  /** What was sampled before the newest word was sent does not depend on it. */
  lemma Wired(past: int -> Word, sent: seq<Word>, w: Word, t: int, lag: nat, late: bool)
    requires t < |sent|
    ensures Sampled(Wire(past, sent), t, lag, late) == Sampled(Wire(past, sent + [w]), t, lag, late)
  {}

  /** What the generator sends in cycle `n`, enabled since cycle 0 with the count at `c`. */
  function Pattern(c: nat, n: nat): nat {
    (c + n) % COUNT_END
  }

  lemma PatternNext(c: nat, n: nat)
    ensures Pattern(c, n + 1) == Next(Pattern(c, n)) && Pattern(c, n) < COUNT_END
  {}

  /** Words sent since cycle 0: the count from `c` on, with an alternating frame bit, after whatever was in the
      data register. */
  ghost predicate Counts(sent: seq<Word>, c: nat) {
    && (forall k {:trigger sent[k]} :: 1 <= k < |sent| ==> sent[k] == Split(Pattern(c, k - 1), sent[k].frame))
    && (forall k {:trigger Toggles(sent, k)} :: 0 <= k < |sent| - 1 ==> Toggles(sent, k))
  }

  lemma CountsGrow(sent: seq<Word>, w: Word, c: nat)
    requires sent != [] && Counts(sent, c) && w == Split(Pattern(c, |sent| - 1), !sent[|sent| - 1].frame)
    ensures Counts(sent + [w], c)
  {
    var line := sent + [w];
    forall k {:trigger Toggles(line, k)} | 0 <= k < |line| - 1 ensures Toggles(line, k) {
      assert k < |sent| - 1 ==> Toggles(sent, k);
    }
  }

  predicate Toggles(sent: seq<Word>, k: nat)
    requires k + 1 < |sent|
  {
    sent[k].frame != sent[k + 1].frame
  }

  /** The first cycle whose received word and its predecessor are both counts. */
  function Steady(lag: nat, late: bool): nat {
    Latency(lag, late) + 3
  }

  /** The clock edge that ends the cycle of the newest word sent, at the aligner. */
  method ReceiveCount(a: Aligner, past: int -> Word, sent: seq<Word>, lag: nat, late: bool, ghost c: nat)
    requires |sent| > 0 && Counts(sent, c)
    requires |sent| > 1 ==> Half(a.data1D, a.frame1D) == Sampled(Wire(past, sent), |sent| - 2, lag, late).second
    modifies a
    ensures Half(a.data1D, a.frame1D) == Sampled(Wire(past, sent), |sent| - 1, lag, late).second
    ensures |sent| > Latency(lag, late) + 1 ==> a.Holds(Split(Pattern(c, |sent| - 2 - Latency(lag, late)), a.frame0))
  {
    var t := |sent| - 1;
    if t == 0 {
      a.Tick(Sampled(Wire(past, sent), t, lag, late));
    } else {
      a.Follow(Wire(past, sent), t, lag, late);
      ghost var n := t - Latency(lag, late);
      if n >= 1 {
        assert Toggles(sent, t - lag - 1);
        assert a.Holds(Carried(sent[n]));
        JoinedSplit(Pattern(c, n - 1), sent[n].frame);
      }
    }
  }

  /** The clock edge at the checker, in a cycle in which the aligner holds the `r`-th count sent. The checker takes the
      aligner's word only while it is enabled, and zero otherwise; `prev` says whether it was in the cycle before. */
  method CheckCount(checker: Checker, a: Aligner, prev: bool, enable: bool, ghost c: nat, ghost r: int)
    requires checker.Valid()
    requires r >= 0 ==> a.Holds(Split(Pattern(c, r), a.frame0))
    requires if prev then r >= 1 ==> checker.count == Pattern(c, r - 1) else checker.count == 0
    modifies checker
    ensures checker.Valid()
    ensures if enable then r >= 0 ==> checker.count == Pattern(c, r) else checker.count == 0 && checker.errors == 0
    ensures r >= 1 || (r == 0 && !prev) ==> Adds(old(checker.errors), checker.errors, prev, enable, checker.wide, Pattern(c, r))
  {
    if r >= 0 {
      JoinedSplit(Pattern(c, r), a.frame0);
    }
    if r >= 1 {
      PatternNext(c, r - 1);
    }
    var lo, hi := if enable then a.lo else 0, if enable then a.hi else 0;
    checker.Tick(enable, lo, hi);
  }

  /** The loop before cycle `|sent|`, in which the data register is sent; the count was `c` in cycle 0. */
  ghost predicate Aligned(gen: Generator, a: Aligner, checker: Checker, past: int -> Word, sent: seq<Word>, lag: nat, late: bool, prev: bool, c: nat)
    reads gen, a, checker
  {
    var t := |sent|;
    && gen.Valid() && gen.count == Pattern(c, t) && checker.Valid()
    && Counts(sent + [gen.data], c)
    && (t > 0 ==> Half(a.data1D, a.frame1D) == Sampled(Wire(past, sent), t - 1, lag, late).second)
    && (t > Latency(lag, late) + 1 ==> a.Holds(Split(Pattern(c, t - 2 - Latency(lag, late)), a.frame0)))
    && (prev && t > Latency(lag, late) + 2 ==> checker.count == Pattern(c, t - 3 - Latency(lag, late)))
    && (!prev ==> checker.count == 0)
  }

  /** One cycle of the whole loop. */
  method Cycle(gen: Generator, a: Aligner, checker: Checker, past: int -> Word, sent: seq<Word>, lag: nat, late: bool, prev: bool, enable: bool,
               ghost c: nat)
    requires Aligned(gen, a, checker, past, sent, lag, late, prev, c)
    modifies gen, a, checker
    ensures Aligned(gen, a, checker, past, sent + [old(gen.data)], lag, late, enable, c)
    ensures !enable ==> checker.errors == 0
    ensures |sent| >= Steady(lag, late) || (|sent| == Steady(lag, late) - 1 && !prev) ==>
      Adds(old(checker.errors), checker.errors, prev, enable, checker.wide, Pattern(c, |sent| + 1 - Steady(lag, late)))
  {
    var longer := sent + [gen.data];
    Wired(past, sent, gen.data, |sent| - 1, lag, late);
    CheckCount(checker, a, prev, enable, c, |sent| - Steady(lag, late) + 1);
    ReceiveCount(a, past, longer, lag, late, c);
    gen.Tick(true);
    PatternNext(c, |sent|);
    CountsGrow(longer, gen.data, c);
  }

  /** How the error register goes from `before` to `after` in a cycle that receives the count `received`. In the first
      enabled cycle it is compared with the successor of zero, later with that of the count before it. */
  predicate Adds(before: nat, after: nat, prev: bool, enabled: bool, wide: bool, received: nat) {
    after == if !enabled then 0 else if Mismatch(prev, wide, received) then (before + 1) % ERRORS_END else before
  }

  predicate Mismatch(prev: bool, wide: bool, received: nat) {
    if prev then wide && received == 0 else received != 1
  }

  /** Whether the checker was enabled in the cycle before `t`; before cycle 0 it does not matter. */
  function Before(on: nat -> bool, t: nat): bool {
    if t == 0 then true else on(t - 1)
  }

  /** Cycle `t` of a history of the error register, which is zero after a disabled cycle, and known from `Steady` on. */
  ghost predicate CycleOk(errs: seq<nat>, on: nat -> bool, wide: bool, lag: nat, late: bool, c: nat, t: nat)
    requires t + 1 < |errs|
  {
    && (!on(t) ==> errs[t + 1] == 0)
    && (t >= Steady(lag, late) || (t == Steady(lag, late) - 1 && !Before(on, t)) ==>
          Adds(errs[t], errs[t + 1], Before(on, t), on(t), wide, Pattern(c, t + 1 - Steady(lag, late))))
  }

  ghost predicate ErrorsOk(errs: seq<nat>, on: nat -> bool, wide: bool, lag: nat, late: bool, c: nat) {
    forall t :: 0 <= t < |errs| - 1 ==> CycleOk(errs, on, wide, lag, late, c, t)
  }

  /** The whole loop for `cycles` cycles, the generator enabled throughout and the checker when `on` says, from
      any contents of the registers and of the wire. `errs[t]` is the error register at the start of cycle `t`.
      In a steady cycle an error is added exactly when the checker has just been enabled and the count received is not
      one, or, with the wide comparison only, when it had been enabled and the count is zero. So a stretch of enabled
      cycles has no errors but one for the enabling and one for each multiple of 2^24. */
  method Loopback(gen: Generator, a: Aligner, checker: Checker, past: int -> Word, lag: nat, late: bool, on: nat -> bool, cycles: nat)
    returns (errs: seq<nat>)
    requires gen.Valid() && checker.Valid()
    modifies gen, a, checker
    ensures |errs| == cycles + 1 && errs[cycles] == checker.errors && ErrorsOk(errs, on, checker.wide, lag, late, old(gen.count))
    ensures forall s :: Steady(lag, late) <= s <= cycles ==> StretchOk(errs, on, checker.wide, lag, late, old(gen.count), s)
  {
    ghost var c := gen.count;
    errs := RunCycles(gen, a, checker, past, lag, late, on, cycles);
    forall s | Steady(lag, late) <= s <= cycles ensures StretchOk(errs, on, checker.wide, lag, late, c, s) {
      StretchErrors(errs, on, checker.wide, lag, late, c, s);
    }
  }

  /** Its cycles one by one. */
  method RunCycles(gen: Generator, a: Aligner, checker: Checker, past: int -> Word, lag: nat, late: bool, on: nat -> bool, cycles: nat)
    returns (errs: seq<nat>)
    requires gen.Valid() && checker.Valid()
    modifies gen, a, checker
    ensures |errs| == cycles + 1 && errs[cycles] == checker.errors && ErrorsOk(errs, on, checker.wide, lag, late, old(gen.count))
    ensures forall k :: 0 <= k < |errs| ==> errs[k] < ERRORS_END
  {
    ghost var c := gen.count;
    var sent: seq<Word> := [];
    errs := [checker.errors];
    while |sent| < cycles
      invariant |sent| <= cycles && |errs| == |sent| + 1 && errs[|sent|] == checker.errors
      invariant forall k :: 0 <= k < |errs| ==> errs[k] < ERRORS_END
      invariant Aligned(gen, a, checker, past, sent, lag, late, Before(on, |sent|), c)
      invariant ErrorsOk(errs, on, checker.wide, lag, late, c)
      decreases cycles - |sent|
    {
      ghost var before := errs;
      var w := gen.data;
      Cycle(gen, a, checker, past, sent, lag, late, Before(on, |sent|), on(|sent|), c);
      sent := sent + [w];
      errs := errs + [checker.errors];
      ErrorsOkGrow(before, errs, on, checker.wide, lag, late, c);
    }
  }

  lemma ErrorsOkGrow(errs: seq<nat>, longer: seq<nat>, on: nat -> bool, wide: bool, lag: nat, late: bool, c: nat)
    requires errs != [] && ErrorsOk(errs, on, wide, lag, late, c) && |longer| == |errs| + 1 && longer[..|errs|] == errs
    requires CycleOk(longer, on, wide, lag, late, c, |errs| - 1)
    ensures ErrorsOk(longer, on, wide, lag, late, c)
  {
    forall t | 0 <= t < |errs| - 1 ensures CycleOk(longer, on, wide, lag, late, c, t) {
      assert CycleOk(errs, on, wide, lag, late, c, t);
      assert longer[t] == longer[..|errs|][t] && longer[t + 1] == longer[..|errs|][t + 1];
    }
  }

  /** How many of the `n` counts that follow `c` are zero, for the comparison that sees them as errors. */
  function Zeros(c: nat, n: nat, wide: bool): nat {
    if wide then (c + n) / COUNT_END - c / COUNT_END else 0
  }

  /** The error register after `n` enabled cycles that receive the counts behind `c`, the first of them at `e`. */
  function Expected(e: nat, prev: bool, c: nat, n: nat, wide: bool): nat {
    if n == 0 || prev then (e + Zeros(c, n, wide)) % ERRORS_END
    else (e + (if (c + 1) % COUNT_END == 1 then 0 else 1) + Zeros(c + 1, n - 1, wide)) % ERRORS_END
  }

  /** If the checker stays enabled from cycle `s` to the end; its errors were zero if it has only then been enabled. */
  ghost predicate StretchOk(errs: seq<nat>, on: nat -> bool, wide: bool, lag: nat, late: bool, c: nat, s: nat)
    requires Steady(lag, late) <= s < |errs|
  {
    && (!Before(on, s) ==> errs[s] == 0)
    && ((forall t :: s <= t < |errs| - 1 ==> on(t)) ==>
          errs[|errs| - 1] == Expected(errs[s], Before(on, s), c + s - Steady(lag, late), |errs| - 1 - s, wide))
  }

  /** A stretch in which the checker had been enabled before. */
  lemma KeptOn(errs: seq<nat>, on: nat -> bool, wide: bool, lag: nat, late: bool, c: nat, s: nat)
    requires Steady(lag, late) <= s < |errs| && ErrorsOk(errs, on, wide, lag, late, c) && errs[s] < ERRORS_END
    requires forall t :: s <= t < |errs| - 1 ==> on(t)
    requires Before(on, s) || s == |errs| - 1
    ensures errs[|errs| - 1] == (errs[s] + Zeros(c + s - Steady(lag, late), |errs| - 1 - s, wide)) % ERRORS_END
  {
    var tail, from := errs[s..], c + s - Steady(lag, late) + 1;
    forall k | 0 <= k < |tail| - 1 ensures Adds(tail[k], tail[k + 1], true, true, wide, Pattern(from, k)) {
      assert CycleOk(errs, on, wide, lag, late, c, s + k);
      assert Before(on, s + k) && on(s + k);
    }
    ErrorsAdded(tail, wide, from);
  }

  /** A stretch that begins with the enabling. */
  lemma JustEnabled(errs: seq<nat>, on: nat -> bool, wide: bool, lag: nat, late: bool, c: nat, s: nat)
    requires Steady(lag, late) <= s < |errs| - 1 && ErrorsOk(errs, on, wide, lag, late, c)
    requires errs[s] < ERRORS_END && errs[s + 1] < ERRORS_END
    requires !Before(on, s) && forall t :: s <= t < |errs| - 1 ==> on(t)
    ensures errs[|errs| - 1] == Expected(errs[s], false, c + s - Steady(lag, late), |errs| - 1 - s, wide)
  {
    KeptOn(errs, on, wide, lag, late, c, s + 1);
    var first, rest := if Pattern(c, s + 1 - Steady(lag, late)) == 1 then 0 else 1, Zeros(c + s + 1 - Steady(lag, late), |errs| - 2 - s, wide);
    assert CycleOk(errs, on, wide, lag, late, c, s);
    OneMore(errs[s], errs[s + 1], first, rest);
  }

  lemma StretchErrors(errs: seq<nat>, on: nat -> bool, wide: bool, lag: nat, late: bool, c: nat, s: nat)
    requires Steady(lag, late) <= s < |errs| && ErrorsOk(errs, on, wide, lag, late, c) && forall k :: 0 <= k < |errs| ==> errs[k] < ERRORS_END
    ensures StretchOk(errs, on, wide, lag, late, c, s)
  {
    assert CycleOk(errs, on, wide, lag, late, c, s - 1);
    if forall t :: s <= t < |errs| - 1 ==> on(t) {
      if Before(on, s) || s == |errs| - 1 {
        KeptOn(errs, on, wide, lag, late, c, s);
      } else {
        JustEnabled(errs, on, wide, lag, late, c, s);
      }
    }
  }

  lemma OneMore(e: nat, next: nat, one: nat, rest: nat)
    requires e < ERRORS_END && one <= 1 && next == if one == 1 then (e + 1) % ERRORS_END else e
    ensures (next + rest) % ERRORS_END == (e + one + rest) % ERRORS_END
  {
    if one == 1 && e + 1 == ERRORS_END {
      DropWrap(rest);
    }
  }

  lemma DropWrap(x: nat)
    ensures (x + ERRORS_END) % ERRORS_END == x % ERRORS_END
  {}

  /** A stretch of steady cycles, each enabled like the one before it, adds no error, or with the wide comparison one per
      2^24 counts. */
  lemma {:induction false} ErrorsAdded(errs: seq<nat>, wide: bool, c: nat)
    requires errs != [] && errs[0] < ERRORS_END && c > 0
    requires forall k :: 0 <= k < |errs| - 1 ==> Adds(errs[k], errs[k + 1], true, true, wide, Pattern(c, k))
    ensures errs[|errs| - 1] == (errs[0] + Zeros(c - 1, |errs| - 1, wide)) % ERRORS_END
    decreases |errs|
  {
    if |errs| > 1 {
      var n := |errs| - 2;
      ErrorsAdded(errs[..n + 1], wide, c);
      assert Adds(errs[n], errs[n + 1], true, true, wide, Pattern(c, n));
      ZerosStep(c - 1, n, wide);
      OneErrorMore(errs[0], Zeros(c - 1, n, wide), errs[n]);
    } else {
      ZerosStart(c - 1, wide);
    }
  }

  lemma ZerosStart(c: nat, wide: bool)
    ensures Zeros(c, 0, wide) == 0
  {}

  lemma ZerosStep(c: nat, n: nat, wide: bool)
    ensures Zeros(c, n + 1, wide) == Zeros(c, n, wide) + (if wide && Pattern(c + 1, n) == 0 then 1 else 0)
  {
    ZeroCounted(c + n);
  }

  lemma ZeroCounted(x: nat)
    ensures (x + 1) / COUNT_END == x / COUNT_END + (if (x + 1) % COUNT_END == 0 then 1 else 0)
  {
    var q, r := x / COUNT_END, x % COUNT_END;
    if r + 1 == COUNT_END {
      DivModUnique(x + 1, COUNT_END, q + 1, 0);
    } else {
      DivModUnique(x + 1, COUNT_END, q, r + 1);
    }
  }

  lemma OneErrorMore(e: nat, zeros: nat, errors: nat)
    requires errors == (e + zeros) % ERRORS_END
    ensures (errors + 1) % ERRORS_END == (e + (zeros + 1)) % ERRORS_END
  {
    var q := (e + zeros) / ERRORS_END;
    if errors + 1 == ERRORS_END {
      DivModUnique(e + zeros + 1, ERRORS_END, q + 1, 0);
      DivModUnique(errors + 1, ERRORS_END, 1, 0);
    } else {
      DivModUnique(e + zeros + 1, ERRORS_END, q, errors + 1);
    }
  }
}
