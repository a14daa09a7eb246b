/** The pseudo-noise data of the loopback test and the search for the loopback's delay. */
module PnTest {
  import opened Bits

  /** Words in one buffer, `DMA_BUFFER_SIZE / sizeof(uint32_t)`. */
  const WORDS := 16384
  const UINT32_END := 0x1_0000_0000

  // ----- the data mask -----

  /** The smallest power of two that is at least `dataWidth`, as long as an `int` holds it. */
  method GetNextPow2(dataWidth: int) returns (x: nat, ghost k: nat)
    requires dataWidth <= 0x4000_0000
    ensures x == Pow2(k) >= dataWidth && (forall j :: 0 <= j < k ==> Pow2(j) < dataWidth) && x <= 0x4000_0000
  {
    x, k := 1, 0;
    while x < dataWidth
      invariant x == Pow2(k) && forall j :: 0 <= j < k ==> Pow2(j) < dataWidth
      invariant x <= 0x4000_0000
      decreases dataWidth - x
    {
      DoublingFits(k, x);
      x, k := 2 * x, k + 1;
    }
  }

  lemma DoublingFits(k: nat, x: nat)
    requires x == Pow2(k) && x < 0x4000_0000
    ensures 2 * x <= 0x4000_0000
  {
    Pow2At30();
    if k < 30 {
      Pow2Monotone(k + 1, 30);
    } else {
      Pow2Monotone(30, k);
    }
  }

  lemma Pow2At30()
    ensures Pow2(30) == 0x4000_0000
  {
    assert Pow2(10) == 1024;
    assert Pow2(20) == 1024 * 1024;
  }

  /** For the widths in use it is the width of a field. */
  lemma NextPow2IsField(w: nat, k: nat)
    requires 1 <= w <= 16 && Pow2(k) >= w && forall j :: 0 <= j < k ==> Pow2(j) < w
    ensures Pow2(k) == FieldWidth(w)
  {
    GapSizes();
    if k > 4 {
      assert false;
    } else if k == 4 {
      assert Pow2(3) < w;
    } else if k == 3 {
      assert Pow2(2) < w;
    } else if k == 2 {
      assert Pow2(1) < w;
    } else if k == 1 {
      assert Pow2(0) < w;
    }
  }

  function FieldWidth(w: nat): (p: nat)
    requires 1 <= w <= 16
    ensures w <= p
  {
    if w == 1 then 1 else if w == 2 then 2 else if w <= 4 then 4 else if w <= 8 then 8 else 16
  }

  /** `32 / get_next_pow2(data_width)`. */
  function FieldCount(w: nat): (n: nat)
    requires 1 <= w <= 16
    ensures n == 32 / FieldWidth(w)
  {
    if w == 1 then 32 else if w == 2 then 16 else if w <= 4 then 8 else if w <= 8 then 4 else 2
  }

  /** `n` fields of `p` bits, of which the low `w` are ones. */
  function Fields(w: nat, p: nat, n: nat): nat {
    if n == 0 then 0 else Pow2(p) * Fields(w, p, n - 1) + (Pow2(w) - 1)
  }

  function MaskOf(w: nat): nat
    requires 1 <= w <= 16
  {
    Fields(w, FieldWidth(w), FieldCount(w))
  }

  lemma {:induction false} Pow2Sum(a: nat, b: nat)
    ensures Pow2(a + b) == Pow2(a) * Pow2(b)
  {
    if a > 0 {
      Pow2Sum(a - 1, b);
      DoubleProduct(Pow2(a - 1), Pow2(b));
    }
  }

  /** `2^(p*n)`: what `n` fields of `p` bits can hold. */
  function Span(p: nat, n: nat): nat {
    if n == 0 then 1 else Pow2(p) * Span(p, n - 1)
  }

  lemma {:induction false} SpanOne(n: nat)
    ensures Span(1, n) == Pow2(n)
  {
    if n > 0 { SpanOne(n - 1); }
  }

  /** The fields of a mask fill a word. */
  lemma SpanOfWord(w: nat)
    requires 1 <= w <= 16
    ensures Span(FieldWidth(w), FieldCount(w)) == UINT32_END
  {
    Pow2Values();
    SpanOne(32);
    assert Span(2, 16) == UINT32_END by { assert Span(2, 8) == 0x1_0000; }
    assert Span(4, 8) == UINT32_END && Span(8, 4) == UINT32_END && Span(16, 2) == UINT32_END;
  }

  lemma AtLeast(m: nat, x: nat)
    requires m > 0
    ensures m * x >= x
  {
    assert m * x == (m - 1) * x + x;
  }

  lemma {:induction false} SpanMonotone(p: nat, m: nat, n: nat)
    requires m <= n
    ensures Span(p, m) <= Span(p, n)
  {
    if m < n {
      SpanMonotone(p, m, n - 1);
      AtLeast(Pow2(p), Span(p, n - 1));
    }
  }

  lemma {:induction false} FieldsFit(w: nat, p: nat, n: nat)
    requires w <= p
    ensures Fields(w, p, n) < Span(p, n)
  {
    if n > 0 {
      FieldsFit(w, p, n - 1);
      Pow2Monotone(w, p);
      MulGap(Pow2(p), Fields(w, p, n - 1), Span(p, n - 1));
    }
  }

  /** One round of the loop that builds the mask loses no bit. */
  lemma FieldStep(w: nat, p: nat, n: nat)
    requires w <= p && Span(p, n + 1) <= UINT32_END
    ensures Pow2(p) * Fields(w, p, n) % UINT32_END == Pow2(p) * Fields(w, p, n)
    ensures Or(Pow2(p) * Fields(w, p, n), Pow2(w) - 1) == Fields(w, p, n + 1)
  {
    FieldsFit(w, p, n + 1);
    Pow2Monotone(w, p);
    OrDisjoint(Fields(w, p, n), Pow2(w) - 1, p);
    NoTruncation(Pow2(p) * Fields(w, p, n));
  }

  lemma NoTruncation(x: nat)
    ensures x < UINT32_END ==> x % UINT32_END == x
  {}

  /** `get_data_mask`. */
  method GetDataMask(dataWidth: nat) returns (mask: nat)
    requires 1 <= dataWidth <= 16
    ensures mask == MaskOf(dataWidth)
  {
    var p, k := GetNextPow2(dataWidth);
    NextPow2IsField(dataWidth, k);
    SpanOfWord(dataWidth);
    mask := FillFields(dataWidth, p, 32 / p);
  }

  /** Its loop, for `n` fields. */
  method FillFields(w: nat, p: nat, n: nat) returns (mask: nat)
    requires w <= p && Span(p, n) <= UINT32_END
    ensures mask == Fields(w, p, n)
  {
    mask := 0;
    for i := 0 to n
      invariant mask == Fields(w, p, i)
    {
      SpanMonotone(p, i + 1, n);
      FieldStep(w, p, i);
      mask := Pow2(p) * mask % UINT32_END;
      mask := Or(mask, Pow2(w) - 1);
    }
  }

  // ----- the pattern -----

  function SeedToData(seed: nat): nat {
    (seed * 69069 + 1) % UINT32_END
  }

  function Word(seed: nat, mask: nat): nat {
    And(SeedToData(seed), mask)
  }

  function AddModInt(a: int, b: int, m: int): int {
    if a + b >= m then a + b - m else a + b
  }

  /** The word for each seed. */
  function Pattern(w: nat): (p: seq<nat>)
    requires 1 <= w <= 16
    ensures |p| == WORDS
  {
    seq(WORDS, (s: nat) => Word(s, MaskOf(w)))
  }

  /** The seed after `n` words. */
  function SeedAt(d: nat, n: nat): (s: nat)
    requires d < WORDS
    ensures s < WORDS
  {
    if n == 0 then d else AddModInt(SeedAt(d, n - 1), 1, WORDS)
  }

  /** The seed walks round the buffer, so a full buffer brings it back to where it started. */
  lemma {:induction false} SeedAtClosed(d: nat, n: nat)
    requires d < WORDS
    ensures SeedAt(d, n) == (d + n) % WORDS
    ensures n == WORDS ==> SeedAt(d, n) == d
  {
    if n > 0 { SeedAtClosed(d, n - 1); }
  }

  lemma PatternAt(w: nat, s: nat)
    requires 1 <= w <= 16 && s < WORDS
    ensures Pattern(w)[s] == Word(s, MaskOf(w))
  {}

  /** `write_pn_data`. */
  method WritePnData(buf: array<nat>, count: nat, seed: nat, dataWidth: nat) returns (next: nat)
    requires count <= buf.Length && seed < WORDS && 1 <= dataWidth <= 16
    modifies buf
    ensures next == SeedAt(seed, count)
    ensures forall i {:trigger buf[i]} :: 0 <= i < count ==> buf[i] == Pattern(dataWidth)[SeedAt(seed, i)]
    ensures forall i :: count <= i < buf.Length ==> buf[i] == old(buf[i])
  {
    ghost var pat := Pattern(dataWidth);
    var mask := GetDataMask(dataWidth);
    next := seed;
    for i := 0 to count
      invariant next == SeedAt(seed, i)
      invariant forall j {:trigger buf[j]} :: 0 <= j < i ==> buf[j] == pat[SeedAt(seed, j)]
      invariant forall j :: i <= j < buf.Length ==> buf[j] == old(buf[j])
    {
      PatternAt(dataWidth, next);
      buf[i] := Word(next, mask);
      next := AddModInt(next, 1, WORDS);
    }
  }

  /** How many of the first `n` words differ from the pattern started at seed `d`. */
  function Errors(buf: seq<nat>, d: nat, pat: seq<nat>, n: nat): (e: nat)
    requires n <= |buf| && |pat| == WORDS && d < WORDS
    ensures e <= n
  {
    if n == 0 then 0
    else Errors(buf, d, pat, n - 1) + (if buf[n - 1] != pat[SeedAt(d, n - 1)] then 1 else 0)
  }

  /** `check_pn_data`. A full buffer brings the seed back to where it started. */
  method CheckPnData(buf: seq<nat>, count: nat, seed: nat, dataWidth: nat) returns (errors: nat, next: nat)
    requires count <= |buf| && seed < WORDS && 1 <= dataWidth <= 16
    ensures errors == Errors(buf, seed, Pattern(dataWidth), count)
    ensures next == SeedAt(seed, count) && (count == WORDS ==> next == seed)
  {
    ghost var pat := Pattern(dataWidth);
    var mask := GetDataMask(dataWidth);
    errors, next := 0, seed;
    SeedAtClosed(seed, count);
    for i := 0 to count
      invariant next == SeedAt(seed, i) && errors == Errors(buf, seed, pat, i)
    {
      PatternAt(dataWidth, next);
      if buf[i] != Word(next, mask) {
        errors := errors + 1;
      }
      next := AddModInt(next, 1, WORDS);
    }
  }

  /** How many words of a whole buffer differ from the pattern started at seed `d`. */
  function Mismatches(buf: seq<nat>, d: nat, pat: seq<nat>): nat
    requires |buf| == |pat| == WORDS && d < WORDS
  {
    Errors(buf, d, pat, |buf|)
  }

  /** No delay below `n` has fewer than half the words in error. */
  predicate NoneBelow(buf: seq<nat>, n: nat, pat: seq<nat>)
    requires |buf| == |pat| == WORDS && n <= WORDS
  {
    forall d :: 0 <= d < n ==> Mismatches(buf, d, pat) >= WORDS / 2
  }

  lemma NoneBelowStep(buf: seq<nat>, n: nat, pat: seq<nat>)
    requires |buf| == |pat| == WORDS && n < WORDS
    requires NoneBelow(buf, n, pat) && Mismatches(buf, n, pat) >= WORDS / 2
    ensures NoneBelow(buf, n + 1, pat)
  {}

  /** `e` is the first delay with fewer than half the words in error. */
  predicate IsFirst(buf: seq<nat>, e: nat, pat: seq<nat>)
    requires |buf| == |pat| == WORDS && e < WORDS
  {
    Mismatches(buf, e, pat) < WORDS / 2 && NoneBelow(buf, e, pat)
  }

  /** `e` is the least number of words in error at a delay below `n`; no delay has as many as it is at first. */
  ghost predicate Least(buf: seq<nat>, n: nat, pat: seq<nat>, e: nat)
    requires |buf| == |pat| == WORDS && n <= WORDS
  {
    && (forall d :: 0 <= d < n ==> e <= Mismatches(buf, d, pat))
    && (if n == 0 then e == 0xffffffff else exists d :: 0 <= d < n && e == Mismatches(buf, d, pat))
  }

  lemma LeastStep(buf: seq<nat>, n: nat, pat: seq<nat>, before: nat, e: nat)
    requires |buf| == |pat| == WORDS && n < WORDS && Least(buf, n, pat, before)
    requires e == if Mismatches(buf, n, pat) < before then Mismatches(buf, n, pat) else before
    ensures Least(buf, n + 1, pat, e)
  {}

  /** The delay search of `dma_test`; when it fails, `errorsMin` is what it reports. */
  method FindDelay(buf: seq<nat>, dataWidth: nat) returns (run: bool, seed: nat, errors: nat, errorsMin: nat)
    requires |buf| == WORDS && 1 <= dataWidth <= 16
    ensures run ==> seed < WORDS && IsFirst(buf, seed, Pattern(dataWidth))
    ensures run ==> errors == Mismatches(buf, seed, Pattern(dataWidth)) < WORDS / 2
    ensures !run ==> NoneBelow(buf, WORDS, Pattern(dataWidth)) && Least(buf, WORDS, Pattern(dataWidth), errorsMin)
    // the search stops at the delay of the buffer, whatever fewer than half its words were corrupted
    ensures dataWidth != 5 && dataWidth != 6 ==> OnlyAnswer(buf, Pattern(dataWidth), run, seed)
  {
    ghost var pat := Pattern(dataWidth);
    run, seed, errors := false, 0, 0;
    errorsMin := 0xffffffff;
    for delay := 0 to WORDS
      invariant !run && NoneBelow(buf, delay, pat) && Least(buf, delay, pat, errorsMin)
    {
      ghost var before := errorsMin;
      seed := delay;
      errors, seed := CheckPnData(buf, |buf|, seed, dataWidth);
      if errors < errorsMin {
        errorsMin := errors;
      }
      if errors < WORDS / 2 {
        run := true;
        break;
      }
      NoneBelowStep(buf, delay, pat);
      LeastStep(buf, delay, pat, before, errorsMin);
    }
    SearchDecodesDelay(dataWidth);
    if dataWidth != 5 && dataWidth != 6 {
      FirstIsOnly(buf, pat, run, seed);
    }
  }

  /** Any delay at which fewer than half the words are in error is the one found. */
  ghost predicate OnlyAnswer(buf: seq<nat>, pat: seq<nat>, run: bool, seed: nat)
    requires |buf| == |pat| == WORDS
  {
    forall d :: 0 <= d < WORDS && Mismatches(buf, d, pat) < WORDS / 2 ==> run && seed == d
  }

  lemma FirstIsOnly(buf: seq<nat>, pat: seq<nat>, run: bool, seed: nat)
    requires |buf| == |pat| == WORDS && Decodes(pat)
    requires if run then seed < WORDS && IsFirst(buf, seed, pat) else NoneBelow(buf, WORDS, pat)
    ensures OnlyAnswer(buf, pat, run, seed)
  {}

  // ----- when the search decodes the delay -----

  /** No two of the seeds in use have the same word. */
  ghost predicate Injective(pat: seq<nat>) {
    forall s, t :: 0 <= s < t < |pat| ==> pat[s] != pat[t]
  }

  lemma DistinctWords(pat: seq<nat>, s: nat, t: nat)
    requires Injective(pat) && s < |pat| && t < |pat| && s != t
    ensures pat[s] != pat[t]
  {
    if s > t { assert pat[t] != pat[s]; }
  }

  lemma {:induction false} ErrorsAddUp(buf: seq<nat>, d: nat, e: nat, pat: seq<nat>, n: nat)
    requires |pat| == WORDS && n <= |buf| && d < WORDS && e < WORDS
    requires forall i {:trigger SeedAt(d, i)} :: 0 <= i < n ==> pat[SeedAt(d, i)] != pat[SeedAt(e, i)]
    ensures Errors(buf, d, pat, n) + Errors(buf, e, pat, n) >= n
  {
    if n > 0 {
      ErrorsAddUp(buf, d, e, pat, n - 1);
    }
  }

  /** If seeds have distinct words, every word of a buffer contradicts one of two delays. */
  lemma DelaysExclude(buf: seq<nat>, d: nat, e: nat, pat: seq<nat>)
    requires |buf| == |pat| == WORDS && Injective(pat) && d < WORDS && e < WORDS && d != e
    ensures Mismatches(buf, d, pat) + Mismatches(buf, e, pat) >= WORDS
  {
    forall i | 0 <= i < WORDS ensures pat[SeedAt(d, i)] != pat[SeedAt(e, i)] {
      SeedAtClosed(d, i);
      SeedAtClosed(e, i);
      ShiftsDiffer(d, e, i);
      DistinctWords(pat, SeedAt(d, i), SeedAt(e, i));
    }
    ErrorsAddUp(buf, d, e, pat, |buf|);
  }

  lemma ShiftsDiffer(d: nat, e: nat, i: nat)
    requires d < WORDS && e < WORDS && d != e
    ensures (d + i) % WORDS != (e + i) % WORDS
  {
    var q := (d + i) / WORDS - (e + i) / WORDS;
    assert (d + i) % WORDS == (e + i) % WORDS ==> d - e == WORDS * q;
  }

  /** Two values that agree under a mask whose `n` fields of `b` values have their low `a` values in the
      mask differ, in each field, by a multiple of `a`; the multiple is less than `c`. */
  ghost predicate InGaps(d: int, a: nat, b: nat, c: int, n: nat)
    decreases n
  {
    if n == 0 then d == 0
    else exists x: int, rest: int :: -c < x < c && InGaps(rest, a, b, c, n - 1) && d == a * x + b * rest
  }

  /** A masked value, field by field. */
  lemma AndFields(v: nat, w: nat, p: nat, n: nat)
    requires w <= p && n > 0
    ensures And(v, Fields(w, p, n)) == Lo(v, w) + Pow2(p) * And(Hi(v, p), Fields(w, p, n - 1))
    ensures Lo(v, w) < Pow2(p)
  {
    var m := Fields(w, p, n);
    Pow2Monotone(w, p);
    HiLo(m, p);
    DivModUnique(m, Pow2(p), Fields(w, p, n - 1), Pow2(w) - 1);
    AndSplit(v, m, p);
    AndOnes(Lo(v, p), w);
    LoLo(v, w, p);
  }

  lemma {:induction false} LoLo(v: nat, w: nat, p: nat)
    requires w <= p
    ensures Lo(Lo(v, p), w) == Lo(v, w)
  {
    if w > 0 {
      LowHigh(v, p);
      LowHigh(v, w);
      LowHigh(Lo(v, p), w);
      LoLo(v / 2, w - 1, p - 1);
      assert Lo(v, p) / 2 == Lo(v / 2, p - 1) && Lo(v, p) % 2 == v % 2;
    }
  }

  /** The part of a field above its low `w` bits. */
  lemma FieldParts(v: nat, w: nat, p: nat) returns (x: nat)
    requires w <= p
    ensures x < Pow2(p - w) && v == Lo(v, w) + Pow2(w) * x + Pow2(p) * Hi(v, p)
  {
    HiLo(v, p);
    LoLo(v, w, p);
    HiLo(Lo(v, p), w);
    x := Hi(Lo(v, p), w);
    Pow2Sum(w, p - w);
    LessByFactor(Pow2(w), x, Lo(v, w), Pow2(p - w));
  }

  /** Equal words have equal low bits and equal words above the field. */
  lemma SplitWords(u: nat, v: nat, w: nat, p: nat, n: nat)
    requires w <= p && n > 0 && And(u, Fields(w, p, n)) == And(v, Fields(w, p, n))
    ensures Lo(u, w) == Lo(v, w)
    ensures And(Hi(u, p), Fields(w, p, n - 1)) == And(Hi(v, p), Fields(w, p, n - 1))
  {
    AndFields(u, w, p, n);
    AndFields(v, w, p, n);
    var q, word := Pow2(p), And(u, Fields(w, p, n));
    DivModUnique(word, q, And(Hi(u, p), Fields(w, p, n - 1)), Lo(u, w));
    DivModUnique(word, q, And(Hi(v, p), Fields(w, p, n - 1)), Lo(v, w));
  }

  lemma Difference(low: nat, a: nat, x: int, y: int, b: nat, hu: int, hv: int)
    ensures (low + a * y + b * hv) - (low + a * x + b * hu) == a * (y - x) + b * (hv - hu)
  {}

  lemma GapStep(u: int, v: int, low: nat, x: int, y: int, hu: int, hv: int, a: nat, b: nat, c: int, n: nat)
    requires n > 0 && -c < y - x < c && InGaps(hv - hu, a, b, c, n - 1)
    requires u == low + a * x + b * hu && v == low + a * y + b * hv
    ensures InGaps(v - u, a, b, c, n)
  {
    var x', rest := y - x, hv - hu;
    Difference(low, a, x, y, b, hu, hv);
    var d := a * x' + b * rest;
    assert InGaps(d, a, b, c, n);
  }

  lemma FewerFields(u: nat, p: nat, n: nat)
    requires n > 0 && u < Span(p, n)
    ensures Hi(u, p) < Span(p, n - 1)
  {
    HiLo(u, p);
    LessByFactor(Pow2(p), Hi(u, p), Lo(u, p), Span(p, n - 1));
  }

  lemma {:induction false} SameWordInGaps(u: nat, v: nat, w: nat, p: nat, n: nat)
    requires w <= p && And(u, Fields(w, p, n)) == And(v, Fields(w, p, n))
    requires u < Span(p, n) && v < Span(p, n)
    ensures InGaps(v - u, Pow2(w), Pow2(p), Pow2(p - w), n)
    decreases n
  {
    if n > 0 {
      SplitWords(u, v, w, p, n);
      var x := FieldParts(u, w, p);
      var y := FieldParts(v, w, p);
      var hu, hv := Hi(u, p), Hi(v, p);
      FewerFields(u, p, n);
      FewerFields(v, p, n);
      SameWordInGaps(hu, hv, w, p, n - 1);
      GapStep(u, v, Lo(u, w), x, y, hu, hv, Pow2(w), Pow2(p), Pow2(p - w), n);
    }
  }

  lemma FirstGap(d: int, a: nat, b: nat, c: int, n: nat) returns (x: int, rest: int)
    requires n > 0 && InGaps(d, a, b, c, n)
    ensures -c < x < c && InGaps(rest, a, b, c, n - 1) && d == a * x + b * rest
  {
    x, rest :| -c < x < c && InGaps(rest, a, b, c, n - 1) && d == a * x + b * rest;
  }

  /** Without gaps equal words are equal values. */
  lemma {:induction false} NoGaps(d: int, a: nat, b: nat, n: nat)
    requires InGaps(d, a, b, 1, n)
    ensures d == 0
    decreases n
  {
    if n > 0 {
      var x, rest := FirstGap(d, a, b, 1, n);
      NoGaps(rest, a, b, n - 1);
    }
  }

  /** The gap of a half word of which the low `a` values are in the mask. */
  lemma HalfWordGaps(d: int, a: nat, c: int) returns (x: int, y: int)
    requires InGaps(d, a, 0x1_0000, c, 2)
    ensures -c < x < c && -c < y < c && d == a * x + 0x1_0000 * (a * y)
  {
    var rest, zero;
    x, rest := FirstGap(d, a, 0x1_0000, c, 2);
    y, zero := FirstGap(rest, a, 0x1_0000, c, 1);
  }

  // No multiple of 69069 up to 16383 * 69069 lies in the gaps of the masks.

  /** 69069 is odd, so what divides its multiple by a power of two divides the factor. */
  lemma {:induction false} OddMultiplier(d: int, w: nat, m: int) returns (k: int)
    requires 69069 * d == Pow2(w) * m
    ensures d == Pow2(w) * k && 69069 * k == m
    decreases w
  {
    if w == 0 {
      k := d;
    } else {
      var half := Pow2(w - 1);
      Halve(d, half, m);
      k := OddMultiplier(d / 2, w - 1, m);
      Halve(0, half, k);
    }
  }

  lemma Halve(d: int, half: nat, m: int)
    ensures (2 * half) * m == 2 * (half * m)
    ensures 69069 * d == (2 * half) * m ==> d % 2 == 0 && 69069 * (d / 2) == half * m
  {
    if 69069 * d == 2 * (half * m) {
      assert d == 2 * (half * m - 34534 * d);
    }
  }

  lemma HalfWordMultiples(k: int, x: int, y: int)
    requires 0 < k < 32 && -128 < x < 128 && -128 < y < 128
    ensures 69069 * k != x + 0x1_0000 * y
  {}

  lemma SmallFactor(d: int, a: nat, k: int)
    requires 0 < d < WORDS && a >= 512 && d == a * k
    ensures 0 < k < 32
  {
    if k >= 32 { MulGap(a, 31, k); }
    if k <= 0 { if k < 0 { MulGap(a, k, 0); } }
  }

  lemma Combine(a: nat, x: int, y: int)
    ensures a * (x + 0x1_0000 * y) == a * x + 0x1_0000 * (a * y)
  {}

  lemma OffGapsHalf(d: int, w: nat, c: int)
    requires 0 < d < WORDS && Pow2(w) >= 512 && c <= 128
    ensures !InGaps(69069 * d, Pow2(w), 0x1_0000, c, 2)
  {
    if InGaps(69069 * d, Pow2(w), 0x1_0000, c, 2) {
      var x, y := HalfWordGaps(69069 * d, Pow2(w), c);
      var m := x + 0x1_0000 * y;
      Combine(Pow2(w), x, y);
      var k := OddMultiplier(d, w, m);
      SmallFactor(d, Pow2(w), k);
      HalfWordMultiples(k, x, y);
    }
  }

  lemma FourGaps(d: int, x0: int, x1: int, x2: int, x3: int, r: int)
    requires 0 < d < WORDS && -2 < x0 < 2 && -2 < x1 < 2 && -2 < x2 < 2 && -2 < x3 < 2
    requires r == 128 * x2 + 0x100 * (128 * x3)
    ensures 69069 * d != 128 * x0 + 0x100 * (128 * x1 + 0x100 * r)
  {}

  /** Solving for the factor modulo 256, where 5 inverts 69069. */
  lemma SolveMod256(k: int, x0: int, x1: int, m: int) returns (q: int)
    requires 0 < k < 2048 && -2 < x0 < 2 && -2 < x1 < 2 && 69069 * k == x0 + 16 * x1 + 256 * m
    ensures -2 < q < 10 && k == 5 * x0 + 80 * x1 + 256 * q && m == 1349 * x0 + 21584 * x1 + 69069 * q
  {
    q := 5 * m - 1349 * k;
  }

  lemma SparseDigits(q: int, x0: int, x1: int, x2: int, x3: int, x4: int, x5: int, x6: int, x7: int)
    requires -2 < q < 10 && -2 < x0 < 2 && -2 < x1 < 2 && -2 < x2 < 2 && -2 < x3 < 2
    requires -2 < x4 < 2 && -2 < x5 < 2 && -2 < x6 < 2 && -2 < x7 < 2
    requires 1349 * x0 + 21584 * x1 + 69069 * q
          == x2 + 16 * x3 + 0x100 * x4 + 0x1000 * x5 + 0x1_0000 * x6 + 0x10_0000 * x7
    ensures q == 0 && x0 == 0 && x1 == 0
  {}

  lemma Eighth(d: int, e: int)
    requires 0 < d < WORDS && 69069 * d == 8 * e
    ensures 0 < d / 8 < 2048 && 69069 * (d / 8) == e
  {}

  lemma EightGaps(d: int, x0: int, x1: int, x2: int, x3: int, x4: int, x5: int, x6: int, x7: int, r: int, s: int, t: int)
    requires 0 < d < WORDS && -2 < x0 < 2 && -2 < x1 < 2 && -2 < x2 < 2 && -2 < x3 < 2
    requires -2 < x4 < 2 && -2 < x5 < 2 && -2 < x6 < 2 && -2 < x7 < 2
    requires r == 8 * x2 + 16 * (8 * x3 + 16 * s) && s == 8 * x4 + 16 * (8 * x5 + 16 * t) && t == 8 * x6 + 16 * (8 * x7)
    ensures 69069 * d != 8 * x0 + 16 * (8 * x1 + 16 * r)
  {
    if 69069 * d == 8 * x0 + 16 * (8 * x1 + 16 * r) {
      var m := x2 + 16 * x3 + 0x100 * x4 + 0x1000 * x5 + 0x1_0000 * x6 + 0x10_0000 * x7;
      var e := x0 + 16 * x1 + 0x100 * m;
      Eighth(d, e);
      var q := SolveMod256(d / 8, x0, x1, m);
      SparseDigits(q, x0, x1, x2, x3, x4, x5, x6, x7);
    }
  }

  lemma TwoFields(d: int, a: nat, b: nat, c: int, n: nat) returns (x: int, y: int, rest: int)
    requires n > 1 && InGaps(d, a, b, c, n)
    ensures -c < x < c && -c < y < c && InGaps(rest, a, b, c, n - 2) && d == a * x + b * (a * y + b * rest)
    ensures n == 2 ==> rest == 0
  {
    var r;
    x, r := FirstGap(d, a, b, c, n);
    y, rest := FirstGap(r, a, b, c, n - 1);
  }

  lemma FourFields(d: int, a: nat, b: nat, c: int, n: nat) returns (x0: int, x1: int, x2: int, x3: int, r: int, rest: int)
    requires n > 3 && InGaps(d, a, b, c, n)
    ensures -c < x0 < c && -c < x1 < c && -c < x2 < c && -c < x3 < c && InGaps(rest, a, b, c, n - 4)
    ensures d == a * x0 + b * (a * x1 + b * r) && r == a * x2 + b * (a * x3 + b * rest)
    ensures n == 4 ==> rest == 0
  {
    x0, x1, r := TwoFields(d, a, b, c, n);
    x2, x3, rest := TwoFields(r, a, b, c, n - 2);
  }

  lemma OffGaps7(d: int, m: int, n: nat)
    requires 0 < d < WORDS && m == 69069 * d && n == 4
    ensures !InGaps(m, 128, 0x100, 2, n)
  {
    if InGaps(m, 128, 0x100, 2, n) {
      var x0, x1, x2, x3, r, z := FourFields(m, 128, 0x100, 2, n);
      FourGaps(d, x0, x1, x2, x3, r);
    }
  }

  lemma OffGaps3(d: int, m: int, n: nat)
    requires 0 < d < WORDS && m == 69069 * d && n == 8
    ensures !InGaps(m, 8, 16, 2, n)
  {
    if InGaps(m, 8, 16, 2, n) {
      var x0, x1, x2, x3, r, s := FourFields(m, 8, 16, 2, n);
      var x4, x5, x6, x7, t, z := FourFields(s, 8, 16, 2, n - 4);
      EightGaps(d, x0, x1, x2, x3, x4, x5, x6, x7, r, s, t);
    }
  }

  lemma GapSizes()
    ensures Pow2(0) == 1 && Pow2(1) == 2 && Pow2(2) == 4 && Pow2(3) == 8 && Pow2(4) == 16 && Pow2(5) == 32
    ensures Pow2(6) == 64 && Pow2(7) == 128 && Pow2(8) == 256 && Pow2(9) == 512 && Pow2(10) == 1024 && Pow2(11) == 2048
    ensures Pow2(12) == 4096 && Pow2(13) == 8192 && Pow2(14) == 16384 && Pow2(15) == 32768 && Pow2(16) == 0x1_0000
  {
    assert Pow2(4) == 16;
    assert Pow2(8) == 256;
    assert Pow2(12) == 4096;
  }

  /** Two different seeds never differ by gaps alone, except at widths 5 and 6. */
  lemma SeedsOffGaps(d: int, w: nat)
    requires 1 <= w <= 16 && w != 5 && w != 6 && 0 < d < WORDS
    ensures !InGaps(69069 * d, Pow2(w), Pow2(FieldWidth(w)), Pow2(FieldWidth(w) - w), FieldCount(w))
  {
    GapSizes();
    var p := FieldWidth(w);
    if w == p {
      if InGaps(69069 * d, Pow2(w), Pow2(p), 1, FieldCount(w)) {
        NoGaps(69069 * d, Pow2(w), Pow2(p), FieldCount(w));
      }
    } else if w == 3 {
      OffGaps3(d, 69069 * d, FieldCount(w));
    } else if w == 7 {
      OffGaps7(d, 69069 * d, FieldCount(w));
    } else {
      OffGapsHalf(d, w, Pow2(16 - w));
    }
  }

  lemma SmallSeed(s: nat)
    requires s < WORDS
    ensures SeedToData(s) == 69069 * s + 1
  {}

  /** Distinct seeds have distinct words. */
  lemma WordsDiffer(u: nat, v: nat, d: nat, w: nat)
    requires 1 <= w <= 16 && w != 5 && w != 6 && 0 < d < WORDS && v == u + 69069 * d
    requires v < Span(FieldWidth(w), FieldCount(w))
    ensures And(u, MaskOf(w)) != And(v, MaskOf(w))
  {
    SeedsOffGaps(d, w);
    EqualOnlyInGaps(u, v, 69069 * d, w, FieldWidth(w), FieldCount(w));
  }

  lemma WordForm(s: nat, u: nat, w: nat)
    requires 1 <= w <= 16 && s < WORDS && u == 69069 * s + 1
    ensures Pattern(w)[s] == And(u, MaskOf(w)) && u < Span(FieldWidth(w), FieldCount(w))
  {
    PatternAt(w, s);
    SmallSeed(s);
    SpanOfWord(w);
  }

  lemma EqualOnlyInGaps(u: nat, v: nat, d: nat, w: nat, p: nat, n: nat)
    requires w <= p && v == u + d && v < Span(p, n)
    ensures And(u, Fields(w, p, n)) == And(v, Fields(w, p, n)) ==> InGaps(d, Pow2(w), Pow2(p), Pow2(p - w), n)
  {
    if And(u, Fields(w, p, n)) == And(v, Fields(w, p, n)) {
      SameWordInGaps(u, v, w, p, n);
      assert v - u == d;
    }
  }

  lemma SeedsDiffer(s: nat, t: nat, w: nat)
    requires 1 <= w <= 16 && w != 5 && w != 6 && s < t < WORDS
    ensures Pattern(w)[s] != Pattern(w)[t]
  {
    var u, v := 69069 * s + 1, 69069 * t + 1;
    WordForm(s, u, w);
    WordForm(t, v, w);
    WordsDiffer(u, v, t - s, w);
  }

  lemma PatternInjective(w: nat)
    requires 1 <= w <= 16 && w != 5 && w != 6
    ensures Injective(Pattern(w))
  {
    forall s: nat, t: nat | s < t < WORDS ensures Pattern(w)[s] != Pattern(w)[t] {
      SeedsDiffer(s, t, w);
    }
  }

  /** What the search is for: a buffer with fewer than half its words corrupted gives back its delay. */
  ghost predicate Decodes(pat: seq<nat>)
    requires |pat| == WORDS
  {
    forall buf: seq<nat>, d: nat, e: nat | |buf| == WORDS && d < WORDS && e < WORDS ::
      Mismatches(buf, d, pat) < WORDS / 2 && IsFirst(buf, e, pat) ==> e == d
  }

  lemma InjectiveDecodes(pat: seq<nat>)
    requires |pat| == WORDS && Injective(pat)
    ensures Decodes(pat)
  {
    forall buf: seq<nat>, d: nat, e: nat | |buf| == WORDS && d < WORDS && e < WORDS
      && Mismatches(buf, d, pat) < WORDS / 2 && IsFirst(buf, e, pat)
      ensures e == d
    {
      if e != d { DelaysExclude(buf, d, e, pat); }
    }
  }

  // ----- and when it does not -----

  lemma {:induction false} MatchingStretch(buf: seq<nat>, d: nat, pat: seq<nat>, a: nat, b: nat)
    requires |pat| == WORDS && d < WORDS && a <= b <= |buf|
    requires forall i {:trigger buf[i]} :: a <= i < b ==> buf[i] == pat[SeedAt(d, i)]
    ensures Errors(buf, d, pat, a) == Errors(buf, d, pat, b)
    decreases b
  {
    if a < b { MatchingStretch(buf, d, pat, a, b - 1); }
  }

  lemma {:induction false} AnyStretch(buf: seq<nat>, d: nat, pat: seq<nat>, a: nat, b: nat)
    requires |pat| == WORDS && d < WORDS && a <= b <= |buf|
    ensures Errors(buf, d, pat, b) <= Errors(buf, d, pat, a) + (b - a)
    decreases b
  {
    if a < b { AnyStretch(buf, d, pat, a, b - 1); }
  }

  /** A buffer that starts like the pattern of delay `e` and goes on like that of delay `d`. */
  function Spliced(pat: seq<nat>, e: nat, d: nat): (buf: seq<nat>)
    requires |pat| == WORDS && e < WORDS && d < WORDS
    ensures |buf| == WORDS
    ensures forall k {:trigger buf[k]} :: 0 <= k < WORDS / 2 - 1 ==> buf[k] == pat[SeedAt(e, k)]
    ensures forall k {:trigger buf[k]} :: WORDS / 2 - 1 <= k < WORDS ==> buf[k] == pat[SeedAt(d, k)]
  {
    seq(WORDS, (k: nat) => if k < WORDS / 2 - 1 then pat[SeedAt(e, k)] else pat[SeedAt(d, k)])
  }

  lemma FewErrorsAtD(buf: seq<nat>, d: nat, pat: seq<nat>)
    requires |buf| == |pat| == WORDS && d < WORDS
    requires forall k {:trigger buf[k]} :: WORDS / 2 - 1 <= k < WORDS ==> buf[k] == pat[SeedAt(d, k)]
    ensures Mismatches(buf, d, pat) < WORDS / 2
  {
    AnyStretch(buf, d, pat, 0, WORDS / 2 - 1);
    MatchingStretch(buf, d, pat, WORDS / 2 - 1, |buf|);
  }

  lemma FewErrorsAtE(buf: seq<nat>, e: nat, pat: seq<nat>, i: nat, j: nat)
    requires |buf| == |pat| == WORDS && e < WORDS && WORDS / 2 <= i < j < WORDS
    requires forall k {:trigger buf[k]} :: 0 <= k < WORDS / 2 - 1 ==> buf[k] == pat[SeedAt(e, k)]
    requires buf[i] == pat[SeedAt(e, i)] && buf[j] == pat[SeedAt(e, j)]
    ensures Mismatches(buf, e, pat) < WORDS / 2
  {
    var half := WORDS / 2 - 1;
    MatchingStretch(buf, e, pat, 0, half);
    OneMatching(buf, e, pat, half, i, j);
    OneMatching(buf, e, pat, j, j, |buf|);
  }

  lemma OneMatching(buf: seq<nat>, e: nat, pat: seq<nat>, a: nat, i: nat, b: nat)
    requires |pat| == WORDS && e < WORDS && a <= i < b <= |buf| && buf[i] == pat[SeedAt(e, i)]
    ensures Errors(buf, e, pat, b) < Errors(buf, e, pat, a) + (b - a)
  {
    AnyStretch(buf, e, pat, a, i);
    AnyStretch(buf, e, pat, i + 1, b);
  }

  /** Two words that the patterns of delays 0 and `d` share are enough to deceive the search. */
  lemma TwoSharedWords(pat: seq<nat>, e: nat, d: nat, i: nat, j: nat)
    requires |pat| == WORDS && e == 0 < d < WORDS && WORDS / 2 <= i < j < WORDS
    requires pat[SeedAt(e, i)] == pat[SeedAt(d, i)] && pat[SeedAt(e, j)] == pat[SeedAt(d, j)]
    ensures !Decodes(pat)
  {
    var buf := Spliced(pat, e, d);
    FewErrorsAtD(buf, d, pat);
    FewErrorsAtE(buf, e, pat, i, j);
    assert IsFirst(buf, e, pat);
  }

  lemma SharedSeeds(pat: seq<nat>, e: nat, d: nat, i: nat, i': nat)
    requires |pat| == WORDS && e == 0 < d < WORDS && i < WORDS && i' == (d + i) % WORDS && pat[i] == pat[i']
    ensures pat[SeedAt(e, i)] == pat[SeedAt(d, i)]
  {
    SeedAtClosed(e, i);
    SeedAtClosed(d, i);
  }

  /** In each of `n` fields of `b` values, `u` and `v` agree modulo `a`. */
  predicate SameFields(u: nat, v: nat, a: nat, b: nat, n: nat)
    requires a > 0 && b > 0
    decreases n
  {
    n == 0 || (u % a == v % a && SameFields(u / b, v / b, a, b, n - 1))
  }

  lemma {:induction false} SameFieldsSameWord(u: nat, v: nat, w: nat, p: nat, n: nat)
    requires w <= p && SameFields(u, v, Pow2(w), Pow2(p), n)
    ensures And(u, Fields(w, p, n)) == And(v, Fields(w, p, n))
    decreases n
  {
    if n > 0 {
      AndFields(u, w, p, n);
      AndFields(v, w, p, n);
      HiLo(u, w);
      HiLo(v, w);
      HiLo(u, p);
      HiLo(v, p);
      SameFieldsSameWord(Hi(u, p), Hi(v, p), w, p, n - 1);
    }
  }

  lemma SharedWord(s: nat, t: nat, w: nat)
    requires s < WORDS && t < WORDS && 5 <= w <= 6
    requires SameFields(69069 * s + 1, 69069 * t + 1, Pow2(w), Pow2(FieldWidth(w)), FieldCount(w))
    ensures Pattern(w)[s] == Pattern(w)[t]
  {
    WordForm(s, 69069 * s + 1, w);
    WordForm(t, 69069 * t + 1, w);
    SameFieldsSameWord(69069 * s + 1, 69069 * t + 1, w, FieldWidth(w), FieldCount(w));
  }

  lemma DeceivedBy(pat: seq<nat>, e: nat, d: nat, i: nat, j: nat, i': nat, j': nat)
    requires |pat| == WORDS && e == 0 < d < WORDS && WORDS / 2 <= i < j < WORDS
    requires i' == (d + i) % WORDS && j' == (d + j) % WORDS && pat[i] == pat[i'] && pat[j] == pat[j']
    ensures !Decodes(pat)
  {
    SharedSeeds(pat, e, d, i, i');
    SharedSeeds(pat, e, d, j, j');
    TwoSharedWords(pat, e, d, i, j);
  }

  /** Two seeds `i` and `j` whose words recur `d` seeds later. */
  lemma Deceived(w: nat, d: nat, i: nat, j: nat, i': nat, j': nat)
    requires 5 <= w <= 6 && 0 < d < WORDS && WORDS / 2 <= i < j < WORDS
    requires i' == (d + i) % WORDS && j' == (d + j) % WORDS
    requires SameFields(69069 * i + 1, 69069 * i' + 1, Pow2(w), Pow2(FieldWidth(w)), FieldCount(w))
    requires SameFields(69069 * j + 1, 69069 * j' + 1, Pow2(w), Pow2(FieldWidth(w)), FieldCount(w))
    ensures !Decodes(Pattern(w))
  {
    SharedWord(i, i', w);
    SharedWord(j, j', w);
    DeceivedBy(Pattern(w), 0, d, i, j, i', j');
  }

  lemma Fields5()
    ensures SameFields(565882318, 1098542446, 32, 256, 4) && SameFields(565951387, 1098611515, 32, 256, 4)
  {}

  lemma Fields6()
    ensures SameFields(1074022951, 8702695, 64, 256, 4) && SameFields(1075058986, 9738730, 64, 256, 4)
  {}

  /** The search decodes the delay, for every buffer with fewer than half its words corrupted,
      exactly at the data widths other than 5 and 6. */
  lemma SearchDecodesDelay(w: nat)
    requires 1 <= w <= 16
    ensures Decodes(Pattern(w)) <==> w != 5 && w != 6
  {
    GapSizes();
    if w == 5 {
      Fields5();
      Deceived(w, 7712, 8193, 8194, 15905, 15906);
    } else if w == 6 {
      Fields6();
      Deceived(w, 960, 15550, 15565, 126, 141);
    } else {
      PatternInjective(w);
      InjectiveDecodes(Pattern(w));
    }
  }
}
