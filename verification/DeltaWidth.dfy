/** The deltas that `LoggerBuilder` sends, and how many bits and bytes it chooses for each. */
module DeltaWidth {
  import opened Bits
  import opened Temperature
  import opened Packets

  // ------------------------------------------------------------------- deltas

  /** The difference of two stored temperatures, in sixteen bits. */
  function Delta(t: real, base: real): int16 {
    Wrap16(Quantised(t) - Quantised(base))
  }

  /** One delta for each temperature that has a base. */
  function Deltas(t: seq<real>, base: seq<real>): (d: seq<int16>)
    ensures |d| == Least(|t|, |base|)
  {
    seq(Least(|t|, |base|), i requires 0 <= i < Least(|t|, |base|) => Delta(t[i], base[i]))
  }

  function Abs(x: int): nat {
    if x < 0 then -x else x
  }

  /** `maxDiff`: an `int16_t`, so the absolute value of -32768 is stored as -32768. */
  function MaxDiff(d: seq<int16>): int16 {
    if d == [] then 0
    else
      var before := MaxDiff(d[..|d| - 1]);
      var last: int := d[|d| - 1];
      if Abs(last) > before then Wrap16(Abs(last)) else before
  }

  /** `calcRequiredBits`, called with `maxDiff` converted to `uint16_t`: the bits of the value, but at most 15. */
  function RequiredBits(value: uint16): (bits: nat)
    ensures bits <= 15
    ensures value < 0x8000 ==> value < Pow2(bits) && (bits > 0 ==> Pow2(bits - 1) <= value)
    ensures value >= 0x8000 ==> bits == 15
    ensures bits > 8 <==> value >= 256
    ensures bits == 0 <==> value == 0
  {
    PowersOfTwo();
    if value == 0 then 0
    else if value < 2 then 1
    else if value < 4 then 2
    else if value < 8 then 3
    else if value < 16 then 4
    else if value < 32 then 5
    else if value < 64 then 6
    else if value < 128 then 7
    else if value < 256 then 8
    else if value < 512 then 9
    else if value < 1024 then 10
    else if value < 2048 then 11
    else if value < 4096 then 12
    else if value < 8192 then 13
    else if value < 16384 then 14
    else 15
  }

  /** Bits per sample and bytes per sample that the builder chooses. */
  function SampleBits(d: seq<int16>): (bits: nat)
    ensures bits <= 15
  {
    RequiredBits(MaxDiff(d) % 0x1_0000)
  }

  function SampleBytes(d: seq<int16>): Width
  {
    BytesForBits(SampleBits(d))
  }

  /** `NTOH2` gives back the value that `HTON2` stored. */
  lemma Hton2OfStored(t: real)
    ensures Hton2(Hton2(Quantised(t))) == Quantised(t)
  {
    hide Quantised, Hton2;
    Hton2Twice(Quantised(t));
  }

  /** The macros give unsigned values; the difference is the same in sixteen bits. */
  lemma UnsignedDifference(a: int16, b: int16)
    ensures Wrap16(a % 0x1_0000 - b % 0x1_0000) == Wrap16(a - b)
  {
  }

  // ------------------------------------------------------ the deltas that count

  /**
   A delta of 256 or more that counts: no delta of -32768 comes after it, and it is not -32768 itself, unless it is
   the last one.
   */
  predicate IsWide(d: seq<int16>, k: nat)
    requires k < |d|
  {
    && (d[k] <= -256 || d[k] >= 256)
    && (d[k] == -0x8000 ==> k == |d| - 1)
    && forall j :: k < j < |d| ==> d[j] != -0x8000
  }

  predicate NeedsTwo(d: seq<int16>) {
    exists k :: 0 <= k < |d| && IsWide(d, k)
  }

  /** `maxDiff` is negative just after a delta of -32768, and otherwise the largest delta since the last of these. */
  lemma {:induction false} MaxDiffRule(d: seq<int16>)
    ensures MaxDiff(d) < 0 <==> d != [] && d[|d| - 1] == -0x8000
    ensures MaxDiff(d) >= 256 <==> exists k :: 0 <= k < |d| && d[k] != -0x8000 && IsWide(d, k)
  {
    if d != [] {
      var n := |d| - 1;
      var before := d[..n];
      MaxDiffRule(before);
      if d[n] != -0x8000 {
        if k :| 0 <= k < n && before[k] != -0x8000 && IsWide(before, k) {
          assert d[k] == before[k] && IsWide(d, k);
        }
        if k :| 0 <= k < |d| && d[k] != -0x8000 && IsWide(d, k) {
          if k < n {
            assert d[k] == before[k] && IsWide(before, k);
          }
        }
        if d[n] <= -256 || d[n] >= 256 {
          assert IsWide(d, n);
        }
      }
    }
  }

  /** Two bytes are used exactly if some delta of 256 or more counts. */
  lemma WidthRule(d: seq<int16>)
    ensures SampleBytes(d) == 2 <==> NeedsTwo(d)
  {
    hide RequiredBits, MaxDiff;
    MaxDiffRule(d);
    if d != [] && d[|d| - 1] == -0x8000 {
      assert IsWide(d, |d| - 1);
    } else if k :| 0 <= k < |d| && IsWide(d, k) {
      assert d[k] != -0x8000;
    }
  }

  /** A delta of -32768 at `k` or after it makes the builder forget the delta at `k`. */
  predicate IsForgotten(d: seq<int16>, k: nat)
    requires k < |d|
  {
    exists j :: k <= j < |d| && d[j] == -0x8000
  }

  /** The last delta is not -32768, and no delta that is not forgotten is larger than `bound`. */
  predicate CountsUpTo(d: seq<int16>, bound: nat) {
    && (d != [] ==> d[|d| - 1] != -0x8000)
    && forall k :: 0 <= k < |d| ==> Abs(d[k]) <= bound || IsForgotten(d, k)
  }

  lemma ForgottenBefore(before: seq<int16>, x: int16, k: nat)
    requires k < |before| && x != -0x8000
    ensures IsForgotten(before + [x], k) <==> IsForgotten(before, k)
  {
    var d := before + [x];
    if j :| k <= j < |d| && d[j] == -0x8000 {
      assert before[j] == -0x8000;
    }
    if j :| k <= j < |before| && before[j] == -0x8000 {
      assert d[j] == -0x8000;
    }
  }

  lemma CountsStep(before: seq<int16>, x: int16, bound: nat)
    ensures CountsUpTo(before + [x], bound)
            <==> x != -0x8000 && Abs(x) <= bound
                 && (before == [] || before[|before| - 1] == -0x8000 || CountsUpTo(before, bound))
  {
    hide Abs;
    var d, n := before + [x], |before|;
    if x != -0x8000 {
      assert !IsForgotten(d, n);
      forall k | 0 <= k < n
        ensures d[k] == before[k] && (IsForgotten(d, k) <==> IsForgotten(before, k))
      {
        ForgottenBefore(before, x, k);
      }
      if n > 0 && before[n - 1] == -0x8000 {
        assert forall k :: 0 <= k < n ==> IsForgotten(before, k);
      }
    }
  }

  lemma MaxDiffSign(d: seq<int16>)
    ensures MaxDiff(d) < 0 <==> d != [] && d[|d| - 1] == -0x8000
  {
  }

  lemma MaxDiffStep(before: seq<int16>, x: int16)
    ensures MaxDiff(before + [x])
            == if Abs(x) > MaxDiff(before) then Wrap16(Abs(x)) else MaxDiff(before)
  {
    assert (before + [x])[..|before|] == before;
  }

  lemma NoDeltas(bound: nat)
    ensures MaxDiff([]) == 0 && CountsUpTo([], bound)
  {
  }

  /** One more delta: the largest so far is `before`, negative after a delta of -32768. */
  lemma LargerOf(before: int16, x: int16, bound: nat, after: int16)
    requires after == if Abs(x) > before then Wrap16(Abs(x)) else before
    ensures 0 <= after <= bound <==> x != -0x8000 && Abs(x) <= bound && (before < 0 || before <= bound)
  {
  }

  lemma {:induction false} LargestCounted(d: seq<int16>, bound: nat)
    ensures 0 <= MaxDiff(d) <= bound <==> CountsUpTo(d, bound)
  {
    hide *;
    NoDeltas(bound);
    if d != [] {
      var n := |d| - 1;
      var before, x := d[..n], d[n];
      assert d == before + [x];
      LargestCounted(before, bound);
      MaxDiffSign(before);
      MaxDiffStep(before, x);
      CountsStep(before, x, bound);
      LargerOf(MaxDiff(before), x, bound, MaxDiff(d));
    }
  }

  /** No delta that counts is larger than `n` bits can say. */
  predicate FitIn(d: seq<int16>, n: nat) {
    CountsUpTo(d, Pow2(n) - 1)
  }

  predicate EndsExtreme(d: seq<int16>) {
    d != [] && d[|d| - 1] == -0x8000
  }

  lemma BitsFit(value: uint16, n: nat)
    requires value < 0x8000
    ensures RequiredBits(value) <= n <==> value <= Pow2(n) - 1
  {
    hide RequiredBits, Pow2;
    var bits := RequiredBits(value);
    if bits <= n {
      PowersGrow(bits, n);
    } else {
      PowersGrow(n, bits - 1);
    }
  }

  /** The bits chosen are the fewest that say every delta that counts, and 15 if the last is -32768. */
  lemma LeastBits(d: seq<int16>, n: nat)
    ensures EndsExtreme(d) ==> SampleBits(d) == 15 && !FitIn(d, n)
    ensures !EndsExtreme(d) ==> (SampleBits(d) <= n <==> FitIn(d, n))
  {
    hide MaxDiff, CountsUpTo, RequiredBits, Pow2;
    MaxDiffSign(d);
    LargestCounted(d, Pow2(n) - 1);
    if !EndsExtreme(d) {
      BitsFit(MaxDiff(d), n);
    }
  }

  lemma LeastOfAll(d: seq<int16>)
    ensures if EndsExtreme(d) then SampleBits(d) == 15 else forall n: nat :: SampleBits(d) <= n <==> FitIn(d, n)
  {
    hide *;
    LeastBits(d, 0);
    if !EndsExtreme(d) {
      forall n: nat
        ensures SampleBits(d) <= n <==> FitIn(d, n)
      {
        LeastBits(d, n);
      }
    }
  }

  /** No bits are chosen exactly if no delta but 0 counts, and one at most exactly if none larger than 1 does. */
  lemma FewBits(d: seq<int16>)
    ensures SampleBits(d) == 0 <==> CountsUpTo(d, 0)
    ensures SampleBits(d) <= 1 <==> CountsUpTo(d, 1)
  {
    hide SampleBits, CountsUpTo;
    PowersOfTwo();
    LeastBits(d, 0);
    LeastBits(d, 1);
  }

  method CalcDeltas(temperature: seq<real>, baseTemperature: seq<real>) returns (d: seq<int16>, bits: nat)
    requires AllCastable(temperature) && AllCastable(baseTemperature)
    ensures d == Deltas(temperature, baseTemperature) && bits == SampleBits(d)
    ensures if EndsExtreme(d) then bits == 15 else forall n: nat :: bits <= n <==> FitIn(d, n)
  {
    hide Quantised, Hton2, RequiredBits, FitIn, EndsExtreme;
    var maxDiff: int16 := 0;
    d := [];
    var i := 0;
    while i < |temperature|
      invariant i <= |temperature| && i <= |baseTemperature|
      invariant |d| == i && forall k :: 0 <= k < i ==> d[k] == Delta(temperature[k], baseTemperature[k])
      invariant maxDiff == MaxDiff(d)
    {
      if i == |baseTemperature| {
        break;
      }
      var t1 := DoubleToTemperature(temperature[i]);
      var t2 := DoubleToTemperature(baseTemperature[i]);
      Hton2OfStored(temperature[i]);
      Hton2OfStored(baseTemperature[i]);
      var difference := Wrap16(Hton2(t1) % 0x1_0000 - Hton2(t2) % 0x1_0000);
      UnsignedDifference(Hton2(t1), Hton2(t2));
      ghost var before := d;
      if Abs(difference) > maxDiff {
        maxDiff := Wrap16(Abs(difference));
      }
      d := d + [difference];
      assert d[..|d| - 1] == before;
      i := i + 1;
    }
    bits := RequiredBits(maxDiff % 0x1_0000);
    LeastOfAll(d);
  }
}
