/** Dual-range oversampled voltage acquisition (mcu/voltmeter.c).

    The converter is read eight times per measurement and the eight 12-bit
    codes are averaged. A measurement is taken on the HIGH (2.5 V) reference
    first; a low reading is re-measured on the LOW (1.5 V) reference, and a
    saturated reading is reported as the full-scale voltage. The eight codes
    that the hardware would deliver under each reference are inputs here. */
module Sampler {

  /** The reference selector, REFER_LOW = 0 and REFER_HIGH = 1. */
  datatype Reference = ReferLow | ReferHigh

  const AdcHalfRange: nat := 2048
  const AdcMaxValue: nat := 4095
  const SwitchValue: nat := 2457
  const ReferVoltage: nat := 250
  /** Full-scale voltage in units of 10 mV (5.00 V). */
  const MaxVoltage: nat := 500
  /** Number of conversion registers ADC12MEM0..ADC12MEM7 that are averaged. */
  const Readings: nat := 8

  /** One conversion result: a 12-bit code. */
  type AdcCode = n: nat | n <= 4095

  /** The arithmetic sum of a block of codes. */
  function Sum(s: seq<AdcCode>): nat
  {
    if s == [] then 0 else s[0] + Sum(s[1..])
  }

  lemma {:induction false} SumBound(s: seq<AdcCode>)
    ensures Sum(s) <= AdcMaxValue * |s|
  {
    if s != [] {
      SumBound(s[1..]);
    }
  }

  /** The sum of exactly eight codes, written out as the registers are added. */
  lemma SumOfEight(m: seq<AdcCode>)
    requires |m| == Readings
    ensures Sum(m) == m[0] as nat + m[1] + m[2] + m[3] + m[4] + m[5] + m[6] + m[7]
  {
    assert m[1..][1..][1..][1..][1..][1..][1..][1..] == [];
    assert Sum(m[7..]) == m[7];
    assert Sum(m[6..]) == m[6] + Sum(m[7..]) by { assert m[6..][1..] == m[7..]; }
    assert Sum(m[5..]) == m[5] + Sum(m[6..]) by { assert m[5..][1..] == m[6..]; }
    assert Sum(m[4..]) == m[4] + Sum(m[5..]) by { assert m[4..][1..] == m[5..]; }
    assert Sum(m[3..]) == m[3] + Sum(m[4..]) by { assert m[3..][1..] == m[4..]; }
    assert Sum(m[2..]) == m[2] + Sum(m[3..]) by { assert m[2..][1..] == m[3..]; }
    assert Sum(m[1..]) == m[1] + Sum(m[2..]) by { assert m[1..][1..] == m[2..]; }
  }

  /** `n >> k` on an unsigned value: k successive halvings. */
  function ShiftRight(n: nat, k: nat): nat
    decreases k
  {
    if k == 0 then n else ShiftRight(n / 2, k - 1)
  }

  /** Shifting right by three bits is floor division by eight. */
  lemma ShiftRightThree(n: nat)
    ensures ShiftRight(n, 3) == n / Readings
  {
    assert ShiftRight(n, 3) == n / 2 / 2 / 2;
  }

  /** measure_voltage's arithmetic: the registers are added four at a time
      in their own 16-bit width (each partial sum is at most 4 * 4095 =
      16380, so neither wraps), accumulated into an unsigned long (at most
      8 * 4095 = 32760) and shifted right by three. The result is the floor
      of the mean and is itself a code. */
  function Average(mem: seq<AdcCode>): (raw: nat)
    requires |mem| == Readings
    ensures raw <= AdcMaxValue
    ensures mem[0] as nat + mem[1] + mem[2] + mem[3] < 0x1_0000
    ensures mem[4] as nat + mem[5] + mem[6] + mem[7] < 0x1_0000
    ensures Readings * raw <= Sum(mem) < Readings * raw + Readings
  {
    var retVal: nat := mem[0] as nat + mem[1] + mem[2] + mem[3];
    var total: nat := retVal + mem[4] + mem[5] + mem[6] + mem[7];
    SumOfEight(mem);
    SumBound(mem);
    ShiftRightThree(total);
    ShiftRight(total, 3)
  }

  /** `raw * REFER_VOLTAGE / 2048` in unsigned long arithmetic; for a 12-bit
      code the product is at most 1023750, far below 2^32. */
  function Scale(raw: nat): (voltage: nat)
    ensures raw <= AdcMaxValue ==> voltage < MaxVoltage
    ensures raw == AdcMaxValue ==> voltage == MaxVoltage - 1
  {
    raw * ReferVoltage / AdcHalfRange
  }

  lemma ScaleMonotone(a: nat, b: nat)
    requires a <= b
    ensures Scale(a) <= Scale(b)
  {
    assert a * ReferVoltage <= b * ReferVoltage;
  }

  /** get_voltage: measure on HIGH; re-measure on LOW below the switch value;
      report full scale when HIGH saturates; otherwise scale the raw average.
      `high` and `low` are the eight codes the converter delivers on each
      reference; `low` is only consumed by a second measurement. The returned
      reference is the final value of the global Refer_Voltage, and
      `measurements` counts the calls to measure_voltage. */
  method GetVoltage(high: seq<AdcCode>, low: seq<AdcCode>)
    returns (voltage: nat, refer: Reference, measurements: nat)
    requires |high| == Readings && |low| == Readings
    ensures voltage <= MaxVoltage
    ensures refer == ReferHigh <==> Average(high) >= SwitchValue
    ensures Average(high) < SwitchValue ==>
              measurements == 2 && voltage == Scale(Average(low))
    ensures Average(high) == AdcMaxValue ==>
              measurements == 1 && voltage == MaxVoltage
    ensures SwitchValue <= Average(high) < AdcMaxValue ==>
              measurements == 1 && voltage == Scale(Average(high))
  {
    refer := ReferHigh;
    var rawVoltage := Average(high);
    measurements := 1;

    if rawVoltage < SwitchValue {
      refer := ReferLow;
      rawVoltage := Average(low);
      measurements := 2;
    } else if rawVoltage == AdcMaxValue {
      return MaxVoltage, refer, measurements;
    }

    voltage := Scale(rawVoltage);
  }
}
