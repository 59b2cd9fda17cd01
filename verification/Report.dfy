/** The averages of host/src/telemetry_report.cpp: exact text, an integer when it is one and a ratio otherwise. */
module Report {
  import opened Words
  import opened Protocol
  import opened Metrics
  import opened Statistics

  function DigitChar(d: nat): char
    requires d < 10
  {
    ['0', '1', '2', '3', '4', '5', '6', '7', '8', '9'][d]
  }

  /** `std::to_string` of an unsigned number. */
  function Decimal(n: nat): (s: string)
    ensures |s| > 0 && forall c :: c in s ==> '0' <= c <= '9'
  {
    if n < 10 then [DigitChar(n)] else Decimal(n / 10) + [DigitChar(n % 10)]
  }

  /** The absolute value, computed without leaving the signed range on the way. */
  function Magnitude(sum: i64): u64 {
    if sum < 0 then
      var shifted: i64 := -(sum + 1);
      shifted + 1
    else sum
  }

  function FormatUnsignedAverage(sum: u64, count: u64): string {
    if count == 0 then "N/A"
    else if sum % count == 0 then Decimal(sum / count)
    else Decimal(sum) + "/" + Decimal(count)
  }

  function FormatSignedAverage(sum: i64, count: u64): string {
    if count == 0 then "N/A"
    else
      var magnitude := Magnitude(sum);
      var sign := if sum < 0 then "-" else "";
      if magnitude % count == 0 then sign + Decimal(magnitude / count)
      else sign + Decimal(magnitude) + "/" + Decimal(count)
  }

  // ----- A reader of such texts

  datatype Ratio = Ratio(numerator: int, denominator: nat)

  function ParseNat(s: string): Option<nat> {
    if |s| == 0 || !('0' <= s[|s| - 1] <= '9') then None
    else
      var d := s[|s| - 1] as int - '0' as int;
      if |s| == 1 then Some(d)
      else
        var high := ParseNat(s[..|s| - 1]);
        if high.None? then None else Some(10 * high.value + d)
  }

  /** Where the first slash is, or the length when there is none. */
  function SlashAt(s: string): (k: nat)
    ensures k <= |s|
  {
    if |s| == 0 || s[0] == '/' then 0 else 1 + SlashAt(s[1..])
  }

  function ParseUnsigned(s: string): Option<Ratio> {
    var k := SlashAt(s);
    var n := ParseNat(s[..k]);
    if n.None? then None
    else if k == |s| then Some(Ratio(n.value, 1))
    else
      var d := ParseNat(s[k + 1..]);
      if d.None? then None else Some(Ratio(n.value, d.value))
  }

  function ParseAverage(s: string): Option<Ratio> {
    if |s| > 0 && s[0] == '-' then
      var r := ParseUnsigned(s[1..]);
      if r.None? then None else Some(Ratio(-r.value.numerator, r.value.denominator))
    else ParseUnsigned(s)
  }

  lemma {:induction false} ParseOfDecimal(n: nat)
    ensures ParseNat(Decimal(n)) == Some(n)
    decreases n
  {
    if n >= 10 {
      hide ParseNat, DigitChar;
      ParseOfDecimal(n / 10);
      ParseSnoc(Decimal(n / 10), n % 10);
    } else {
      ParseDigit(n);
    }
  }

  lemma ParseDigit(d: nat)
    requires d < 10
    ensures '0' <= DigitChar(d) <= '9' && DigitChar(d) as int - '0' as int == d
    ensures ParseNat([DigitChar(d)]) == Some(d)
  {
  }

  lemma ParseSnoc(s: string, d: nat)
    requires |s| > 0 && d < 10 && ParseNat(s).Some?
    ensures ParseNat(s + [DigitChar(d)]) == Some(10 * ParseNat(s).value + d)
  {
    hide DigitChar;
    ParseDigit(d);
    assert (s + [DigitChar(d)])[..|s|] == s;
  }

  predicate AllDigits(s: string) {
    forall i :: 0 <= i < |s| ==> '0' <= s[i] <= '9'
  }

  /** A text without a superfluous leading zero is what its number prints as. */
  lemma {:induction false} DecimalOfParse(s: string)
    requires |s| > 0 && AllDigits(s) && (|s| == 1 || s[0] != '0')
    ensures ParseNat(s).Some? && Decimal(ParseNat(s).value) == s
    ensures s[0] != '0' ==> ParseNat(s).value > 0
    decreases |s|
  {
    hide Decimal, ParseNat, DigitChar;
    var init, d := LastDigit(s);
    if |s| > 1 {
      DecimalOfParse(init);
      ParseSnoc(init, d);
      DecimalSnoc(ParseNat(init).value, d);
    } else {
      ParseDigit(d);
      DecimalOfDigit(d);
    }
  }

  lemma LastDigit(s: string) returns (init: string, d: nat)
    requires |s| > 0 && AllDigits(s)
    ensures d < 10 && AllDigits(init) && |init| == |s| - 1 && s == init + [DigitChar(d)]
    ensures |s| > 1 ==> init[0] == s[0]
    ensures |s| == 1 ==> s == [DigitChar(d)] && (s[0] != '0' ==> d > 0)
  {
    hide DigitChar;
    var n := |s| - 1;
    DigitOfChar(s[n]);
    init, d := s[..n], s[n] as int - '0' as int;
  }

  lemma DecimalSnoc(n: nat, d: nat)
    requires n > 0 && d < 10
    ensures Decimal(10 * n + d) == Decimal(n) + [DigitChar(d)]
  {
    hide DigitChar;
    assert (10 * n + d) / 10 == n && (10 * n + d) % 10 == d;
  }

  lemma DecimalOfDigit(d: nat)
    requires d < 10
    ensures Decimal(d) == [DigitChar(d)]
  {
  }

  lemma DigitOfChar(c: char)
    requires '0' <= c <= '9'
    ensures 0 <= c as int - '0' as int < 10
    ensures c != '0' ==> c as int - '0' as int > 0
    ensures DigitChar(c as int - '0' as int) == c
  {
  }

  /** What is printed has no superfluous leading zero. */
  lemma {:induction false} DecimalIsCanonical(n: nat)
    ensures |Decimal(n)| == 1 || Decimal(n)[0] != '0'
    ensures Decimal(n)[0] == '0' ==> n == 0
    decreases n
  {
    if n >= 10 {
      DecimalIsCanonical(n / 10);
    } else {
      ParseDigit(n);
    }
  }

  lemma {:induction false} SlashAfterDigits(s: string, rest: string)
    requires forall c :: c in s ==> '0' <= c <= '9'
    requires |rest| == 0 || rest[0] == '/'
    ensures SlashAt(s + rest) == |s|
    decreases |s|
  {
    if |s| == 0 {
      assert s + rest == rest;
    } else {
      assert s[0] in s && forall c :: c in s[1..] ==> c in s;
      assert (s + rest)[1..] == s[1..] + rest;
      SlashAfterDigits(s[1..], rest);
    }
  }

  lemma ParseOfInteger(n: nat)
    ensures ParseUnsigned(Decimal(n)) == Some(Ratio(n, 1))
  {
    SlashAfterDigits(Decimal(n), "");
    assert Decimal(n) + "" == Decimal(n) && Decimal(n)[..|Decimal(n)|] == Decimal(n);
    ParseOfDecimal(n);
  }

  lemma ParseOfRatio(n: nat, d: nat)
    ensures ParseUnsigned(Decimal(n) + "/" + Decimal(d)) == Some(Ratio(n, d))
  {
    ParseOfDecimal(n);
    ParseOfDecimal(d);
    hide Decimal, ParseNat, SlashAt;
    var s := Decimal(n) + "/" + Decimal(d);
    var k := |Decimal(n)|;
    SlashAfterDigits(Decimal(n), "/" + Decimal(d));
    assert s == Decimal(n) + ("/" + Decimal(d));
    assert s[..k] == Decimal(n) && s[k + 1..] == Decimal(d);
  }

  ghost predicate IsExactly(r: Ratio, sum: int, count: nat) {
    r.denominator > 0 && r.numerator * count == sum * r.denominator
  }

  lemma DivideExactly(sum: nat, count: nat)
    requires count > 0 && sum % count == 0
    ensures (sum / count) * count == sum
    ensures sum > 0 ==> sum / count > 0
  {
  }

  /**
   There is a text exactly for a positive count. It is the quotient when the division leaves nothing, and otherwise the sum
   and the count themselves.
   */
  lemma UnsignedAverageExact(sum: u64, count: u64)
    ensures var s := FormatUnsignedAverage(sum, count);
            if count == 0 then s == "N/A" && ParseAverage(s).None?
            else
              && ParseAverage(s) == Some(if sum % count == 0 then Ratio(sum / count, 1) else Ratio(sum, count))
              && IsExactly(ParseAverage(s).value, sum, count)
              && ('/' in s <==> sum % count != 0)
  {
    var s := FormatUnsignedAverage(sum, count);
    if count == 0 {
      NotANumber();
    } else if sum % count == 0 {
      DivideExactly(sum, count);
      ParseOfInteger(sum / count);
      assert s[0] in s;
    } else {
      ParseOfRatio(sum, count);
      assert Decimal(sum)[0] in Decimal(sum) && s[0] == Decimal(sum)[0];
      assert s[|Decimal(sum)|] == '/';
    }
  }

  lemma NotANumber()
    ensures ParseAverage("N/A").None?
  {
    assert SlashAt("N/A") == 1 by {
      assert "N/A"[1..][0] == '/';
    }
    assert "N/A"[..1] == "N";
  }

  lemma UnsignedTextOfMagnitude(sum: i64, count: u64)
    requires count > 0
    ensures FormatSignedAverage(sum, count)
         == (if sum < 0 then "-" else "") + FormatUnsignedAverage(Magnitude(sum), count)
  {
    var sign := if sum < 0 then "-" else "";
    var m := Magnitude(sum);
    assert sign + Decimal(m) + "/" + Decimal(count) == sign + (Decimal(m) + "/" + Decimal(count));
  }

  /** The same for every signed sum, the most negative included; a minus sign stands for a negative value only. */
  lemma SignedAverageExact(sum: i64, count: u64)
    ensures var s := FormatSignedAverage(sum, count);
            if count == 0 then s == "N/A" && ParseAverage(s).None?
            else
              && ParseAverage(s) == Some(if sum % count == 0 then Ratio(sum / count, 1) else Ratio(sum, count))
              && IsExactly(ParseAverage(s).value, sum, count)
              && |s| > 0 && (s[0] == '-' <==> sum < 0)
              && s != "-0"
              && ('/' in s <==> sum % count != 0)
  {
    hide FormatSignedAverage, ParseAverage, IsExactly;
    if count == 0 {
      NoAverage(sum);
    } else if sum < 0 {
      NegativeAverage(sum, count);
    } else {
      PositiveAverage(sum, count);
    }
  }

  lemma PositiveAverage(sum: i64, count: u64)
    requires count > 0 && sum >= 0
    ensures FormatSignedAverage(sum, count) == FormatUnsignedAverage(sum, count)
    ensures var s := FormatSignedAverage(sum, count);
            && ParseAverage(s) == Some(if sum % count == 0 then Ratio(sum / count, 1) else Ratio(sum, count))
            && IsExactly(ParseAverage(s).value, sum, count)
            && |s| > 0 && s[0] != '-' && s != "-0" && ('/' in s <==> sum % count != 0)
  {
    hide FormatUnsignedAverage, ParseAverage, IsExactly, FormatSignedAverage;
    UnsignedTextOfMagnitude(sum, count);
    UnsignedAverageExact(sum, count);
    NoMinus(sum, count);
    assert "" + FormatUnsignedAverage(sum, count) == FormatUnsignedAverage(sum, count);
  }

  lemma NegativeAverage(sum: i64, count: u64)
    requires count > 0 && sum < 0
    ensures var s := FormatSignedAverage(sum, count);
            && ParseAverage(s) == Some(if sum % count == 0 then Ratio(sum / count, 1) else Ratio(sum, count))
            && IsExactly(ParseAverage(s).value, sum, count)
            && |s| > 0 && s[0] == '-' && s != "-0" && ('/' in s <==> sum % count != 0)
  {
    hide FormatUnsignedAverage, ParseUnsigned, IsExactly, FormatSignedAverage;
    var m := Magnitude(sum);
    var u := FormatUnsignedAverage(m, count);
    UnsignedTextOfMagnitude(sum, count);
    UnsignedAverageExact(m, count);
    NoMinus(m, count);
    NegatedRemainder(sum, count);
    NotZero(m, count);
    assert ("-" + u)[1..] == u;
    SignFlips(ParseUnsigned(u).value, m, count);
    if sum % count == 0 {
      QuotientFlips(sum, count);
    }
  }

  lemma NoAverage(sum: i64)
    ensures FormatSignedAverage(sum, 0) == "N/A" && ParseAverage("N/A").None?
  {
    NotANumber();
  }

  lemma QuotientFlips(sum: int, count: nat)
    requires count > 0 && sum % count == 0
    ensures sum / count == -((-sum) / count)
  {
    NegatedRemainder(sum, count);
    var q, p := sum / count, (-sum) / count;
    assert sum == q * count && -sum == p * count;
    assert (q + p) * count == 0;
    if q + p > 0 {
      MulMonotone(count, 1, q + p);
    } else if q + p < 0 {
      MulMonotone(count, q + p, -1);
    }
  }

  lemma NotZero(sum: u64, count: u64)
    requires sum > 0 && count > 0
    ensures FormatUnsignedAverage(sum, count) != "0"
  {
    hide FormatUnsignedAverage;
    UnsignedAverageExact(sum, count);
    ParseOfInteger(0);
    assert Decimal(0) == "0";
    assert ParseAverage("0") == Some(Ratio(0, 1));
    assert !IsExactly(Ratio(0, 1), sum, count);
  }

  lemma SignFlips(r: Ratio, m: int, count: nat)
    requires IsExactly(r, m, count)
    ensures IsExactly(Ratio(-r.numerator, r.denominator), -m, count)
  {
    assert (-r.numerator) * count == -(r.numerator * count);
    assert (-m) * r.denominator == -(m * r.denominator);
  }

  lemma NoMinus(sum: u64, count: u64)
    requires count > 0
    ensures |FormatUnsignedAverage(sum, count)| > 0 && FormatUnsignedAverage(sum, count)[0] != '-'
  {
    var s := FormatUnsignedAverage(sum, count);
    if sum % count == 0 {
      assert s[0] in s;
    } else {
      assert Decimal(sum)[0] in Decimal(sum) && s[0] == Decimal(sum)[0];
    }
  }

  lemma NegatedRemainder(x: int, count: nat)
    requires count > 0
    ensures x % count == 0 <==> (-x) % count == 0
  {
    var q := x / count;
    assert x == q * count + x % count;
    if x % count == 0 {
      Multiple(-q, count);
      assert -x == (-q) * count;
    }
    var p := (-x) / count;
    assert -x == p * count + (-x) % count;
    if (-x) % count == 0 {
      Multiple(-p, count);
      assert x == (-p) * count;
    }
  }

  lemma Multiple(k: int, count: nat)
    requires count > 0
    ensures (k * count) % count == 0
  {
    RemainderUnique(k * count, count, k, 0);
  }

  lemma RemainderUnique(x: int, count: nat, q: int, r: nat)
    requires count > 0 && x == q * count + r && r < count
    ensures x % count == r
  {
    var p, s := x / count, x % count;
    assert x == p * count + s;
    assert (q - p) * count == s - r;
    if q > p {
      MulMonotone(count, 1, q - p);
    } else if q < p {
      MulMonotone(count, q - p, -1);
    }
  }

  // ----- The averages of a report

  lemma BetweenExtrema(r: Ratio, sum: int, count: nat, low: int, high: int)
    requires count > 0 && IsExactly(r, sum, count) && count * low <= sum <= count * high
    ensures low * r.denominator <= r.numerator <= high * r.denominator
  {
    var n, d := r.numerator, r.denominator;
    MulMonotone(d, count * low, sum);
    MulMonotone(d, sum, count * high);
    assert d * (count * low) == count * (low * d);
    assert d * (count * high) == count * (high * d);
    CancelFactor(count, low * d, n);
    CancelFactor(count, n, high * d);
  }

  lemma CancelFactor(count: nat, a: int, b: int)
    requires count > 0 && count * a <= count * b
    ensures a <= b
  {
    if a > b {
      MulMonotone(count, 1, a - b);
    }
  }

  /** The readings of a run bracket their sum by its length. */
  lemma TemperatureReadings(frames: seq<TelemetryFrame>)
    requires 0 < |frames| <= TWO_TO_THE_32
    ensures var p, r := Wrapped(Fold(frames)), RangeOf(Temperatures(frames));
            && p.processed == |frames| < TWO_TO_THE_64 && p.temperature == r
            && -TWO_TO_THE_63 <= r.sum < TWO_TO_THE_63
            && r.minimum.Some? && r.maximum.Some?
            && |frames| * r.minimum.value <= r.sum <= |frames| * r.maximum.value
  {
    hide Fold, RangeOf;
    SumBounds(frames);
    FoldWellFormed(frames);
    RangesOfFold(frames);
    RangeMeaning(Temperatures(frames));
  }

  lemma SupplyReadings(frames: seq<TelemetryFrame>)
    requires 0 < |frames| <= SUPPLY_FRAMES
    ensures var p, r := Wrapped(Fold(frames)), RangeOf(Supplies(frames));
            && p.processed == |frames| < TWO_TO_THE_64 && p.supply == r
            && 0 <= r.sum < TWO_TO_THE_64
            && r.minimum.Some? && r.maximum.Some?
            && |frames| * r.minimum.value <= r.sum <= |frames| * r.maximum.value
  {
    hide Fold, RangeOf;
    SupplyLimit(|frames|);
    SumBounds(frames);
    FoldWellFormed(frames);
    RangesOfFold(frames);
    RangeMeaning(Supplies(frames));
  }

  ghost predicate Between(r: Ratio, low: Option<int>, high: Option<int>) {
    && low.Some? && high.Some?
    && low.value * r.denominator <= r.numerator <= high.value * r.denominator
  }

  /**
   While the sum is exact, the reported average temperature is that of the signed numbers on the wire, and lies between the
   reported extrema, which are two of those numbers.
   */
  lemma TemperatureAverage(frames: seq<TelemetryFrame>, values: seq<int>)
    requires 0 < |frames| <= TWO_TO_THE_32 && AreTemperatures(values, frames)
    ensures var p := Wrapped(Fold(frames));
            && -TWO_TO_THE_63 <= p.temperature.sum < TWO_TO_THE_63 && p.processed < TWO_TO_THE_64
            && var s := ParseAverage(FormatSignedAverage(p.temperature.sum, p.processed));
            && s.Some? && IsExactly(s.value, Total(values), |values|)
            && Between(s.value, p.temperature.minimum, p.temperature.maximum)
            && p.temperature.minimum.value in values && p.temperature.maximum.value in values
  {
    hide Fold, FormatSignedAverage, ParseAverage, IsExactly, RangeOf, Wrapped, AreTemperatures, Total;
    TemperaturesAreReadings(frames, values);
    var r := RangeOf(values);
    TemperatureReadings(frames);
    RangeMeaning(values);
    SumIsTotal(values);
    SignedAverageExact(r.sum, |frames|);
    BetweenExtrema(ParseAverage(FormatSignedAverage(r.sum, |frames|)).value, r.sum, |frames|,
                   r.minimum.value, r.maximum.value);
  }

  /** The same for the supply voltage, for as long as its unsigned sum does not wrap. */
  lemma SupplyAverage(frames: seq<TelemetryFrame>, values: seq<int>)
    requires 0 < |frames| <= SUPPLY_FRAMES && AreSupplies(values, frames)
    ensures var p := Wrapped(Fold(frames));
            && 0 <= p.supply.sum < TWO_TO_THE_64 && p.processed < TWO_TO_THE_64
            && var s := ParseAverage(FormatUnsignedAverage(p.supply.sum, p.processed));
            && s.Some? && IsExactly(s.value, Total(values), |values|)
            && Between(s.value, p.supply.minimum, p.supply.maximum)
            && p.supply.minimum.value in values && p.supply.maximum.value in values
  {
    hide Fold, FormatUnsignedAverage, ParseAverage, IsExactly, RangeOf, Wrapped, AreSupplies, Total;
    SuppliesAreReadings(frames, values);
    var r := RangeOf(values);
    SupplyReadings(frames);
    RangeMeaning(values);
    SumIsTotal(values);
    UnsignedAverageExact(r.sum, |frames|);
    BetweenExtrema(ParseAverage(FormatUnsignedAverage(r.sum, |frames|)).value, r.sum, |frames|,
                   r.minimum.value, r.maximum.value);
  }
}
