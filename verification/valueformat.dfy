/**
 * The per-tag value formatting of the full monitors (`update_values` in
 * serialdata_full.py and vedirect_raspberry.py, which format alike): a
 * fixed table keyed by tag, the time-to-go tiers, and the verbatim
 * passthrough of values that are not numbers.
 */
module ValueFormat {

  import opened Wrappers
  import opened Numerals

  /**
   * What a value label shows. `Literal(text)` is exact text.
   * `Fixed(value, divisor, decimals, suffix)` is the text Python's
   * `f"{value / divisor:.{decimals}f}"` produces, followed by `suffix`;
   * it is kept structured because Python rounds the binary float nearest
   * to the quotient, not the decimal quotient itself.
   */
  datatype Shown =
    | Literal(text: string)
    | Fixed(value: real, divisor: nat, decimals: nat, suffix: string)
  {
    /** The quantity the text stands for, before rounding to `decimals`. */
    function Quantity(): real
      requires Fixed? && divisor > 0
    {
      value / divisor as real
    }
  }

  /** The text of a label that has no reading, and of a negative time to go. */
  const NotAvailable: string := "--"

  /** The tags shown as a plain scaled number: divisor and decimals. */
  function ScaleOf(tag: string): (r: Option<(nat, nat)>)
    ensures r.Some? <==> tag in ["V", "I", "P", "SOC", "CE"]
    ensures r.Some? ==> r.value.0 > 0
  {
    if tag == "V" then Some((1000, 1))          // millivolts as volts
    else if tag == "I" then Some((1000, 2))     // milliamps as amps
    else if tag == "P" then Some((1, 0))        // watts, unscaled
    else if tag == "SOC" then Some((10, 1))     // tenths of a percent as percent
    else if tag == "CE" then Some((1000, 1))    // milliamp-hours as amp-hours
    else None
  }

  /**
   * Time to go on whole minutes: `--` below zero, minutes below an hour,
   * hours below a day, days from then on.
   */
  function TimeToGo(t: int): (r: Shown)
    ensures t < 0 <==> r == Literal(NotAvailable)
    ensures r.Literal? <==> t < 60
    ensures r.Fixed? ==> (r.suffix == " h" <==> t < 1440)
    ensures r.Fixed? ==> r.divisor == if r.suffix == " h" then 60 else 1440
    ensures r.Literal? && t >= 0 ==> |r.text| > 2 && ParseInt(r.text[..|r.text| - 2]) == Some(t) && r.text[|r.text| - 2..] == " m"
    ensures r.Literal? && t >= 0 ==> Canonical(r.text[..|r.text| - 2]) && DigitsValue(r.text[..|r.text| - 2]) == t
    ensures r.Fixed? ==> r.divisor > 0 && r.decimals == 1 && r.Quantity() * r.divisor as real == t as real
    ensures r.Fixed? && r.suffix == " h" ==> 1.0 <= r.Quantity() < 24.0
    ensures r.Fixed? && r.suffix == " d" ==> 1.0 <= r.Quantity()
    ensures r.Fixed? ==> r.suffix == " h" || r.suffix == " d"
  {
    if t < 0 then Literal(NotAvailable)
    else if t < 60 then
      var text := IntToString(t) + " m";
      assert text[..|text| - 2] == IntToString(t);
      ParseIntOfIntToString(t);
      Literal(text)
    else if t < 1440 then Fixed(t as real, 60, 1, " h")
    else Fixed(t as real, 1440, 1, " d")
  }

  /** The unit a time-to-go label is shown in, read off the label: 0 for `--`, then minutes, hours, days. */
  function UnitRank(r: Shown): nat
  {
    if r == Literal(NotAvailable) then 0
    else if r.Literal? then 1
    else if r.suffix == " h" then 2
    else 3
  }

  /** A longer time to go is never shown in a smaller unit. */
  lemma TimeToGoMonotone(t1: int, t2: int)
    requires t1 <= t2
    ensures UnitRank(TimeToGo(t1)) <= UnitRank(TimeToGo(t2))
  {
  }

  /**
   * The label text for a value read from the device: by the tag's scale,
   * by the time-to-go tiers on `int(num)`, or the raw text when it is not
   * a number.
   */
  function Normalise(tag: string, val: string): (r: Shown)
    ensures ParseFloat(val).None? ==> r == Literal(val)
    ensures r.Fixed? ==> r.divisor > 0 && ParseFloat(val).Some?
    ensures ScaleOf(tag).None? && tag != "TTG" ==> r == Literal(val)
  {
    match ParseFloat(val)
    case None => Literal(val)
    case Some(num) =>
      if tag == "TTG" then TimeToGo(Trunc(num))
      else match ScaleOf(tag)
        case Some(scale) => Fixed(num, scale.0, scale.1, "")
        case None => Literal(val)
  }

  /** The table of the scaled tags, on any value that parses as a number. */
  lemma ScaleTable(val: string, num: real)
    requires ParseFloat(val) == Some(num)
    ensures Normalise("V", val) == Fixed(num, 1000, 1, "")
    ensures Normalise("I", val) == Fixed(num, 1000, 2, "")
    ensures Normalise("P", val) == Fixed(num, 1, 0, "")
    ensures Normalise("SOC", val) == Fixed(num, 10, 1, "")
    ensures Normalise("CE", val) == Fixed(num, 1000, 1, "")
  {
    ScaleValues();
    ScaledTag("V", val, num);
    ScaledTag("I", val, num);
    ScaledTag("P", val, num);
    ScaledTag("SOC", val, num);
    ScaledTag("CE", val, num);
  }

  /** The divisor and decimals of each scaled tag. */
  lemma ScaleValues()
    ensures ScaleOf("V") == Some((1000, 1)) && ScaleOf("I") == Some((1000, 2)) && ScaleOf("P") == Some((1, 0))
    ensures ScaleOf("SOC") == Some((10, 1)) && ScaleOf("CE") == Some((1000, 1))
  {
  }

  /** A number under a tag with a scale is shown by that scale. */
  lemma ScaledTag(tag: string, val: string, num: real)
    requires ParseFloat(val) == Some(num) && ScaleOf(tag).Some?
    ensures Normalise(tag, val) == Fixed(num, ScaleOf(tag).value.0, ScaleOf(tag).value.1, "")
  {
  }

  /** Time to go is tiered on the number truncated toward zero, so `-0.5` minutes shows as `0 m`. */
  lemma TimeToGoTruncates(val: string, num: real)
    requires ParseFloat(val) == Some(num)
    ensures Normalise("TTG", val) == TimeToGo(Trunc(num))
    ensures -1.0 < num < 60.0 ==> Normalise("TTG", val).Literal? && Normalise("TTG", val) != Literal(NotAvailable)
    ensures num <= -1.0 ==> Normalise("TTG", val) == Literal(NotAvailable)
  {
  }

  /** The tier boundaries at 0 and 60 minutes. */
  lemma MinuteBoundaries()
    ensures TimeToGo(-1) == Literal("--")
    ensures TimeToGo(0) == Literal("0 m")
    ensures TimeToGo(59) == Literal("59 m")
    ensures TimeToGo(60) == Fixed(60.0, 60, 1, " h")
  {
    Minutes(0, "0 m");
    Minutes(59, "59 m");
  }

  /** The label of a time to go under an hour, given its text. */
  lemma Minutes(t: int, text: string)
    requires t == 0 || t == 59
    requires text == if t == 0 then "0 m" else "59 m"
    ensures TimeToGo(t) == Literal(text)
  {
    assert NatToString(5) == "5";
    assert IntToString(t) + " m" == text;
  }

  /** The tier boundary at 1440 minutes, one day. */
  lemma DayBoundary()
    ensures TimeToGo(1439) == Fixed(1439.0, 60, 1, " h")
    ensures TimeToGo(1440) == Fixed(1440.0, 1440, 1, " d")
  {
  }

  /** `V 12800` shows 12.8 volts with one decimal. */
  lemma WorkedVoltage()
    ensures Normalise("V", "12800") == Fixed(12800.0, 1000, 1, "")
    ensures Normalise("V", "12800").Quantity() == 12.8
  {
    assert ParseFloat("12800") == Some(12800.0) by {
      assert NatToString(1) == "1" && NatToString(12) == "12" && NatToString(128) == "128";
      assert NatToString(1280) == "1280" && NatToString(12800) == "12800";
      ParseFloatOfIntToString(12800);
    }
    ScaleTable("12800", 12800.0);
  }

  /** `I -360` shows -0.36 amps with two decimals. */
  lemma WorkedCurrent()
    ensures Normalise("I", "-360") == Fixed(-360.0, 1000, 2, "")
    ensures Normalise("I", "-360").Quantity() == -0.36
  {
    MinusThreeSixty();
    ScaleTable("-360", -360.0);
  }

  /** The text `-360` reads as the number -360. */
  lemma MinusThreeSixty()
    ensures ParseFloat("-360") == Some(-360.0)
  {
    assert NatToString(3) == "3" && NatToString(36) == "36" && NatToString(360) == "360";
    assert IntToString(-360) == "-360";
    ParseFloatOfIntToString(-360);
  }

  /** `TTG 1440` shows one day. */
  lemma WorkedTimeToGo()
    ensures Normalise("TTG", "1440") == Fixed(1440.0, 1440, 1, " d")
    ensures Normalise("TTG", "1440").Quantity() == 1.0
  {
    assert NatToString(1) == "1" && NatToString(14) == "14" && NatToString(144) == "144";
    assert NatToString(1440) == "1440";
    ParseFloatOfIntToString(1440);
  }

  /** `SOC ERR` is not a number, so the label shows `ERR` as it came. */
  lemma WorkedPassthrough()
    ensures Normalise("SOC", "ERR") == Literal("ERR")
  {
    assert "ERR"[0] == 'E' && "ERR"[2] == 'R';
    ParseFloatNeedsNumeral("ERR");
  }
}
