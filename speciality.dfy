/** The speciality model's reading of its free-text `duration` column. */
module SpecialityDuration {
  import opened Wrappers
  import opened Php

  /** Position of the first decimal digit, as the unanchored regex `(\d+)` finds it. */
  function FirstDigitAt(s: string): (r: Option<nat>)
    ensures r.None? <==> forall j :: 0 <= j < |s| ==> !IsDigit(s[j])
    ensures r.Some? ==> r.value < |s| && IsDigit(s[r.value])
    ensures r.Some? ==> forall j :: 0 <= j < r.value ==> !IsDigit(s[j])
  {
    if s == [] then None
    else if IsDigit(s[0]) then Some(0)
    else match FirstDigitAt(s[1..])
      case None => None
      case Some(i) => Some(i + 1)
  }

  /**
   * `getDurationInYears`: null for a falsy duration (null, "" or "0"),
   * otherwise the `(int)` value of the first maximal digit run, or null when
   * there is no digit.
   */
  function DurationInYears(duration: Option<string>): (r: Option<int>)
    ensures r.Some? ==> 0 <= r.value <= PhpIntMax
  {
    if duration.None? || !Truthy(Str(duration.value)) then None
    else
      var s := duration.value;
      match FirstDigitAt(s)
      case None => None
      case Some(i) => Some(IntCastDigits(DigitRun(s[i..])))
  }

  lemma FalsyDurationIsNull()
    ensures DurationInYears(None) == None
    ensures DurationInYears(Some("")) == None
    ensures DurationInYears(Some("0")) == None
  {
  }

  /** A string without digits has no duration. */
  lemma NoDigitNoDuration(s: string)
    requires forall j :: 0 <= j < |s| ==> !IsDigit(s[j])
    ensures DurationInYears(Some(s)) == None
  {
  }

  /**
   * A truthy duration with a digit reads the whole first digit run and
   * nothing after it; the value is never negative and never above PHP_INT_MAX.
   */
  lemma DurationIsFirstDigitRun(s: string, i: nat, k: nat)
    requires s != "" && s != "0"
    requires i < k <= |s| && AllDigits(s[i..k]) && (k == |s| || !IsDigit(s[k]))
    requires forall j :: 0 <= j < i ==> !IsDigit(s[j])
    ensures DurationInYears(Some(s)) == Some(IntCastDigits(s[i..k]))
    ensures 0 <= DurationInYears(Some(s)).value <= PhpIntMax
  {
    assert IsDigit(s[i..k][0]);
    assert FirstDigitAt(s) == Some(i);
    assert s[i..][..k - i] == s[i..k];
    DigitRunOfRun(s[i..], k - i);
  }

  lemma ExampleThreeYears()
    ensures DurationInYears(Some("3 ans")) == Some(3)
  {
    assert "3 ans"[0..1] == "3";
    DurationIsFirstDigitRun("3 ans", 0, 1);
  }

  lemma ExampleFiveYears()
    ensures DurationInYears(Some("5 ans")) == Some(5)
  {
    assert "5 ans"[0..1] == "5";
    DurationIsFirstDigitRun("5 ans", 0, 1);
  }

  /** Later digit runs are ignored. */
  lemma ExampleFirstRunWins()
    ensures DurationInYears(Some("3 ou 5 ans")) == Some(3)
  {
    assert "3 ou 5 ans"[0..1] == "3";
    DurationIsFirstDigitRun("3 ou 5 ans", 0, 1);
  }

  /** Leading zeros are dropped; "00" is truthy and reads as 0. */
  lemma ExampleLeadingZeros()
    ensures DurationInYears(Some("03")) == Some(3)
    ensures DurationInYears(Some("00")) == Some(0)
  {
    assert "03"[0..2] == "03";
    assert DigitsValue("03") == DigitsValue("0") * 10 + 3;
    DurationIsFirstDigitRun("03", 0, 2);
    assert "00"[0..2] == "00";
    assert DigitsValue("00") == DigitsValue("0") * 10 + 0;
    DurationIsFirstDigitRun("00", 0, 2);
  }
}
