/** The labels of the time screen's hour and minute wheels:
    `(0..n-1).map { it.toString().padStart(2, '0') }`. */
module TimeLabels {
  import opened Text

  /** The label of one wheel value: at least two characters, exactly two
      below 100, reading back as the value. */
  function TwoDigitLabel(n: nat): (r: string)
    ensures |r| >= 2
    ensures n < 100 ==> |r| == 2
    ensures DecimalValue(r) == n
  {
    var digits := DecimalString(n);
    var r := PadStart(digits, 2, '0');
    assert r == r[..|r| - |digits|] + digits;
    LeadingZerosKeepValue(r[..|r| - |digits|], digits);
    r
  }

  /** Below 100, the label is the tens digit followed by the units digit. */
  lemma LabelDigits(n: nat)
    requires n < 100
    ensures TwoDigitLabel(n) == [Digit(n / 10), Digit(n % 10)]
  {
    if n < 10 {
      assert DecimalString(n) == [Digit(n)];
      assert n / 10 == 0 && n % 10 == n;
    } else {
      assert DecimalString(n / 10) == [Digit(n / 10)];
      assert DecimalString(n) == [Digit(n / 10), Digit(n % 10)];
    }
  }

  /** The labels for the values 0 to count - 1. */
  function Labels(count: nat): (r: seq<string>)
    requires count <= 100
    ensures |r| == count
    ensures forall i :: 0 <= i < count ==> r[i] == [Digit(i / 10), Digit(i % 10)]
  {
    var r := seq(count, i requires 0 <= i < count => TwoDigitLabel(i));
    forall i | 0 <= i < count
      ensures r[i] == [Digit(i / 10), Digit(i % 10)]
    {
      LabelDigits(i);
    }
    r
  }

  /** Two digits read back as the value they were written from. */
  lemma DigitsReadBack(n: nat)
    requires n < 100
    ensures DecimalValue([Digit(n / 10), Digit(n % 10)]) == n
  {
    var t := [Digit(n / 10), Digit(n % 10)];
    assert t[..1] == [t[0]] && [t[0]][..0] == [];
    assert DecimalValue([t[0]]) == DigitValue(t[0]) == n / 10;
    assert DigitValue(t[1]) == n % 10;
  }

  /** Every label reads back as its value. */
  lemma LabelsReadBack(count: nat, i: nat)
    requires count <= 100 && i < count
    ensures |Labels(count)[i]| == 2
    ensures DecimalValue(Labels(count)[i]) == i
  {
    DigitsReadBack(i);
  }

  /** The hour labels "00" to "23". */
  function HourLabels(): (r: seq<string>)
    ensures |r| == 24
    ensures forall i :: 0 <= i < 24 ==> r[i] == [Digit(i / 10), Digit(i % 10)]
    ensures forall i :: 0 <= i < 24 ==> |r[i]| == 2 && DecimalValue(r[i]) == i
  {
    var r := Labels(24);
    forall i | 0 <= i < 24
      ensures r[i] == [Digit(i / 10), Digit(i % 10)]
      ensures |r[i]| == 2 && DecimalValue(r[i]) == i
    {
      LabelsReadBack(24, i);
    }
    r
  }

  /** The minute labels "00" to "59". */
  function MinuteLabels(): (r: seq<string>)
    ensures |r| == 60
    ensures forall i :: 0 <= i < 60 ==> r[i] == [Digit(i / 10), Digit(i % 10)]
    ensures forall i :: 0 <= i < 60 ==> |r[i]| == 2 && DecimalValue(r[i]) == i
  {
    var r := Labels(60);
    forall i | 0 <= i < 60
      ensures r[i] == [Digit(i / 10), Digit(i % 10)]
      ensures |r[i]| == 2 && DecimalValue(r[i]) == i
    {
      LabelsReadBack(60, i);
    }
    r
  }

  /** Distinct values get distinct labels, so a selected label names one
      value. */
  lemma LabelsDistinct(count: nat, i: nat, j: nat)
    requires count <= 100 && i < count && j < count && i != j
    ensures Labels(count)[i] != Labels(count)[j]
  {
    LabelsReadBack(count, i);
    LabelsReadBack(count, j);
  }
}
