/**
 * Calendar dates as the moods and journals handlers see them: the result of
 * Python's `datetime.fromisoformat` (kept abstract, a parameter of the
 * handlers) and the text of `date.isoformat()` (written out here).
 */
module Dates {
  import opened Text

  datatype CalendarDate = CalendarDate(year: nat, month: nat, day: nat)

  /** The ranges a Python `date` keeps: years 1 to 9999, months 1 to 12, days 1 to 31. */
  predicate ValidDate(d: CalendarDate)
  {
    1 <= d.year <= 9999 && 1 <= d.month <= 12 && 1 <= d.day <= 31
  }

  /** A date that a parser can return. */
  type Date = d: CalendarDate | ValidDate(d) witness CalendarDate(1, 1, 1)

  /** The three fields of `date.isoformat()`: year to 4 digits, month and day to 2. */
  function IsoFields(d: CalendarDate): seq<string>
  {
    [ZFill(Dec(d.year), 4), ZFill(Dec(d.month), 2), ZFill(Dec(d.day), 2)]
  }

  /** `date.isoformat()`: "YYYY-MM-DD". */
  function IsoDate(d: CalendarDate): (s: string)
    ensures Split(s, '-') == IsoFields(d)
  {
    var fields := IsoFields(d);
    PaddedDecHasNoDash(d.year, 4);
    PaddedDecHasNoDash(d.month, 2);
    PaddedDecHasNoDash(d.day, 2);
    SplitJoin(fields, '-');
    Join(fields, '-')
  }

  /** The text of a valid date is ten characters long. */
  lemma IsoDateLength(d: CalendarDate)
    requires ValidDate(d)
    ensures |IsoDate(d)| == 10
  {
    assert Pow10(2) == 100 && Pow10(4) == 10000 by {
      assert Pow10(1) == 10;
      assert Pow10(3) == 1000;
    }
    PaddedWidth(d.year, 4);
    PaddedWidth(d.month, 2);
    PaddedWidth(d.day, 2);
    var f := IsoFields(d);
    assert f[1..][1..] == [f[2]];
    assert Join(f[1..][1..], '-') == f[2];
    assert Join(f[1..], '-') == f[1] + ['-'] + f[2];
    assert Join(f, '-') == f[0] + ['-'] + (f[1] + ['-'] + f[2]);
  }

  /** Zero-padded decimal text is made of digits only, so it holds no '-'. */
  lemma PaddedDecHasNoDash(n: nat, width: int)
    ensures '-' !in ZFill(Dec(n), width)
    ensures forall i :: 0 <= i < |ZFill(Dec(n), width)| ==> '0' <= ZFill(Dec(n), width)[i] <= '9'
  {
    var s := Dec(n);
    ZFillUnsigned(s, width);
    var r := ZFill(s, width);
    PaddedDigits(Zeros(|r| - |s|), s);
  }

  /** Zeros in front of digits give digits. */
  lemma PaddedDigits(z: string, s: string)
    requires forall i :: 0 <= i < |z| ==> z[i] == '0'
    requires forall i :: 0 <= i < |s| ==> '0' <= s[i] <= '9'
    ensures forall i :: 0 <= i < |z + s| ==> '0' <= (z + s)[i] <= '9'
    ensures '-' !in z + s
  {
    var r := z + s;
    forall i | 0 <= i < |r| ensures '0' <= r[i] <= '9' {
      if i < |z| {
        assert r[i] == z[i];
      } else {
        assert r[i] == s[i - |z|];
      }
    }
  }

  /** A number below 10^width pads to exactly `width` characters. */
  lemma PaddedWidth(n: nat, width: nat)
    requires 1 <= width <= 4 && n < Pow10(width)
    ensures |ZFill(Dec(n), width)| == width
  {
    DecLength(n, width);
  }
}
