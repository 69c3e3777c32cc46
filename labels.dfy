/**
 * Clock labels: the zero-padded "HH:MM" strings the dashboard builds with
 * `String(n).padStart(2, '0')` (app/page.js:23-27, 451-453) and shows for `toSPTime`,
 * and the way it reads such a label back with `split(':').map(Number)` (app/page.js:446-447).
 */
module Labels {
  import opened Wrappers

  /** The decimal digit of `d`. */
  function DigitChar(d: nat): (c: char)
    requires d < 10
    ensures '0' <= c <= '9' && (c as int) - ('0' as int) == d
  {
    (('0' as int) + d) as char
  }

  predicate IsDigit(c: char)
  {
    '0' <= c <= '9'
  }

  function DigitValue(c: char): (d: nat)
    requires IsDigit(c)
    ensures d < 10
  {
    (c as int) - ('0' as int)
  }

  /** `String(n)` for a whole number: its decimal digits, most significant first. */
  function Decimal(n: nat): string
  {
    if n < 10 then [DigitChar(n)] else Decimal(n / 10) + [DigitChar(n % 10)]
  }

  /** `String(n)` is all digits, one digit below ten and two from ten to ninety-nine. */
  lemma {:induction false} DecimalShape(n: nat)
    ensures |Decimal(n)| >= 1 && forall i :: 0 <= i < |Decimal(n)| ==> IsDigit(Decimal(n)[i])
    ensures n < 10 <==> |Decimal(n)| == 1
    ensures 10 <= n < 100 <==> |Decimal(n)| == 2
  {
    if n >= 10 {
      DecimalShape(n / 10);
      var s := Decimal(n);
      assert s == Decimal(n / 10) + [DigitChar(n % 10)];
      forall i | 0 <= i < |s|
        ensures IsDigit(s[i])
      {
        if i < |Decimal(n / 10)| {
          assert s[i] == Decimal(n / 10)[i];
        }
      }
    }
  }

  /** `String(n).padStart(2, '0')`: a leading zero below ten; longer numbers are not cut. */
  function Pad2(n: nat): string
  {
    if n < 10 then "0" + Decimal(n) else Decimal(n)
  }

  /** The padded label is all digits, and has exactly two of them below one hundred. */
  lemma Pad2Shape(n: nat)
    ensures |Pad2(n)| >= 2 && forall i :: 0 <= i < |Pad2(n)| ==> IsDigit(Pad2(n)[i])
    ensures n < 100 <==> |Pad2(n)| == 2
  {
    DecimalShape(n);
    var s := Pad2(n);
    if n < 10 {
      forall i | 0 <= i < |s|
        ensures IsDigit(s[i])
      {
        if i > 0 {
          assert s[i] == Decimal(n)[i - 1];
        }
      }
    }
  }

  /** The label of `t` minutes after midnight: hours, a colon, minutes. */
  function Clock(t: nat): string
  {
    Pad2(t / 60) + ":" + Pad2(t % 60)
  }

  /** `Number` of a two-digit string. */
  function TwoDigits(s: string): nat
    requires |s| == 2 && IsDigit(s[0]) && IsDigit(s[1])
  {
    10 * DigitValue(s[0]) + DigitValue(s[1])
  }

  /**
   * `const [h, m] = time.split(':').map(Number); h * 60 + m` on an "HH:MM" label;
   * None when the string does not have that shape.
   */
  function ReadClock(s: string): (m: Option<nat>)
    ensures m.Some? ==> |s| == 5
  {
    if |s| == 5 && IsDigit(s[0]) && IsDigit(s[1]) && s[2] == ':' && IsDigit(s[3]) && IsDigit(s[4])
    then Some(TwoDigits(s[..2]) * 60 + TwoDigits(s[3..]))
    else None
  }

  lemma {:induction false} Pad2Value(n: nat)
    requires n < 100
    ensures |Pad2(n)| == 2 && IsDigit(Pad2(n)[0]) && IsDigit(Pad2(n)[1]) && TwoDigits(Pad2(n)) == n
  {
    Pad2Shape(n);
    if n >= 10 {
      assert Decimal(n / 10) == [DigitChar(n / 10)];
    } else {
      assert Decimal(n) == [DigitChar(n)];
    }
  }

  /**
   * Reading a label back gives the minute it was built from, for any time whose hour
   * has two digits: so two such times have the same label only when they are equal.
   */
  lemma ReadClockOfClock(t: nat)
    requires t < 100 * 60
    ensures |Clock(t)| == 5
    ensures ReadClock(Clock(t)) == Some(t)
  {
    Pad2Value(t / 60);
    Pad2Value(t % 60);
    var s := Clock(t);
    assert s[..2] == Pad2(t / 60);
    assert s[3..] == Pad2(t % 60);
  }

  lemma ClockInjective(t: nat, u: nat)
    requires t < 100 * 60 && u < 100 * 60
    ensures Clock(t) == Clock(u) <==> t == u
  {
    ReadClockOfClock(t);
    ReadClockOfClock(u);
  }

  /** The labels of hour `h` on the hour and at half past. */
  lemma HalfHourLabels(h: nat)
    ensures Clock(h * 60) == Pad2(h) + ":00"
    ensures Clock(h * 60 + 30) == Pad2(h) + ":30"
  {
    assert (h * 60) / 60 == h && (h * 60) % 60 == 0;
    assert (h * 60 + 30) / 60 == h && (h * 60 + 30) % 60 == 30;
    assert Pad2(0) == "00" by {
      assert Decimal(0) == "0";
    }
    assert Pad2(30) == "30" by {
      assert Decimal(3) == "3";
      assert Decimal(30) == Decimal(3) + [DigitChar(0)];
    }
  }

  /** First and last hour of the dashboard's time grid. */
  const GridFirstHour: nat := 7
  const GridLastHour: nat := 19

  /** The labels of the hours from the first grid hour up to, not including, `h`. */
  function GridUpTo(h: nat): seq<string>
    requires GridFirstHour <= h
  {
    if h == GridFirstHour then [] else GridUpTo(h - 1) + [Pad2(h - 1) + ":00", Pad2(h - 1) + ":30"]
  }

  /** Each hour of the grid contributes its label on the hour and then at half past. */
  lemma {:induction false} GridUpToHours(h: nat)
    requires GridFirstHour <= h
    ensures |GridUpTo(h)| == 2 * (h - GridFirstHour)
    ensures forall k :: 0 <= k < h - GridFirstHour ==>
              GridUpTo(h)[2 * k] == Pad2(GridFirstHour + k) + ":00" &&
              GridUpTo(h)[2 * k + 1] == Pad2(GridFirstHour + k) + ":30"
  {
    if h > GridFirstHour {
      GridUpToHours(h - 1);
      var prev := GridUpTo(h - 1);
      var g := GridUpTo(h);
      forall k | 0 <= k < h - GridFirstHour
        ensures g[2 * k] == Pad2(GridFirstHour + k) + ":00" && g[2 * k + 1] == Pad2(GridFirstHour + k) + ":30"
      {
        if k < h - 1 - GridFirstHour {
          assert g[2 * k] == prev[2 * k] && g[2 * k + 1] == prev[2 * k + 1];
        }
      }
    }
  }

  /** The label `30 * i` minutes after the first grid hour, by hour and half. */
  lemma GridLabel(i: nat)
    ensures i % 2 == 0 ==> Clock(GridFirstHour * 60 + 30 * i) == Pad2(GridFirstHour + i / 2) + ":00"
    ensures i % 2 == 1 ==> Clock(GridFirstHour * 60 + 30 * i) == Pad2(GridFirstHour + i / 2) + ":30"
  {
    var k := i / 2;
    var t := GridFirstHour * 60 + 30 * i;
    HalfHourLabels(GridFirstHour + k);
    if i % 2 == 0 {
      assert t == (GridFirstHour + k) * 60;
    } else {
      assert t == (GridFirstHour + k) * 60 + 30;
    }
  }

  /** Position `i` of the grid is the label `30 * i` minutes after the first grid hour. */
  lemma GridUpToLabels(h: nat)
    requires GridFirstHour <= h
    ensures |GridUpTo(h)| == 2 * (h - GridFirstHour)
    ensures forall i :: 0 <= i < |GridUpTo(h)| ==> GridUpTo(h)[i] == Clock(GridFirstHour * 60 + 30 * i)
  {
    GridUpToHours(h);
    forall i | 0 <= i < |GridUpTo(h)|
      ensures GridUpTo(h)[i] == Clock(GridFirstHour * 60 + 30 * i)
    {
      GridLabel(i);
      var k := i / 2;
      assert i == 2 * k || i == 2 * k + 1;
      assert 0 <= k < h - GridFirstHour;
    }
  }

  /** `TIME_SLOTS`: the labels 07:00, 07:30, ..., 19:00, 19:30, built by the push loop. */
  method TimeSlots() returns (slots: seq<string>)
    ensures |slots| == 2 * (GridLastHour - GridFirstHour + 1)
    ensures forall i :: 0 <= i < |slots| ==> slots[i] == Clock(GridFirstHour * 60 + 30 * i)
  {
    slots := [];
    var h := GridFirstHour;
    while h <= GridLastHour
      invariant GridFirstHour <= h <= GridLastHour + 1
      invariant slots == GridUpTo(h)
    {
      slots := slots + [Pad2(h) + ":00"];
      slots := slots + [Pad2(h) + ":30"];
      h := h + 1;
    }
    GridUpToLabels(h);
  }
}
