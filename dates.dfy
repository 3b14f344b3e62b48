/** `Utils.timeAgo` and `Utils.formatDate`, given the second difference or the calendar fields
    as integers (parsing a `Date` is not modelled). */
module Dates {
  import opened Chars

  datatype Interval = Interval(unit: string, seconds: nat)

  /** The units in the order `timeAgo` tries them, largest first. */
  const Intervals: seq<Interval> := [
    Interval("year", 31536000), Interval("month", 2592000), Interval("week", 604800),
    Interval("day", 86400), Interval("hour", 3600), Interval("minute", 60)
  ]

  lemma IntervalsShape()
    ensures |Intervals| == 6
    ensures forall i :: 0 <= i < |Intervals| ==> Intervals[i].seconds >= 60
    ensures forall i, j :: 0 <= i < j < |Intervals| ==> Intervals[j].seconds < Intervals[i].seconds
    ensures Intervals[|Intervals| - 1].seconds == 60
    ensures forall i :: 0 <= i < |Intervals| ==>
              (|Intervals[i].unit| > 0 && Intervals[i].unit[|Intervals[i].unit| - 1] != 's')
  {
  }

  /** Unit `i` is the first whose floor quotient is at least one. */
  ghost predicate FirstFit(diff: int, i: int)
  {
    0 <= i < |Intervals| && Intervals[i].seconds > 0
    && diff / Intervals[i].seconds >= 1
    && forall j :: 0 <= j < i ==> Intervals[j].seconds > 0 && diff / Intervals[j].seconds < 1
  }

  /** The text for a count of a unit: the count, the unit, an `s` when more than one, `ago`. */
  function Phrase(count: nat, unit: string): (r: string)
    ensures |r| > 5 && IsDigit(r[0])
    ensures unit != [] && unit[|unit| - 1] != 's' ==> (r[|r| - 5] == 's' <==> count > 1)
  {
    DecimalString(count) + " " + unit + (if count > 1 then "s" else "") + " ago"
  }

  /** `Utils.timeAgo` on a whole number of seconds: the first unit, largest first, whose floor
      quotient is at least one, or `Just now`. */
  method TimeAgo(diff: int) returns (text: string)
    ensures text == "Just now" <==> diff < 60
    ensures diff >= 60 ==>
              exists i :: FirstFit(diff, i) && text == Phrase(diff / Intervals[i].seconds, Intervals[i].unit)
  {
    IntervalsShape();
    var i := 0;
    while i < |Intervals|
      invariant 0 <= i <= |Intervals|
      invariant forall j :: 0 <= j < i ==> diff / Intervals[j].seconds < 1
    {
      var interval := diff / Intervals[i].seconds;
      if interval >= 1 {
        assert FirstFit(diff, i);
        return Phrase(interval, Intervals[i].unit);
      }
      i := i + 1;
    }
    assert diff / Intervals[5].seconds < 1;
    return "Just now";
  }

  /** The first fitting unit is the one whose span contains the difference:
      at least its length and below the next larger unit's. */
  lemma FirstFitRange(diff: int, i: int)
    requires 0 <= i < |Intervals|
    ensures FirstFit(diff, i) <==>
      Intervals[i].seconds <= diff && (i == 0 || diff < Intervals[i - 1].seconds)
  {
    IntervalsShape();
    forall j | 0 <= j < |Intervals| ensures diff / Intervals[j].seconds >= 1 <==> diff >= Intervals[j].seconds {
      QuotientAtLeastOne(diff, Intervals[j].seconds);
    }
    if Intervals[i].seconds <= diff && (i == 0 || diff < Intervals[i - 1].seconds) {
      forall j | 0 <= j < i ensures diff < Intervals[j].seconds {
        assert Intervals[i - 1].seconds <= Intervals[j].seconds;
      }
    }
  }

  lemma QuotientAtLeastOne(d: int, s: int)
    requires s > 0
    ensures d / s >= 1 <==> d >= s
  {
    if d >= s {
      assert d == s * (d / s) + d % s;
    }
  }

  /** At most one unit is first. */
  lemma FirstFitUnique(diff: int, i: int, j: int)
    requires FirstFit(diff, i) && FirstFit(diff, j)
    ensures i == j
  {
  }

  // ---------------------------------------------------------------------------
  // Utils.formatDate

  /** `String.prototype.replace` with a string pattern: only the first occurrence is replaced. */
  function ReplaceFirst(s: string, pat: string, rep: string): (r: string)
    requires pat != []
    decreases |s|
  {
    if |s| < |pat| then s
    else if s[..|pat|] == pat then rep + s[|pat|..]
    else [s[0]] + ReplaceFirst(s[1..], pat, rep)
  }

  predicate OccursAt(s: string, pat: string, i: int)
  {
    0 <= i && i + |pat| <= |s| && s[i..i + |pat|] == pat
  }

  lemma OccursShift(s: string, pat: string, j: int)
    requires s != [] && j >= 0
    ensures OccursAt(s[1..], pat, j) <==> OccursAt(s, pat, j + 1)
  {
    if 0 <= j && j + 1 + |pat| <= |s| {
      assert s[1..][j..j + |pat|] == s[j + 1..j + 1 + |pat|];
    }
  }

  /** Without an occurrence of the pattern the string is returned unchanged. */
  lemma {:induction false} ReplaceFirstAbsent(s: string, pat: string, rep: string)
    requires pat != [] && forall i :: !OccursAt(s, pat, i)
    ensures ReplaceFirst(s, pat, rep) == s
    decreases |s|
  {
    if |s| >= |pat| {
      assert !OccursAt(s, pat, 0);
      forall j | j >= 0 ensures !OccursAt(s[1..], pat, j) { OccursShift(s, pat, j); }
      ReplaceFirstAbsent(s[1..], pat, rep);
    }
  }

  /** With a first occurrence at `i`, exactly that occurrence is replaced. */
  lemma {:induction false} ReplaceFirstAt(s: string, pat: string, rep: string, i: nat)
    requires pat != [] && OccursAt(s, pat, i)
    requires forall j :: 0 <= j < i ==> !OccursAt(s, pat, j)
    ensures ReplaceFirst(s, pat, rep) == s[..i] + rep + s[i + |pat|..]
    decreases i
  {
    if i > 0 {
      var t := s[1..];
      assert ReplaceFirst(s, pat, rep) == [s[0]] + ReplaceFirst(t, pat, rep) by {
        assert !OccursAt(s, pat, 0);
      }
      assert ReplaceFirst(t, pat, rep) == t[..i - 1] + rep + t[i - 1 + |pat|..] by {
        OccursShift(s, pat, i - 1);
        forall j | 0 <= j < i - 1 ensures !OccursAt(t, pat, j) { OccursShift(s, pat, j); }
        ReplaceFirstAt(t, pat, rep, i - 1);
      }
      SpliceShift(s, rep, i, |pat|);
    }
  }

  /** Splicing after the first character commutes with dropping it. */
  lemma SpliceShift(s: string, rep: string, i: nat, n: nat)
    requires 0 < i && i + n <= |s|
    ensures s[..i] + rep + s[i + n..] == [s[0]] + (s[1..][..i - 1] + rep + s[1..][i - 1 + n..])
  {
    assert s[..i] == [s[0]] + s[1..][..i - 1];
    assert s[i + n..] == s[1..][i - 1 + n..];
  }

  /** A first character that cannot start the pattern is kept, and the rest is searched. */
  lemma ReplaceFirstCons(c: char, t: string, pat: string, rep: string)
    requires pat != [] && c != pat[0]
    ensures ReplaceFirst([c] + t, pat, rep) == [c] + ReplaceFirst(t, pat, rep)
  {
    var s := [c] + t;
    assert s[1..] == t;
    if |s| >= |pat| {
      assert s[..|pat|][0] == c;
    } else {
      assert ReplaceFirst(t, pat, rep) == t;
    }
  }

  /** A prefix that cannot start the pattern passes through the replacement untouched. */
  lemma {:induction false} ReplaceFirstSkips(a: string, b: string, pat: string, rep: string)
    requires pat != [] && forall i :: 0 <= i < |a| ==> a[i] != pat[0]
    ensures ReplaceFirst(a + b, pat, rep) == a + ReplaceFirst(b, pat, rep)
    decreases |a|
  {
    if a == [] {
      assert a + b == b;
    } else {
      var t := a[1..];
      var r := ReplaceFirst(b, pat, rep);
      assert ReplaceFirst(a + b, pat, rep) == [a[0]] + ReplaceFirst(t + b, pat, rep) by {
        assert a + b == [a[0]] + (t + b);
        ReplaceFirstCons(a[0], t + b, pat, rep);
      }
      assert ReplaceFirst(t + b, pat, rep) == t + r by {
        assert forall i :: 0 <= i < |t| ==> t[i] == a[i + 1];
        ReplaceFirstSkips(t, b, pat, rep);
      }
      assert a + r == [a[0]] + (t + r);
    }
  }

  /** `String(n).padStart(2, '0')`. */
  function Pad2(n: nat): (s: string)
    ensures |s| >= 2 && AllDigits(s)
    ensures n < 100 ==> |s| == 2
  {
    var d := DecimalString(n);
    if |d| < 2 then "0" + d else d
  }

  /** `Utils.formatDate` for a year, a month numbered from 1 and a day of the month. */
  function FormatDate(format: string, year: int, month: nat, day: nat): string
  {
    ReplaceFirst(ReplaceFirst(ReplaceFirst(format, "YYYY", IntString(year)), "MM", Pad2(month)), "DD", Pad2(day))
  }

  predicate Lacks(s: string, c: char) { forall i :: 0 <= i < |s| ==> s[i] != c }

  lemma IntStringLacks(year: int, c: char)
    requires c != '-' && !IsDigit(c)
    ensures Lacks(IntString(year), c)
  {
    var y := IntString(year);
    if year < 0 { assert forall i :: 1 <= i < |y| ==> y[i] == DecimalString(-year)[i - 1]; }
  }

  lemma FormatYear(y: string)
    ensures ReplaceFirst("YYYY-MM-DD", "YYYY", y) == y + "-MM-DD"
  {
    var s := "YYYY-MM-DD";
    assert s[..4] == "YYYY" && s[4..] == "-MM-DD";
  }

  lemma FormatMonth(y: string, m: string)
    requires Lacks(y, 'M')
    ensures ReplaceFirst(y + "-MM-DD", "MM", m) == y + "-" + m + "-DD"
  {
    ReplaceFirstSkips(y + "-", "MM-DD", "MM", m);
    assert y + "-MM-DD" == (y + "-") + "MM-DD";
    var t := "MM-DD";
    assert t[..2] == "MM" && t[2..] == "-DD";
    assert ReplaceFirst(t, "MM", m) == m + "-DD";
  }

  lemma FormatDay(p: string, d: string)
    requires Lacks(p, 'D')
    ensures ReplaceFirst(p + "DD", "DD", d) == p + d
  {
    ReplaceFirstSkips(p, "DD", "DD", d);
    var t := "DD";
    assert t[..2] == "DD" && t[2..] == "";
  }

  /** The default format gives the year, then the month and the day, each padded to two
      digits, separated by hyphens. */
  lemma DefaultFormat(year: int, month: nat, day: nat)
    ensures FormatDate("YYYY-MM-DD", year, month, day)
            == IntString(year) + "-" + Pad2(month) + "-" + Pad2(day)
  {
    var y, m := IntString(year), Pad2(month);
    FormatYear(y);
    IntStringLacks(year, 'M');
    FormatMonth(y, m);
    IntStringLacks(year, 'D');
    var p := y + "-" + m + "-";
    assert Lacks(p, 'D') by {
      assert forall i :: |y| + 1 <= i < |y| + 1 + |m| ==> p[i] == m[i - |y| - 1];
    }
    assert y + "-" + m + "-DD" == p + "DD";
    FormatDay(p, Pad2(day));
  }

  /** A month or day below ten gains a leading zero; a two-digit one is written as is. */
  lemma Pad2Value(n: nat)
    requires n < 100
    ensures DecimalValue(Pad2(n)) == n
  {
    DecimalRoundTrip(n);
    var d := DecimalString(n);
    if |d| < 2 {
      assert ("0" + d)[..1] == "0";
    }
  }
}
