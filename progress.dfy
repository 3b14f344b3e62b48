/** `animateProgressBars`: on each scroll, every skill bar that is in the window and has not
    been animated takes its width from `data-progress` and is marked `animated`. */
module Progress {
  import opened Chars
  import opened Measures

  /** A `.progress-fill` bar: its `data-progress` (`None` when absent), the `--progress-width`
      custom property and the inline `width` it has been given, and its `animated` class. */
  datatype Bar = Bar(progress: Option<string>, progressWidth: Option<string>,
                     width: Option<string>, animated: bool)

  /** `progress + '%'`: an absent attribute is `null`, which converts to the text `null`. */
  function Percent(progress: Option<string>): (w: string)
    ensures |w| >= 1 && w[|w| - 1] == '%'
    ensures progress.Some? ==> w[..|w| - 1] == progress.value
  {
    (if progress.Some? then progress.value else "null") + "%"
  }

  // ---------------------------------------------------------------------------
  // Which texts `style.width` accepts as a percentage

  /** White space as CSS Syntax Module Level 3 (section 4.2) defines it, after preprocessing. */
  predicate IsCssSpace(c: char)
  {
    c == ' ' || c == '\t' || c == '\n' || c == '\r' || c == '\U{000C}'
  }

  /** Parsing a property value discards the white space before the first token. */
  function TrimCssSpace(s: string): string
  {
    if s != [] && IsCssSpace(s[0]) then TrimCssSpace(s[1..]) else s
  }

  /** What is left after trimming is a suffix of the text, and starts with no white space. */
  lemma {:induction false} TrimCssSpaceSuffix(s: string)
    ensures var t := TrimCssSpace(s); |t| <= |s| && t == s[|s| - |t|..]
    ensures var t := TrimCssSpace(s); t == [] || !IsCssSpace(t[0])
  {
    if s != [] && IsCssSpace(s[0]) {
      TrimCssSpaceSuffix(s[1..]);
      var t := TrimCssSpace(s[1..]);
      assert s[1..][|s| - 1 - |t|..] == s[|s| - |t|..];
    }
  }

  /** Where a reader of a CSS number token (section 4.3.12 of CSS Syntax Module Level 3) is:
      at the start, after a `+`, in the whole digits, after a `.`, in the fraction digits, after
      an `e`, after the exponent's sign, in the exponent digits. */
  datatype NumberState = Start | Signed | Whole | Point | Fraction | Mark | MarkSign | Exponent

  /** One character read in a state; `None` when the text stops being a number. A `-` is not
      accepted at the start: `width` rejects negative percentages. A `.` must be followed by a
      digit and an `e` by an optional sign and a digit. */
  function NumberStep(q: NumberState, c: char): Option<NumberState>
  {
    match q
    case Start => if c == '+' then Some(Signed) else if IsDigit(c) then Some(Whole)
                  else if c == '.' then Some(Point) else None
    case Signed => if IsDigit(c) then Some(Whole) else if c == '.' then Some(Point) else None
    case Whole => if IsDigit(c) then Some(Whole) else if c == '.' then Some(Point)
                  else if c == 'e' || c == 'E' then Some(Mark) else None
    case Point => if IsDigit(c) then Some(Fraction) else None
    case Fraction => if IsDigit(c) then Some(Fraction)
                     else if c == 'e' || c == 'E' then Some(Mark) else None
    case Mark => if c == '+' || c == '-' then Some(MarkSign)
                 else if IsDigit(c) then Some(Exponent) else None
    case MarkSign => if IsDigit(c) then Some(Exponent) else None
    case Exponent => if IsDigit(c) then Some(Exponent) else None
  }

  /** The rest of the text, read from state `q`, ends a number. */
  predicate NumberFrom(q: NumberState, s: string)
    decreases |s|
  {
    if s == [] then q == Whole || q == Fraction || q == Exponent
    else match NumberStep(q, s[0])
      case None => false
      case Some(q') => NumberFrom(q', s[1..])
  }

  /** A non-negative CSS number. */
  predicate CssNonNegativeNumber(s: string)
  {
    NumberFrom(Start, s)
  }

  /** A text `style.width` takes: a non-negative number followed by `%`. Assigning any other
      text is ignored by the browser, and the previous width stays. */
  predicate IsCssPercentage(w: string)
  {
    |w| >= 1 && w[|w| - 1] == '%' && CssNonNegativeNumber(TrimCssSpace(w[..|w| - 1]))
  }

  /** Before any digit, a text without digits never ends a number. */
  lemma {:induction false} NoDigitNotNumberFrom(q: NumberState, s: string)
    requires q == Start || q == Signed || q == Point
    requires forall i :: 0 <= i < |s| ==> !IsDigit(s[i])
    ensures !NumberFrom(q, s)
    decreases |s|
  {
    if s != [] && NumberStep(q, s[0]).Some? {
      NoDigitNotNumberFrom(NumberStep(q, s[0]).value, s[1..]);
    }
  }

  /** `element.style.width = text`: the new width when the text is a percentage; otherwise the
      browser ignores the assignment and the current width stays. */
  function AssignWidth(current: Option<string>, text: string): Option<string>
  {
    if IsCssPercentage(text) then Some(text) else current
  }

  /** A text without any digit is not a number. */
  lemma NoDigitNotNumber(s: string)
    requires forall i :: 0 <= i < |s| ==> !IsDigit(s[i])
    ensures !CssNonNegativeNumber(s)
  {
    NoDigitNotNumberFrom(Start, s);
  }

  /** In the whole digits, a run of digits ends a number. */
  lemma {:induction false} DigitsFromWhole(s: string)
    requires AllDigits(s)
    ensures NumberFrom(Whole, s)
    decreases |s|
  {
    if s != [] {
      DigitsFromWhole(s[1..]);
    }
  }

  /** `String(n)` is a number: a digit and then digits. */
  lemma DecimalIsNumber(n: nat)
    ensures CssNonNegativeNumber(DecimalString(n))
  {
    var s := DecimalString(n);
    DigitsFromWhole(s[1..]);
  }

  // ---------------------------------------------------------------------------
  // The handler

  /** `rect.top < window.innerHeight && rect.bottom > 0`. */
  predicate IsVisible(rect: Box, innerHeight: int)
  {
    rect.top < innerHeight && rect.bottom > 0
  }

  /** One bar under one scroll. The custom property accepts any text; `width` only a
      percentage. */
  function AnimateBar(b: Bar, rect: Box, innerHeight: int): (r: Bar)
    ensures b.animated ==> r == b
    ensures !b.animated && !IsVisible(rect, innerHeight) ==> r == b
    ensures !b.animated && IsVisible(rect, innerHeight) ==>
              r.animated && r.progress == b.progress
              && r.progressWidth == Some(Percent(b.progress))
              && r.width == (if IsCssPercentage(Percent(b.progress)) then r.progressWidth else b.width)
  {
    if IsVisible(rect, innerHeight) && !b.animated then
      var w := Percent(b.progress);
      b.(progressWidth := Some(w), width := AssignWidth(b.width, w), animated := true)
    else b
  }

  /** A `data-progress` written as a whole number gives the bar that percentage as its width. */
  lemma DecimalProgressSetsWidth(b: Bar, rect: Box, innerHeight: int, n: nat)
    requires !b.animated && IsVisible(rect, innerHeight) && b.progress == Some(DecimalString(n))
    ensures AnimateBar(b, rect, innerHeight).width == Some(DecimalString(n) + "%")
  {
    var w := Percent(b.progress);
    assert w[..|w| - 1] == DecimalString(n);
    DecimalIsNumber(n);
  }

  /** A text with no digit before its last character is not a percentage. */
  lemma NoDigitNotPercentage(w: string)
    requires forall i :: 0 <= i < |w| - 1 ==> !IsDigit(w[i])
    ensures !IsCssPercentage(w)
  {
    if |w| >= 1 {
      var v := w[..|w| - 1];
      var t := TrimCssSpace(v);
      TrimCssSpaceSuffix(v);
      forall i | 0 <= i < |t| ensures !IsDigit(t[i]) {
        assert t[i] == v[|v| - |t| + i];
      }
      NoDigitNotNumber(t);
    }
  }

  /** A missing `data-progress`, or one without any digit, never changes the width: `null%` and
      the like are not percentages. The custom property still takes the text. */
  lemma UnreadableProgressKeepsWidth(b: Bar, rect: Box, innerHeight: int)
    requires b.progress.None? || forall i :: 0 <= i < |b.progress.value| ==> !IsDigit(b.progress.value[i])
    ensures AnimateBar(b, rect, innerHeight).width == b.width
  {
    var w := Percent(b.progress);
    assert forall i :: 0 <= i < |w| - 1 ==> !IsDigit(w[i]) by {
      var v := if b.progress.Some? then b.progress.value else "null";
      assert w == v + "%";
      assert forall i :: 0 <= i < |w| - 1 ==> w[i] == v[i];
    }
    NoDigitNotPercentage(w);
  }

  /** The specification of one run of the handler. */
  function AnimateAll(bars: seq<Bar>, rects: seq<Box>, innerHeight: int): (r: seq<Bar>)
    requires |rects| == |bars|
    ensures |r| == |bars|
    ensures forall i :: 0 <= i < |bars| ==> r[i] == AnimateBar(bars[i], rects[i], innerHeight)
  {
    seq(|bars|, i requires 0 <= i < |bars| => AnimateBar(bars[i], rects[i], innerHeight))
  }

  /** The handler over a sequence of scrolls. */
  function RunAll(bars: seq<Bar>, views: seq<(seq<Box>, int)>): (r: seq<Bar>)
    requires forall v :: 0 <= v < |views| ==> |views[v].0| == |bars|
    ensures |r| == |bars|
    decreases |views|
  {
    if views == [] then bars else RunAll(AnimateAll(bars, views[0].0, views[0].1), views[1..])
  }

  /** Bars are animated once: over any sequence of later scrolls, a bar that is already
      animated keeps its width and everything else. */
  lemma {:induction false} AnimatedBarsAreFinal(
    bars: seq<Bar>, views: seq<(seq<Box>, int)>, i: int)
    requires forall v :: 0 <= v < |views| ==> |views[v].0| == |bars|
    requires 0 <= i < |bars| && bars[i].animated
    ensures RunAll(bars, views)[i] == bars[i]
    decreases |views|
  {
    if views != [] {
      var next := AnimateAll(bars, views[0].0, views[0].1);
      AnimatedBarsAreFinal(next, views[1..], i);
    }
  }

  /** The scroll listener. */
  method AnimateProgressBars(bars: array<Bar>, rects: seq<Box>, innerHeight: int)
    requires |rects| == bars.Length
    modifies bars
    ensures bars[..] == AnimateAll(old(bars[..]), rects, innerHeight)
  {
    var i := 0;
    while i < bars.Length
      invariant 0 <= i <= bars.Length
      invariant forall j :: 0 <= j < i ==> bars[j] == AnimateBar(old(bars[j]), rects[j], innerHeight)
      invariant forall j :: i <= j < bars.Length ==> bars[j] == old(bars[j])
    {
      var rect := rects[i];
      var bar := bars[i];
      var isVisible := rect.top < innerHeight && rect.bottom > 0;
      if isVisible && !bar.animated {
        var w := Percent(bar.progress);
        bars[i] := bar.(progressWidth := Some(w), width := AssignWidth(bar.width, w), animated := true);
      }
      assert bars[i] == AnimateBar(bar, rect, innerHeight);
      i := i + 1;
    }
  }
}
