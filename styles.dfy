/** The reveal animations of `AnimationManager`: the kind dispatch with its `fadeInUp` default,
    the start and end style of every kind, and the `data-delay` attribute read with
    `parseInt(...) || 0`. */
module Styles {
  import opened Chars

  /** The transforms the animation code writes: offsets in pixels, rotations in degrees,
      scale factors in hundredths (`scale(0.8)` is `Scale(80)`). */
  datatype Transform =
    | TranslateY(px: int)
    | TranslateX(px: int)
    | Scale(percent: int)
    | RotateScale(deg: int, percent: int)

  /** The transforms that leave the element where layout put it. */
  predicate IsIdentity(t: Transform)
  {
    match t
    case TranslateY(px) => px == 0
    case TranslateX(px) => px == 0
    case Scale(p) => p == 100
    case RotateScale(d, p) => d == 0 && p == 100
  }

  /** Both transforms are of the same CSS function list, so the browser can interpolate them. */
  predicate SameShape(a: Transform, b: Transform)
  {
    (a.TranslateY? && b.TranslateY?) || (a.TranslateX? && b.TranslateX?)
    || (a.Scale? && b.Scale?) || (a.RotateScale? && b.RotateScale?)
  }

  /** The inline `display` property: never set, `block` or `none`. */
  datatype Display = DisplayUnset | DisplayBlock | DisplayNone

  const StandardEasing: string := "cubic-bezier(0.4, 0, 0.2, 1)"

  /** `transition: all <duration> <easing>`. */
  datatype Transition = AllProperties(durationMs: nat, easing: string)

  /** The inline style properties the reveal code writes; `None` is a property never set. */
  datatype Style = Style(
    opacity: Option<int>, transform: Option<Transform>,
    transition: Option<Transition>, transitionDelayMs: Option<int>)

  const Unstyled := Style(None, None, None, None)

  // ---------------------------------------------------------------------------
  // Kind dispatch

  datatype Kind = FadeInUp | SlideInLeft | SlideInRight | ScaleIn | RotateIn

  /** The `data-animate` value that selects each kind. */
  function KindName(k: Kind): string
  {
    match k
    case FadeInUp => "fadeInUp"
    case SlideInLeft => "slideInLeft"
    case SlideInRight => "slideInRight"
    case ScaleIn => "scaleIn"
    case RotateIn => "rotateIn"
  }

  lemma KindNamesDistinct(a: Kind, b: Kind)
    ensures KindName(a) == KindName(b) ==> a == b
  {
    if a != b {
      var na, nb := KindName(a), KindName(b);
      assert |na| != |nb| || na[0] != nb[0];
    }
  }

  /** The `switch` of `triggerAnimation` on the `data-animate` attribute (`None` when absent):
      the kind whose name the attribute holds, and `fadeInUp` for any other value. */
  function KindOf(attr: Option<string>): (k: Kind)
    ensures forall n :: attr == Some(KindName(n)) ==> k == n
    ensures attr == Some(KindName(k)) || (k == FadeInUp && forall n :: attr != Some(KindName(n)))
  {
    if attr == Some("slideInLeft") then SlideInLeft
    else if attr == Some("slideInRight") then SlideInRight
    else if attr == Some("scaleIn") then ScaleIn
    else if attr == Some("rotateIn") then RotateIn
    else
      assert forall n :: n != FadeInUp ==> attr != Some(KindName(n));
      FadeInUp
  }

  // ---------------------------------------------------------------------------
  // Start and end styles

  function StartTransform(k: Kind): Transform
  {
    match k
    case FadeInUp => TranslateY(30)
    case SlideInLeft => TranslateX(-50)
    case SlideInRight => TranslateX(50)
    case ScaleIn => Scale(80)
    case RotateIn => RotateScale(-10, 80)
  }

  function EndTransform(k: Kind): Transform
  {
    match k
    case FadeInUp => TranslateY(0)
    case SlideInLeft => TranslateX(0)
    case SlideInRight => TranslateX(0)
    case ScaleIn => Scale(100)
    case RotateIn => RotateScale(0, 100)
  }

  function DurationMs(k: Kind): nat
  {
    if k == ScaleIn then 600 else 800
  }

  /** What a kind's routine writes synchronously: hidden, displaced, with its transition. The
      `transition` shorthand also resets the `transition-delay` longhand to `0s`. */
  function StartPhase(s: Style, k: Kind): Style
  {
    s.(opacity := Some(0), transform := Some(StartTransform(k)),
       transition := Some(AllProperties(DurationMs(k), StandardEasing)),
       transitionDelayMs := Some(0))
  }

  /** What the routine's animation-frame callback writes: visible and in place. */
  function EndPhase(s: Style, k: Kind): Style
  {
    s.(opacity := Some(1), transform := Some(EndTransform(k)))
  }

  /** Every kind starts invisible and displaced and ends visible with the identity transform of
      the same shape, over 0.6s for `scaleIn` and 0.8s for the others, all with one easing and
      no delay, whatever delay the element had before; the end phase keeps the start phase's
      transition, so the change between them is animated at once. */
  lemma KindMotion(s: Style, k: Kind)
    ensures var start := StartPhase(s, k);
      start.opacity == Some(0) && !IsIdentity(StartTransform(k))
      && start.transition == Some(AllProperties(if k == ScaleIn then 600 else 800, StandardEasing))
      && start.transitionDelayMs == Some(0)
    ensures var end := EndPhase(StartPhase(s, k), k);
      end.opacity == Some(1) && IsIdentity(EndTransform(k))
      && SameShape(StartTransform(k), EndTransform(k))
      && end.transition == StartPhase(s, k).transition
      && end.transitionDelayMs == Some(0)
  {
  }

  // ---------------------------------------------------------------------------
  // parseInt(attr) || 0

  /** `String.prototype.trimStart`: drops leading white space and line terminators. */
  function TrimStart(s: string): (t: string)
    ensures |t| <= |s| && t == s[|s| - |t|..]
    ensures t == [] || !IsJsSpace(t[0])
    ensures forall i :: 0 <= i < |s| - |t| ==> IsJsSpace(s[i])
  {
    if s != [] && IsJsSpace(s[0]) then TrimStart(s[1..]) else s
  }

  predicate IsRadixDigit(c: char, hex: bool) { if hex then IsHexDigit(c) else IsDigit(c) }

  /** The longest prefix made of digits of the radix. */
  function DigitPrefix(s: string, hex: bool): (d: string)
    ensures |d| <= |s| && d == s[..|d|]
    ensures forall i :: 0 <= i < |d| ==> IsRadixDigit(d[i], hex)
    ensures |d| < |s| ==> !IsRadixDigit(s[|d|], hex)
  {
    if s != [] && IsRadixDigit(s[0], hex) then [s[0]] + DigitPrefix(s[1..], hex) else []
  }

  /** The value of a string of radix digits, most significant first. */
  function RadixValue(d: string, hex: bool): nat
    requires forall i :: 0 <= i < |d| ==> IsRadixDigit(d[i], hex)
  {
    if d == [] then 0
    else
      var last := d[|d| - 1];
      assert IsRadixDigit(last, hex);
      (if hex then 16 else 10) * RadixValue(d[..|d| - 1], hex) + HexValue(last)
  }

  /** The unsigned part of `parseInt`: a `0x` or `0X` prefix switches to base 16, then the
      longest run of digits of the base is read; `None` when there is none. */
  function ParseMagnitude(u: string): (r: Option<nat>)
    ensures r.None? <==> DigitPrefix(if IsHexPrefixed(u) then u[2..] else u, IsHexPrefixed(u)) == []
  {
    var hex := IsHexPrefixed(u);
    var digits := DigitPrefix(if hex then u[2..] else u, hex);
    if digits == [] then None else Some(RadixValue(digits, hex))
  }

  predicate IsHexPrefixed(u: string) { |u| >= 2 && u[0] == '0' && (u[1] == 'x' || u[1] == 'X') }

  /** `parseInt` after the leading white space: one optional sign, then the magnitude. */
  function ParseSigned(t: string): Option<int>
  {
    var negative := t != [] && t[0] == '-';
    var u := if t != [] && (t[0] == '-' || t[0] == '+') then t[1..] else t;
    match ParseMagnitude(u)
    case None => None
    case Some(m) => Some(if negative then -(m as int) else m)
  }

  /** `parseInt(s)` without a radix; `None` is NaN. */
  function ParseInt(s: string): Option<int>
  {
    ParseSigned(TrimStart(s))
  }

  /** `parseInt(null)` reads the text `null`, which has no digit: NaN. */
  lemma NullIsNaN()
    ensures ParseInt("null") == None
  {
    NoDigitIsNaN("null");
  }

  /** `parseInt(element.getAttribute('data-delay')) || 0`: NaN and zero give 0. A missing
      attribute is `null`, which `NullIsNaN` shows is NaN, so it gives 0 as well. */
  function Delay(attr: Option<string>): int
  {
    match attr
    case None => 0
    case Some(text) =>
      match ParseInt(text)
      case None => 0
      case Some(n) => n
  }

  lemma {:induction false} DecimalDigitsValue(d: string)
    requires AllDigits(d)
    ensures forall i :: 0 <= i < |d| ==> IsRadixDigit(d[i], false)
    ensures RadixValue(d, false) == DecimalValue(d)
  {
    if d != [] {
      DecimalDigitsValue(d[..|d| - 1]);
    }
  }

  lemma {:induction false} DigitPrefixOfDigits(d: string, rest: string)
    requires AllDigits(d) && (rest == [] || !IsDigit(rest[0]))
    ensures DigitPrefix(d + rest, false) == d
  {
    if d != [] {
      assert (d + rest)[1..] == d[1..] + rest;
      DigitPrefixOfDigits(d[1..], rest);
    } else {
      assert d + rest == rest;
    }
  }

  /** A decimal magnitude followed by something that cannot extend it reads back. */
  lemma {:induction false} MagnitudeReadsDecimal(m: nat, rest: string)
    requires rest == [] || (!IsDigit(rest[0]) && rest[0] != 'x' && rest[0] != 'X')
    ensures ParseMagnitude(DecimalString(m) + rest) == Some(m)
  {
    var d := DecimalString(m);
    var u := d + rest;
    assert !IsHexPrefixed(u) by {
      if |u| >= 2 && u[0] == '0' { assert |d| == 1; assert u[1] == rest[0]; }
    }
    DigitPrefixOfDigits(d, rest);
    DecimalDigitsValue(d);
    DecimalRoundTrip(m);
  }

  /** A sign-free text whose magnitude is `m` parses as `m`; after a minus sign, as `-m`. */
  lemma SignedOfMagnitude(u: string, m: nat)
    requires ParseMagnitude(u) == Some(m) && u != [] && u[0] != '-' && u[0] != '+'
    ensures ParseSigned(u) == Some(m)
    ensures ParseSigned("-" + u) == Some(-(m as int))
  {
    assert ("-" + u)[1..] == u;
  }

  /** A non-negative decimal integer followed by something that cannot extend it reads back. */
  lemma {:induction false} UnsignedReadsDecimal(m: nat, rest: string)
    requires rest == [] || (!IsDigit(rest[0]) && rest[0] != 'x' && rest[0] != 'X')
    ensures ParseSigned(DecimalString(m) + rest) == Some(m)
    ensures ParseSigned("-" + (DecimalString(m) + rest)) == Some(-(m as int))
  {
    MagnitudeReadsDecimal(m, rest);
    SignedOfMagnitude(DecimalString(m) + rest, m);
  }

  /** `String(n)` followed by more text: a minus sign, when negative, before the digits. */
  lemma IntStringThen(n: int, rest: string)
    ensures n < 0 ==> IntString(n) + rest == "-" + (DecimalString(-n) + rest)
    ensures n >= 0 ==> IntString(n) + rest == DecimalString(n) + rest
  {
  }

  /** A signed decimal integer followed by something that cannot extend it reads back. */
  lemma {:induction false} SignedReadsDecimal(n: int, rest: string)
    requires rest == [] || (!IsDigit(rest[0]) && rest[0] != 'x' && rest[0] != 'X')
    ensures ParseSigned(IntString(n) + rest) == Some(n)
  {
    IntStringThen(n, rest);
    UnsignedReadsDecimal(if n < 0 then -n else n, rest);
  }

  /** A delay written as a decimal integer, possibly followed by a unit such as `ms`, reads
      back as that integer. */
  lemma {:induction false} DelayReadsDecimal(n: int, rest: string)
    requires rest == [] || (!IsDigit(rest[0]) && rest[0] != 'x' && rest[0] != 'X')
    ensures Delay(Some(IntString(n) + rest)) == n
  {
    var s := IntString(n) + rest;
    assert s[0] == IntString(n)[0];
    assert !IsJsSpace(s[0]);
    assert TrimStart(s) == s;
    SignedReadsDecimal(n, rest);
  }

  /** Text without a digit has no magnitude. */
  lemma MagnitudeOfNoDigits(u: string)
    requires forall i :: 0 <= i < |u| ==> !IsDigit(u[i])
    ensures ParseMagnitude(u) == None
  {
    if u != [] { assert !IsDigit(u[0]); }
  }

  /** Text without any digit is NaN to `parseInt`. */
  lemma NoDigitIsNaN(s: string)
    requires forall i :: 0 <= i < |s| ==> !IsDigit(s[i])
    ensures ParseInt(s) == None
  {
    var t := TrimStart(s);
    assert forall i :: 0 <= i < |t| ==> !IsDigit(t[i]) by {
      assert forall i :: 0 <= i < |t| ==> t[i] == s[|s| - |t| + i];
    }
    var u := if t != [] && (t[0] == '-' || t[0] == '+') then t[1..] else t;
    assert forall i :: 0 <= i < |u| ==> !IsDigit(u[i]);
    MagnitudeOfNoDigits(u);
  }

  /** A missing attribute, or one with no digit at all, gives a delay of 0. */
  lemma DelayDefaultsToZero(attr: Option<string>)
    requires attr.Some? ==> forall i :: 0 <= i < |attr.value| ==> !IsDigit(attr.value[i])
    ensures Delay(attr) == 0
  {
    if attr.Some? {
      NoDigitIsNaN(attr.value);
    }
  }
}
