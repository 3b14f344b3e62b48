/** `Utils`' numeric helpers: `clamp`, the device-width classes and the strict viewport test.
    Lengths and coordinates are integers (CSS pixels). */
module Measures {

  function Min(a: int, b: int): int { if a <= b then a else b }

  function Max(a: int, b: int): int { if a >= b then a else b }

  /** `Math.min(Math.max(value, min), max)`. */
  function Clamp(value: int, lo: int, hi: int): (r: int)
    ensures r <= hi
    ensures lo <= hi ==> lo <= r
    ensures lo <= value <= hi ==> r == value
    ensures value < lo && lo <= hi ==> r == lo
    ensures value > hi ==> r == hi
    ensures lo > hi ==> r == hi
  {
    Min(Max(value, lo), hi)
  }

  /** Clamping a second time changes nothing. */
  lemma ClampIdempotent(value: int, lo: int, hi: int)
    ensures Clamp(Clamp(value, lo, hi), lo, hi) == Clamp(value, lo, hi)
  {
  }

  // ---------------------------------------------------------------------------
  // Device classes by `window.innerWidth`

  const MobileMax := 768
  const TabletMax := 1024

  predicate IsMobile(width: int) { width <= MobileMax }

  predicate IsTablet(width: int) { width > MobileMax && width <= TabletMax }

  predicate IsDesktop(width: int) { width > TabletMax }

  datatype Device = Mobile | Tablet | Desktop

  /** The class a width falls in. */
  function DeviceOf(width: int): (d: Device)
    ensures d == Mobile <==> IsMobile(width)
    ensures d == Tablet <==> IsTablet(width)
    ensures d == Desktop <==> IsDesktop(width)
  {
    if width <= MobileMax then Mobile else if width <= TabletMax then Tablet else Desktop
  }

  /** The three checks partition the widths: exactly one of them holds. */
  lemma DeviceClassesPartition(width: int)
    ensures IsMobile(width) || IsTablet(width) || IsDesktop(width)
    ensures !(IsMobile(width) && IsTablet(width))
    ensures !(IsMobile(width) && IsDesktop(width))
    ensures !(IsTablet(width) && IsDesktop(width))
  {
  }

  // ---------------------------------------------------------------------------
  // Utils.isElementInViewport: the whole box inside the window, widened by a threshold

  datatype Box = Box(top: int, left: int, bottom: int, right: int)

  /** `window.innerHeight || document.documentElement.clientHeight`: a zero inner size
      falls back to the document element's. */
  function WindowSize(inner: int, client: int): int { if inner != 0 then inner else client }

  predicate BoxInViewport(b: Box, innerW: int, innerH: int, clientW: int, clientH: int, threshold: int)
  {
    var h := WindowSize(innerH, clientH);
    var w := WindowSize(innerW, clientW);
    b.top >= -threshold && b.left >= -threshold && b.bottom <= h + threshold && b.right <= w + threshold
  }

  /** With the default threshold 0, the test asks for the box to lie entirely within the window. */
  lemma BoxInViewportDefault(b: Box, w: int, h: int)
    requires w != 0 && h != 0
    ensures BoxInViewport(b, w, h, 0, 0, 0) <==> 0 <= b.top && 0 <= b.left && b.bottom <= h && b.right <= w
  {
  }

  /** A larger threshold accepts every box a smaller one accepts. */
  lemma BoxInViewportMonotone(b: Box, iw: int, ih: int, cw: int, ch: int, t1: int, t2: int)
    requires t1 <= t2 && BoxInViewport(b, iw, ih, cw, ch, t1)
    ensures BoxInViewport(b, iw, ih, cw, ch, t2)
  {
  }
}
