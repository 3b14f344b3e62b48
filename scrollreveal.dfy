/** `ScrollAnimations`: every listed element is hidden and pushed down once at setup, and each
    scroll (behind a throttle gate) reveals the elements that have entered the upper four fifths
    of the window, each at most once. */
module ScrollReveal {
  import opened Chars
  import opened Styles
  import opened Measures
  import opened RateLimit

  /** One entry of `this.elements`: the element's inline style and its `animated` flag. */
  datatype Item = Item(style: Style, animated: bool)

  /** The style `setupScrollTriggers` gives the element at `index`: hidden, 30px down, a 0.8s
      transition delayed by a tenth of a second per position. */
  function Initial(index: nat): (it: Item)
    ensures !it.animated && it.style.opacity == Some(0)
    ensures it.style.transitionDelayMs == Some(100 * index)
  {
    Item(Style(Some(0), Some(TranslateY(30)), Some(AllProperties(800, StandardEasing)), Some(100 * index)), false)
  }

  /** What `handleScroll` writes on an element it reveals. */
  function Revealed(it: Item): (r: Item)
    ensures r.animated && r.style.opacity == Some(1) && r.style.transform == Some(TranslateY(0))
    ensures r.style.transition == it.style.transition
    ensures r.style.transitionDelayMs == it.style.transitionDelayMs
  {
    Item(it.style.(opacity := Some(1), transform := Some(TranslateY(0))), true)
  }

  /** `ScrollAnimations.isElementInViewport` in integers: the top above four fifths of the
      window height and the bottom below the top of the window. */
  predicate InRevealZone(rect: Box, innerHeight: int)
  {
    5 * rect.top < 4 * innerHeight && rect.bottom > 0
  }

  /** One element under one scroll. */
  function ScrollItem(it: Item, rect: Box, innerHeight: int): (r: Item)
    ensures it.animated ==> r == it
    ensures !it.animated ==> (r == if InRevealZone(rect, innerHeight) then Revealed(it) else it)
  {
    if !it.animated && InRevealZone(rect, innerHeight) then Revealed(it) else it
  }

  /** The specification of `handleScroll`: every element taken on its own. */
  function ScrollAll(items: seq<Item>, rects: seq<Box>, innerHeight: int): (r: seq<Item>)
    requires |rects| == |items|
    ensures |r| == |items|
    ensures forall i :: 0 <= i < |items| ==> r[i] == ScrollItem(items[i], rects[i], innerHeight)
  {
    seq(|items|, i requires 0 <= i < |items| => ScrollItem(items[i], rects[i], innerHeight))
  }

  /** Every element is still as setup left it, or has been revealed from there. */
  predicate SetupOrRevealed(items: seq<Item>)
  {
    forall i :: 0 <= i < |items| ==>
      items[i] == (if items[i].animated then Revealed(Initial(i)) else Initial(i))
  }

  /** A scroll keeps every element either as setup left it or revealed from there. */
  lemma ScrollKeepsShape(items: seq<Item>, rects: seq<Box>, h: int)
    requires |rects| == |items| && SetupOrRevealed(items)
    ensures SetupOrRevealed(ScrollAll(items, rects, h))
  {
  }

  /** An element that has been revealed is never changed again, by any later scroll. */
  lemma RevealedIsFinal(items: seq<Item>, rects: seq<Box>, h: int, i: int)
    requires |rects| == |items| && 0 <= i < |items| && items[i].animated
    ensures ScrollAll(items, rects, h)[i] == items[i]
  {
  }

  /** Scrolls over a sequence of views (each a list of element rectangles and a window
      height). */
  function ScrollTrace(items: seq<Item>, views: seq<(seq<Box>, int)>): (r: seq<Item>)
    requires forall v :: 0 <= v < |views| ==> |views[v].0| == |items|
    ensures |r| == |items|
    decreases |views|
  {
    if views == [] then items
    else ScrollTrace(ScrollAll(items, views[0].0, views[0].1), views[1..])
  }

  /** The reveal-once promise: across any sequence of scrolls, an element is revealed at most
      once, ends either untouched or exactly `Revealed` of where it started, and is revealed
      at all only if some view had it in the reveal zone. */
  lemma {:induction false} RevealAtMostOnce(items: seq<Item>, views: seq<(seq<Box>, int)>, i: int)
    requires forall v :: 0 <= v < |views| ==> |views[v].0| == |items|
    requires 0 <= i < |items|
    ensures var r := ScrollTrace(items, views)[i];
      r == items[i] || (!items[i].animated && r == Revealed(items[i]))
    ensures ScrollTrace(items, views)[i] != items[i] ==>
      exists v :: 0 <= v < |views| && InRevealZone(views[v].0[i], views[v].1)
    decreases |views|
  {
    if views != [] {
      var next := ScrollAll(items, views[0].0, views[0].1);
      RevealAtMostOnce(next, views[1..], i);
      if next[i] != items[i] {
        assert InRevealZone(views[0].0[i], views[0].1);
      } else if ScrollTrace(items, views)[i] != items[i] {
        var v :| 0 <= v < |views[1..]| && InRevealZone(views[1..][v].0[i], views[1..][v].1);
        assert InRevealZone(views[v + 1].0[i], views[v + 1].1);
      }
    }
  }

  /** The `ScrollAnimations` object: its element list and the gate of its own throttle. */
  class ScrollAnimations {
    var elements: array<Item>
    var gate: Throttle

    /** `setupScrollTriggers` on `count` elements, then the initial `handleScroll`. */
    constructor (count: nat, rects: seq<Box>, innerHeight: int)
      requires |rects| == count
      ensures fresh(elements) && fresh(gate) && !gate.inThrottle
      ensures elements[..] == ScrollAll(seq(count, i requires 0 <= i => Initial(i)), rects, innerHeight)
      ensures SetupOrRevealed(elements[..])
    {
      var items := new Item[count](i requires 0 <= i => Initial(i));
      elements := items;
      gate := new Throttle();
      new;
      assert elements[..] == seq(count, i requires 0 <= i => Initial(i));
      HandleScroll(rects, innerHeight);
      ScrollKeepsShape(seq(count, i requires 0 <= i => Initial(i)), rects, innerHeight);
    }

    /** `handleScroll`: reveals each element that is not yet animated and is in the zone. */
    method HandleScroll(rects: seq<Box>, innerHeight: int)
      requires |rects| == elements.Length
      modifies elements
      ensures elements[..] == ScrollAll(old(elements[..]), rects, innerHeight)
    {
      var i := 0;
      while i < elements.Length
        invariant 0 <= i <= elements.Length
        invariant forall j :: 0 <= j < i ==>
                    elements[j] == ScrollItem(old(elements[j]), rects[j], innerHeight)
        invariant forall j :: i <= j < elements.Length ==> elements[j] == old(elements[j])
      {
        var item := elements[i];
        if !item.animated && InRevealZone(rects[i], innerHeight) {
          elements[i] := Revealed(item);
        }
        i := i + 1;
      }
    }

    /** A scroll event reaches `handleScroll` only when the throttle gate is open. */
    method OnScroll(rects: seq<Box>, innerHeight: int)
      requires |rects| == elements.Length
      modifies elements, gate
      ensures gate.inThrottle
      ensures elements[..] == if old(gate.inThrottle) then old(elements[..])
                              else ScrollAll(old(elements[..]), rects, innerHeight)
    {
      var forwarded := gate.Invoke(());
      if forwarded.Some? {
        HandleScroll(rects, innerHeight);
      }
    }

    /** The throttle's timer: the gate reopens. */
    method OnThrottleTimer()
      modifies gate
      ensures !gate.inThrottle
    {
      gate.Reopen();
    }
  }
}
