/** `AnimationManager`: the intersection observer that triggers a reveal animation on each
    element carrying `data-animate`, the delayed start and one-frame end of every animation, the
    typewriter effect and `destroy`. The timeout and the animation frame are explicit events. */
module Animations {
  import opened Chars
  import opened Styles

  /** A `setTimeout` of `triggerAnimation` still to fire: its delay and the kind it will run. */
  datatype Scheduled = Scheduled(delayMs: int, kind: Kind)

  /** The timeout `triggerAnimation` schedules for the given `data-animate` and `data-delay`. */
  function Schedule(animate: Option<string>, delay: Option<string>): Scheduled
  {
    Scheduled(Delay(delay), KindOf(animate))
  }

  /** An element with its `data-animate` and `data-delay` attributes (`None` when absent), its
      inline style, its outstanding timeouts and its outstanding animation-frame callbacks. */
  class Animatable {
    const animate: Option<string>
    const delay: Option<string>
    /** What `triggerAnimation` schedules for this element: the delay and the kind its
        attributes select. The attributes never change, so this is the same on every trigger. */
    const pending: Scheduled
    var style: Style
    var timers: seq<Scheduled>
    var frames: seq<Kind>

    constructor (animate: Option<string>, delay: Option<string>)
      ensures this.animate == animate && this.delay == delay
      ensures FromAttributes()
      ensures style == Unstyled && timers == [] && frames == []
    {
      this.animate := animate;
      this.delay := delay;
      pending := Schedule(animate, delay);
      style := Unstyled;
      timers := [];
      frames := [];
    }

    /** `pending` holds the delay `parseInt(data-delay) || 0` and the kind `data-animate`
        selects. */
    predicate FromAttributes()
    {
      pending == Schedule(animate, delay)
    }

    /** `triggerAnimation`: the style is left alone until the timeout fires. */
    method Trigger()
      modifies this
      ensures timers == old(timers) + [pending]
      ensures style == old(style) && frames == old(frames)
    {
      timers := timers + [pending];
    }

    /** Timeout `j` fires: the kind's routine writes its start style and requests a frame. */
    method FireTimer(j: nat)
      requires j < |timers|
      modifies this
      ensures style == StartPhase(old(style), old(timers[j].kind))
      ensures timers == old(timers[..j] + timers[j + 1..])
      ensures frames == old(frames) + [old(timers[j].kind)]
    {
      var k := timers[j].kind;
      style := StartPhase(style, k);
      timers := timers[..j] + timers[j + 1..];
      frames := frames + [k];
    }

    /** Frame callback `j` runs: the kind's end style. */
    method FireFrame(j: nat)
      requires j < |frames|
      modifies this
      ensures style == EndPhase(old(style), old(frames[j]))
      ensures frames == old(frames[..j] + frames[j + 1..]) && timers == old(timers)
    {
      style := EndPhase(style, frames[j]);
      frames := frames[..j] + frames[j + 1..];
    }
  }

  /** Triggering an element, firing its timeout and then its frame leaves it visible with the
      identity transform of its kind, whatever style it had before. */
  method RevealOnce(e: Animatable) returns (k: Kind)
    requires e.FromAttributes() && e.timers == [] && e.frames == []
    modifies e
    ensures k == KindOf(e.animate)
    ensures e.style == EndPhase(StartPhase(old(e.style), k), k)
    ensures e.style.opacity == Some(1) && e.style.transform == Some(EndTransform(k))
    ensures IsIdentity(EndTransform(k))
    ensures e.timers == [] && e.frames == []
  {
    e.Trigger();
    k := e.timers[0].kind;
    e.FireTimer(0);
    e.FireFrame(0);
    KindMotion(old(e.style), k);
  }

  /** One intersection-observer entry: the observed element and `isIntersecting`. */
  datatype Entry = Entry(target: Animatable, isIntersecting: bool)

  /** The positions of the intersecting entries for `t` in a batch. */
  ghost function HitIndices(entries: seq<Entry>, t: Animatable): set<int>
  {
    set i | 0 <= i < |entries| && entries[i].target == t && entries[i].isIntersecting
  }

  /** The number of intersecting entries for `t` in a batch. */
  function Hits(entries: seq<Entry>, t: Animatable): (n: nat)
    ensures n == |HitIndices(entries, t)|
    ensures n <= |entries|
    ensures n == 0 <== forall i :: 0 <= i < |entries| ==> entries[i].target != t
  {
    if entries == [] then 0
    else
      HitIndicesLast(entries, t);
      Hits(entries[..|entries| - 1], t)
      + (if entries[|entries| - 1].target == t && entries[|entries| - 1].isIntersecting then 1 else 0)
  }

  /** The last entry adds its own position, or nothing, to the positions before it. */
  lemma HitIndicesLast(entries: seq<Entry>, t: Animatable)
    requires entries != []
    ensures var m := |entries| - 1;
      var before := HitIndices(entries[..m], t);
      m !in before
      && HitIndices(entries, t)
         == before + (if entries[m].target == t && entries[m].isIntersecting then {m} else {})
  {
    var m := |entries| - 1;
    assert forall i :: 0 <= i < m ==> entries[..m][i] == entries[i];
  }

  lemma HitsStep(entries: seq<Entry>, k: nat, t: Animatable)
    requires k < |entries|
    ensures Hits(entries[..k + 1], t)
            == Hits(entries[..k], t) + (if t == entries[k].target && entries[k].isIntersecting then 1 else 0)
  {
    assert entries[..k + 1][..k] == entries[..k];
  }

  function Repeat<T>(x: T, n: nat): (r: seq<T>)
    ensures |r| == n && forall i :: 0 <= i < n ==> r[i] == x
  {
    if n == 0 then [] else Repeat(x, n - 1) + [x]
  }

  lemma AppendRepeat<T>(a: seq<T>, x: T, n: nat)
    ensures a + Repeat(x, n) + [x] == a + Repeat(x, n + 1)
  {
    assert Repeat(x, n + 1) == Repeat(x, n) + [x];
  }

  /** One more entry: a hit appends one more copy of the pending timeout. */
  lemma AppendHit<T>(base: seq<T>, before: seq<T>, after: seq<T>, x: T, n: nat, hit: bool)
    requires before == base + Repeat(x, n)
    requires after == before + (if hit then [x] else [])
    ensures after == base + Repeat(x, n + (if hit then 1 else 0))
  {
    if hit {
      AppendRepeat(base, x, n);
    } else {
      assert after == before;
    }
  }

  function Targets(entries: seq<Entry>): set<Animatable>
  {
    set i | 0 <= i < |entries| :: entries[i].target
  }

  class Observer {
    var connected: bool
    var observed: seq<Animatable>

    constructor (targets: seq<Animatable>)
      ensures connected && observed == targets
    {
      connected := true;
      observed := targets;
    }

    method Disconnect()
      modifies this
      ensures !connected && observed == old(observed)
    {
      connected := false;
    }
  }

  /** The elements `[data-animate]` selects, in document order. */
  function WithAnimate(elements: seq<Animatable>): (r: seq<Animatable>)
    ensures forall i :: 0 <= i < |r| ==> r[i] in elements && r[i].animate.Some?
    ensures forall i :: 0 <= i < |elements| && elements[i].animate.Some? ==> elements[i] in r
    ensures |r| <= |elements|
    ensures |elements| == 1 ==> r == (if elements[0].animate.Some? then elements else [])
  {
    if elements == [] then []
    else
      WithAnimate(elements[..|elements| - 1])
      + (if elements[|elements| - 1].animate.Some? then [elements[|elements| - 1]] else [])
  }

  /** Selecting from two stretches of the document is selecting from each, in order; with the
      one-element case of `WithAnimate`, the selection keeps the document order. */
  lemma {:induction false} WithAnimateAppend(a: seq<Animatable>, b: seq<Animatable>)
    ensures WithAnimate(a + b) == WithAnimate(a) + WithAnimate(b)
    decreases |b|
  {
    if b == [] {
      assert a + b == a;
    } else {
      var init := b[..|b| - 1];
      var x := b[|b| - 1];
      assert (a + b)[..|a + b| - 1] == a + init;
      WithAnimateAppend(a, init);
      var pick := if x.animate.Some? then [x] else [];
      calc {
        WithAnimate(a + b);
        WithAnimate(a + init) + pick;
        WithAnimate(a) + WithAnimate(init) + pick;
        WithAnimate(a) + (WithAnimate(init) + pick);
      }
    }
  }

  class AnimationManager {
    var observers: map<string, Observer>
    /** Declared by the page but never filled; `destroy` clears it. */
    var animations: map<string, Kind>

    /** `setupIntersectionObservers`: one observer under `scroll`, watching every element that
        carries `data-animate`. */
    constructor (elements: seq<Animatable>)
      ensures observers.Keys == {"scroll"} && fresh(observers["scroll"])
      ensures observers["scroll"].connected
      ensures observers["scroll"].observed == WithAnimate(elements)
      ensures animations == map[]
    {
      var o := new Observer(WithAnimate(elements));
      observers := map["scroll" := o];
      animations := map[];
    }

    /** The observer callback: every intersecting entry triggers its element, in batch order;
        an element listed in several intersecting entries is triggered once for each. The
        browser calls it only while the `scroll` observer is connected, and only with entries
        for elements that observer watches; after `destroy` there is no observer left. */
    method HandleEntries(entries: seq<Entry>)
      requires "scroll" in observers && observers["scroll"].connected
      requires forall i :: 0 <= i < |entries| ==> entries[i].target in observers["scroll"].observed
      modifies Targets(entries)
      ensures forall i :: 0 <= i < |entries| ==>
                var t := entries[i].target;
                t.timers == old(t.timers) + Repeat(t.pending, Hits(entries, t))
      ensures forall i :: 0 <= i < |entries| ==>
                entries[i].target.style == old(entries[i].target.style)
                && entries[i].target.frames == old(entries[i].target.frames)
    {
      var k := 0;
      while k < |entries|
        invariant 0 <= k <= |entries|
        invariant forall i :: 0 <= i < |entries| ==>
                    var t := entries[i].target;
                    t.timers == old(t.timers) + Repeat(t.pending, Hits(entries[..k], t))
        invariant forall i :: 0 <= i < |entries| ==>
                    entries[i].target.style == old(entries[i].target.style)
                    && entries[i].target.frames == old(entries[i].target.frames)
      {
        label L:
        TriggerEntry(entries, k);
        forall i | 0 <= i < |entries|
          ensures var t := entries[i].target;
            t.timers == old(t.timers) + Repeat(t.pending, Hits(entries[..k + 1], t))
        {
          var t := entries[i].target;
          var hit := t == entries[k].target && entries[k].isIntersecting;
          HitsStep(entries, k, t);
          AppendHit(old(t.timers), old@L(t.timers), t.timers, t.pending, Hits(entries[..k], t), hit);
        }
        k := k + 1;
      }
      assert entries[..k] == entries;
    }

    /** One entry of the batch: its element is triggered when it intersects. */
    method TriggerEntry(entries: seq<Entry>, k: nat)
      requires k < |entries|
      modifies entries[k].target
      ensures forall i :: 0 <= i < |entries| ==>
                entries[i].target.timers == old(entries[i].target.timers)
                  + (if entries[i].target == entries[k].target && entries[k].isIntersecting
                     then [entries[i].target.pending] else [])
      ensures forall i :: 0 <= i < |entries| ==>
                entries[i].target.style == old(entries[i].target.style)
                && entries[i].target.frames == old(entries[i].target.frames)
    {
      if entries[k].isIntersecting {
        entries[k].target.Trigger();
      }
    }

    /** `destroy`: every observer is disconnected, then both maps are emptied. */
    method Destroy()
      modifies this, observers.Values
      ensures forall o :: o in old(observers.Values) ==> !o.connected && o.observed == old(o.observed)
      ensures observers == map[] && animations == map[]
    {
      var left := observers.Keys;
      while left != {}
        invariant left <= observers.Keys
        invariant observers == old(observers)
        invariant forall name :: name in observers.Keys - left ==> !observers[name].connected
        invariant forall o :: o in observers.Values ==> o.observed == old(o.observed)
        decreases left
      {
        var name :| name in left;
        observers[name].Disconnect();
        left := left - {name};
      }
      observers := map[];
      animations := map[];
    }
  }

  // ---------------------------------------------------------------------------
  // setupTypewriterEffect

  /** What the typewriter shows after `k` ticks of its typing interval. */
  function Typed(text: string, k: nat): (s: string)
    ensures |s| == if k < |text| then k else |text|
    ensures s <= text
  {
    if k < |text| then text[..k] else text
  }

  /** Each tick shows one more character until the whole text is shown, and no more after. */
  lemma TypedStep(text: string, k: nat)
    ensures Typed(text, k + 1) == if k < |text| then Typed(text, k) + [text[k]] else Typed(text, k)
  {
    if k < |text| {
      assert text[..k + 1] == text[..k] + [text[k]];
    }
  }

  /** One element with the `typewriter` class: its original text, what it shows, the index
      `i`, whether the typing interval is still set, whether the blinking interval has started
      and whether the cursor border is currently transparent. */
  class Typewriter {
    const text: string
    var shown: string
    var i: nat
    var typing: bool
    var blinking: bool
    var cursorTransparent: bool

    ghost predicate Valid()
      reads this
    {
      i <= |text| && shown == text[..i] && (typing <==> !blinking) && (!typing ==> i == |text|)
    }

    /** The element's text is taken and cleared, the cursor border drawn, and typing starts. */
    constructor (text: string)
      ensures Valid() && this.text == text && shown == [] && i == 0 && typing
      ensures !cursorTransparent
    {
      this.text := text;
      shown := [];
      i := 0;
      typing := true;
      blinking := false;
      cursorTransparent := false;
    }

    /** One tick of the typing interval: the next character, or, once all are shown, the
        interval is cleared and the cursor starts blinking. */
    method TypeTick()
      requires Valid() && typing
      modifies this
      ensures Valid()
      ensures old(i) < |text| ==> i == old(i) + 1 && shown == old(shown) + [text[old(i)]] && typing
      ensures old(i) == |text| ==> i == old(i) && shown == old(shown) && !typing && blinking
      ensures cursorTransparent == old(cursorTransparent)
    {
      if i < |text| {
        assert text[..i + 1] == text[..i] + [text[i]];
        shown := shown + [text[i]];
        i := i + 1;
      } else {
        typing := false;
        blinking := true;
      }
    }

    /** One tick of the blinking interval: the cursor border alternates. */
    method BlinkTick()
      requires Valid() && blinking
      modifies this
      ensures Valid() && cursorTransparent == !old(cursorTransparent)
      ensures shown == old(shown) && i == old(i) && typing == old(typing)
    {
      cursorTransparent := !cursorTransparent;
    }
  }

  /** Any number of typing ticks from the start shows the prefix `Typed` describes. */
  method TypeFor(w: Typewriter, k: nat)
    requires w.Valid() && w.i == 0 && w.typing
    modifies w
    ensures w.Valid() && w.shown == Typed(w.text, k)
    ensures w.typing <==> k <= |w.text|
  {
    var n := 0;
    while n < k
      invariant 0 <= n <= k && w.Valid()
      invariant w.shown == Typed(w.text, n)
      invariant w.typing <==> n <= |w.text|
    {
      TypedStep(w.text, n);
      if w.typing {
        w.TypeTick();
      }
      n := n + 1;
    }
  }
}
