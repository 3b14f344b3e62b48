/** The gallery and portfolio filter buttons. A click marks the clicked button active and, for
    each item, either shows it at once and fades it in after a short timeout, or fades it out
    and removes it from the layout after 300ms. Timeouts are explicit, with their due time. */
module Filters {
  import opened Chars
  import opened Styles

  /** The looks one filter group uses: the transform of a shown and of a hidden item, and the
      delay before a shown item fades in. */
  datatype FilterLook = FilterLook(shown: Transform, hidden: Transform, showDelayMs: nat)

  /** `initGallery`: `scale(1)` / `scale(0.8)`, fading in after 10ms. */
  const GalleryLook := FilterLook(Scale(100), Scale(80), 10)
  /** `initPortfolio`: `translateY(0)` / `translateY(20px)`, fading in after 10ms. */
  const PortfolioLook := FilterLook(TranslateY(0), TranslateY(20), 10)
  /** The second `DOMContentLoaded` block, for both groups: scale, fading in after 100ms. */
  const LateBlockLook := FilterLook(Scale(100), Scale(80), 100)

  /** The hide timeout's delay. */
  const HideDelayMs := 300

  /** What a pending timeout does: fade the item in, or take it out of the layout. */
  datatype Action = FadeIn | RemoveFromLayout

  datatype Timer = Timer(due: int, action: Action)

  /** An item: its `data-category` (`None` when absent), its inline style and the timeouts a
      click has left pending on it. */
  datatype Card = Card(
    category: Option<string>, display: Display, opacity: Option<int>,
    transform: Option<Transform>, timers: seq<Timer>)

  /** `filter === 'all' || category === filter`; two absent attributes are both `null` and
      compare equal. */
  predicate Matches(filter: Option<string>, category: Option<string>)
  {
    filter == Some("all") || category == filter
  }

  /** Timeout `j` is the one the event loop runs next on this item: none is due earlier, and
      none scheduled before it is due at the same time. */
  predicate IsNext(timers: seq<Timer>, j: int)
  {
    0 <= j < |timers|
    && forall k :: 0 <= k < |timers| ==>
         timers[j].due < timers[k].due || (timers[j].due == timers[k].due && j <= k)
  }

  /** Timeout `j` runs and is gone. */
  function Fire(c: Card, look: FilterLook, j: int): (r: Card)
    requires 0 <= j < |c.timers|
    ensures r.timers == c.timers[..j] + c.timers[j + 1..] && r.category == c.category
  {
    var rest := c.timers[..j] + c.timers[j + 1..];
    match c.timers[j].action
    case FadeIn => c.(opacity := Some(1), transform := Some(look.shown), timers := rest)
    case RemoveFromLayout => c.(display := DisplayNone, timers := rest)
  }

  /** One item under a click, as the handlers are written: the new timeout is added to those
      an earlier click left pending, which still run. */
  function ClickAsWritten(c: Card, look: FilterLook, filter: Option<string>, now: int): (r: Card)
    ensures |r.timers| == |c.timers| + 1 && r.timers[..|c.timers|] == c.timers
  {
    if Matches(filter, c.category) then
      c.(display := DisplayBlock, timers := c.timers + [Timer(now + look.showDelayMs, FadeIn)])
    else
      c.(opacity := Some(0), transform := Some(look.hidden),
         timers := c.timers + [Timer(now + HideDelayMs, RemoveFromLayout)])
  }

  /** A `web` item under a click on `design` at 0ms and then, as the handlers are written, a
      click on `all` at `t`ms. */
  function TwoClicks(look: FilterLook, t: int): Card
  {
    var c0 := Card(Some("web"), DisplayUnset, None, None, []);
    ClickAsWritten(ClickAsWritten(c0, look, Some("design"), 0), look, Some("all"), t)
  }

  /** If the click on `all` comes before the first click's 300ms removal has run, the item ends
      out of the layout although `all` matches it, whichever of the two timeouts the event loop
      runs first and whatever the fade-in delay: the removal is never undone. */
  lemma StaleRemovalHidesMatchingItem(look: FilterLook, t: int, j: int)
    requires 0 <= t < HideDelayMs && IsNext(TwoClicks(look, t).timers, j)
    ensures var c3 := Fire(TwoClicks(look, t), look, j);
      |c3.timers| == 1
      && var c4 := Fire(c3, look, 0);
      c4.timers == [] && Matches(Some("all"), c4.category) && c4.display == DisplayNone
  {
    var c2 := TwoClicks(look, t);
    assert c2.timers == [Timer(HideDelayMs, RemoveFromLayout), Timer(t + look.showDelayMs, FadeIn)];
  }

  /** One item under a click with the earlier click's timeout cancelled first, so only the
      timeout of the latest click is pending. */
  function Click(c: Card, look: FilterLook, filter: Option<string>, now: int): (r: Card)
    ensures r.category == c.category && |r.timers| == 1
    ensures Matches(filter, c.category) ==>
              r.display == DisplayBlock && r.opacity == c.opacity && r.transform == c.transform
              && r.timers == [Timer(now + look.showDelayMs, FadeIn)]
    ensures !Matches(filter, c.category) ==>
              r.display == c.display && r.opacity == Some(0) && r.transform == Some(look.hidden)
              && r.timers == [Timer(now + HideDelayMs, RemoveFromLayout)]
  {
    if Matches(filter, c.category) then
      c.(display := DisplayBlock, timers := [Timer(now + look.showDelayMs, FadeIn)])
    else
      c.(opacity := Some(0), transform := Some(look.hidden),
         timers := [Timer(now + HideDelayMs, RemoveFromLayout)])
  }

  /** Once the latest click's timeout has run, whatever was pending before it, an item is in
      the layout, opaque and in its shown place exactly when the filter matches it, and out of
      the layout, transparent and displaced otherwise. */
  lemma ClickSettles(c: Card, look: FilterLook, filter: Option<string>, now: int)
    ensures var r := Fire(Click(c, look, filter, now), look, 0);
      r.timers == []
      && (Matches(filter, c.category) <==>
            r.display == DisplayBlock && r.opacity == Some(1) && r.transform == Some(look.shown))
      && (!Matches(filter, c.category) <==>
            r.display == DisplayNone && r.opacity == Some(0) && r.transform == Some(look.hidden))
  {
  }

  /** Before the timeout runs, the item is already in the layout exactly when it matches. */
  lemma ClickShowsAtOnce(c: Card, look: FilterLook, filter: Option<string>, now: int)
    ensures Click(c, look, filter, now).display == DisplayBlock <==>
              Matches(filter, c.category) || c.display == DisplayBlock
  {
  }

  /** A filter button: its `data-filter` and whether it has the `active` class. */
  datatype Button = Button(filter: Option<string>, active: bool)

  /** One filter group: its buttons, its items and the looks it uses. */
  class FilterGroup {
    const look: FilterLook
    var buttons: array<Button>
    var cards: array<Card>

    constructor (look: FilterLook, buttons: seq<Button>, cards: seq<Card>)
      ensures this.look == look && this.buttons[..] == buttons && this.cards[..] == cards
      ensures fresh(this.buttons) && fresh(this.cards)
    {
      this.look := look;
      this.buttons := new Button[|buttons|](i requires 0 <= i < |buttons| => buttons[i]);
      this.cards := new Card[|cards|](i requires 0 <= i < |cards| => cards[i]);
    }

    /** The click handler of button `b` at time `now`: only `b` is active afterwards, and
        every item takes the click with its earlier timeout cancelled. */
    method ClickButton(b: nat, now: int)
      requires b < buttons.Length
      modifies buttons, cards
      ensures forall i :: 0 <= i < buttons.Length ==>
                buttons[i] == old(buttons[i]).(active := i == b)
      ensures forall i :: 0 <= i < cards.Length ==>
                cards[i] == Click(old(cards[i]), look, old(buttons[b].filter), now)
    {
      var filter := buttons[b].filter;
      var i := 0;
      while i < buttons.Length
        invariant 0 <= i <= buttons.Length
        invariant forall k :: 0 <= k < i ==> buttons[k] == old(buttons[k]).(active := false)
        invariant forall k :: i <= k < buttons.Length ==> buttons[k] == old(buttons[k])
        invariant cards[..] == old(cards[..])
      {
        buttons[i] := buttons[i].(active := false);
        i := i + 1;
      }
      buttons[b] := buttons[b].(active := true);
      assert cards[..] == old(cards[..]);
      i := 0;
      while i < cards.Length
        invariant 0 <= i <= cards.Length
        invariant forall k :: 0 <= k < i ==> cards[k] == Click(old(cards[k]), look, filter, now)
        invariant forall k :: i <= k < cards.Length ==> cards[k] == old(cards[k])
        invariant forall k :: 0 <= k < buttons.Length ==> buttons[k] == old(buttons[k]).(active := k == b)
      {
        cards[i] := Click(cards[i], look, filter, now);
        i := i + 1;
      }
    }

    /** The event loop runs the next timeout pending on item `i`. */
    method RunTimer(i: nat, j: nat)
      requires i < cards.Length && IsNext(cards[i].timers, j)
      modifies cards
      ensures cards[i] == Fire(old(cards[i]), look, j)
      ensures forall k :: 0 <= k < cards.Length && k != i ==> cards[k] == old(cards[k])
    {
      cards[i] := Fire(cards[i], look, j);
    }
  }
}
