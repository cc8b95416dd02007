/** The scroll-trigger base class: a registry of (element, callback)
    subscriptions, the window scroll listener it attaches while the registry
    is non-empty, the open-frame-request flag, and the scroll bookkeeping of
    `update`. Every method is proved against its function in TriggerSpec. */
module ScrollBase {
  import opened Subscriptions
  import T = TriggerSpec

  class ScrollTrigger {
    var subscriptions: seq<Subscription>
    var openRequestAnimationFrame: bool
    /** Fixed at construction: frame mode when the host offers
        `requestAnimationFrame`, throttled fallback otherwise. */
    const useRequestAnimationFrame: bool
    var lastScrollY: int
    var scrollDistance: int
    /** Whether the trigger's scroll listener is attached to the window. */
    var listening: bool
    /** How many frames the trigger has asked the host for. */
    var framesRequested: nat
    /** How often the fallback mode has wrapped `update` in a new throttle. */
    var throttleWraps: nat

    /** The scroll offset at construction and every distance `update` has
        computed since, in order. */
    ghost var initialScrollY: int
    ghost var distances: seq<int>

    ghost function State(): T.Trigger
      reads this
    {
      T.Trigger(subscriptions, openRequestAnimationFrame, useRequestAnimationFrame,
                lastScrollY, scrollDistance, listening, framesRequested, throttleWraps)
    }

    /** The trigger's invariant, and `lastScrollY` accounted for by the
        distances computed so far. */
    ghost predicate Valid()
      reads this
    {
      T.Valid(State()) && lastScrollY == initialScrollY + T.Sum(distances)
    }

    constructor (hasRequestAnimationFrame: bool, scrollY: int)
      ensures Valid()
      ensures State() == T.Init(hasRequestAnimationFrame, scrollY)
      ensures initialScrollY == scrollY && distances == []
    {
      subscriptions := [];
      openRequestAnimationFrame := false;
      useRequestAnimationFrame := hasRequestAnimationFrame;
      lastScrollY := scrollY;
      scrollDistance := 0;
      listening := false;
      framesRequested := 0;
      throttleWraps := 0;
      initialScrollY := scrollY;
      distances := [];
    }

    /** Whether the filter for the pair finds any entry. */
    function IsSubscribed(element: HostRef, callback: HostRef): (r: bool)
      reads this
      ensures r <==> Registered(subscriptions, element, callback)
    {
      |Matching(subscriptions, element, callback)| != 0
    }

    /** Registers the pair unless the element is not an HTML element, the
        callback is not a function or the pair is registered already;
        `inView` is the host's visibility answer for the element. */
    method Subscribe(element: HostRef, callback: HostRef, inView: bool)
      requires Valid()
      modifies this
      ensures Valid()
      ensures State() == T.Subscribe(old(State()), element, callback, inView)
      ensures initialScrollY == old(initialScrollY) && distances == old(distances)
    {
      if element.kind != HtmlElement || callback.kind != Function || IsSubscribed(element, callback) {
        return;
      }
      if |subscriptions| == 0 {
        if useRequestAnimationFrame {
          listening := true;
        } else {
          throttleWraps := throttleWraps + 1;
          listening := true;
        }
      }
      subscriptions := subscriptions + [Subscription(element, callback, inView)];
    }

    /** Drops every entry for the pair and detaches the listener once the
        list is empty. */
    method Unsubscribe(element: HostRef, callback: HostRef)
      requires Valid()
      modifies this
      ensures Valid()
      ensures State() == T.Unsubscribe(old(State()), element, callback)
      ensures initialScrollY == old(initialScrollY) && distances == old(distances)
    {
      ghost var before := State();
      subscriptions := Without(subscriptions, element, callback);
      if |subscriptions| == 0 {
        listening := false;
      }
      assert State() == T.Unsubscribe(before, element, callback);
    }

    /** Asks the host for a frame unless a request is open. */
    method RequestFrame()
      requires Valid()
      modifies this
      ensures Valid()
      ensures State() == T.RequestFrame(old(State()))
      ensures initialScrollY == old(initialScrollY) && distances == old(distances)
    {
      if openRequestAnimationFrame {
        return;
      }
      openRequestAnimationFrame := true;
      framesRequested := framesRequested + 1;
    }

    /** Closes the frame request and records the distance scrolled since the
        last update; `yOffset` is the host's scroll offset now. */
    method Update(yOffset: int)
      requires Valid()
      modifies this
      ensures Valid()
      ensures State() == T.Update(old(State()), yOffset)
      ensures initialScrollY == old(initialScrollY) && distances == old(distances) + [scrollDistance]
    {
      openRequestAnimationFrame := false;
      scrollDistance := yOffset - lastScrollY;
      lastScrollY := yOffset;
      T.SumAppend(distances, scrollDistance);
      distances := distances + [scrollDistance];
    }
  }
}
