/**
 * The scroll state of `withScroll` (src/hocs/withScroll.js): the two state
 * handlers `onScroll` and `requestScrollTo`, and the rule that moves the
 * scroll container when the scroll reason changes to "requested".
 */
module WithScroll {
  import opened Wrappers

  datatype ScrollReason = Requested | OnScrollEvent

  datatype ScrollState = ScrollState(scrollTop: int, scrollReason: ScrollReason)

  /** The initial state: at the top, moved by a scroll event. */
  function InitialState(): ScrollState
  {
    ScrollState(0, OnScrollEvent)
  }

  /**
   * `onScroll`. `None` is the handler's `undefined`, which keeps the state, so
   * the state after a handler is `r.GetOr(state)`. A scroll event to the
   * current offset changes nothing; to another offset it records that offset
   * with reason "scroll event"; it never moves the container.
   */
  function OnScroll(state: ScrollState, scrollTop: int): (r: Option<ScrollState>)
    ensures r.GetOr(state).scrollTop == scrollTop
    ensures r.None? <==> state.scrollTop == scrollTop
    ensures r.Some? ==> r.value.scrollReason == OnScrollEvent
    ensures ScrollToIssued(state, r.GetOr(state)).None?
  {
    if state.scrollTop == scrollTop then None
    else Some(ScrollState(scrollTop, OnScrollEvent))
  }

  /**
   * `requestScrollTo`. A request to the current offset changes nothing; to
   * another offset it records that offset with reason "requested". The
   * container moves, to exactly that offset, if and only if the offset is new
   * and the previous reason was a scroll event.
   */
  function RequestScrollTo(state: ScrollState, scrollTop: int): (r: Option<ScrollState>)
    ensures r.GetOr(state).scrollTop == scrollTop
    ensures r.None? <==> state.scrollTop == scrollTop
    ensures r.Some? ==> r.value.scrollReason == Requested
    ensures ScrollToIssued(state, r.GetOr(state)).Some?
            <==> state.scrollTop != scrollTop && state.scrollReason == OnScrollEvent
    ensures ScrollToIssued(state, r.GetOr(state)).Some? ==> ScrollToIssued(state, r.GetOr(state)) == Some(scrollTop)
  {
    if state.scrollTop == scrollTop then None
    else Some(ScrollState(scrollTop, Requested))
  }

  /**
   * The `withPropsOnChange(['scrollReason'], ...)` rule: the offset passed to
   * `scrollTo` when going from `before` to `after`, if any.
   */
  function ScrollToIssued(before: ScrollState, after: ScrollState): (r: Option<int>)
    ensures r.Some? <==> before.scrollReason == OnScrollEvent && after.scrollReason == Requested
    ensures r.Some? ==> r.value == after.scrollTop
  {
    assert before.scrollReason == Requested || before.scrollReason == OnScrollEvent;
    if after.scrollReason != before.scrollReason && after.scrollReason == Requested
    then Some(after.scrollTop)
    else None
  }

  /** Both handlers are idempotent: repeating the same event changes nothing. */
  lemma HandlersIdempotent(state: ScrollState, t: int)
    ensures var s1 := OnScroll(state, t).GetOr(state); OnScroll(s1, t).GetOr(s1) == s1
    ensures var s1 := RequestScrollTo(state, t).GetOr(state); RequestScrollTo(s1, t).GetOr(s1) == s1
  {
  }

  /**
   * After a request has moved the container, the scroll event that reports
   * the same offset leaves the reason at "requested", so a second request to
   * a different offset changes `scrollTop` without moving the container.
   */
  lemma SecondRequestNotIssued(state: ScrollState, t1: int, t2: int)
    requires state.scrollReason == OnScrollEvent && state.scrollTop != t1 && t2 != t1
    ensures var s1 := RequestScrollTo(state, t1).GetOr(state);
            var s2 := OnScroll(s1, t1).GetOr(s1);
            var s3 := RequestScrollTo(s2, t2).GetOr(s2);
      && ScrollToIssued(state, s1) == Some(t1)
      && s2 == s1
      && s3 == ScrollState(t2, Requested)
      && ScrollToIssued(s2, s3).None?
  {
  }

  class ScrollContainer {
    var scrollTop: int
    var scrollReason: ScrollReason
    /** The `scrollTop` of the scroll container element. */
    var containerScrollTop: int

    function State(): ScrollState
      reads this
    {
      ScrollState(scrollTop, scrollReason)
    }

    constructor (containerOffset: int)
      ensures State() == InitialState()
      ensures containerScrollTop == containerOffset
    {
      scrollTop, scrollReason := 0, OnScrollEvent;
      containerScrollTop := containerOffset;
    }

    /** `scrollTo`: sets the container's offset. */
    method ScrollTo(t: int)
      modifies this`containerScrollTop
      ensures containerScrollTop == t
    {
      containerScrollTop := t;
    }

    /** A handler result is applied, then the `scrollReason` change rule runs. */
    method Dispatch(update: Option<ScrollState>)
      modifies this
      ensures State() == update.GetOr(old(State()))
      ensures containerScrollTop == ScrollToIssued(old(State()), State()).GetOr(old(containerScrollTop))
    {
      var before := State();
      if update.Some? {
        scrollTop, scrollReason := update.value.scrollTop, update.value.scrollReason;
      }
      if scrollReason != before.scrollReason && scrollReason == Requested {
        ScrollTo(scrollTop);
      }
    }

    method HandleScroll(t: int)
      modifies this
      ensures State() == OnScroll(old(State()), t).GetOr(old(State()))
      ensures containerScrollTop == old(containerScrollTop)
    {
      Dispatch(OnScroll(State(), t));
    }

    method HandleRequestScrollTo(t: int)
      modifies this
      ensures State() == RequestScrollTo(old(State()), t).GetOr(old(State()))
      ensures old(scrollTop) != t && old(scrollReason) == OnScrollEvent ==> containerScrollTop == t
      ensures old(scrollTop) == t || old(scrollReason) == Requested ==> containerScrollTop == old(containerScrollTop)
    {
      Dispatch(RequestScrollTo(State(), t));
    }
  }
}
