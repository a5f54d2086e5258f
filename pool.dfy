/**
 * The browser pool: one shared browser, started on demand, reused while it is
 * alive and has been used recently, and replaced when it has been idle for
 * more than ten minutes or has lost its connection.
 *
 * The browser engine and the browser are foreign objects; the model names them
 * by handles drawn from a counter, and records what the pool does to them as a
 * ghost trace of events.
 */
module Pool {
  import opened Wrappers

  /** Seconds a browser may stay unused before the next request replaces it. */
  const IdleTimeout := 600

  /** What the pool does to the engine and the browsers. `DropBrowser` is
      forgetting a browser without closing it (the one that lost its
      connection). */
  datatype PoolEvent =
    | StartEngine(engine: nat)
    | Launch(browser: nat)
    | CloseBrowser(browser: nat)
    | DropBrowser(browser: nat)
    | StopEngine(engine: nat)

  /** The browser the pool holds after `events`: the last one launched,
      unless it was closed or dropped since. */
  function HeldBrowser(events: seq<PoolEvent>): Option<nat> {
    if events == [] then None
    else match events[|events| - 1]
      case Launch(b) => Some(b)
      case CloseBrowser(_) => None
      case DropBrowser(_) => None
      case _ => HeldBrowser(events[..|events| - 1])
  }

  /** The engine running after `events`. */
  function RunningEngine(events: seq<PoolEvent>): Option<nat> {
    if events == [] then None
    else match events[|events| - 1]
      case StartEngine(e) => Some(e)
      case StopEngine(_) => None
      case _ => RunningEngine(events[..|events| - 1])
  }

  /** Whether event `e` may follow `events`: a browser is launched only by a
      running engine and only when none is held; only the held browser is
      closed or dropped; an engine is started only when none runs, and only
      the running one is stopped. */
  predicate Allowed(events: seq<PoolEvent>, e: PoolEvent) {
    match e
    case StartEngine(_) => RunningEngine(events).None?
    case Launch(_) => RunningEngine(events).Some? && HeldBrowser(events).None?
    case CloseBrowser(b) => HeldBrowser(events) == Some(b)
    case DropBrowser(b) => HeldBrowser(events) == Some(b)
    case StopEngine(en) => RunningEngine(events) == Some(en) && HeldBrowser(events).None?
  }

  /** Every event of the trace was allowed where it happened. */
  predicate WellFormed(events: seq<PoolEvent>) {
    forall i :: 0 <= i < |events| ==> Allowed(events[..i], events[i])
  }

  /** A well-formed trace stays well-formed when an allowed event is added,
      and only then. */
  lemma WellFormedExtend(events: seq<PoolEvent>, e: PoolEvent)
    ensures WellFormed(events + [e]) <==> WellFormed(events) && Allowed(events, e)
  {
    var t := events + [e];
    assert t[..|events|] == events;
    assert forall i :: 0 <= i < |events| ==> t[..i] == events[..i] && t[i] == events[i];
  }

  /** What one more event changes: the held browser after a launch, close or
      drop, the running engine after a start or stop; nothing else. */
  lemma AfterEvent(events: seq<PoolEvent>, e: PoolEvent)
    ensures HeldBrowser(events + [e]) ==
      match e
      case Launch(b) => Some(b)
      case CloseBrowser(_) => None
      case DropBrowser(_) => None
      case _ => HeldBrowser(events)
    ensures RunningEngine(events + [e]) ==
      match e
      case StartEngine(en) => Some(en)
      case StopEngine(_) => None
      case _ => RunningEngine(events)
  {
    assert (events + [e])[..|events|] == events;
  }

  /** Launches minus closes and drops. */
  function Balance(events: seq<PoolEvent>): int {
    if events == [] then 0
    else Balance(events[..|events| - 1]) + match events[|events| - 1]
      case Launch(_) => 1
      case CloseBrowser(_) => -1
      case DropBrowser(_) => -1
      case _ => 0
  }

  /** In a well-formed trace, at most one browser is open at any time: every
      launch but the current one has been matched by a close or a drop. */
  lemma {:induction false} AtMostOneBrowser(events: seq<PoolEvent>)
    requires WellFormed(events)
    ensures Balance(events) == if HeldBrowser(events).Some? then 1 else 0
  {
    if events != [] {
      var prefix, e := events[..|events| - 1], events[|events| - 1];
      assert prefix + [e] == events;
      WellFormedExtend(prefix, e);
      AtMostOneBrowser(prefix);
      AfterEvent(prefix, e);
    }
  }

  /** In a well-formed trace the engine is stopped only after the browser
      is gone, so a browser is held only while the engine runs. */
  lemma {:induction false} BrowserNeedsEngine(events: seq<PoolEvent>)
    requires WellFormed(events)
    ensures HeldBrowser(events).Some? ==> RunningEngine(events).Some?
  {
    if events != [] {
      var prefix := events[..|events| - 1];
      WellFormedExtend(prefix, events[|events| - 1]);
      assert prefix + [events[|events| - 1]] == events;
      BrowserNeedsEngine(prefix);
    }
  }

  class BrowserPool {
    var playwright: Option<nat>
    var browser: Option<nat>
    var lastUsed: int
    /** The next fresh handle. */
    var nextHandle: nat
    ghost var events: seq<PoolEvent>

    ghost predicate Valid()
      reads this
    {
      && WellFormed(events)
      && browser == HeldBrowser(events)
      && playwright == RunningEngine(events)
      && (browser.Some? ==> browser.value < nextHandle)
      && (playwright.Some? ==> playwright.value < nextHandle)
    }

    /** A pool with no engine and no browser, last used at time 0. */
    constructor ()
      ensures Valid()
      ensures browser == None && playwright == None && lastUsed == 0
      ensures events == []
    {
      playwright := None;
      browser := None;
      lastUsed := 0;
      nextHandle := 0;
      events := [];
    }

    /** `_create_browser`: start the engine if none runs, then launch a new
        browser with it. */
    method CreateBrowser() returns (b: nat)
      requires Valid() && browser.None?
      modifies this
      ensures Valid()
      ensures browser == Some(b) && old(nextHandle) <= b
      ensures lastUsed == old(lastUsed)
      ensures old(playwright).Some? ==> playwright == old(playwright) && events == old(events) + [Launch(b)]
      ensures old(playwright).None? ==>
        && playwright.Some? && old(nextHandle) <= playwright.value
        && events == old(events) + [StartEngine(playwright.value), Launch(b)]
    {
      if playwright.None? {
        WellFormedExtend(events, StartEngine(nextHandle));
        AfterEvent(events, StartEngine(nextHandle));
        playwright := Some(nextHandle);
        events := events + [StartEngine(nextHandle)];
        nextHandle := nextHandle + 1;
      }
      WellFormedExtend(events, Launch(nextHandle));
      AfterEvent(events, Launch(nextHandle));
      b := nextHandle;
      browser := Some(b);
      events := events + [Launch(b)];
      nextHandle := nextHandle + 1;
    }

    /** `_close_internal`: close the held browser, if any, and forget it. A
        close that fails is treated as done. */
    method CloseInternal()
      requires Valid()
      modifies this
      ensures Valid()
      ensures browser == None
      ensures playwright == old(playwright) && lastUsed == old(lastUsed) && nextHandle == old(nextHandle)
      ensures events == old(events) + (if old(browser).Some? then [CloseBrowser(old(browser).value)] else [])
    {
      if browser.Some? {
        WellFormedExtend(events, CloseBrowser(browser.value));
        events := events + [CloseBrowser(browser.value)];
        browser := None;
      } else {
        assert events + [] == events;
      }
    }

    /** `get_page` at time `now`, where `alive` is what asking the held
        browser whether it is still connected answers. Returns the browser
        the new page is opened in. The held browser is reused when it has
        been idle for at most `IdleTimeout` seconds and is alive; an idle
        one is closed and a disconnected one dropped, and a new one is
        launched in their place. */
    method GetPage(now: int, alive: bool) returns (b: nat)
      requires Valid()
      modifies this
      ensures Valid()
      ensures browser == Some(b) && lastUsed == now
      ensures var reuse := old(browser).Some? && now - old(lastUsed) <= IdleTimeout && alive;
        && (reuse ==> b == old(browser).value && events == old(events) && playwright == old(playwright))
        && (!reuse ==> old(nextHandle) <= b)
      ensures old(browser).Some? && now - old(lastUsed) > IdleTimeout ==>
        events == old(events) + [CloseBrowser(old(browser).value), Launch(b)]
      ensures old(browser).Some? && now - old(lastUsed) <= IdleTimeout && !alive ==>
        events == old(events) + [DropBrowser(old(browser).value), Launch(b)]
      ensures old(browser).None? ==>
        (old(playwright).Some? ==> events == old(events) + [Launch(b)]) &&
        (old(playwright).None? ==> events == old(events) + [StartEngine(playwright.value), Launch(b)])
      ensures old(playwright).Some? ==> playwright == old(playwright)
    {
      BrowserNeedsEngine(events);
      ghost var retired: seq<PoolEvent> := [];
      if browser.Some? {
        if now - lastUsed > IdleTimeout {
          retired := [CloseBrowser(browser.value)];
          CloseInternal();
        } else if !alive {
          retired := [DropBrowser(browser.value)];
          WellFormedExtend(events, DropBrowser(browser.value));
          events := events + [DropBrowser(browser.value)];
          browser := None;
        }
      }
      assert events == old(events) + retired;
      if browser.None? {
        b := CreateBrowser();
        if retired != [] {
          assert events == old(events) + (retired + [Launch(b)]);
        }
      } else {
        b := browser.value;
      }
      lastUsed := now;
    }

    /** `close`: close the browser if one is held, then stop the engine if
        one runs. Failures while closing are treated as done. */
    method Close()
      requires Valid()
      modifies this
      ensures Valid()
      ensures browser == None && playwright == None
      ensures lastUsed == old(lastUsed)
      ensures events == old(events)
        + (if old(browser).Some? then [CloseBrowser(old(browser).value)] else [])
        + (if old(playwright).Some? then [StopEngine(old(playwright).value)] else [])
    {
      CloseInternal();
      ghost var afterBrowser := events;
      if playwright.Some? {
        WellFormedExtend(events, StopEngine(playwright.value));
        events := events + [StopEngine(playwright.value)];
        playwright := None;
      } else {
        assert events == afterBrowser + [];
      }
    }
  }
}
