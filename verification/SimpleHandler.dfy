/** The sample application's handler: the list of browsers behind the exit rule. */
module SimpleHandlers {
  import opened LifeSpan

  class SimpleHandler {
    var browserList: seq<Id>
    var isClosing: bool
    var quitMessageLoop: bool

    constructor ()
      ensures browserList == [] && !isClosing && !quitMessageLoop
    {
      browserList, isClosing, quitMessageLoop := [], false, false;
    }

    method OnAfterCreated(browser: Id)
      modifies this
      ensures browserList == old(browserList) + [browser]
      ensures isClosing == old(isClosing) && quitMessageLoop == old(quitMessageLoop)
    {
      browserList := browserList + [browser];
    }

    // The window close will be allowed once the last browser is being closed.
    method DoClose(browser: Id) returns (cancelled: bool)
      modifies this
      ensures !cancelled && isClosing == (old(isClosing) || |browserList| == 1)
      ensures browserList == old(browserList) && quitMessageLoop == old(quitMessageLoop)
    {
      if |browserList| == 1 {
        isClosing := true;
      }
      cancelled := false;
    }

    method OnBeforeClose(browser: Id)
      modifies this
      ensures browserList == Erase(old(browserList), browser)
      ensures quitMessageLoop == (old(quitMessageLoop) || browserList == [])
      ensures isClosing == old(isClosing)
    {
      var bit := 0;
      while bit != |browserList|
        invariant bit <= |browserList| && browserList == old(browserList)
        invariant !quitMessageLoop == !old(quitMessageLoop) && isClosing == old(isClosing)
        invariant Erase(browserList, browser) == browserList[..bit] + Erase(browserList[bit..], browser)
      {
        if browserList[bit] == browser {
          assert browserList[bit..][1..] == browserList[bit + 1..];
          browserList := browserList[..bit] + browserList[bit + 1..];
          break;
        }
        assert browserList[bit..][1..] == browserList[bit + 1..];
        bit := bit + 1;
      }
      if browserList == [] {
        quitMessageLoop := true;
      }
    }

    method Notify(e: Event)
      modifies this
      ensures browserList == ListNext(old(browserList), e)
      ensures quitMessageLoop == (old(quitMessageLoop) || (e.BeforeClose? && browserList == []))
      ensures isClosing == (old(isClosing) || (e.DidClose? && |browserList| == 1))
    {
      match e
      case AfterCreated(b) => OnAfterCreated(b);
      case DidClose(b, _) => var _ := DoClose(b);
      case BeforeClose(b) => OnBeforeClose(b);
      case _ =>
    }
  }

  // ---------- what the notifications so far amount to ----------

  function ListNext(list: seq<Id>, e: Event): seq<Id> {
    match e
    case AfterCreated(b) => list + [b]
    case BeforeClose(b) => Erase(list, b)
    case _ => list
  }

  function ListAfter(log: seq<Event>): seq<Id> {
    if log == [] then [] else ListNext(ListAfter(log[..|log| - 1]), log[|log| - 1])
  }

  // Some OnBeforeClose has emptied the list.
  ghost predicate QuitAfter(log: seq<Event>) {
    exists k :: 0 <= k < |log| && log[k].BeforeClose? && ListAfter(log[..k + 1]) == []
  }

  // DoClose has been called for the only browser left.
  ghost predicate ClosingAfter(log: seq<Event>) {
    exists k :: 0 <= k < |log| && log[k].DidClose? && |ListAfter(log[..k])| == 1
  }

  lemma {:induction false} OneMore(log: seq<Event>, e: Event)
    ensures ListAfter(log + [e]) == ListNext(ListAfter(log), e)
    ensures QuitAfter(log + [e]) <==> QuitAfter(log) || (e.BeforeClose? && ListNext(ListAfter(log), e) == [])
    ensures ClosingAfter(log + [e]) <==> ClosingAfter(log) || (e.DidClose? && |ListAfter(log)| == 1)
  {
    var next, n := log + [e], |log|;
    assert next[..n] == log && next[..n + 1] == next;
    assert forall k :: 0 <= k <= n ==> next[..k] == log[..k];
    assert ListAfter(next) == ListNext(ListAfter(log), e);
    if QuitAfter(log) {
      var k :| 0 <= k < n && log[k].BeforeClose? && ListAfter(log[..k + 1]) == [];
      assert next[..k + 1] == log[..k + 1];
      assert next[k].BeforeClose? && ListAfter(next[..k + 1]) == [];
    }
    if QuitAfter(next) {
      var k :| 0 <= k <= n && next[k].BeforeClose? && ListAfter(next[..k + 1]) == [];
      if k < n { assert next[..k + 1] == log[..k + 1]; }
    }
    if ClosingAfter(log) {
      var k :| 0 <= k < n && log[k].DidClose? && |ListAfter(log[..k])| == 1;
      assert next[k].DidClose? && |ListAfter(next[..k])| == 1;
    }
    if e.BeforeClose? && ListNext(ListAfter(log), e) == [] {
      assert next[n].BeforeClose? && ListAfter(next[..n + 1]) == [];
    }
    if e.DidClose? && |ListAfter(log)| == 1 {
      assert next[n].DidClose? && |ListAfter(next[..n])| == 1;
    }
  }

  // The list and the exit of a world are what its log amounts to.
  ghost predicate Follows(w: World) {
    w.list == ListAfter(w.log) && (w.quit <==> QuitAfter(w.log))
  }

  lemma OtherEventFollows(w: World, e: Event)
    requires Follows(w) && !e.AfterCreated? && !e.BeforeClose?
    ensures Follows(Happens(w, e))
  {
    hide ListAfter, QuitAfter, ClosingAfter;
    OneMore(w.log, e);
  }

  lemma CreatedFollows(w: World, b: Id, info: Browser)
    requires Follows(w)
    ensures Follows(Created(w, b, info))
  {
    hide ListAfter, QuitAfter, ClosingAfter;
    OneMore(w.log, AfterCreated(b));
  }

  lemma DestroyedFollows(w: World, b: Id)
    requires Follows(w) && b in w.browsers
    ensures Follows(Destroyed(w, b))
  {
    var w' := Destroyed(w, b);
    assert w'.log == w.log + [BeforeClose(b)] && w'.list == Erase(w.list, b) && (w'.quit <==> w.quit || w'.list == []);
    hide Destroyed, ListAfter, QuitAfter, ClosingAfter, Erase;
    OneMore(w.log, BeforeClose(b));
  }

  lemma SetFollows(w: World, b: Id, info: Browser)
    requires Follows(w)
    ensures Follows(Set(w, b, info))
  {
  }

  lemma RequestedFollows(w: World, b: Id, force: bool)
    requires Follows(w) && b in w.browsers
    ensures Follows(Requested(w, b, force))
  {
    var info := w.browsers[b];
    SetFollows(w, b, info.(close := Asking));
    SetFollows(w, b, info.(close := Approved));
    OtherEventFollows(Set(w, b, info.(close := Approved)), UnloadApproved(b));
  }

  lemma WindowGoneFollows(w: World, b: Id)
    requires Follows(w) && b in w.browsers
    ensures Follows(WindowGone(w, b))
  {
    SetFollows(w, b, w.browsers[b].(window := false));
    OtherEventFollows(Set(w, b, w.browsers[b].(window := false)), WindowDestroyed(b));
  }

  lemma TryCloseFollows(w: World, b: Id)
    requires Follows(w) && b in w.browsers
    ensures Follows(TryClose(w, b).0)
  {
    RequestedFollows(w, b, false);
    OtherEventFollows(Requested(w, b, false), TryReturned(b, TryClose(w, b).1));
  }

  lemma DoCloseFollows(w: World, b: Id, result: bool)
    requires Follows(w) && Enabled(w, CallDoClose(b, result))
    ensures Follows(Apply(w, CallDoClose(b, result)))
  {
    var w1, info := Happens(w, DidClose(b, result)), w.browsers[b];
    OtherEventFollows(w, DidClose(b, result));
    hide Follows;
    SetFollows(w1, b, info.(close := NotClosing));
    SetFollows(w1, b, info.(close := Completed, flag := true));
    DestroyedFollows(Set(w1, b, info.(close := Completed, flag := true)), b);
  }

  lemma WindowCloseFollows(w: World, b: Id, allow: bool)
    requires Follows(w) && Enabled(w, WindowReceivesClose(b, allow))
    ensures Follows(Apply(w, WindowReceivesClose(b, allow)))
  {
    hide Follows;
    match w.browsers[b].handling
    case UseTryClose =>
      TryCloseFollows(w, b);
      WindowGoneFollows(TryClose(w, b).0, b);
    case UseFlag =>
      RequestedFollows(w, b, false);
      WindowGoneFollows(w, b);
    case Custom => WindowGoneFollows(w, b);
  }

  lemma StepFollows(w: World, a: Action)
    requires Follows(w) && Enabled(w, a)
    ensures Follows(Apply(w, a))
  {
    hide Follows;
    match a
    case Create(b, h, windowed) => CreatedFollows(w, b, NewBrowser(h, windowed, Open));
    case RequestPopup(b, popup, h, windowed, cancel) =>
      OtherEventFollows(w, BeforePopup(b));
      SetFollows(Happens(w, BeforePopup(b)), popup,
                 NewBrowser(h, windowed, if cancel then PopupCancelled else PopupPending(b)));
    case FinishPopup(b) => CreatedFollows(w, b, w.browsers[b]);
    case Notify(b) => OtherEventFollows(w, Other(b));
    case CloseBrowser(b, force) => RequestedFollows(w, b, force);
    case TryCloseBrowser(b) => TryCloseFollows(w, b);
    case UserAnswers(b, approve) =>
      var w1 := Set(w, b, w.browsers[b].(close := if approve then Approved else NotClosing));
      SetFollows(w, b, w.browsers[b].(close := if approve then Approved else NotClosing));
      OtherEventFollows(w1, if approve then UnloadApproved(b) else UnloadCancelled(b));
    case CallDoClose(b, result) => DoCloseFollows(w, b, result);
    case WindowReceivesClose(b, allow) => WindowCloseFollows(w, b, allow);
    case TearDown(b) => WindowGoneFollows(w, b);
    case Destroy(b) => DestroyedFollows(w, b);
  }

  lemma {:induction false} RunFollows(w: World, run: seq<Action>)
    requires Follows(w) && ValidRun(w, run)
    ensures Follows(Run(w, run))
    decreases |run|
  {
    hide Follows, Enabled, Apply;
    if run != [] {
      StepFollows(w, run[0]);
      RunFollows(Apply(w, run[0]), run[1..]);
    }
  }

  // The handler, given the notifications of any run: it lists the open browsers, asks to quit
  // exactly when the application of that run exits, and then every browser has been closed.
  method HandleRun(run: seq<Action>) returns (h: SimpleHandler)
    requires ValidRun(Init, run)
    ensures fresh(h)
    ensures h.browserList == Run(Init, run).list && forall b :: b in h.browserList <==> IsOpen(Run(Init, run), b)
    ensures h.quitMessageLoop <==> Run(Init, run).quit
    ensures h.quitMessageLoop ==>
      forall b :: AfterCreated(b) in Run(Init, run).log ==> BeforeClose(b) in Run(Init, run).log
    ensures h.isClosing <==> ClosingAfter(Run(Init, run).log)
  {
    hide ClosingAfter, QuitAfter, ListAfter, ValidRun, Run;
    NothingYet();
    RunFollows(Init, run);
    h := new SimpleHandler();
    var log := Run(Init, run).log;
    for i := 0 to |log|
      invariant fresh(h) && h.browserList == ListAfter(log[..i])
      invariant h.quitMessageLoop <==> QuitAfter(log[..i])
      invariant h.isClosing <==> ClosingAfter(log[..i])
    {
      assert log[..i + 1] == log[..i] + [log[i]];
      OneMore(log[..i], log[i]);
      h.Notify(log[i]);
    }
    assert log[..|log|] == log;
    Reachable(run);
    if h.quitMessageLoop {
      forall b | AfterCreated(b) in log ensures BeforeClose(b) in log { ExitsLast(run, b, Action.Notify(b)); }
    }
  }

  lemma NothingYet()
    ensures Follows(Init) && ListAfter([]) == [] && !QuitAfter([]) && !ClosingAfter([])
  {
  }
}
