/** What CloseBrowser, the user's answer and the loss of the window do to a close.  */
module Closing {
  import opened LifeSpan
  import opened Creation

  // ---------- forced and unforced requests ----------

  // The question can be put to the user, and DoClose can be called, of this browser.
  ghost predicate MayAnswer(w: World, b: Id) {
    Enabled(w, UserAnswers(b, true)) && Enabled(w, UserAnswers(b, false))
  }

  ghost predicate MayDoClose(w: World, b: Id) {
    Enabled(w, CallDoClose(b, false))
  }

  predicate HasHost(info: Browser) {
    info.windowed ==> info.window
  }

  // An open browser can be notified, asked to close in any way and ask for any new popup; close
  // notifications reach its window as long as it has one, and an application with a handling of
  // its own may tear that window down.
  lemma {:induction false} OpenBrowsersRespond(w: World, b: Id)
    requires IsOpen(w, b)
    ensures Enabled(w, Notify(b)) && Enabled(w, TryCloseBrowser(b))
    ensures forall force :: Enabled(w, CloseBrowser(b, force))
    ensures forall popup, handling, windowed, cancel ::
      Enabled(w, RequestPopup(b, popup, handling, windowed, cancel)) <==> popup !in w.browsers
    ensures forall allow ::
      Enabled(w, WindowReceivesClose(b, allow)) <==> w.browsers[b].windowed && w.browsers[b].window
    ensures Enabled(w, TearDown(b)) <==> Enabled(w, WindowReceivesClose(b, true)) && w.browsers[b].handling == Custom
  {
  }

  // A forced request skips the question, also one that is pending: DoClose is next, unless it has
  // been called already or the host window is gone.
  lemma {:induction false} ForcedCloseSkipsTheQuestion(w: World, b: Id)
    requires IsOpen(w, b)
    ensures
      var w' := Apply(w, CloseBrowser(b, true));
      && (forall approve :: !Enabled(w', UserAnswers(b, approve)))
      && (MayDoClose(w', b) <==> w.browsers[b].close != Completed && HasHost(w.browsers[b]))
      && w'.list == w.list && w'.quit == w.quit
  {
  }

  // An unforced request asks: DoClose is called only once the user has approved, and if the user
  // declines all is as before.  If a close is under way the request changes nothing.
  lemma {:induction false} UnforcedCloseAsks(w: World, b: Id)
    requires IsOpen(w, b) && w.browsers[b].close == NotClosing
    ensures
      var w' := Apply(w, CloseBrowser(b, false));
      && MayAnswer(w', b) && !MayDoClose(w', b)
      && (MayDoClose(Apply(w', UserAnswers(b, true)), b) <==> HasHost(w.browsers[b]))
      && Apply(w', UserAnswers(b, false)).browsers == w.browsers
  {
    var w' := Apply(w, CloseBrowser(b, false));
    assert Apply(w', UserAnswers(b, false)).browsers == w.browsers;
  }

  lemma {:induction false} RequestDuringClose(w: World, b: Id)
    requires IsOpen(w, b) && w.browsers[b].close != NotClosing
    ensures Apply(w, CloseBrowser(b, false)) == w
    ensures Apply(w, TryCloseBrowser(b)).browsers == w.browsers
  {
  }

  // TryCloseBrowser starts a close that has not been initiated, as CloseBrowser(false) does.
  lemma {:induction false} TryCloseStartsAClose(w: World, b: Id)
    requires IsOpen(w, b)
    ensures Apply(w, TryCloseBrowser(b)).browsers == Apply(w, CloseBrowser(b, false)).browsers
    ensures Apply(w, TryCloseBrowser(b)).log == w.log + [TryReturned(b, w.browsers[b].close == Completed)]
  {
  }

  // ---------- DoClose ----------

  // What DoClose returns decides: false completes the close of a browser with a window and ends one
  // without; true, which is left to applications with a handling of their own, stops the close.
  lemma {:induction false} DoCloseDecides(w: World, b: Id, result: bool)
    requires IsOpen(w, b) && MayDoClose(w, b)
    ensures Enabled(w, CallDoClose(b, result)) <==> result ==> w.browsers[b].handling == Custom
    ensures Enabled(w, CallDoClose(b, result)) ==>
      var w' := Apply(w, CallDoClose(b, result));
      if result then w'.browsers[b] == w.browsers[b].(close := NotClosing)
      else if w.browsers[b].windowed then IsOpen(w', b) && w'.browsers[b].close == Completed && w'.browsers[b].window
      else IsGone(w', b)
  {
  }

  // ---------- the host window ----------

  // A torn-down window leaves nothing to cancel: the browser is destroyed next.
  lemma {:induction false} TearDownTakesTheWindow(w: World, b: Id)
    requires Enabled(w, TearDown(b))
    ensures
      var w' := Apply(w, TearDown(b));
      && Enabled(w', Destroy(b)) && !Enabled(w, Destroy(b))
      && (forall result :: !Enabled(w', CallDoClose(b, result)))
      && !Enabled(w', WindowReceivesClose(b, true)) && !Enabled(w', TearDown(b))
  {
  }

  ghost predicate AboutWindow(e: Event, b: Id) {
    e.b == b && (e.DidClose? || e.WindowDestroyed?)
  }

  // After the window of b is gone it is not destroyed again, and DoClose is not called for b.
  ghost predicate NothingLate(log: seq<Event>, b: Id) {
    forall i, j :: 0 <= i < j < |log| && log[i] == WindowDestroyed(b) ==> !AboutWindow(log[j], b)
  }

  ghost predicate WindowFits(w: World, b: Id) {
    && NothingLate(w.log, b)
    && (WindowDestroyed(b) in w.log ==> b in w.browsers && w.browsers[b].windowed && !w.browsers[b].window)
  }

  lemma LateAppend(log: seq<Event>, events: seq<Event>, b: Id)
    requires NothingLate(log, b) && NothingLate(events, b)
    requires WindowDestroyed(b) in log ==> forall e :: e in events ==> !AboutWindow(e, b)
    ensures NothingLate(log + events, b)
  {
    var all, n := log + events, |log|;
    forall i, j | 0 <= i < j < |all| && all[i] == WindowDestroyed(b) ensures !AboutWindow(all[j], b) {
      if j < n {
        assert all[i] == log[i] && all[j] == log[j];
      } else if i < n {
        assert all[i] == log[i] && all[j] == events[j - n] && events[j - n] in events;
      } else {
        assert all[i] == events[i - n] && all[j] == events[j - n];
      }
    }
  }

  // A step with these events keeps WindowFits if only a browser with a host has them.
  lemma EventsKeepFit(w: World, w': World, events: seq<Event>, b: Id)
    requires WindowFits(w, b) && w'.log == w.log + events && NothingLate(events, b)
    requires forall e :: e in events && AboutWindow(e, b) ==> b in w.browsers && HasHost(w.browsers[b])
    requires b in w.browsers ==>
      b in w'.browsers && w'.browsers[b].windowed == w.browsers[b].windowed &&
      w'.browsers[b].window == (w.browsers[b].window && WindowDestroyed(b) !in events)
    requires WindowDestroyed(b) in events ==> b in w.browsers && w.browsers[b].windowed
    ensures WindowFits(w', b)
  {
    LateAppend(w.log, events, b);
    assert WindowDestroyed(b) in w'.log ==> WindowDestroyed(b) in w.log || WindowDestroyed(b) in events;
  }

  // A window goes only by a step on that window, and does not come back.
  lemma OwnWindow(w: World, a: Action)
    requires Enabled(w, a) && a.b in w.browsers
    ensures a.b in Apply(w, a).browsers && Apply(w, a).browsers[a.b].windowed == w.browsers[a.b].windowed
    ensures a.WindowReceivesClose? || a.TearDown? ==> w.browsers[a.b].windowed && w.browsers[a.b].window
    ensures Apply(w, a).browsers[a.b].window == (w.browsers[a.b].window &&
      !(a.TearDown? || (a.WindowReceivesClose? && WindowGoes(w.browsers[a.b], a.allow))))
  {
  }

  lemma EventsAreFine(w: World, a: Action, b: Id)
    requires Enabled(w, a)
    ensures NothingLate(Events(w, a), b)
    ensures forall e :: e in Events(w, a) ==> e.b == a.b
    ensures forall e :: e in Events(w, a) && AboutWindow(e, b) ==>
      a.CallDoClose? || a.WindowReceivesClose? || a.TearDown?
    ensures WindowDestroyed(a.b) in Events(w, a) <==>
      a.TearDown? || (a.WindowReceivesClose? && WindowGoes(w.browsers[a.b], a.allow))
  {
    hide WindowGoes;
    if a.WindowReceivesClose? && WindowGoes(w.browsers[a.b], a.allow) {
      var asked := Asked(w.browsers[a.b], a.b);
      assert (asked + [WindowDestroyed(a.b)])[|asked|] == WindowDestroyed(a.b);
    }
  }

  lemma {:induction false} StepKeepsFit(w: World, a: Action, b: Id)
    requires Enabled(w, a) && WindowFits(w, b)
    ensures WindowFits(Apply(w, a), b)
  {
    StepsAreRecorded(w, a);
    EventsAreFine(w, a, b);
    if b in w.browsers {
      if b == a.b { OwnWindow(w, a); } else { OthersAreLeftAlone(w, a, b); }
    }
    assert a.CallDoClose? || a.WindowReceivesClose? || a.TearDown? ==> a.b in w.browsers && HasHost(w.browsers[a.b]);
    hide Apply, Enabled, WindowFits, Events, NothingLate, WindowGoes;
    EventsKeepFit(w, Apply(w, a), Events(w, a), b);
  }

  lemma {:induction false} RunKeepsFit(w: World, run: seq<Action>, b: Id)
    requires ValidRun(w, run) && WindowFits(w, b)
    ensures WindowFits(Run(w, run), b)
    decreases |run|
  {
    hide Enabled, Apply, WindowFits;
    if run != [] {
      StepKeepsFit(w, run[0], b);
      RunKeepsFit(Apply(w, run[0]), run[1..], b);
    }
  }

  // In every run, once the host window of a browser has been destroyed DoClose is not called for it.
  lemma {:induction false} NoDoCloseWithoutWindow(run: seq<Action>, b: Id, i: nat, j: nat)
    requires ValidRun(Init, run) && i < j < |Run(Init, run).log| && Run(Init, run).log[i] == WindowDestroyed(b)
    ensures !AboutWindow(Run(Init, run).log[j], b)
  {
    RunKeepsFit(Init, run, b);
  }
}
