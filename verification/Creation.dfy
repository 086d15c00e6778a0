/** How browsers and popups come to be, what becomes of a popup whose creation was requested, and
    what a step leaves alone.  */
module Creation {
  import opened LifeSpan

  // ---------- steps of a run ----------

  // Step i of a run, the world before it and the world after it.
  lemma {:induction false} RunSplit(w: World, run: seq<Action>, i: nat)
    requires ValidRun(w, run) && i < |run|
    ensures ValidRun(w, run[..i]) && Enabled(Run(w, run[..i]), run[i])
    ensures ValidRun(Apply(Run(w, run[..i]), run[i]), run[i + 1..])
    ensures Run(w, run) == Run(Apply(Run(w, run[..i]), run[i]), run[i + 1..])
    decreases i
  {
    hide Enabled, Apply;
    if i == 0 {
      assert ValidRun(w, run[..0]) && Run(w, run[..0]) == w;
    } else {
      RunSplit(Apply(w, run[0]), run[1..], i - 1);
      assert run[..i][1..] == run[1..][..i - 1] && run[1..][i..] == run[i + 1..];
    }
  }

  // ---------- what a step records, and what it leaves alone ----------

  // Every notification, answer, approval and loss of a window is an event of the step in which it
  // happens, in this order.
  function Events(w: World, a: Action): seq<Event>
    requires Enabled(w, a)
  {
    match a
    case Create(b, _, _) => [AfterCreated(b)]
    case RequestPopup(b, _, _, _, _) => [BeforePopup(b)]
    case FinishPopup(b) => [AfterCreated(b)]
    case Notify(b) => [Other(b)]
    case CloseBrowser(b, force) =>
      if force && w.browsers[b].close in {NotClosing, Asking} then [UnloadApproved(b)] else []
    case TryCloseBrowser(b) => [TryReturned(b, w.browsers[b].close == Completed)]
    case UserAnswers(b, approve) => [if approve then UnloadApproved(b) else UnloadCancelled(b)]
    case CallDoClose(b, result) =>
      [DidClose(b, result)] + if result || w.browsers[b].windowed then [] else [BeforeClose(b)]
    case WindowReceivesClose(b, allow) =>
      Asked(w.browsers[b], b) + if WindowGoes(w.browsers[b], allow) then [WindowDestroyed(b)] else []
    case TearDown(b) => [WindowDestroyed(b)]
    case Destroy(b) => [BeforeClose(b)]
  }

  function Asked(info: Browser, b: Id): seq<Event> {
    if info.handling == UseTryClose then [TryReturned(b, info.close == Completed)] else []
  }

  // What the application answers to a close notification of the window.
  predicate WindowGoes(info: Browser, allow: bool) {
    match info.handling
    case UseTryClose => info.close == Completed
    case UseFlag => info.flag
    case Custom => allow
  }

  lemma {:induction false} StepsAreRecorded(w: World, a: Action)
    requires Enabled(w, a)
    ensures Apply(w, a).log == w.log + Events(w, a)
  {
    match a
    case WindowReceivesClose(b, allow) => WindowCloseIsRecorded(w, b, allow);
    case CallDoClose(b, result) =>
      assert w.log + [DidClose(b, result)] + [BeforeClose(b)] == w.log + ([DidClose(b, result)] + [BeforeClose(b)]);
    case _ =>
  }

  // The window is gone afterwards just if the application let it go.
  lemma {:induction false} WindowCloseIsRecorded(w: World, b: Id, allow: bool)
    requires Enabled(w, WindowReceivesClose(b, allow))
    ensures
      var w' := Apply(w, WindowReceivesClose(b, allow));
      w'.log == w.log + Events(w, WindowReceivesClose(b, allow)) && b in w'.browsers &&
      (w'.browsers[b].window <==> !WindowGoes(w.browsers[b], allow))
  {
    assert w.log + [TryReturned(b, true)] + [WindowDestroyed(b)] ==
           w.log + ([TryReturned(b, true)] + [WindowDestroyed(b)]);
  }

  // A step on one browser changes no other, except that the end of a browser cancels the popups it
  // has requested and that are not created yet.
  lemma {:induction false} OthersAreLeftAlone(w: World, a: Action, x: Id)
    requires Enabled(w, a) && x in w.browsers && x != a.b
    ensures
      var w' := Apply(w, a);
      x in w'.browsers &&
      w'.browsers[x] ==
        if w.browsers[x].phase == PopupPending(a.b) && !IsOpen(w', a.b)
        then w.browsers[x].(phase := PopupCancelled) else w.browsers[x]
  {
  }

  // The browser itself is open or becomes so, and may be closed; it stays of its kind.
  lemma {:induction false} OwnBrowser(w: World, a: Action)
    requires Enabled(w, a) && a.b in w.browsers
    ensures
      var w', info := Apply(w, a), w.browsers[a.b];
      && a.b in w'.browsers && info.phase !in {Gone, PopupCancelled} && w'.browsers[a.b].phase in {Open, Gone}
      && w'.browsers[a.b].handling == info.handling && w'.browsers[a.b].windowed == info.windowed
  {
  }

  // Nothing is ever taken out of the log, no browser disappears, and its handling and windowing
  // are decided when it is created or its creation is requested.
  ghost predicate Grows(w: World, w': World) {
    && w.log <= w'.log
    && forall x :: x in w.browsers ==>
      && x in w'.browsers
      && w'.browsers[x].handling == w.browsers[x].handling && w'.browsers[x].windowed == w.browsers[x].windowed
  }

  lemma {:induction false} StepGrows(w: World, a: Action)
    requires Enabled(w, a)
    ensures Grows(w, Apply(w, a))
  {
    StepsAreRecorded(w, a);
    hide Events;
    forall x | x in w.browsers
      ensures x in Apply(w, a).browsers && Apply(w, a).browsers[x].handling == w.browsers[x].handling
      ensures Apply(w, a).browsers[x].windowed == w.browsers[x].windowed
    {
      if x == a.b { OwnBrowser(w, a); } else { OthersAreLeftAlone(w, a, x); }
      hide Apply, Enabled;
    }
    hide Apply, Enabled;
  }

  lemma GrowsTransitive(w: World, w': World, w'': World)
    requires Grows(w, w') && Grows(w', w'')
    ensures Grows(w, w'')
  {
  }

  lemma {:induction false} RunGrows(w: World, run: seq<Action>)
    requires ValidRun(w, run)
    ensures Grows(w, Run(w, run))
    decreases |run|
  {
    if run == [] {
      assert Run(w, run) == w;
    } else {
      hide Enabled, Apply;
      StepGrows(w, run[0]);
      RunGrows(Apply(w, run[0]), run[1..]);
      GrowsTransitive(w, Apply(w, run[0]), Run(w, run));
      hide Grows;
    }
  }

  // ---------- creation ----------

  // A created browser is the one that was asked for.
  lemma {:induction false} CreatedAsAsked(run: seq<Action>, i: nat, b: Id, handling: Handling, windowed: bool)
    requires ValidRun(Init, run) && i < |run| && run[i] == Create(b, handling, windowed)
    ensures
      var w := Run(Init, run);
      && b in w.browsers && w.browsers[b].handling == handling && w.browsers[b].windowed == windowed
      && AfterCreated(b) in w.log
  {
    RunSplit(Init, run, i);
    var w0 := Run(Init, run[..i]);
    var w1 := Apply(w0, run[i]);
    assert w1.log[|w0.log|] == AfterCreated(b);
    assert b in w1.browsers && w1.browsers[b].handling == handling && w1.browsers[b].windowed == windowed;
    hide Enabled, Apply, ValidRun, Run;
    RunGrows(w1, run[i + 1..]);
  }

  // Any number of browsers of any kinds can be open at once.
  lemma {:induction false} AnyBrowsersCanBeOpen(kinds: seq<(Handling, bool)>) returns (run: seq<Action>)
    ensures ValidRun(Init, run)
    ensures
      var w := Run(Init, run);
      && !w.quit && w.list == seq(|kinds|, i => i) && (forall b: Id :: b in w.browsers <==> b < |kinds|)
      && forall b: Id :: b < |kinds| ==>
        && IsOpen(w, b) && w.browsers[b].close == NotClosing && w.browsers[b].window == kinds[b].1
        && w.browsers[b].handling == kinds[b].0 && w.browsers[b].windowed == kinds[b].1
    decreases |kinds|
  {
    if kinds == [] {
      run := [];
      assert Run(Init, []) == Init;
    } else {
      var n := |kinds| - 1;
      var start := AnyBrowsersCanBeOpen(kinds[..n]);
      var w, a := Run(Init, start), Create(n, kinds[n].0, kinds[n].1);
      assert ValidRun(Apply(w, a), []) && Run(Apply(w, a), []) == Apply(w, a);
      StepThenRun(w, a, []);
      RunThenRun(Init, start, [a] + []);
      run := start + ([a] + []);
      assert Run(Init, run) == Apply(w, a);
      assert forall b: Id :: b in Apply(w, a).browsers <==> b in w.browsers || b == n;
      assert forall b: Id :: b < n ==> kinds[..n][b] == kinds[b];
    }
  }

  // ---------- popups ----------

  // Where the popup stands, after browser b has asked for it.
  ghost predicate PopupAt(w: World, b: Id, popup: Id, cancel: bool) {
    && b in w.browsers && popup in w.browsers
    && (cancel ==> w.browsers[popup].phase == PopupCancelled)
    && (w.browsers[popup].phase.PopupPending? ==> w.browsers[popup].phase.parent == b)
    && (!cancel && w.browsers[popup].phase == PopupCancelled ==> IsGone(w, b))
  }

  lemma {:induction false} StepOnPopup(w: World, a: Action, b: Id, popup: Id, cancel: bool)
    requires Enabled(w, a) && PopupAt(w, b, popup, cancel)
    ensures PopupAt(Apply(w, a), b, popup, cancel)
  {
    if a.b in w.browsers {
      OwnBrowser(w, a);
    }
    if popup != a.b {
      OthersAreLeftAlone(w, a, popup);
    }
    if b != a.b {
      OthersAreLeftAlone(w, a, b);
    }
    hide Apply, Enabled;
  }

  lemma {:induction false} RunOnPopup(w: World, run: seq<Action>, b: Id, popup: Id, cancel: bool)
    requires ValidRun(w, run) && PopupAt(w, b, popup, cancel)
    ensures PopupAt(Run(w, run), b, popup, cancel)
    decreases |run|
  {
    hide Enabled, Apply, PopupAt;
    if run != [] {
      StepOnPopup(w, run[0], b, popup, cancel);
      RunOnPopup(Apply(w, run[0]), run[1..], b, popup, cancel);
    }
  }

  // The phase of a browser, read off the log.
  lemma {:induction false} PhaseOf(w: World, b: Id)
    requires Inv(w) && b in w.browsers
    ensures AfterCreated(b) in w.log <==> w.browsers[b].phase in {Open, Gone}
    ensures BeforeClose(b) in w.log <==> w.browsers[b].phase == Gone
  {
    assert Fits(w, b);
    hide Inv;
    if i :| 0 <= i < |w.log| && w.log[i] == AfterCreated(b) {
      UnbrokenLog(w.log, b, i);
    }
    if i :| 0 <= i < |w.log| && w.log[i] == BeforeClose(b) {
      UnbrokenLog(w.log, b, i);
    }
    if w.browsers[b].phase in {Open, Gone} {
      AliveWasCreated(w.log, b);
    }
  }

  // The fate of a popup.  Its parent is told of the request.  If OnBeforePopup cancels it, it is
  // never created.  Otherwise it can be created as long as its parent has not been closed, with the
  // handling and windowing that were asked for, and it is cancelled exactly if its parent is closed
  // first.
  lemma {:induction false} FateOfAPopup(run: seq<Action>, i: nat, b: Id, popup: Id, handling: Handling,
                                        windowed: bool, cancel: bool)
    requires ValidRun(Init, run) && i < |run| && run[i] == RequestPopup(b, popup, handling, windowed, cancel)
    ensures
      var w := Run(Init, run);
      && BeforePopup(b) in w.log
      && popup in w.browsers && w.browsers[popup].handling == handling && w.browsers[popup].windowed == windowed
      && (cancel ==> AfterCreated(popup) !in w.log && !Enabled(w, FinishPopup(popup)))
      && (!cancel ==>
            && (Enabled(w, FinishPopup(popup)) <==> AfterCreated(popup) !in w.log && BeforeClose(b) !in w.log)
            && (w.browsers[popup].phase == PopupCancelled <==>
                  AfterCreated(popup) !in w.log && BeforeClose(b) in w.log))
  {
    RunSplit(Init, run, i);
    var w0 := Run(Init, run[..i]);
    var w1, w := Apply(w0, run[i]), Run(Init, run);
    RequestIsAnswered(w0, b, popup, handling, windowed, cancel);
    Reachable(run);
    hide Apply, ValidRun, Run;
    RunOnPopup(w1, run[i + 1..], b, popup, cancel);
    RunGrows(w1, run[i + 1..]);
    assert w1.log[|w0.log|] in w.log;
    PhaseOf(w, popup);
    PhaseOf(w, b);
    assert Fits(w, popup);
    hide LifeOf, ProgressOf;
  }

  lemma {:induction false} RequestIsAnswered(w: World, b: Id, popup: Id, handling: Handling,
                                             windowed: bool, cancel: bool)
    requires Enabled(w, RequestPopup(b, popup, handling, windowed, cancel))
    ensures
      var w' := Apply(w, RequestPopup(b, popup, handling, windowed, cancel));
      && PopupAt(w', b, popup, cancel) && |w'.log| > |w.log| && w'.log[|w.log|] == BeforePopup(b)
      && w'.browsers[popup].handling == handling && w'.browsers[popup].windowed == windowed
  {
  }

  // And when it is created it is open, and asked nothing yet.
  lemma {:induction false} FinishedPopup(w: World, popup: Id)
    requires Inv(w) && Enabled(w, FinishPopup(popup))
    ensures
      var w' := Apply(w, FinishPopup(popup));
      && IsOpen(w', popup) && w'.list == w.list + [popup] && w'.log == w.log + [AfterCreated(popup)]
      && w'.browsers[popup].close == NotClosing && w'.browsers[popup].window == w'.browsers[popup].windowed
  {
    assert Fits(w, popup);
  }
}
