/** Creation and closing of browsers as CefLifeSpanHandler, CloseBrowser and TryCloseBrowser
    describe it: many browsers at once, popups, cancelled close attempts, and an application that
    exits when its list of browsers becomes empty.  What the description leaves open is a choice
    made by the action.  */
module LifeSpan {

  type Id = nat

  // How the application treats close notifications of the top-level window: Example 1 (ask
  // TryCloseBrowser), Example 2 (a flag set in DoClose), or anything else.
  datatype Handling = UseTryClose | UseFlag | Custom

  datatype Phase =
    | PopupPending(parent: Id)   // OnBeforePopup allowed it, OnAfterCreated not called yet
    | PopupCancelled
    | Open
    | Gone                       // OnBeforeClose called

  datatype CloseState =
    | NotClosing
    | Asking       // 'onbeforeunload' runs, the user may still cancel
    | Approved     // 'onunload' has run, DoClose is next
    | Completed    // DoClose returned false, the top-level window has been notified

  datatype Browser = Browser(handling: Handling, windowed: bool, phase: Phase, close: CloseState,
                             window: bool, flag: bool)

  datatype Event =
    // notifications to the application
    | AfterCreated(b: Id)
    | BeforePopup(b: Id)
    | DidClose(b: Id, result: bool)
    | BeforeClose(b: Id)
    | Other(b: Id)
    // what else happened
    | UnloadApproved(b: Id)
    | UnloadCancelled(b: Id)
    | TryReturned(b: Id, result: bool)
    | WindowDestroyed(b: Id)

  datatype World = World(browsers: map<Id, Browser>, list: seq<Id>, quit: bool, log: seq<Event>)

  const Init := World(map[], [], false, [])

  datatype Action =
    | Create(b: Id, handling: Handling, windowed: bool)
    | RequestPopup(b: Id, popup: Id, handling: Handling, windowed: bool, cancel: bool)
    | FinishPopup(b: Id)
    | Notify(b: Id)
    | CloseBrowser(b: Id, force: bool)
    | TryCloseBrowser(b: Id)
    | UserAnswers(b: Id, approve: bool)
    | CallDoClose(b: Id, result: bool)
    | WindowReceivesClose(b: Id, allow: bool)
    | TearDown(b: Id)
    | Destroy(b: Id)

  predicate IsOpen(w: World, b: Id) {
    b in w.browsers && w.browsers[b].phase == Open
  }

  predicate Enabled(w: World, a: Action) {
    match a
    case Create(b, _, _) => b !in w.browsers && !w.quit
    case RequestPopup(b, popup, _, _, _) => IsOpen(w, b) && popup !in w.browsers
    case FinishPopup(b) => b in w.browsers && w.browsers[b].phase.PopupPending?
    case Notify(b) => IsOpen(w, b)
    case CloseBrowser(b, _) => IsOpen(w, b)
    case TryCloseBrowser(b) => IsOpen(w, b)
    case UserAnswers(b, _) => IsOpen(w, b) && w.browsers[b].close == Asking
    case CallDoClose(b, result) =>
      && IsOpen(w, b) && w.browsers[b].close == Approved
      && (w.browsers[b].windowed ==> w.browsers[b].window)
      && (w.browsers[b].handling != Custom ==> !result)
    case WindowReceivesClose(b, _) => IsOpen(w, b) && w.browsers[b].windowed && w.browsers[b].window
    case TearDown(b) =>
      IsOpen(w, b) && w.browsers[b].windowed && w.browsers[b].window && w.browsers[b].handling == Custom
    case Destroy(b) => IsOpen(w, b) && w.browsers[b].windowed && !w.browsers[b].window
  }

  // ---------- the steps ----------

  function NewBrowser(handling: Handling, windowed: bool, phase: Phase): Browser {
    Browser(handling, windowed, phase, NotClosing, windowed, false)
  }

  function Happens(w: World, e: Event): World {
    w.(log := w.log + [e])
  }

  function Set(w: World, b: Id, info: Browser): World {
    w.(browsers := w.browsers[b := info])
  }

  // OnAfterCreated: the application adds the browser to its list.
  function Created(w: World, b: Id, info: Browser): World {
    Happens(Set(w, b, info.(phase := Open)).(list := w.list + [b]), AfterCreated(b))
  }

  function Erase(list: seq<Id>, b: Id): seq<Id> {
    if list == [] then [] else if list[0] == b then list[1..] else [list[0]] + Erase(list[1..], b)
  }

  // OnBeforeClose: the application removes the browser from its list and quits if the list is
  // empty.  Popups of the browser that have not been created are cancelled.
  function Destroyed(w: World, b: Id): World
    requires b in w.browsers
  {
    var list := Erase(w.list, b);
    var browsers := map p | p in w.browsers ::
      if p == b then w.browsers[p].(phase := Gone)
      else if w.browsers[p].phase == PopupPending(b) then w.browsers[p].(phase := PopupCancelled)
      else w.browsers[p];
    Happens(World(browsers, list, w.quit || list == [], w.log), BeforeClose(b))
  }

  // CloseBrowser: a close already under way goes on; force skips the question.
  function Requested(w: World, b: Id, force: bool): World
    requires b in w.browsers
  {
    var info := w.browsers[b];
    if force && info.close in {NotClosing, Asking} then
      Happens(Set(w, b, info.(close := Approved)), UnloadApproved(b))
    else if !force && info.close == NotClosing then Set(w, b, info.(close := Asking))
    else w
  }

  // TryCloseBrowser: true once the close has completed; starts a close that was not initiated.
  function TryClose(w: World, b: Id): (World, bool)
    requires b in w.browsers
  {
    var done := w.browsers[b].close == Completed;
    (Happens(Requested(w, b, false), TryReturned(b, done)), done)
  }

  function WindowGone(w: World, b: Id): World
    requires b in w.browsers
  {
    Happens(Set(w, b, w.browsers[b].(window := false)), WindowDestroyed(b))
  }

  function Apply(w: World, a: Action): World
    requires Enabled(w, a)
  {
    match a
    case Create(b, handling, windowed) => Created(w, b, NewBrowser(handling, windowed, Open))
    case RequestPopup(b, popup, handling, windowed, cancel) =>
      var w1 := Happens(w, BeforePopup(b));
      Set(w1, popup, NewBrowser(handling, windowed, if cancel then PopupCancelled else PopupPending(b)))
    case FinishPopup(b) => Created(w, b, w.browsers[b])
    case Notify(b) => Happens(w, Other(b))
    case CloseBrowser(b, force) => Requested(w, b, force)
    case TryCloseBrowser(b) => TryClose(w, b).0
    case UserAnswers(b, approve) =>
      if approve then Happens(Set(w, b, w.browsers[b].(close := Approved)), UnloadApproved(b))
      else Happens(Set(w, b, w.browsers[b].(close := NotClosing)), UnloadCancelled(b))
    case CallDoClose(b, result) =>
      var w1 := Happens(w, DidClose(b, result));
      if result then Set(w1, b, w.browsers[b].(close := NotClosing))
      else
        var w2 := Set(w1, b, w.browsers[b].(close := Completed, flag := true));
        if w.browsers[b].windowed then w2 else Destroyed(w2, b)
    case WindowReceivesClose(b, allow) =>
      (match w.browsers[b].handling
       case UseTryClose => var (w1, done) := TryClose(w, b); if done then WindowGone(w1, b) else w1
       case UseFlag => if w.browsers[b].flag then WindowGone(w, b) else Requested(w, b, false)
       case Custom => if allow then WindowGone(w, b) else w)
    case TearDown(b) => WindowGone(w, b)
    case Destroy(b) => Destroyed(w, b)
  }

  // ---------- the life of one browser, read off the log ----------

  predicate Refers(e: Event, b: Id) {
    e.b == b && (e.AfterCreated? || e.BeforePopup? || e.DidClose? || e.BeforeClose? || e.Other?)
  }

  datatype Life = Unborn | Alive | Dead | Broken

  function Live(life: Life, e: Event, b: Id): Life {
    if !Refers(e, b) then life
    else if e.AfterCreated? then (if life == Unborn then Alive else Broken)
    else if life != Alive then Broken
    else if e.BeforeClose? then Dead
    else Alive
  }

  function LifeOf(log: seq<Event>, b: Id): Life {
    if log == [] then Unborn else Live(LifeOf(log[..|log| - 1], b), log[|log| - 1], b)
  }

  // In a log that is not broken, OnAfterCreated is the first and OnBeforeClose the last notification
  // that refers to the browser, and everything else that does comes after OnAfterCreated.
  lemma {:induction false} UnbrokenLog(log: seq<Event>, b: Id, i: nat)
    requires LifeOf(log, b) != Broken && i < |log| && Refers(log[i], b)
    ensures LifeOf(log, b) in {Alive, Dead}
    ensures AfterCreated(b) in log[..i + 1]
    ensures log[i] == AfterCreated(b) ==> forall j :: 0 <= j < i ==> !Refers(log[j], b)
    ensures log[i] == BeforeClose(b) ==> LifeOf(log, b) == Dead && forall j :: i < j < |log| ==> !Refers(log[j], b)
    decreases |log|
  {
    var n := |log| - 1;
    var init := log[..n];
    if i < n {
      UnbrokenLog(init, b, i);
      assert init[..i + 1] == log[..i + 1];
    } else {
      forall j | 0 <= j < n && Refers(log[j], b)
        ensures LifeOf(init, b) == Alive && AfterCreated(b) in log[..i + 1] && log[i] != AfterCreated(b)
      {
        UnbrokenLog(init, b, j);
        assert init[..j + 1] <= log[..i + 1];
      }
      if log[i] != AfterCreated(b) {
        AliveWasCreated(init, b);
      }
    }
  }

  lemma {:induction false} AliveWasCreated(log: seq<Event>, b: Id)
    requires LifeOf(log, b) in {Alive, Dead}
    ensures AfterCreated(b) in log
    ensures LifeOf(log, b) == Dead ==> BeforeClose(b) in log
    decreases |log|
  {
    var n := |log| - 1;
    if LifeOf(log[..n], b) in {Alive, Dead} {
      AliveWasCreated(log[..n], b);
    }
  }

  lemma {:induction false} LifeAppend(log: seq<Event>, e: Event, b: Id)
    ensures LifeOf(log + [e], b) == Live(LifeOf(log, b), e, b)
  {
    assert (log + [e])[..|log|] == log;
  }

  // ---------- the progress of a close, read off the log ----------

  datatype Progress = Nothing | Allowed | Closed

  function Advance(p: Progress, e: Event, b: Id): Progress {
    if e == UnloadCancelled(b) || e == DidClose(b, true) then Nothing
    else if e == UnloadApproved(b) && p == Nothing then Allowed
    else if e == DidClose(b, false) && p == Allowed then Closed
    else p
  }

  function ProgressOf(log: seq<Event>, b: Id): Progress {
    if log == [] then Nothing else Advance(ProgressOf(log[..|log| - 1], b), log[|log| - 1], b)
  }

  lemma {:induction false} ProgressAppend(log: seq<Event>, e: Event, b: Id)
    ensures ProgressOf(log + [e], b) == Advance(ProgressOf(log, b), e, b)
  {
    assert (log + [e])[..|log|] == log;
  }

  // Unload was approved, later DoClose returned false, and nothing was cancelled since.
  ghost predicate ApprovedAndClosed(log: seq<Event>, b: Id) {
    exists i, j :: 0 <= i < j < |log| &&
      log[i] == UnloadApproved(b) && log[j] == DidClose(b, false) && NoCancel(log[i..], b)
  }

  predicate NoCancel(log: seq<Event>, b: Id) {
    UnloadCancelled(b) !in log && DidClose(b, true) !in log
  }

  lemma {:induction false} AllowedSince(log: seq<Event>, b: Id) returns (i: nat)
    requires ProgressOf(log, b) == Allowed
    ensures i < |log| && log[i] == UnloadApproved(b) && NoCancel(log[i..], b)
    decreases |log|
  {
    var n := |log| - 1;
    if ProgressOf(log[..n], b) == Allowed {
      i := AllowedSince(log[..n], b);
      assert log[i..] == log[..n][i..] + [log[n]];
    } else {
      i := n;
    }
  }

  lemma {:induction false} ClosedMeans(log: seq<Event>, b: Id)
    requires ProgressOf(log, b) == Closed
    ensures ApprovedAndClosed(log, b)
    decreases |log|
  {
    var n := |log| - 1;
    if ProgressOf(log[..n], b) == Closed {
      ClosedMeans(log[..n], b);
      var i, j :| 0 <= i < j < n &&
        log[..n][i] == UnloadApproved(b) && log[..n][j] == DidClose(b, false) && NoCancel(log[..n][i..], b);
      assert log[i..] == log[..n][i..] + [log[n]];
      assert log[i] == UnloadApproved(b) && log[j] == DidClose(b, false);
    } else {
      var i := AllowedSince(log[..n], b);
      assert log[i..] == log[..n][i..] + [log[n]];
      assert log[i] == UnloadApproved(b) && log[n] == DidClose(b, false);
    }
  }

  lemma {:induction false} NoCancelKeeps(log: seq<Event>, b: Id, i: nat)
    requires i < |log| && log[i] == UnloadApproved(b) && NoCancel(log[i..], b)
    ensures ProgressOf(log, b) != Nothing
    ensures (exists j :: i < j < |log| && log[j] == DidClose(b, false)) ==> ProgressOf(log, b) == Closed
    decreases |log|
  {
    var n := |log| - 1;
    if i < n {
      assert log[i..] == log[..n][i..] + [log[n]];
      NoCancelKeeps(log[..n], b, i);
      if j :| i < j < |log| && log[j] == DidClose(b, false) {
        if j < n { assert log[..n][j] == DidClose(b, false); }
      }
    } else {
      assert log[n..] == [log[n]];
    }
  }

  lemma {:induction false} ClosedIff(log: seq<Event>, b: Id)
    ensures ProgressOf(log, b) == Closed <==> ApprovedAndClosed(log, b)
  {
    if ProgressOf(log, b) == Closed {
      ClosedMeans(log, b);
    }
    if ApprovedAndClosed(log, b) {
      var i, j :| 0 <= i < j < |log| &&
        log[i] == UnloadApproved(b) && log[j] == DidClose(b, false) && NoCancel(log[i..], b);
      NoCancelKeeps(log, b, i);
    }
  }

  // ---------- what every step keeps ----------

  function ExpectedLife(w: World, b: Id): Life {
    if b !in w.browsers then Unborn
    else match w.browsers[b].phase
      case Open => Alive
      case Gone => Dead
      case _ => Unborn
  }

  function ExpectedProgress(info: Browser): Progress {
    match info.close
    case Approved => Allowed
    case Completed => Closed
    case _ => Nothing
  }

  // The log agrees with the state of browser b.
  ghost predicate Fits(w: World, b: Id) {
    && LifeOf(w.log, b) == ExpectedLife(w, b)
    && (b !in w.browsers ==> ProgressOf(w.log, b) == Nothing)
    && (b in w.browsers ==>
          var info := w.browsers[b];
          && ProgressOf(w.log, b) == ExpectedProgress(info)
          && (info.phase.PopupPending? ==> IsOpen(w, info.phase.parent))
          && (info.flag ==> info.close == Completed)
          && (info.phase in {Open, Gone} || (info.close == NotClosing && info.window == info.windowed))
          && (info.windowed && !info.window && info.handling != Custom ==> info.close == Completed))
  }

  // What the log says about TryCloseBrowser and the windows of browser b.
  ghost predicate ProperWindowEvents(w: World, b: Id) {
    forall k :: 0 <= k < |w.log| ==> ProperAt(w, b, k)
  }

  ghost predicate ProperAt(w: World, b: Id, k: nat)
    requires k < |w.log|
  {
    var before := w.log[..k];
    && (w.log[k].TryReturned? && w.log[k].b == b ==>
          (w.log[k].result <==> ProgressOf(before, b) == Closed))
    && (w.log[k] == WindowDestroyed(b) && b in w.browsers && w.browsers[b].handling != Custom ==>
          ProgressOf(before, b) == Closed)
    && (w.log[k] == WindowDestroyed(b) && b in w.browsers && w.browsers[b].handling == UseTryClose ==>
          k > 0 && w.log[k - 1] == TryReturned(b, true))
    && (w.log[k] == WindowDestroyed(b) ==> b in w.browsers)
  }

  predicate NoDuplicates(list: seq<Id>) {
    forall i, j :: 0 <= i < j < |list| ==> list[i] != list[j]
  }

  // The application's list holds exactly the open browsers, and it has quit exactly if the list
  // is empty after some browser has been closed.
  ghost predicate ListInv(w: World) {
    && NoDuplicates(w.list)
    && (forall b :: b in w.list <==> IsOpen(w, b))
    && (w.quit <==> w.list == [] && exists b :: b in w.browsers && w.browsers[b].phase == Gone)
  }

  // A browser whose close has completed is waiting for its window, which will be allowed to close.
  predicate Allowing(w: World, b: Id) {
    IsOpen(w, b) && w.browsers[b].close == Completed ==> w.browsers[b].windowed && w.browsers[b].flag
  }

  ghost predicate Inv(w: World) {
    ListInv(w) && forall b :: Fits(w, b) && ProperWindowEvents(w, b) && Allowing(w, b)
  }

  lemma {:induction false} EraseRemoves(list: seq<Id>, b: Id)
    requires NoDuplicates(list)
    ensures NoDuplicates(Erase(list, b)) && forall x :: x in Erase(list, b) <==> x in list && x != b
  {
    if list != [] {
      EraseRemoves(list[1..], b);
      assert list[0] !in list[1..];
      assert forall x :: x in list <==> x == list[0] || x in list[1..];
      var rest := Erase(list[1..], b);
      assert list[0] !in rest;
      forall i, j | 0 <= i < j < |[list[0]] + rest| ensures ([list[0]] + rest)[i] != ([list[0]] + rest)[j] {
        assert ([list[0]] + rest)[j] == rest[j - 1];
      }
    }
  }

  lemma {:induction false} LogAppend(log: seq<Event>, e: Event, x: Id)
    ensures LifeOf(log + [e], x) == Live(LifeOf(log, x), e, x)
    ensures ProgressOf(log + [e], x) == Advance(ProgressOf(log, x), e, x)
  {
    LifeAppend(log, e, x);
    ProgressAppend(log, e, x);
  }

  lemma CreatedFits(w: World, b: Id, info: Browser, x: Id)
    requires Fits(w, x) && Fits(w, b)
    requires b in w.browsers ==> w.browsers[b].phase.PopupPending? && info == w.browsers[b]
    requires info.close == NotClosing && info.window == info.windowed && !info.flag
    ensures Fits(Created(w, b, info), x)
  {
    LogAppend(w.log, AfterCreated(b), x);
    hide LifeOf, ProgressOf;
  }

  lemma DestroyedFits(w: World, b: Id, x: Id)
    requires IsOpen(w, b) && Fits(w, x) && Fits(w, b)
    ensures Fits(Destroyed(w, b), x)
  {
    LogAppend(w.log, BeforeClose(b), x);
    hide LifeOf, ProgressOf;
  }

  lemma RequestedFits(w: World, b: Id, force: bool, x: Id)
    requires IsOpen(w, b) && Fits(w, x) && Fits(w, b)
    requires w.browsers[b].windowed && !w.browsers[b].window ==>
               w.browsers[b].handling == Custom || w.browsers[b].close == Completed
    ensures Fits(Requested(w, b, force), x)
  {
    LogAppend(w.log, UnloadApproved(b), x);
    hide LifeOf, ProgressOf;
  }

  lemma HappensFits(w: World, e: Event, x: Id)
    requires Fits(w, x)
    requires Live(ExpectedLife(w, x), e, x) == ExpectedLife(w, x)
    requires e.TryReturned? || e.Other? || e.BeforePopup? || e.WindowDestroyed?
    ensures Fits(Happens(w, e), x)
  {
    LogAppend(w.log, e, x);
    hide LifeOf, ProgressOf;
  }

  lemma WindowGoneFits(w: World, b: Id, x: Id)
    requires IsOpen(w, b) && Fits(w, x) && Fits(w, b)
    requires w.browsers[b].handling != Custom ==> w.browsers[b].close == Completed
    ensures Fits(WindowGone(w, b), x)
  {
    LogAppend(w.log, WindowDestroyed(b), x);
    hide LifeOf, ProgressOf;
  }

  lemma PopupFits(w: World, a: Action, x: Id)
    requires Enabled(w, a) && a.RequestPopup? && Fits(w, x) && Fits(w, a.b)
    ensures Fits(Apply(w, a), x)
  {
    LogAppend(w.log, BeforePopup(a.b), x);
    hide LifeOf, ProgressOf;
  }

  lemma AnswerFits(w: World, a: Action, x: Id)
    requires Enabled(w, a) && a.UserAnswers? && Fits(w, x) && Fits(w, a.b)
    ensures Fits(Apply(w, a), x)
  {
    LogAppend(w.log, if a.approve then UnloadApproved(a.b) else UnloadCancelled(a.b), x);
    hide LifeOf, ProgressOf;
  }

  // DoClose has returned; the browser has close state c afterwards.
  lemma DidCloseFits(w: World, b: Id, result: bool, info: Browser, x: Id)
    requires IsOpen(w, b) && w.browsers[b].close == Approved && Fits(w, x) && Fits(w, b)
    requires info == w.browsers[b].(close := info.close, flag := info.flag)
    requires info.close == (if result then NotClosing else Completed) && (info.flag ==> !result)
    requires info.windowed && !info.window && info.handling != Custom ==> !result
    ensures Fits(Set(Happens(w, DidClose(b, result)), b, info), x)
  {
    LogAppend(w.log, DidClose(b, result), x);
    hide LifeOf, ProgressOf;
  }

  lemma TryCloseFits(w: World, b: Id, x: Id)
    requires IsOpen(w, b) && Fits(w, x) && Fits(w, b)
    ensures Fits(TryClose(w, b).0, x)
  {
    RequestedFits(w, b, false, x);
    HappensFits(Requested(w, b, false), TryReturned(b, TryClose(w, b).1), x);
  }

  lemma DoCloseFits(w: World, a: Action, x: Id)
    requires Enabled(w, a) && a.CallDoClose? && Fits(w, x) && Fits(w, a.b)
    ensures Fits(Apply(w, a), x)
  {
    var b, info := a.b, w.browsers[a.b];
    if a.result {
      DidCloseFits(w, b, true, info.(close := NotClosing), x);
    } else if info.windowed {
      DidCloseFits(w, b, false, info.(close := Completed, flag := true), x);
    } else {
      DidCloseFits(w, b, false, info.(close := Completed, flag := true), x);
      DidCloseFits(w, b, false, info.(close := Completed, flag := true), b);
      DestroyedFits(Set(Happens(w, DidClose(b, false)), b, info.(close := Completed, flag := true)), b, x);
    }
  }

  lemma WindowCloseFits(w: World, a: Action, x: Id)
    requires Enabled(w, a) && a.WindowReceivesClose? && Fits(w, x) && Fits(w, a.b)
    ensures Fits(Apply(w, a), x)
  {
    var b := a.b;
    match w.browsers[b].handling
    case UseTryClose =>
      TryCloseFits(w, b, x);
      TryCloseFits(w, b, b);
      if TryClose(w, b).1 { WindowGoneFits(TryClose(w, b).0, b, x); }
    case UseFlag =>
      if w.browsers[b].flag { WindowGoneFits(w, b, x); } else { RequestedFits(w, b, false, x); }
    case Custom =>
      if a.allow { WindowGoneFits(w, b, x); }
  }

  lemma StepFits(w: World, a: Action, x: Id)
    requires Enabled(w, a) && Fits(w, x) && Fits(w, a.b)
    ensures Fits(Apply(w, a), x)
  {
    match a
    case Create(b, h, windowed) => CreatedFits(w, b, NewBrowser(h, windowed, Open), x);
    case RequestPopup(_, _, _, _, _) => PopupFits(w, a, x);
    case FinishPopup(b) => CreatedFits(w, b, w.browsers[b], x);
    case Notify(b) => HappensFits(w, Other(b), x);
    case CloseBrowser(b, force) => RequestedFits(w, b, force, x);
    case TryCloseBrowser(b) => TryCloseFits(w, b, x);
    case UserAnswers(_, _) => AnswerFits(w, a, x);
    case CallDoClose(_, _) => DoCloseFits(w, a, x);
    case WindowReceivesClose(_, _) => WindowCloseFits(w, a, x);
    case TearDown(b) => WindowGoneFits(w, b, x);
    case Destroy(b) => DestroyedFits(w, b, x);
  }

  // ---------- windows and TryCloseBrowser ----------

  lemma ProperAppend(w: World, w': World, x: Id)
    requires ProperWindowEvents(w, x) && w.log <= w'.log
    requires x in w.browsers ==> x in w'.browsers && w'.browsers[x].handling == w.browsers[x].handling
    requires forall k :: |w.log| <= k < |w'.log| ==> ProperAt(w', x, k)
    ensures ProperWindowEvents(w', x)
  {
    forall k | 0 <= k < |w'.log| ensures ProperAt(w', x, k) {
      if k < |w.log| {
        assert ProperAt(w, x, k);
        assert w'.log[..k] == w.log[..k];
      }
    }
  }

  predicate WindowEvent(e: Event) {
    e.TryReturned? || e.WindowDestroyed?
  }

  ghost predicate Quiet(w: World, w': World) {
    && w.log <= w'.log
    && (forall x :: x in w.browsers ==> x in w'.browsers && w'.browsers[x].handling == w.browsers[x].handling)
    && (forall k :: |w.log| <= k < |w'.log| ==> !WindowEvent(w'.log[k]))
  }

  lemma DestroyedIsQuiet(w: World, b: Id)
    requires b in w.browsers
    ensures Quiet(w, Destroyed(w, b))
  {
  }

  lemma HappensIsQuiet(w: World, w': World, e: Event)
    requires w'.log == w.log + [e] && !WindowEvent(e)
    requires forall x :: x in w.browsers ==> x in w'.browsers && w'.browsers[x].handling == w.browsers[x].handling
    ensures Quiet(w, w')
  {
  }

  lemma DoCloseIsQuiet(w: World, a: Action)
    requires Enabled(w, a) && a.CallDoClose?
    ensures Quiet(w, Apply(w, a))
  {
    var e, info := DidClose(a.b, a.result), w.browsers[a.b];
    var w1 := Set(Happens(w, e), a.b, info.(close := Completed, flag := true));
    HappensIsQuiet(w, w1, e);
    DestroyedIsQuiet(w1, a.b);
    if a.result || info.windowed {
      HappensIsQuiet(w, Apply(w, a), e);
    }
  }

  // Only a close notification to the window, or a tear-down, produces such events.
  lemma OnlyWindows(w: World, a: Action)
    requires Enabled(w, a) && !a.WindowReceivesClose? && !a.TearDown? && !a.TryCloseBrowser?
    ensures Quiet(w, Apply(w, a))
  {
    var w' := Apply(w, a);
    match a
    case Destroy(b) => DestroyedIsQuiet(w, b);
    case CallDoClose(_, _) => DoCloseIsQuiet(w, a);
    case CloseBrowser(b, force) => if w'.log != w.log { HappensIsQuiet(w, w', UnloadApproved(b)); }
    case Create(b, _, _) => HappensIsQuiet(w, w', AfterCreated(b));
    case FinishPopup(b) => HappensIsQuiet(w, w', AfterCreated(b));
    case RequestPopup(b, _, _, _, _) => HappensIsQuiet(w, w', BeforePopup(b));
    case Notify(b) => HappensIsQuiet(w, w', Other(b));
    case UserAnswers(b, approve) => HappensIsQuiet(w, w', if approve then UnloadApproved(b) else UnloadCancelled(b));
  }

  // Destroying the window of b under standard handling is proper once the close has completed.
  lemma WindowGoneProper(w: World, b: Id, x: Id)
    requires b in w.browsers && Fits(w, b) && ProperWindowEvents(w, x)
    requires w.browsers[b].handling != Custom ==> w.browsers[b].close == Completed
    requires w.browsers[b].handling == UseTryClose ==> w.log != [] && w.log[|w.log| - 1] == TryReturned(b, true)
    ensures ProperWindowEvents(WindowGone(w, b), x)
  {
    var w', n := WindowGone(w, b), |w.log|;
    assert w'.log[..n] == w.log;
    hide Fits, ProgressOf;
    assert b == x ==> Fits(w, b);
    FitsProgress(w, b);
    ProperAppend(w, w', x);
  }

  lemma FitsProgress(w: World, b: Id)
    requires b in w.browsers && Fits(w, b)
    ensures ProgressOf(w.log, b) == Closed <==> w.browsers[b].close == Completed
  {
  }

  lemma TryReturnedProper(w: World, b: Id, x: Id)
    requires b in w.browsers && Fits(w, b) && ProperWindowEvents(w, x)
    ensures ProperWindowEvents(TryClose(w, b).0, x)
  {
    var (w', done) := TryClose(w, b);
    assert Requested(w, b, false).log == w.log;
    assert w'.log[..|w.log|] == w.log;
    FitsProgress(w, b);
    hide Fits, ProgressOf;
    ProperAppend(w, w', x);
  }

  lemma StepProper(w: World, a: Action, x: Id)
    requires Enabled(w, a) && Fits(w, a.b) && ProperWindowEvents(w, x)
    ensures ProperWindowEvents(Apply(w, a), x)
  {
    match a
    case WindowReceivesClose(b, allow) => ReceiveProper(w, a, x);
    case TryCloseBrowser(b) => TryReturnedProper(w, b, x);
    case TearDown(b) => WindowGoneProper(w, b, x);
    case _ =>
      OnlyWindows(w, a);
      hide Apply, ProgressOf;
      ProperAppend(w, Apply(w, a), x);
  }

  lemma ReceiveProper(w: World, a: Action, x: Id)
    requires Enabled(w, a) && a.WindowReceivesClose? && Fits(w, a.b) && ProperWindowEvents(w, x)
    ensures ProperWindowEvents(Apply(w, a), x)
  {
    var b := a.b;
    hide ProgressOf, LifeOf, ProperWindowEvents;
    match w.browsers[b].handling
    case UseTryClose =>
      TryReturnedProper(w, b, x);
      var (w1, done) := TryClose(w, b);
      TryCloseFits(w, b, b);
      if done { WindowGoneProper(w1, b, x); }
    case UseFlag =>
      if w.browsers[b].flag { WindowGoneProper(w, b, x); } else { RequestedProper(w, b, x); }
    case Custom =>
      if a.allow { WindowGoneProper(w, b, x); }
  }

  lemma RequestedProper(w: World, b: Id, x: Id)
    requires b in w.browsers && ProperWindowEvents(w, x)
    ensures ProperWindowEvents(Requested(w, b, false), x)
  {
    ProperAppend(w, Requested(w, b, false), x);
  }

  // ---------- the application's list ----------

  lemma ListInvCreated(w: World, b: Id, info: Browser)
    requires ListInv(w) && !IsOpen(w, b)
    requires w.quit ==> exists x :: IsOpen(w, x)
    requires b in w.browsers ==> w.browsers[b].phase.PopupPending?
    ensures ListInv(Created(w, b, info))
  {
    var w' := Created(w, b, info);
    assert b !in w.list;
    assert w'.list[|w.list|] == b;
    assert forall x :: x in w'.list <==> x == b || x in w.list;
  }

  lemma ListInvDestroyed(w: World, b: Id)
    requires ListInv(w) && IsOpen(w, b)
    ensures ListInv(Destroyed(w, b))
  {
    EraseRemoves(w.list, b);
    assert Destroyed(w, b).browsers[b].phase == Gone;
    assert b in w.list;
  }

  // A step that neither opens nor closes a browser.
  ghost predicate SamePhases(w: World, w': World) {
    && w'.list == w.list && w'.quit == w.quit
    && (forall x :: IsOpen(w, x) <==> IsOpen(w', x))
    && (forall x :: IsGone(w, x) <==> IsGone(w', x))
  }

  predicate IsGone(w: World, b: Id) {
    b in w.browsers && w.browsers[b].phase == Gone
  }

  lemma ListInvSame(w: World, w': World)
    requires ListInv(w) && SamePhases(w, w')
    ensures ListInv(w')
  {
    if x :| x in w.browsers && w.browsers[x].phase == Gone { assert IsGone(w, x) && IsGone(w', x); }
    if x :| x in w'.browsers && w'.browsers[x].phase == Gone { assert IsGone(w', x) && IsGone(w, x); }
  }

  lemma DoCloseListInv(w: World, b: Id, result: bool)
    requires Enabled(w, CallDoClose(b, result)) && ListInv(w)
    ensures ListInv(Apply(w, CallDoClose(b, result)))
  {
    hide ListInv;
    if !result && !w.browsers[b].windowed {
      var w1 := Set(Happens(w, DidClose(b, result)), b, w.browsers[b].(close := Completed, flag := true));
      ListInvSame(w, w1);
      ListInvDestroyed(w1, b);
    } else {
      ListInvSame(w, Apply(w, CallDoClose(b, result)));
    }
  }

  lemma WindowCloseListInv(w: World, b: Id, allow: bool)
    requires Enabled(w, WindowReceivesClose(b, allow)) && ListInv(w)
    ensures ListInv(Apply(w, WindowReceivesClose(b, allow)))
  {
    hide ListInv;
    var w1 := Requested(w, b, false);
    assert SamePhases(w, w1) && SamePhases(w, WindowGone(w, b));
    ListInvSame(w, Apply(w, WindowReceivesClose(b, allow)));
  }

  lemma CreationListInv(w: World, a: Action)
    requires Enabled(w, a) && ListInv(w) && Fits(w, a.b) && (a.Create? || a.FinishPopup?)
    ensures ListInv(Apply(w, a))
  {
    hide LifeOf, ProgressOf, Created;
    match a
    case Create(b, h, windowed) => ListInvCreated(w, b, NewBrowser(h, windowed, Open));
    case FinishPopup(b) => ListInvCreated(w, b, w.browsers[b]);
  }

  lemma StepListInv(w: World, a: Action)
    requires Enabled(w, a) && ListInv(w) && Fits(w, a.b)
    ensures ListInv(Apply(w, a))
  {
    var b := a.b;
    hide ListInv, Fits;
    match a
    case Create(_, _, _) => CreationListInv(w, a);
    case FinishPopup(_) => CreationListInv(w, a);
    case Destroy(_) => ListInvDestroyed(w, b);
    case CallDoClose(_, result) => DoCloseListInv(w, b, result);
    case WindowReceivesClose(_, allow) => WindowCloseListInv(w, b, allow);
    case _ => ListInvSame(w, Apply(w, a));
  }

  // ---------- runs ----------

  predicate ValidRun(w: World, run: seq<Action>)
    decreases |run|
  {
    run == [] || (Enabled(w, run[0]) && ValidRun(Apply(w, run[0]), run[1..]))
  }

  function Run(w: World, run: seq<Action>): World
    requires ValidRun(w, run)
    decreases |run|
  {
    if run == [] then w else Run(Apply(w, run[0]), run[1..])
  }

  lemma StepAllowing(w: World, a: Action, x: Id)
    requires Enabled(w, a) && Fits(w, x) && Allowing(w, x) && Allowing(w, a.b)
    ensures Allowing(Apply(w, a), x)
  {
    hide LifeOf, ProgressOf;
  }

  lemma {:induction false} StepKeepsInv(w: World, a: Action)
    requires Inv(w) && Enabled(w, a)
    ensures Inv(Apply(w, a))
  {
    hide ListInv, Fits, ProperWindowEvents, Allowing, Apply, Enabled;
    assert Fits(w, a.b) && Allowing(w, a.b);
    StepListInv(w, a);
    forall x ensures Fits(Apply(w, a), x) && ProperWindowEvents(Apply(w, a), x) && Allowing(Apply(w, a), x) {
      assert Fits(w, x) && ProperWindowEvents(w, x) && Allowing(w, x);
      StepAllowing(w, a, x);
      StepFits(w, a, x);
      StepProper(w, a, x);
    }
  }

  lemma {:induction false} RunKeepsInv(w: World, run: seq<Action>)
    requires Inv(w) && ValidRun(w, run)
    ensures Inv(Run(w, run))
    decreases |run|
  {
    hide Inv, Enabled, Apply;
    if run != [] {
      StepKeepsInv(w, run[0]);
      RunKeepsInv(Apply(w, run[0]), run[1..]);
    }
  }

  lemma {:induction false} Reachable(run: seq<Action>)
    requires ValidRun(Init, run)
    ensures Inv(Run(Init, run))
  {
    RunKeepsInv(Init, run);
  }

  // ---------- main results ----------

  // In every run, with any number of browsers, popups and cancelled closes: OnAfterCreated is the
  // first notification that refers to a browser, OnBeforeClose the last, all others lie between.
  lemma {:induction false} NotificationsAreOrdered(run: seq<Action>, b: Id, i: nat)
    requires ValidRun(Init, run) && i < |Run(Init, run).log| && Refers(Run(Init, run).log[i], b)
    ensures
      var log := Run(Init, run).log;
      && AfterCreated(b) in log[..i + 1]
      && (log[i] == AfterCreated(b) ==> forall j :: 0 <= j < i ==> !Refers(log[j], b))
      && (log[i] == BeforeClose(b) ==> forall j :: i < j < |log| ==> !Refers(log[j], b))
  {
    Reachable(run);
    assert Fits(Run(Init, run), b);
    UnbrokenLog(Run(Init, run).log, b, i);
  }

  // TryCloseBrowser returns true exactly when unload was approved and DoClose then returned false
  // with nothing cancelled since, however often the user cancelled before.
  lemma {:induction false} TryCloseIsExact(run: seq<Action>, b: Id, i: nat)
    requires ValidRun(Init, run) && i < |Run(Init, run).log|
    requires Run(Init, run).log[i].TryReturned? && Run(Init, run).log[i].b == b
    ensures Run(Init, run).log[i].result <==> ApprovedAndClosed(Run(Init, run).log[..i], b)
  {
    Reachable(run);
    assert ProperWindowEvents(Run(Init, run), b);
    assert ProperAt(Run(Init, run), b, i);
    ClosedIff(Run(Init, run).log[..i], b);
  }

  // With standard handling of either kind the top-level window is never destroyed while a close
  // is pending or after it was cancelled.
  lemma {:induction false} WindowSurvivesPendingClose(run: seq<Action>, b: Id, i: nat)
    requires ValidRun(Init, run) && i < |Run(Init, run).log| && Run(Init, run).log[i] == WindowDestroyed(b)
    ensures
      var w := Run(Init, run);
      && b in w.browsers
      && (w.browsers[b].handling != Custom ==> ApprovedAndClosed(w.log[..i], b))
      && (w.browsers[b].handling == UseTryClose ==> i > 0 && w.log[i - 1] == TryReturned(b, true))
  {
    Reachable(run);
    assert ProperWindowEvents(Run(Init, run), b);
    assert ProperAt(Run(Init, run), b, i);
    ClosedIff(Run(Init, run).log[..i], b);
  }

  // The application exits only after OnBeforeClose for every browser that was created, with every
  // popup that was allowed either created and closed or cancelled, and nothing can happen after.
  lemma {:induction false} ExitsLast(run: seq<Action>, b: Id, a: Action)
    requires ValidRun(Init, run) && Run(Init, run).quit
    ensures AfterCreated(b) in Run(Init, run).log ==> BeforeClose(b) in Run(Init, run).log
    ensures b in Run(Init, run).browsers ==> Run(Init, run).browsers[b].phase in {Gone, PopupCancelled}
    ensures !Enabled(Run(Init, run), a)
  {
    Reachable(run);
    var w := Run(Init, run);
    assert Fits(w, b) && Fits(w, a.b);
    forall x ensures !IsOpen(w, x) { assert x !in w.list; }
    assert !IsOpen(w, b);
    if AfterCreated(b) in w.log {
      var i :| 0 <= i < |w.log| && w.log[i] == AfterCreated(b);
      UnbrokenLog(w.log, b, i);
      AliveWasCreated(w.log, b);
    }
  }

  // It does exit as soon as browsers have existed and none is left.
  lemma {:induction false} ExitsWhenNoneLeft(run: seq<Action>, b: Id)
    requires ValidRun(Init, run) && BeforeClose(b) in Run(Init, run).log
    ensures Run(Init, run).quit <==> forall x :: !IsOpen(Run(Init, run), x)
  {
    Reachable(run);
    var w := Run(Init, run);
    var i :| 0 <= i < |w.log| && w.log[i] == BeforeClose(b);
    assert Fits(w, b);
    UnbrokenLog(w.log, b, i);
    assert w.list != [] ==> w.list[0] in w.list;
  }

  // ---------- from every reachable world ----------

  lemma {:induction false} StepThenRun(w: World, a: Action, rest: seq<Action>)
    requires Enabled(w, a) && ValidRun(Apply(w, a), rest)
    ensures ValidRun(w, [a] + rest) && Run(w, [a] + rest) == Run(Apply(w, a), rest)
  {
    assert ([a] + rest)[1..] == rest;
  }

  // w' is what w becomes once b, and no other browser, has been closed.
  predicate JustClosed(w: World, b: Id, w': World) {
    && w'.list == Erase(w.list, b) && w'.quit == (w.quit || w'.list == [])
    && IsGone(w', b) && w'.log != [] && w'.log[|w'.log| - 1] == BeforeClose(b)
  }

  lemma {:induction false} RunThenRun(w: World, run: seq<Action>, rest: seq<Action>)
    requires ValidRun(w, run) && ValidRun(Run(w, run), rest)
    ensures ValidRun(w, run + rest) && Run(w, run + rest) == Run(Run(w, run), rest)
    decreases |run|
  {
    hide Enabled, Apply;
    if run == [] {
      assert run + rest == rest;
    } else {
      RunThenRun(Apply(w, run[0]), run[1..], rest);
      assert (run + rest)[1..] == run[1..] + rest;
    }
  }

  ghost predicate Closes(w: World, b: Id, steps: seq<Action>) {
    ValidRun(w, steps) && JustClosed(w, b, Run(w, steps))
  }

  lemma {:induction false} ClosesLater(w: World, a: Action, b: Id, rest: seq<Action>)
    requires Enabled(w, a) && Apply(w, a).list == w.list && Apply(w, a).quit == w.quit
    requires Closes(Apply(w, a), b, rest)
    ensures Closes(w, b, [a] + rest)
  {
    hide Enabled, Apply;
    StepThenRun(w, a, rest);
  }

  lemma ClosesNow(w: World, a: Action, b: Id)
    requires Enabled(w, a) && JustClosed(w, b, Apply(w, a))
    ensures Closes(w, b, [a])
  {
    hide Enabled, Apply;
    var w' := Apply(w, a);
    assert ValidRun(w', []) && Run(w', []) == w';
    StepThenRun(w, a, []);
    assert [a] + [] == [a];
  }

  // How far a browser is from being closed.
  function Distance(info: Browser): nat {
    if info.windowed && !info.window then 0
    else match info.close
      case NotClosing => 4
      case Asking => 3
      case Approved => 2
      case Completed => 1
  }

  // The next step of a close that nobody cancels.
  function Towards(b: Id, distance: nat): Action {
    if distance == 0 then Destroy(b)
    else if distance == 1 then WindowReceivesClose(b, true)
    else if distance == 2 then CallDoClose(b, false)
    else if distance == 3 then UserAnswers(b, true)
    else CloseBrowser(b, false)
  }

  // All of its steps; a browser without a window is destroyed by the third.
  function Script(b: Id, windowed: bool, distance: nat): seq<Action> {
    if distance == 0 || (distance == 2 && !windowed) then [Towards(b, distance)]
    else [Towards(b, distance)] + Script(b, windowed, distance - 1)
  }

  lemma TowardsWorks(w: World, b: Id)
    requires IsOpen(w, b) && Allowing(w, b)
    ensures
      var info, a := w.browsers[b], Towards(b, Distance(w.browsers[b]));
      && Enabled(w, a)
      && var w' := Apply(w, a);
        if Distance(info) == 0 || (Distance(info) == 2 && !info.windowed) then JustClosed(w, b, w')
        else
          && IsOpen(w', b) && Allowing(w', b) && w'.list == w.list && w'.quit == w.quit
          && w'.browsers[b].windowed == info.windowed && Distance(w'.browsers[b]) == Distance(info) - 1
  {
  }

  lemma {:induction false} ScriptCloses(w: World, b: Id)
    requires IsOpen(w, b) && Allowing(w, b)
    ensures Closes(w, b, Script(b, w.browsers[b].windowed, Distance(w.browsers[b])))
    decreases Distance(w.browsers[b])
  {
    var info := w.browsers[b];
    var a := Towards(b, Distance(info));
    TowardsWorks(w, b);
    hide Apply, Enabled, Allowing, Towards, Distance, JustClosed, Closes;
    if Distance(info) == 0 || (Distance(info) == 2 && !info.windowed) {
      ClosesNow(w, a, b);
    } else {
      ScriptCloses(Apply(w, a), b);
      ClosesLater(w, a, b, Script(b, info.windowed, Distance(info) - 1));
    }
  }

  lemma {:induction false} CloseFromHere(w: World, b: Id) returns (steps: seq<Action>)
    requires Inv(w) && IsOpen(w, b)
    ensures Closes(w, b, steps)
  {
    assert Allowing(w, b);
    ScriptCloses(w, b);
    steps := Script(b, w.browsers[b].windowed, Distance(w.browsers[b]));
  }

  // In every reachable world, whatever is pending or was cancelled, every open browser can still be
  // closed, and no other browser needs to be.
  lemma {:induction false} CanAlwaysClose(run: seq<Action>, b: Id) returns (steps: seq<Action>)
    requires ValidRun(Init, run) && IsOpen(Run(Init, run), b)
    ensures ValidRun(Run(Init, run), steps) && JustClosed(Run(Init, run), b, Run(Run(Init, run), steps))
  {
    hide Inv, ValidRun, Run, JustClosed;
    Reachable(run);
    steps := CloseFromHere(Run(Init, run), b);
  }

  lemma {:induction false} CloseAll(w: World) returns (steps: seq<Action>)
    requires Inv(w) && (w.list != [] || w.quit)
    ensures ValidRun(w, steps) && Run(w, steps).quit
    decreases |w.list|
  {
    if w.list == [] {
      return [];
    }
    var b := w.list[0];
    assert b in w.list && IsOpen(w, b);
    hide Inv, IsOpen, ValidRun, Run;
    steps := CloseFromHere(w, b);
    var w' := Run(w, steps);
    RunKeepsInv(w, steps);
    var rest := CloseAll(w');
    RunThenRun(w, steps, rest);
    steps := steps + rest;
  }

  // So once a browser has been created the application can always be brought to exit.
  lemma {:induction false} CanAlwaysExit(run: seq<Action>, b: Id) returns (steps: seq<Action>)
    requires ValidRun(Init, run) && AfterCreated(b) in Run(Init, run).log
    ensures ValidRun(Run(Init, run), steps) && Run(Run(Init, run), steps).quit
  {
    Reachable(run);
    var w := Run(Init, run);
    var i :| 0 <= i < |w.log| && w.log[i] == AfterCreated(b);
    assert Fits(w, b);
    UnbrokenLog(w.log, b, i);
    assert IsOpen(w, b) || IsGone(w, b);
    assert IsOpen(w, b) ==> b in w.list;
    hide Inv, Fits, ListInv, ValidRun, Run;
    steps := CloseAll(w);
  }

  // ---------- both examples end, after any number of cancelled attempts ----------

  // Standard handling, and a close that nobody has asked for or that the user can still cancel.
  predicate ReadyToClose(w: World, b: Id) {
    && IsOpen(w, b)
    && w.browsers[b].windowed && w.browsers[b].window && !w.browsers[b].flag
    && w.browsers[b].close in {NotClosing, Asking} && w.browsers[b].handling != Custom
  }

  // The user clicks the close button and then declines.
  function CancelRounds(b: Id, n: nat): seq<Action> {
    if n == 0 then [] else [WindowReceivesClose(b, false)] + ([UserAnswers(b, false)] + CancelRounds(b, n - 1))
  }

  // Steps 1 to 9 of the examples.
  function CloseSteps(b: Id): seq<Action> {
    [WindowReceivesClose(b, false)] +
    [UserAnswers(b, true), CallDoClose(b, false), WindowReceivesClose(b, true), Destroy(b)]
  }

  lemma {:induction false} CloseStepsWork(w: World, b: Id)
    requires ReadyToClose(w, b)
    ensures ValidRun(w, CloseSteps(b)) && JustClosed(w, b, Run(w, CloseSteps(b)))
  {
    var a := WindowReceivesClose(b, false);
    var w' := Apply(w, a);
    assert Allowing(w', b) && Distance(w'.browsers[b]) == 3 && w'.browsers[b].windowed;
    hide Apply, Enabled, Allowing, Distance, JustClosed, ValidRun, Run;
    ScriptCloses(w', b);
    assert Script(b, true, 0) == [Destroy(b)];
    assert Script(b, true, 1) == [WindowReceivesClose(b, true), Destroy(b)];
    assert Script(b, true, 2) == [CallDoClose(b, false), WindowReceivesClose(b, true), Destroy(b)];
    ClosesLater(w, a, b, Script(b, true, 3));
  }

  // A cancelled attempt leaves everything but the log as it was, with no close asked for.
  lemma CancelledRound(w: World, b: Id)
    requires ReadyToClose(w, b)
    ensures Enabled(w, WindowReceivesClose(b, false))
    ensures var w1 := Apply(w, WindowReceivesClose(b, false));
      Enabled(w1, UserAnswers(b, false)) && 
      Apply(w1, UserAnswers(b, false)).(log := w.log) == Set(w, b, w.browsers[b].(close := NotClosing))
  {
    var w1 := Apply(w, WindowReceivesClose(b, false));
    var w2 := Apply(w1, UserAnswers(b, false));
    assert w2.browsers == w.browsers[b := w.browsers[b].(close := NotClosing)];
  }

  // However often the user cancels first, the close then goes through and the exit rule applies.
  lemma {:induction false} ClosesAfterCancels(w: World, b: Id, n: nat)
    requires ReadyToClose(w, b)
    ensures ValidRun(w, CancelRounds(b, n) + CloseSteps(b))
    ensures JustClosed(w, b, Run(w, CancelRounds(b, n) + CloseSteps(b)))
    decreases n
  {
    hide Apply, Enabled, CloseSteps, ValidRun, Run;
    if n == 0 {
      CloseStepsWork(w, b);
      assert CancelRounds(b, 0) + CloseSteps(b) == CloseSteps(b);
    } else {
      CancelledRound(w, b);
      var w1 := Apply(w, WindowReceivesClose(b, false));
      var w2 := Apply(w1, UserAnswers(b, false));
      ClosesAfterCancels(w2, b, n - 1);
      var rest := CancelRounds(b, n - 1) + CloseSteps(b);
      StepThenRun(w1, UserAnswers(b, false), rest);
      StepThenRun(w, WindowReceivesClose(b, false), [UserAnswers(b, false)] + rest);
      assert CancelRounds(b, n) + CloseSteps(b) ==
        [WindowReceivesClose(b, false)] + ([UserAnswers(b, false)] + rest);
    }
  }
}
