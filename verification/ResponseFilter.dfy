/** The calling protocol of CefResponseFilter::Filter, for any filter that obeys its contract, any
    way of cutting the response into chunks and any sequence of output buffer sizes.  */
module ResponseFilter {

  datatype Status = NeedMoreData | Done | Error

  // What one call to Filter returns: data_in_read, the bytes written to data_out, and the state
  // in which it leaves the filter.
  datatype Answer<S> = Answer(state: S, status: Status, read: nat, out: string)

  /** A deterministic buffering filter.  `image` maps the input read so far to the output this
      input gives rise to; `owed` is the part of it that a filter state still has to write;
      `sees(s, x)` relates a state to the input it has read.  The last three are specification.  */
  datatype Filter<!S> = Filter(
    init: S,
    call: (S, string, nat) -> Answer<S>,
    owed: S -> string,
    sees: (S, string) -> bool,
    image: string -> string)

  // Clauses A and B of the contract.
  ghost predicate Mechanical<S(!new)>(f: Filter<S>) {
    forall s, data, size: nat :: size > 0 ==>
      var a := f.call(s, data, size);
      a.status != Error ==>
        a.read <= |data| && |a.out| <= size && (a.out == "" ==> a.read == |data|)
  }

  // Output is neither lost nor invented: what is written and what is owed afterwards is what was
  // owed before and what the input just read gives rise to.
  ghost predicate Conserves<S(!new)>(f: Filter<S>, s: S, x: string, data: string, size: nat)
  {
    var a := f.call(s, data, size);
    f.sees(s, x) && a.status != Error && a.read <= |data| ==>
      && f.sees(a.state, x + data[..a.read])
      && f.image(x) <= f.image(x + data[..a.read])
      && a.out + f.owed(a.state) == f.owed(s) + f.image(x + data[..a.read])[|f.image(x)|..]
  }

  ghost predicate Obeys<S(!new)>(f: Filter<S>) {
    && Mechanical(f)
    && f.sees(f.init, "") && f.owed(f.init) == f.image("")
    && (forall s, x, data, size: nat :: size > 0 ==> Conserves(f, s, x, data, size))
    && (forall x, y :: f.image(x) <= f.image(x + y))
  }

  // Clause C: Done if all output was written, NeedMoreData if output is still pending.
  ghost predicate HonestAt<S(!new)>(f: Filter<S>, s: S, data: string, size: nat) {
    var a := f.call(s, data, size);
    a.status != Error ==> (a.status == Done <==> f.owed(a.state) == "")
  }

  ghost predicate Honest<S(!new)>(f: Filter<S>) {
    forall s, data, size: nat :: size > 0 ==> HonestAt(f, s, data, size)
  }

  // How a filter that owes output gets called again: it fills the buffer and does not say Done.
  // Of clause C only this half is needed for the output to be asked for.
  ghost predicate PunctualAt<S(!new)>(f: Filter<S>, s: S, data: string, size: nat) {
    var a := f.call(s, data, size);
    a.status != Error && f.owed(a.state) != "" ==> a.status == NeedMoreData && |a.out| == size
  }

  ghost predicate Punctual<S(!new)>(f: Filter<S>) {
    forall s, data, size: nat :: size > 0 ==> PunctualAt(f, s, data, size)
  }

  // ---------- the protocol ----------

  datatype Call<S> = Call(data: string, size: nat, answer: Answer<S>)

  // Where the caller stands: the state of the filter, the unread rest of the current chunk, and the
  // chunks to come.
  datatype Position<S> = Position(state: S, unread: string, later: seq<string>)

  datatype Verdict = MustStop | MustGoOn | MayStop

  // The input offered by the next call.
  function Offered<S>(p: Position<S>): string {
    if p.unread == "" && p.later != [] then p.later[0] else p.unread
  }

  function Next<S>(p: Position<S>, c: Call<S>): Position<S> {
    Position(c.answer.state,
             if c.answer.read <= |c.data| then c.data[c.answer.read..] else "",
             if p.unread == "" && p.later != [] then p.later[1..] else p.later)
  }

  // The stop conditions, after a call that led to position p.  With all input read, output written
  // and NeedMoreData returned, another call is promised only if the buffer was filled.
  function AfterCall<S>(p: Position<S>, c: Call<S>): Verdict {
    if c.answer.status == Error then MustStop
    else if p.unread != "" || p.later != [] then MustGoOn
    else if c.answer.out == "" || c.answer.status == Done then MustStop
    else if |c.answer.out| == c.size then MustGoOn
    else MayStop
  }

  ghost predicate Fits<S(!new)>(f: Filter<S>, p: Position<S>, c: Call<S>) {
    c.size > 0 && c.data == Offered(p) && c.answer == f.call(p.state, c.data, c.size)
  }

  // The calls in log are those of a run that starts at p; a complete run has been allowed to stop,
  // an incomplete one may go on.
  ghost predicate Legal<S(!new)>(f: Filter<S>, p: Position<S>, log: seq<Call<S>>, complete: bool)
    decreases |log|
  {
    if log == [] then !complete else
      var c := log[0];
      Fits(f, p, c) &&
      var q := Next(p, c);
      if |log| == 1 then AfterCall(q, c) != if complete then MustGoOn else MustStop
      else AfterCall(q, c) != MustStop && Legal(f, q, log[1..], complete)
  }

  function Start<S>(f: Filter<S>, chunks: seq<string>): Position<S> {
    Position(f.init, "", chunks)
  }

  function Flatten(chunks: seq<string>): string {
    if chunks == [] then "" else chunks[0] + Flatten(chunks[1..])
  }

  // The input not read yet.
  function Remaining<S>(p: Position<S>): string {
    p.unread + Flatten(p.later)
  }

  predicate Nonempty(chunks: seq<string>) {
    forall c :: c in chunks ==> c != ""
  }

  function Delivered<S>(log: seq<Call<S>>): string {
    if log == [] then "" else log[0].answer.out + Delivered(log[1..])
  }

  function Taken<S>(log: seq<Call<S>>): string {
    if log == [] then ""
    else
      var c := log[0];
      (if c.answer.read <= |c.data| then c.data[..c.answer.read] else c.data) + Taken(log[1..])
  }

  ghost predicate NoError<S>(log: seq<Call<S>>) {
    forall c :: c in log ==> c.answer.status != Error
  }

  function LastState<S>(s: S, log: seq<Call<S>>): S {
    if log == [] then s else log[|log| - 1].answer.state
  }

  // ---------- conservation ----------

  // The output that reading y after x adds.
  function Added<S>(f: Filter<S>, x: string, y: string): string {
    if f.image(x) <= f.image(x + y) then f.image(x + y)[|f.image(x)|..] else ""
  }

  lemma AddedInTwo<S(!new)>(f: Filter<S>, x: string, y: string, z: string)
    requires Obeys(f)
    ensures f.image(x) <= f.image(x + y) <= f.image(x + y + z) && f.image(x) <= f.image(x + (y + z))
    ensures Added(f, x, y + z) == Added(f, x, y) + Added(f, x + y, z)
  {
    assert x + y + z == x + (y + z);
  }

  lemma CallConserves<S(!new)>(f: Filter<S>, p: Position<S>, x: string, c: Call<S>)
    requires Obeys(f) && f.sees(p.state, x) && Fits(f, p, c) && c.answer.status != Error
    ensures c.answer.read <= |c.data|
    ensures
      var y := c.data[..c.answer.read];
      && f.sees(c.answer.state, x + y)
      && f.image(x) <= f.image(x + y)
      && c.answer.out + f.owed(c.answer.state) == f.owed(p.state) + Added(f, x, y)
      && Remaining(p) == y + Remaining(Next(p, c))
  {
    assert Conserves(f, p.state, x, c.data, c.size);
    var y := c.data[..c.answer.read];
    assert c.data == y + c.data[c.answer.read..];
  }

  lemma Glue(out: string, owed0: string, owed1: string, owed2: string, added1: string, added2: string, rest: string)
    requires out + owed1 == owed0 + added1 && rest + owed2 == owed1 + added2
    ensures (out + rest) + owed2 == owed0 + (added1 + added2)
  {
    assert (out + rest) + owed2 == out + (rest + owed2) == (out + owed1) + added2;
  }

  // In every run without error, what was delivered and what is still owed is what was owed at the
  // start and what the input read gives rise to; the input is read in order, and to its end if the
  // run is complete.
  lemma {:induction false} Conservation<S(!new)>(f: Filter<S>, p: Position<S>, x: string,
                                                 log: seq<Call<S>>, complete: bool)
    requires Obeys(f) && f.sees(p.state, x) && Legal(f, p, log, complete) && NoError(log)
    ensures Taken(log) <= Remaining(p) && (complete ==> Taken(log) == Remaining(p))
    ensures Delivered(log) + f.owed(LastState(p.state, log)) == f.owed(p.state) + Added(f, x, Taken(log))
    decreases |log|
  {
    hide Obeys, Fits, Added, Legal, Taken, Delivered, NoError;
    NothingAdded(f, x);
    EmptyLog(f, p, log);
    if log != [] {
      var c, rest := log[0], log[1..];
      var q := Next(p, c);
      FirstCall(f, p, log, complete);
      CallConserves(f, p, x, c);
      var y := c.data[..c.answer.read];
      EmptyLog(f, q, rest);
      if rest == [] {
        NothingAdded(f, x + y);
      } else {
        Conservation(f, q, x + y, rest, complete);
      }
      assert complete ==> Taken(rest) == Remaining(q);
      assert Taken(log) == y + Taken(rest) <= y + Remaining(q) == Remaining(p);
      AddedInTwo(f, x, y, Taken(rest));
      Glue(c.answer.out, f.owed(p.state), f.owed(q.state), f.owed(LastState(q.state, rest)),
           Added(f, x, y), Added(f, x + y, Taken(rest)), Delivered(rest));
    }
  }

  lemma {:induction false} EmptyLog<S(!new)>(f: Filter<S>, p: Position<S>, log: seq<Call<S>>)
    ensures log == [] ==> Taken(log) == "" && Delivered(log) == "" && !Legal(f, p, log, true)
  {
  }

  lemma {:induction false} FirstCall<S(!new)>(f: Filter<S>, p: Position<S>, log: seq<Call<S>>, complete: bool)
    requires log != [] && Legal(f, p, log, complete) && NoError(log)
    ensures Fits(f, p, log[0]) && log[0].answer.status != Error && NoError(log[1..])
    ensures Delivered(log) == log[0].answer.out + Delivered(log[1..])
    ensures log[0].answer.read <= |log[0].data| ==> Taken(log) == log[0].data[..log[0].answer.read] + Taken(log[1..])
    ensures log[1..] != [] ==> Legal(f, Next(p, log[0]), log[1..], complete)
    ensures log[1..] == [] && complete ==> Remaining(Next(p, log[0])) == ""
    ensures LastState(p.state, log) == LastState(Next(p, log[0]).state, log[1..])
  {
    assert forall c :: c in log[1..] ==> c in log;
  }

  lemma NothingAdded<S(!new)>(f: Filter<S>, x: string)
    ensures Added(f, x, "") == ""
  {
    assert x + "" == x;
  }

  // The last call of a complete run of a punctual filter leaves nothing owed.
  lemma {:induction false} NothingOwed<S(!new)>(f: Filter<S>, p: Position<S>, log: seq<Call<S>>)
    requires Punctual(f) && Legal(f, p, log, true) && NoError(log)
    ensures f.owed(LastState(p.state, log)) == ""
    decreases |log|
  {
    if |log| == 1 {
      assert PunctualAt(f, p.state, log[0].data, log[0].size);
    } else {
      NothingOwed(f, Next(p, log[0]), log[1..]);
    }
  }

  // A complete run without error delivers everything exactly when its last state owes nothing.
  lemma {:induction false} DeliveredIffNothingOwed<S(!new)>(f: Filter<S>, chunks: seq<string>, log: seq<Call<S>>)
    requires Obeys(f) && Legal(f, Start(f, chunks), log, true) && NoError(log)
    ensures Taken(log) == Flatten(chunks)
    ensures Delivered(log) <= f.image(Flatten(chunks))
    ensures Delivered(log) == f.image(Flatten(chunks)) <==> f.owed(LastState(f.init, log)) == ""
  {
    hide Legal, NoError, Delivered, Taken, Flatten;
    ImageFromStart(f, Flatten(chunks));
    hide Obeys;
    Conservation(f, Start(f, chunks), "", log, true);
    assert Taken(log) == "" + Flatten(chunks) == Flatten(chunks);
  }

  // Everything the response gives rise to is delivered, in order and once.
  lemma {:induction false} AllDelivered<S(!new)>(f: Filter<S>, chunks: seq<string>, log: seq<Call<S>>)
    requires Obeys(f) && Punctual(f) && Legal(f, Start(f, chunks), log, true) && NoError(log)
    ensures Taken(log) == Flatten(chunks)
    ensures Delivered(log) == f.image(Flatten(chunks))
  {
    DeliveredIffNothingOwed(f, chunks, log);
    NothingOwed(f, Start(f, chunks), log);
  }

  lemma ImageFromStart<S(!new)>(f: Filter<S>, x: string)
    requires Obeys(f)
    ensures f.sees(f.init, "") && f.owed(f.init) + Added(f, "", x) == f.image(x)
  {
    assert "" + x == x;
    assert f.image("") <= f.image("" + x);
  }

  // The delivered bytes do not depend on how the input is cut or on the buffer sizes.
  lemma {:induction false} ChunkingIndependence<S(!new)>(f: Filter<S>, chunks: seq<string>, log: seq<Call<S>>,
                                                         chunks': seq<string>, log': seq<Call<S>>)
    requires Obeys(f) && Punctual(f) && Flatten(chunks) == Flatten(chunks')
    requires Legal(f, Start(f, chunks), log, true) && NoError(log)
    requires Legal(f, Start(f, chunks'), log', true) && NoError(log')
    ensures Delivered(log) == Delivered(log')
  {
    AllDelivered(f, chunks, log);
    AllDelivered(f, chunks', log');
  }

  // ---------- termination ----------

  // Output still to come and input left.
  function Left<S>(f: Filter<S>, p: Position<S>, x: string): nat {
    |f.owed(p.state)| + |Added(f, x, Remaining(p))| + |Remaining(p)|
  }

  lemma NonemptyNext<S(!new)>(p: Position<S>, c: Call<S>)
    requires Nonempty(p.later) && c.data == Offered(p)
    ensures Nonempty(Next(p, c).later)
    ensures c.data == "" ==> p.later == []
  {
    assert p.later != [] ==> p.later[0] in p.later;
    assert p.later != [] ==> forall d :: d in p.later[1..] ==> d in p.later;
  }

  lemma {:induction false} CallMakesProgress<S(!new)>(f: Filter<S>, p: Position<S>, x: string, c: Call<S>)
    requires Obeys(f) && f.sees(p.state, x) && Fits(f, p, c) && c.answer.status != Error && Nonempty(p.later)
    requires AfterCall(Next(p, c), c) != MustStop
    ensures c.answer.read <= |c.data| && Nonempty(Next(p, c).later)
    ensures Left(f, Next(p, c), x + c.data[..c.answer.read]) < Left(f, p, x)
  {
    assert c.answer.out == "" ==> c.answer.read == |c.data|;
    CallConserves(f, p, x, c);
    NonemptyNext(p, c);
    var y, rest := c.data[..c.answer.read], Remaining(Next(p, c));
    AddedInTwo(f, x, y, rest);
    hide Obeys, Added;
    assert |c.answer.out| + |f.owed(c.answer.state)| == |f.owed(p.state)| + |Added(f, x, y)|;
    assert |Added(f, x, Remaining(p))| == |Added(f, x, y)| + |Added(f, x + y, rest)|;
    assert |c.answer.out| + |y| > 0;
  }

  // No run, complete or not, has more calls than bytes to read and bytes to write, plus one.
  lemma {:induction false} RunsAreBounded<S(!new)>(f: Filter<S>, p: Position<S>, x: string,
                                                   log: seq<Call<S>>, complete: bool)
    requires Obeys(f) && f.sees(p.state, x) && Legal(f, p, log, complete) && Nonempty(p.later)
    ensures |log| <= Left(f, p, x) + 1
    decreases |log|
  {
    assert log != [] ==> Fits(f, p, log[0]);
    hide Obeys, Fits, Left;
    if |log| > 1 {
      var c := log[0];
      CallConserves(f, p, x, c);
      CallMakesProgress(f, p, x, c);
      RunsAreBounded(f, Next(p, c), x + c.data[..c.answer.read], log[1..], complete);
    }
  }

  // ---------- the caller's loop ----------

  ghost function After<S>(p: Position<S>, log: seq<Call<S>>): Position<S>
    decreases |log|
  {
    if log == [] then p else After(Next(p, log[0]), log[1..])
  }

  lemma {:induction false} LegalAppend<S(!new)>(f: Filter<S>, p: Position<S>, log: seq<Call<S>>,
                                                c: Call<S>, complete: bool)
    requires Legal(f, p, log, false)
    requires Fits(f, After(p, log), c)
    requires AfterCall(Next(After(p, log), c), c) != if complete then MustGoOn else MustStop
    ensures Legal(f, p, log + [c], complete)
    ensures After(p, log + [c]) == Next(After(p, log), c)
    ensures Delivered(log + [c]) == Delivered(log) + c.answer.out
    decreases |log|
  {
    hide Fits, AfterCall, Next;
    if log == [] {
      assert log + [c] == [c] && [c][1..] == [];
    } else {
      assert (log + [c])[1..] == log[1..] + [c];
      LegalAppend(f, Next(p, log[0]), log[1..], c, complete);
    }
  }

  lemma NoCalls<S(!new)>(f: Filter<S>, p: Position<S>)
    ensures Legal(f, p, [], false) && After(p, []) == p && Delivered<S>([]) == ""
  {
  }

  lemma NextFits<S(!new)>(f: Filter<S>, p: Position<S>, size: nat)
    requires size > 0
    ensures Fits(f, p, Call(Offered(p), size, f.call(p.state, Offered(p), size)))
  {
  }

  // Where the loop stands after the calls in log, x being the input read by them.
  ghost predicate AtLoop<S(!new)>(f: Filter<S>, start: Position<S>, log: seq<Call<S>>, p: Position<S>, x: string) {
    && Legal(f, start, log, false) && NoError(log) && After(start, log) == p
    && f.sees(p.state, x) && Nonempty(p.later)
  }

  lemma {:induction false} GoOn<S(!new)>(f: Filter<S>, start: Position<S>, log: seq<Call<S>>,
                                         p: Position<S>, x: string, c: Call<S>)
    requires Obeys(f) && AtLoop(f, start, log, p, x) && Fits(f, p, c)
    requires c.answer.status != Error && AfterCall(Next(p, c), c) != MustStop
    ensures c.answer.read <= |c.data| && AtLoop(f, start, log + [c], Next(p, c), x + c.data[..c.answer.read])
    ensures Left(f, Next(p, c), x + c.data[..c.answer.read]) < Left(f, p, x)
    ensures Delivered(log + [c]) == Delivered(log) + c.answer.out && After(start, log + [c]) == Next(p, c)
  {
    CallMakesProgress(f, p, x, c);
    CallConserves(f, p, x, c);
    LegalAppend(f, start, log, c, false);
  }

  lemma {:induction false} Stop<S(!new)>(f: Filter<S>, start: Position<S>, log: seq<Call<S>>,
                                         p: Position<S>, x: string, c: Call<S>)
    requires AtLoop(f, start, log, p, x) && Fits(f, p, c) && AfterCall(Next(p, c), c) != MustGoOn
    ensures Legal(f, start, log + [c], true) && (NoError(log + [c]) <==> c.answer.status != Error)
    ensures Delivered(log + [c]) == Delivered(log) + c.answer.out && After(start, log + [c]) == Next(p, c)
  {
    LegalAppend(f, start, log, c, true);
    assert c in log + [c];
  }

  // The i-th call has the i-th of the given buffer sizes.
  predicate HasSizes<S>(log: seq<Call<S>>, sizes: nat -> nat) {
    forall i :: 0 <= i < |log| ==> log[i].size == sizes(i)
  }

  lemma SizesAppend<S>(log: seq<Call<S>>, sizes: nat -> nat, c: Call<S>)
    requires HasSizes(log, sizes) && c.size == sizes(|log|)
    ensures HasSizes(log + [c], sizes)
  {
  }

  // Where the protocol left the decision to the caller, the caller went on as `again` told it.
  ghost predicate Heeds<S>(start: Position<S>, log: seq<Call<S>>, again: nat -> bool) {
    forall i :: 0 <= i < |log| && AfterCall(After(start, log[..i + 1]), log[i]) == MayStop ==> again(i)
  }

  lemma HeedsAppend<S>(start: Position<S>, log: seq<Call<S>>, again: nat -> bool, c: Call<S>)
    requires Heeds(start, log, again)
    requires AfterCall(After(start, log + [c]), c) == MayStop ==> again(|log|)
    ensures Heeds(start, log + [c], again)
  {
    var longer := log + [c];
    assert longer[..|log| + 1] == longer;
    forall i | 0 <= i < |longer| && AfterCall(After(start, longer[..i + 1]), longer[i]) == MayStop ensures again(i) {
      if i < |log| { assert longer[..i + 1] == log[..i + 1]; }
    }
  }

  // It went on and stopped as it was told.
  ghost predicate EndsAsTold<S>(start: Position<S>, log: seq<Call<S>>, again: nat -> bool) {
    log != [] && Heeds(start, log[..|log| - 1], again) &&
    (AfterCall(After(start, log), log[|log| - 1]) == MayStop ==> !again(|log| - 1))
  }

  lemma EndsAppend<S>(start: Position<S>, log: seq<Call<S>>, again: nat -> bool, c: Call<S>)
    requires Heeds(start, log, again)
    requires AfterCall(After(start, log + [c]), c) == MayStop ==> !again(|log|)
    ensures EndsAsTold(start, log + [c], again)
  {
    assert (log + [c])[..|log|] == log;
  }

  // All that holds between two calls.
  ghost predicate Under<S(!new)>(f: Filter<S>, chunks: seq<string>, sizes: nat -> nat, again: nat -> bool,
                                 log: seq<Call<S>>, p: Position<S>, x: string, delivered: string) {
    && AtLoop(f, Start(f, chunks), log, p, x) && delivered == Delivered(log)
    && HasSizes(log, sizes) && Heeds(Start(f, chunks), log, again)
  }

  lemma Begin<S(!new)>(f: Filter<S>, chunks: seq<string>, sizes: nat -> nat, again: nat -> bool)
    requires Obeys(f) && Nonempty(chunks)
    ensures Under(f, chunks, sizes, again, [], Position(f.init, "", chunks), "", "")
  {
    NoCalls(f, Start(f, chunks));
  }

  lemma Proceed<S(!new)>(f: Filter<S>, chunks: seq<string>, sizes: nat -> nat, again: nat -> bool,
                         log: seq<Call<S>>, p: Position<S>, x: string, delivered: string, c: Call<S>)
    requires Obeys(f) && Under(f, chunks, sizes, again, log, p, x, delivered)
    requires Fits(f, p, c) && c.size == sizes(|log|) && c.answer.status != Error
    requires AfterCall(Next(p, c), c) != MustStop && (AfterCall(Next(p, c), c) == MayStop ==> again(|log|))
    ensures c.answer.read <= |c.data|
    ensures Under(f, chunks, sizes, again, log + [c], Next(p, c), x + c.data[..c.answer.read], delivered + c.answer.out)
    ensures Left(f, Next(p, c), x + c.data[..c.answer.read]) < Left(f, p, x)
  {
    hide Obeys, AtLoop, Fits, Left, HasSizes, Heeds, AfterCall;
    GoOn(f, Start(f, chunks), log, p, x, c);
    SizesAppend(log, sizes, c);
    HeedsAppend(Start(f, chunks), log, again, c);
  }

  lemma Finish<S(!new)>(f: Filter<S>, chunks: seq<string>, sizes: nat -> nat, again: nat -> bool,
                        log: seq<Call<S>>, p: Position<S>, x: string, delivered: string, c: Call<S>)
    requires Under(f, chunks, sizes, again, log, p, x, delivered)
    requires Fits(f, p, c) && c.size == sizes(|log|)
    requires AfterCall(Next(p, c), c) != MustGoOn && (AfterCall(Next(p, c), c) == MayStop ==> !again(|log|))
    ensures Legal(f, Start(f, chunks), log + [c], true) && (NoError(log + [c]) <==> c.answer.status != Error)
    ensures HasSizes(log + [c], sizes) && EndsAsTold(Start(f, chunks), log + [c], again)
    ensures Delivered(log + [c]) == delivered + c.answer.out
  {
    hide AtLoop, Fits, HasSizes, Heeds, EndsAsTold, NoError, AfterCall;
    Stop(f, Start(f, chunks), log, p, x, c);
    SizesAppend(log, sizes, c);
    EndsAppend(Start(f, chunks), log, again, c);
  }

  // Feeds the chunks to the filter with the given buffer sizes; `again` decides where the protocol
  // leaves the decision to the caller.
  method Drive<S(!new)>(f: Filter<S>, chunks: seq<string>, sizes: nat -> nat, again: nat -> bool)
    returns (log: seq<Call<S>>, delivered: string, ok: bool)
    requires Obeys(f) && Nonempty(chunks)
    requires forall i :: sizes(i) > 0
    ensures Legal(f, Start(f, chunks), log, true)
    ensures HasSizes(log, sizes) && EndsAsTold(Start(f, chunks), log, again)
    ensures ok <==> NoError(log)
    ensures ok ==> delivered == Delivered(log)
    ensures delivered <= Delivered(log)
  {
    hide Obeys, Nonempty, Left, Delivered, Legal, NoError, Fits, Start, HasSizes, EndsAsTold, Under;
    Begin(f, chunks, sizes, again);
    var state, unread, later := f.init, "", chunks;
    ghost var x := "";
    log, delivered := [], "";
    while true
      invariant Under(f, chunks, sizes, again, log, Position(state, unread, later), x, delivered)
      decreases Left(f, Position(state, unread, later), x)
    {
      ghost var p := Position(state, unread, later);
      if unread == "" && later != [] {
        unread, later := later[0], later[1..];
      }
      var size := sizes(|log|);
      var a := f.call(state, unread, size);
      var c := Call(unread, size, a);
      NextFits(f, p, size);
      if a.status == Error {
        Finish(f, chunks, sizes, again, log, p, x, delivered, c);
        log, ok := log + [c], false;
        return;
      }
      var complete := a.read >= |unread| && later == [];
      if complete && (a.out == "" || a.status == Done || (|a.out| != size && !again(|log|))) {
        Finish(f, chunks, sizes, again, log, p, x, delivered, c);
        log, delivered, ok := log + [c], delivered + a.out, true;
        return;
      }
      Proceed(f, chunks, sizes, again, log, p, x, delivered, c);
      log, delivered := log + [c], delivered + a.out;
      x := x + unread[..a.read];
      state, unread := a.state, unread[a.read..];
    }
  }
}
