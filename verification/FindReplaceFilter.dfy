/** FindReplaceResponseFilter of the sample client: the filter as a class over byte buffers, what one
    call does, and exactly when a response comes out as intended.  */
module FindReplaceFilter {
  import opened FindReplaceScan
  import RF = ResponseFilter
  import opened Sizes

  datatype FilterState = FilterState(scan: Scan, overflow: string)

  // One call to Filter: all input is read; the overflow and then the new text go to the buffer as
  // far as they fit, the rest becomes the overflow.
  function FilterCall(s: FilterState, data: string, size: nat): RF.Answer<FilterState> {
    var text := s.overflow + Emit(s.scan, data);
    var scan, n := After(s.scan, data), Min(size, |text|);
    RF.Answer(FilterState(scan, text[n..]),
              if scan.matched > 0 then RF.NeedMoreData else RF.Done, |data|, text[..n])
  }

  class FindReplaceResponseFilter {
    var findMatchOffset: nat
    var overflow: string
    var replaceCount: nat

    ghost predicate Valid()
      reads this
    {
      findMatchOffset < |FIND|
    }

    function State(): FilterState
      reads this
      requires Valid()
    {
      FilterState(Scan(findMatchOffset, replaceCount), overflow)
    }

    constructor ()
      ensures Valid() && State() == FilterState(Scan(0, 0), "")
    {
      findMatchOffset, overflow, replaceCount := 0, "", 0;
    }

    // Appends str to the output buffer as far as it fits, and the rest to the overflow.
    method Write(str: string, dataOut: array<char>, dataOutSize: nat, start: nat) returns (written: nat)
      requires start <= dataOutSize <= dataOut.Length
      requires overflow != "" ==> start == dataOutSize
      modifies this`overflow, dataOut
      ensures written == Min(start + |str|, dataOutSize)
      ensures dataOut[..written] + overflow == old(dataOut[..start] + overflow) + str
      ensures overflow != "" ==> written == dataOutSize
      ensures dataOut[dataOutSize..] == old(dataOut[dataOutSize..])
    {
      var remainingSpace := dataOutSize - start;
      var maxWrite := Min(|str|, remainingSpace);
      forall i | 0 <= i < maxWrite {
        dataOut[start + i] := str[i];
      }
      written := start + maxWrite;
      ghost var had := old(dataOut[..start]);
      assert dataOut[..written] == had + str[..maxWrite];
      assert str == str[..maxWrite] + str[maxWrite..];
      if maxWrite < |str| {
        overflow := overflow + str[maxWrite..];
        WriteOverflows(had, old(overflow), str, maxWrite);
      } else {
        assert had + str[..maxWrite] + old(overflow) == had + old(overflow) + str by {
          assert str[..maxWrite] == str && (str == "" || old(overflow) == "");
        }
      }
    }

    // The body of the loop over the input: one character.
    method Evaluate(c: char, dataOut: array<char>, dataOutSize: nat, start: nat) returns (written: nat)
      requires Valid() && start <= dataOutSize <= dataOut.Length
      requires overflow != "" ==> start == dataOutSize
      modifies this, dataOut
      ensures Valid() && State().scan == StepNext(old(State().scan), c)
      ensures start <= written <= dataOutSize
      ensures dataOut[..written] + overflow == old(dataOut[..start] + overflow) + StepOut(old(State().scan), c)
      ensures overflow != "" ==> written == dataOutSize
      ensures dataOut[dataOutSize..] == old(dataOut[dataOutSize..])
    {
      hide Replacement;
      written := start;
      if c == FIND[findMatchOffset] {
        findMatchOffset := findMatchOffset + 1;
        if findMatchOffset == |FIND| {
          replaceCount := replaceCount + 1;
          var replaceStr := Replacement(replaceCount);
          written := Write(replaceStr, dataOut, dataOutSize, written);
          findMatchOffset := 0;
        }
        return;
      }
      if findMatchOffset > 0 {
        written := Write(FIND[..findMatchOffset], dataOut, dataOutSize, written);
        findMatchOffset := 0;
      }
      written := Write([c], dataOut, dataOutSize, written);
    }

    method Filter(dataIn: array?<char>, dataInSize: nat, dataOut: array<char>, dataOutSize: nat)
      returns (status: RF.Status, dataInRead: nat, dataOutWritten: nat)
      requires Valid()
      requires dataInSize == 0 <==> dataIn == null
      requires dataIn != null ==> dataInSize <= dataIn.Length && dataIn != dataOut
      requires 0 < dataOutSize <= dataOut.Length
      modifies this, dataOut
      ensures Valid() && dataOutWritten <= dataOutSize
      ensures
        RF.Answer(State(), status, dataInRead, dataOut[..dataOutWritten]) ==
        FilterCall(old(State()), old(if dataIn == null then "" else dataIn[..dataInSize]), dataOutSize)
      ensures dataOut[dataOutSize..] == old(dataOut[dataOutSize..])
    {
      hide Emit, After, Replacement, StepOut, StepNext, FilterCall;
      ghost var s0 := State();
      ghost var data := if dataIn == null then "" else dataIn[..dataInSize];
      dataInRead := dataInSize;
      dataOutWritten := 0;
      var oldOverflow := overflow;
      overflow := "";
      if oldOverflow != "" {
        dataOutWritten := Write(oldOverflow, dataOut, dataOutSize, dataOutWritten);
      }
      NoCharacter(s0.scan, data[..0]);
      for i := 0 to dataInSize
        invariant Valid() && dataOutWritten <= dataOutSize
        invariant dataIn != null ==> dataIn[..] == old(dataIn[..])
        invariant State().scan == After(s0.scan, data[..i])
        invariant dataOut[..dataOutWritten] + overflow == s0.overflow + Emit(s0.scan, data[..i])
        invariant overflow != "" ==> dataOutWritten == dataOutSize
        invariant dataOut[dataOutSize..] == old(dataOut[dataOutSize..])
      {
        NextCharacter(s0.scan, data, i);
        dataOutWritten := Evaluate(dataIn[i], dataOut, dataOutSize, dataOutWritten);
      }
      assert data[..dataInSize] == data;
      status := if findMatchOffset > 0 then RF.NeedMoreData else RF.Done;
      ItIsTheCall(s0, data, dataOutSize, dataOut[..dataOutWritten], State());
    }
  }

  // A buffer that is filled before anything overflows holds what FilterCall says.
  lemma ItIsTheCall(s: FilterState, data: string, size: nat, out: string, s': FilterState)
    requires s'.scan == After(s.scan, data)
    requires out + s'.overflow == s.overflow + Emit(s.scan, data)
    requires |out| <= size && (s'.overflow != "" ==> |out| == size)
    ensures FilterCall(s, data, size) ==
      RF.Answer(s', if s'.scan.matched > 0 then RF.NeedMoreData else RF.Done, |data|, out)
  {
    hide Emit, After;
    var text := s.overflow + Emit(s.scan, data);
    assert out == text[..|out|] && s'.overflow == text[|out|..];
  }

  lemma WriteOverflows(had: string, overflow: string, str: string, n: nat)
    requires n <= |str| && (n == 0 || overflow == "")
    ensures had + str[..n] + (overflow + str[n..]) == had + overflow + str
  {
    assert str == str[..n] + str[n..];
    if n == 0 {
      assert had + str[..0] == had;
    } else {
      assert overflow + str[n..] == str[n..] && had + overflow == had;
    }
  }

  lemma NoCharacter(s: Scan, data: string)
    requires data == ""
    ensures After(s, data) == s && Emit(s, data) == ""
  {
  }

  lemma NextCharacter(s: Scan, data: string, i: nat)
    requires i < |data|
    ensures After(s, data[..i + 1]) == StepNext(After(s, data[..i]), data[i])
    ensures Emit(s, data[..i + 1]) == Emit(s, data[..i]) + StepOut(After(s, data[..i]), data[i])
  {
    assert data[..i + 1] == data[..i] + [data[i]];
    EmitAppend(s, data[..i], [data[i]]);
    OneStep(After(s, data[..i]), data[i]);
  }

  // ---------- the filter and the contract of CefResponseFilter ----------

  const Fresh := Scan(0, 0)

  function TheFilter(): RF.Filter<FilterState> {
    RF.Filter(FilterState(Fresh, ""), FilterCall, (s: FilterState) => s.overflow,
              (s: FilterState, x: string) => s.scan == After(Fresh, x), (x: string) => Emit(Fresh, x))
  }

  lemma FilterConserves(s: FilterState, x: string, data: string, size: nat)
    ensures RF.Conserves(TheFilter(), s, x, data, size)
  {
    EmitAppend(Fresh, x, data);
    hide Emit, After;
    assert data[..|data|] == data;
    var text := s.overflow + Emit(s.scan, data);
    var n := Min(size, |text|);
    assert text[..n] + text[n..] == text;
  }

  // The filter neither loses nor invents output,
  lemma {:induction false} ObeysContract()
    ensures RF.Obeys(TheFilter())
  {
    var f := TheFilter();
    NoCharacter(Fresh, "");
    forall x, y ensures f.image(x) <= f.image(x + y) { EmitAppend(Fresh, x, y); }
    hide Emit, After;
    forall s, x, data, size: nat | size > 0 ensures RF.Conserves(f, s, x, data, size) {
      FilterConserves(s, x, data, size);
    }
    hide RF.Conserves;
  }

  // but its status does not mean what the contract says: it returns Done with output pending, and
  // NeedMoreData with none pending while a match is in progress.
  lemma {:induction false} StatusIsNotHonest()
    ensures FilterCall(TheFilter().init, "ab", 1).status == RF.Done
    ensures FilterCall(TheFilter().init, "ab", 1).state.overflow == "b"
    ensures FilterCall(TheFilter().init, "R", 1).status == RF.NeedMoreData
    ensures FilterCall(TheFilter().init, "R", 1).out == ""
    ensures !RF.HonestAt(TheFilter(), TheFilter().init, "ab", 1)
    ensures !RF.PunctualAt(TheFilter(), TheFilter().init, "ab", 1)
    ensures !RF.HonestAt(TheFilter(), TheFilter().init, "R", 1)
    ensures !RF.Honest(TheFilter()) && !RF.Punctual(TheFilter())
  {
    hide Emit, After, Replacement;
    assert "ab"[1..] == "b" && "b"[1..] == "" && "R"[1..] == "";
    OneStep(Fresh, 'a');
    OneStep(Fresh, 'b');
    OneStep(Fresh, 'R');
    EmitAppend(Fresh, "a", "b");
    assert "a" + "b" == "ab";
    assert Emit(Fresh, "ab") == "ab" && After(Fresh, "ab") == Fresh;
    assert "" + "ab" == "ab" && "" + "" == "";
  }

  // The status of one call is right exactly when a match is in progress just if the buffer has no
  // room for the whole text; only Done without room keeps pending output from being asked for.
  lemma {:induction false} StatusIsHonestIff(s: FilterState, data: string, size: nat)
    requires size > 0
    ensures RF.HonestAt(TheFilter(), s, data, size) <==>
      (After(s.scan, data).matched > 0 <==> |s.overflow| + |Emit(s.scan, data)| > size)
    ensures RF.PunctualAt(TheFilter(), s, data, size) <==>
      After(s.scan, data).matched > 0 || |s.overflow| + |Emit(s.scan, data)| <= size
  {
    hide Emit, After;
    var a, text := FilterCall(s, data, size), s.overflow + Emit(s.scan, data);
    assert a.state.overflow == "" <==> |text| <= size;
  }

  // ---------- exactly when the delivered response is the intended one ----------

  // Bytes a call adds and bytes its buffer takes.
  datatype Load = Load(added: nat, room: nat)

  // The loads of one call per chunk.
  function Loads(s: Scan, chunks: seq<string>, sizes: seq<nat>): seq<Load>
    requires |chunks| <= |sizes|
    decreases |chunks|
  {
    if chunks == [] then []
    else [Load(|Emit(s, chunks[0])|, sizes[0])] + Loads(After(s, chunks[0]), chunks[1..], sizes[1..])
  }

  // Bytes left over after the given calls, starting with b.
  function Backlog(b: nat, loads: seq<Load>): nat
    decreases |loads|
  {
    if loads == [] then b
    else Backlog(if b + loads[0].added <= loads[0].room then 0 else b + loads[0].added - loads[0].room, loads[1..])
  }

  // How far the bytes added from call j on exceed the room of those calls.
  function Excess(loads: seq<Load>, j: nat): int
    requires j <= |loads|
    decreases |loads| - j
  {
    if j == |loads| then 0 else loads[j].added - loads[j].room + Excess(loads, j + 1)
  }

  lemma {:induction false} ExcessTail(loads: seq<Load>, j: nat)
    requires j < |loads|
    ensures Excess(loads[1..], j) == Excess(loads, j + 1)
    decreases |loads| - j
  {
    if j + 1 < |loads| {
      ExcessTail(loads, j + 1);
    }
  }

  ghost predicate ExcessUpTo(loads: seq<Load>, from: nat, k: nat) {
    forall j :: from <= j <= |loads| ==> Excess(loads, j) <= k
  }

  lemma ExcessUpToTail(loads: seq<Load>, k: nat)
    requires loads != []
    ensures ExcessUpTo(loads, 1, k) <==> ExcessUpTo(loads[1..], 0, k)
  {
    forall j | 0 <= j < |loads| ensures Excess(loads[1..], j) == Excess(loads, j + 1) { ExcessTail(loads, j); }
    if ExcessUpTo(loads[1..], 0, k) {
      forall j | 1 <= j <= |loads| ensures Excess(loads, j) <= k {
        assert Excess(loads[1..], j - 1) == Excess(loads, j - 1 + 1);
      }
    }
  }

  // Nothing is left over exactly when, from every call on, the remaining room suffices.
  lemma {:induction false} BacklogIsWorstSuffix(b: nat, loads: seq<Load>, k: nat)
    ensures Backlog(b, loads) <= k <==> b + Excess(loads, 0) <= k && ExcessUpTo(loads, 1, k)
    decreases |loads|
  {
    if loads != [] {
      var d, rest := loads[0].added - loads[0].room, loads[1..];
      BacklogIsWorstSuffix(if b + d <= 0 then 0 else b + d, rest, k);
      ExcessUpToTail(loads, k);
      ExcessTail(loads, 0);
      assert ExcessUpTo(rest, 0, k) <==> Excess(rest, 0) <= k && ExcessUpTo(rest, 1, k);
    }
  }

  // The buffers keep up with the output.
  ghost predicate KeepsUp(chunks: seq<string>, sizes: seq<nat>)
    requires |chunks| <= |sizes|
  {
    ExcessUpTo(Loads(Fresh, chunks, sizes), 0, 0)
  }

  ghost predicate SizesOf(log: seq<RF.Call<FilterState>>, sizes: seq<nat>) {
    forall i :: 0 <= i < |log| && i < |sizes| ==> log[i].size == sizes[i]
  }

  // The first call of a run reads the first chunk; it is the only call if that was the last chunk
  // and no match is in progress.
  lemma {:induction false} FirstChunk(s: FilterState, chunks: seq<string>, log: seq<RF.Call<FilterState>>)
    requires chunks != [] && chunks[0] != ""
    requires RF.Legal(TheFilter(), RF.Position(s, "", chunks), log, true)
    ensures log != [] && log[0].answer == FilterCall(s, chunks[0], log[0].size)
    ensures chunks[1..] != [] ==> |log| > 1
    ensures chunks[1..] != [] ==>
      RF.Legal(TheFilter(), RF.Position(log[0].answer.state, "", chunks[1..]), log[1..], true)
    ensures chunks[1..] == [] && log[0].answer.state.scan.matched == 0 ==> |log| == 1
  {
    hide Emit, After;
    var p, c := RF.Position(s, "", chunks), log[0];
    assert RF.Fits(TheFilter(), p, c);
    assert RF.Next(p, c) == RF.Position(c.answer.state, "", chunks[1..]);
  }

  // If no match is in progress when the input ends, the calls stop with the last chunk, whatever
  // is still in the overflow.
  lemma {:induction false} FinalOverflow(s: FilterState, chunks: seq<string>, sizes: seq<nat>,
                                         log: seq<RF.Call<FilterState>>)
    requires chunks != [] && RF.Nonempty(chunks) && |chunks| <= |sizes| && SizesOf(log, sizes)
    requires RF.Legal(TheFilter(), RF.Position(s, "", chunks), log, true)
    requires After(s.scan, RF.Flatten(chunks)).matched == 0
    ensures |RF.LastState(s, log).overflow| == Backlog(|s.overflow|, Loads(s.scan, chunks, sizes))
    decreases |chunks|
  {
    hide Emit, After, RF.Legal;
    assert chunks[0] in chunks;
    FirstChunk(s, chunks, log);
    var rest := chunks[1..];
    EmitAppend(s.scan, chunks[0], RF.Flatten(rest));
    if rest == [] {
      NoCharacter(log[0].answer.state.scan, RF.Flatten(rest));
    } else {
      assert forall d :: d in rest ==> d in chunks;
      FinalOverflow(log[0].answer.state, rest, sizes[1..], log[1..]);
    }
  }

  lemma {:induction false} EmptyResponse(log: seq<RF.Call<FilterState>>)
    requires RF.Legal(TheFilter(), RF.Start(TheFilter(), []), log, true)
    ensures RF.LastState(TheFilter().init, log).overflow == ""
  {
    var c := log[0];
    assert c.answer == FilterCall(TheFilter().init, "", c.size);
    assert RF.AfterCall(RF.Next(RF.Start(TheFilter(), []), c), c) == RF.MustStop;
  }

  lemma {:induction false} NeverFails(p: RF.Position<FilterState>, log: seq<RF.Call<FilterState>>, complete: bool)
    requires RF.Legal(TheFilter(), p, log, complete)
    ensures RF.NoError(log)
    decreases |log|
  {
    if |log| > 1 {
      NeverFails(RF.Next(p, log[0]), log[1..], complete);
      assert forall c :: c in log ==> c == log[0] || c in log[1..];
    }
  }

  // Main result for the filter: for every way of cutting the response and every choice of buffer
  // sizes, what is delivered is the response with all instances replaced if and only if no
  // instance starts inside an abandoned attempt, the response does not end inside a match, and from
  // every call on the buffers have room for what is still to be written.
  lemma {:induction false} DeliversReplaceAllIff(chunks: seq<string>, sizes: seq<nat>, log: seq<RF.Call<FilterState>>)
    requires RF.Nonempty(chunks) && |chunks| <= |sizes| && SizesOf(log, sizes)
    requires RF.Legal(TheFilter(), RF.Start(TheFilter(), chunks), log, true)
    ensures
      var input := RF.Flatten(chunks);
      RF.Delivered(log) == ReplaceAll(input, 0) <==>
        Clean(input) && After(Fresh, input).matched == 0 && KeepsUp(chunks, sizes)
  {
    hide Emit, After, Clean, ReplaceAll, RF.Legal, RF.Flatten, RF.Delivered, KeepsUp;
    var f, input := TheFilter(), RF.Flatten(chunks);
    var overflow, rest := RF.LastState(f.init, log).overflow, FIND[..After(Fresh, input).matched];
    DeliveredAndLost(chunks, log);
    ReplacesAllIffClean(input, 0);
    if RF.Delivered(log) == ReplaceAll(input, 0) {
      PrefixMeansClean(input, 0);
    }
    if rest == "" {
      OverflowIffBehind(chunks, sizes, log);
    }
  }

  // What is delivered, what stays in the overflow and the unfinished match make up the whole.
  lemma {:induction false} DeliveredAndLost(chunks: seq<string>, log: seq<RF.Call<FilterState>>)
    requires RF.Legal(TheFilter(), RF.Start(TheFilter(), chunks), log, true)
    ensures
      var input := RF.Flatten(chunks);
      RF.Delivered(log) + RF.LastState(TheFilter().init, log).overflow + FIND[..After(Fresh, input).matched] ==
      Flushed(Fresh, input)
  {
    var f, input := TheFilter(), RF.Flatten(chunks);
    ObeysContract();
    NeverFails(RF.Start(f, chunks), log, true);
    RF.Conservation(f, RF.Start(f, chunks), "", log, true);
    RF.ImageFromStart(f, input);
    assert "" + input == input;
  }

  lemma {:induction false} OverflowIffBehind(chunks: seq<string>, sizes: seq<nat>, log: seq<RF.Call<FilterState>>)
    requires RF.Nonempty(chunks) && |chunks| <= |sizes| && SizesOf(log, sizes)
    requires RF.Legal(TheFilter(), RF.Start(TheFilter(), chunks), log, true)
    requires After(Fresh, RF.Flatten(chunks)).matched == 0
    ensures RF.LastState(TheFilter().init, log).overflow == "" <==> KeepsUp(chunks, sizes)
  {
    var loads := Loads(Fresh, chunks, sizes);
    BacklogIsWorstSuffix(0, loads, 0);
    assert KeepsUp(chunks, sizes) <==> Excess(loads, 0) <= 0 && ExcessUpTo(loads, 1, 0);
    if chunks == [] {
      EmptyResponse(log);
    } else {
      FinalOverflow(TheFilter().init, chunks, sizes, log);
    }
  }
}
