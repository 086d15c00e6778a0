/** PassThruResponseFilter of the sample client, and the smallest buffering filter that meets the
    contract the sample breaks.  */
module PassThru {
  import opened ResponseFilter
  import opened Sizes

  // All data is read; what does not fit the output buffer is dropped.
  function PassThruCall(s: (), data: string, size: nat): Answer<()> {
    Answer(s, Done, |data|, data[..Min(|data|, size)])
  }

  function PassThruFilter(): Filter<()> {
    Filter((), PassThruCall, (s: ()) => "", (s: (), x: string) => true, (x: string) => x)
  }

  ghost predicate ChunksFit(chunks: seq<string>, sizes: seq<nat>)
    requires |chunks| <= |sizes|
  {
    forall i :: 0 <= i < |chunks| ==> |chunks[i]| <= sizes[i]
  }

  // The response passes through unchanged exactly when no chunk is larger than its output buffer.
  lemma {:induction false} UnchangedIffChunksFit(chunks: seq<string>, sizes: seq<nat>, log: seq<Call<()>>)
    requires Nonempty(chunks) && |chunks| <= |sizes|
    requires forall i :: 0 <= i < |log| && i < |sizes| ==> log[i].size == sizes[i]
    requires Legal(PassThruFilter(), Position((), "", chunks), log, true)
    ensures |Delivered(log)| <= |Flatten(chunks)|
    ensures Delivered(log) == Flatten(chunks) <==> ChunksFit(chunks, sizes)
    decreases |chunks|
  {
    var c := log[0];
    var q := Next(Position((), "", chunks), c);
    if chunks == [] {
      assert c.answer == PassThruCall((), "", c.size);
      assert |log| == 1 && log[1..] == [] && Delivered(log[1..]) == "";
      return;
    }
    assert c.data == chunks[0] && c.size == sizes[0];
    assert c.answer == PassThruCall((), c.data, c.size);
    assert q == Position((), "", chunks[1..]);
    assert Delivered(log) == c.answer.out + Delivered(log[1..]);
    if chunks[1..] == [] {
      assert |log| == 1 && log[1..] == [];
      assert Delivered(log[1..]) == "" && Flatten(chunks[1..]) == "";
    } else {
      assert forall d :: d in chunks[1..] ==> d in chunks;
      UnchangedIffChunksFit(chunks[1..], sizes[1..], log[1..]);
      assert ChunksFit(chunks, sizes) <==> |chunks[0]| <= sizes[0] && ChunksFit(chunks[1..], sizes[1..]) by {
        if |chunks[0]| <= sizes[0] && ChunksFit(chunks[1..], sizes[1..]) {
          forall i | 0 < i < |chunks| ensures |chunks[i]| <= sizes[i] {
            assert |chunks[1..][i - 1]| <= sizes[1..][i - 1];
          }
        }
      }
    }
    if |chunks[0]| <= sizes[0] {
      assert c.answer.out == chunks[0];
      assert Delivered(log)[|chunks[0]|..] == Delivered(log[1..]);
      assert Flatten(chunks)[|chunks[0]|..] == Flatten(chunks[1..]);
    } else {
      assert |Delivered(log)| < |Flatten(chunks)|;
    }
  }

  // Two bytes and a buffer of one: both count as read, one is delivered.
  lemma {:induction false} DroppedByte(log: seq<Call<()>>)
    requires log == [Call("ab", 1, PassThruCall((), "ab", 1))]
    ensures Legal(PassThruFilter(), Start(PassThruFilter(), ["ab"]), log, true)
    ensures Taken(log) == Flatten(["ab"]) == "ab" && Delivered(log) == "a"
  {
    assert log[1..] == [] && ["ab"][1..] == [] && "ab"[..1] == "a" && "ab"[..2] == "ab" && "ab"[2..] == "";
    assert Flatten(["ab"]) == "ab" + Flatten([]);
    assert Taken(log) == "ab" + Taken(log[1..]);
    assert Delivered(log) == "a" + Delivered(log[1..]);
  }

  // Keeps what does not fit and asks to be called again.
  function BufferedCall(pending: string, data: string, size: nat): Answer<string> {
    var text := pending + data;
    var n := Min(size, |text|);
    Answer(text[n..], if n < |text| then NeedMoreData else Done, |data|, text[..n])
  }

  function BufferedFilter(): Filter<string> {
    Filter("", BufferedCall, (s: string) => s, (s: string, x: string) => true, (x: string) => x)
  }

  // It meets the contract, so by AllDelivered every complete run delivers the whole response.
  lemma {:induction false} BufferedDeliversAll(chunks: seq<string>, log: seq<Call<string>>)
    requires Legal(BufferedFilter(), Start(BufferedFilter(), chunks), log, true)
    ensures Obeys(BufferedFilter()) && Honest(BufferedFilter()) && Punctual(BufferedFilter())
    ensures Delivered(log) == Flatten(chunks)
  {
    var f := BufferedFilter();
    forall s, x, data, size: nat | size > 0 ensures Conserves(f, s, x, data, size) {
      var text := s + data;
      assert data[..|data|] == data;
      assert text[..Min(size, |text|)] + text[Min(size, |text|)..] == text;
      assert (x + data)[|x|..] == data;
    }
    forall s, data, size: nat | size > 0 ensures HonestAt(f, s, data, size) && PunctualAt(f, s, data, size) {
    }
    BufferedNeverFails(Start(f, chunks), log);
    AllDelivered(f, chunks, log);
  }

  lemma {:induction false} BufferedNeverFails(p: Position<string>, log: seq<Call<string>>)
    requires Legal(BufferedFilter(), p, log, true)
    ensures NoError(log)
    decreases |log|
  {
    if |log| > 1 {
      BufferedNeverFails(Next(p, log[0]), log[1..]);
      assert forall c :: c in log ==> c == log[0] || c in log[1..];
    }
  }
}
