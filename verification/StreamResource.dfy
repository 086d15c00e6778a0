/** The producer side of a response: CefStreamResourceHandler, which reads its stream directly or
    through a buffer that is filled on the file thread.  */
module StreamResource {
  import opened Sizes

  // A CefStreamReader over fixed content.  Read may return fewer bytes than asked for, and returns
  // zero only if there are none left.
  class StreamReader {
    const content: string
    var offset: nat

    ghost predicate Valid()
      reads this
    {
      offset <= |content|
    }

    function Left(): string
      reads this
      requires Valid()
    {
      content[offset..]
    }

    constructor (content: string)
      ensures Valid() && Left() == content
    {
      this.content := content;
      offset := 0;
    }

    method Read(ptr: array<char>, start: nat, n: nat) returns (count: nat)
      requires Valid() && start + n <= ptr.Length
      modifies this, ptr
      ensures Valid() && count <= n
      ensures count == 0 <==> n == 0 || old(Left()) == ""
      ensures ptr[..start] == old(ptr[..start])
      ensures old(Left()) == ptr[start..start + count] + Left()
    {
      var available := Min(n, |content| - offset);
      count :| count <= available && (available > 0 ==> count > 0);
      forall i | 0 <= i < count { ptr[start + i] := content[offset + i]; }
      offset := offset + count;
    }
  }

  // The loop of ReadResponse that reads without a buffer: until `n` bytes are there or the stream
  // returns zero.
  method ReadFully(stream: StreamReader, dataOut: array<char>, n: nat) returns (bytesRead: nat)
    requires stream.Valid() && 0 < n <= dataOut.Length
    modifies stream, dataOut
    ensures stream.Valid() && bytesRead <= n
    ensures old(stream.Left()) == dataOut[..bytesRead] + stream.Left()
    ensures bytesRead < n ==> stream.Left() == ""
  {
    hide StreamReader.Left;
    bytesRead := 0;
    var read := 1;
    while read != 0 && bytesRead < n
      invariant stream.Valid() && bytesRead <= n
      invariant stream.Left() == "" || read != 0
      invariant old(stream.Left()) == dataOut[..bytesRead] + stream.Left()
      decreases n - bytesRead, read
    {
      ghost var had, left := dataOut[..bytesRead], stream.Left();
      read := stream.Read(dataOut, bytesRead, n - bytesRead);
      ghost var got := dataOut[bytesRead..bytesRead + read];
      bytesRead := bytesRead + read;
      assert dataOut[..bytesRead] == had + got;
      assert had + left == had + got + stream.Left();
    }
  }

  // CefStreamResourceHandler::Buffer
  class Buffer {
    var data: array<char>
    var size: nat
    var bytesRequested: nat
    var bytesWritten: nat
    var bytesRead: nat

    ghost predicate Valid()
      reads this
    {
      bytesRead <= bytesWritten <= bytesRequested <= size == data.Length
    }

    function Unread(): string
      reads this, data
      requires Valid()
    {
      data[bytesRead..bytesWritten]
    }

    constructor ()
      ensures Valid() && Unread() == "" && fresh(data)
    {
      data := new char[0];
      size, bytesRequested, bytesWritten, bytesRead := 0, 0, 0, 0;
    }

    method Reset(newSize: nat)
      requires Valid()
      modifies this
      ensures Valid() && Unread() == "" && bytesWritten == 0 && bytesRequested == newSize
      ensures data == old(data) || fresh(data)
    {
      if size < newSize {
        size := newSize;
        data := new char[size];
      }
      bytesRequested, bytesWritten, bytesRead := newSize, 0, 0;
    }

    predicate IsEmpty()
      reads this
    {
      bytesWritten == 0
    }

    predicate CanRead()
      reads this
    {
      bytesRead < bytesWritten
    }

    method WriteTo(dataOut: array<char>, bytesToRead: nat) returns (n: nat)
      requires Valid() && bytesToRead <= dataOut.Length && dataOut != data
      modifies this`bytesRead, dataOut
      ensures Valid() && n == Min(bytesToRead, |old(Unread())|)
      ensures old(Unread()) == dataOut[..n] + Unread()
    {
      n := Min(bytesToRead, bytesWritten - bytesRead);
      if n > 0 {
        forall i | 0 <= i < n { dataOut[i] := data[bytesRead + i]; }
        bytesRead := bytesRead + n;
      }
    }

    // Reads until the buffer is full or the stream returns zero.
    method ReadFrom(reader: StreamReader) returns (n: nat)
      requires Valid() && reader.Valid() && bytesWritten == 0 && bytesRequested > 0
      modifies this`bytesWritten, data, reader
      ensures Valid() && reader.Valid() && n == bytesWritten
      ensures old(reader.Left()) == Unread() + reader.Left()
      ensures bytesWritten < bytesRequested ==> reader.Left() == ""
    {
      hide StreamReader.Left;
      var count := 1;
      while count != 0 && bytesWritten < bytesRequested
        invariant Valid() && reader.Valid() && bytesRead == 0
        invariant old(reader.Left()) == data[..bytesWritten] + reader.Left()
        invariant count == 0 ==> reader.Left() == ""
        decreases bytesRequested - bytesWritten, count
      {
        ghost var had, left := data[..bytesWritten], reader.Left();
        count := reader.Read(data, bytesWritten, bytesRequested - bytesWritten);
        ghost var got := data[bytesWritten..bytesWritten + count];
        bytesWritten := bytesWritten + count;
        assert data[..bytesWritten] == had + got;
        assert had + left == had + got + reader.Left();
      }
      n := bytesWritten;
    }
  }

  class StreamResourceHandler {
    const stream: StreamReader
    const readOnFileThread: bool
    var buffer: Buffer?
    var bufferOwnedByFileThread: bool

    ghost function Repr(): set<object>
      reads this, buffer
    {
      if buffer == null then {this, stream} else
        var b: Buffer := buffer;
        {this, stream, b, b.data}
    }

    // A buffer that is empty when the file thread is done with it means that the stream has ended.
    ghost predicate Valid()
      reads this, stream, buffer
    {
      && stream.Valid()
      && (buffer != null ==> buffer.Valid())
      && (!readOnFileThread ==> buffer == null && !bufferOwnedByFileThread)
      && (bufferOwnedByFileThread ==> !Ready())
      && (buffer != null && buffer.IsEmpty() ==> stream.Left() == "")
    }

    // The next call answers from the buffer.
    predicate Ready()
      reads this, buffer
    {
      buffer != null && (buffer.CanRead() || buffer.IsEmpty())
    }

    // What has been read from the stream and not handed out.
    ghost function Buffered(): string
      reads this, buffer, if buffer == null then {} else {buffer.data}
      requires buffer != null ==> buffer.Valid()
    {
      if buffer == null then "" else buffer.Unread()
    }

    // What has not been handed out yet.
    ghost function Rest(): string
      reads this, stream, buffer, if buffer == null then {} else {buffer.data}
      requires Valid()
    {
      Buffered() + stream.Left()
    }

    constructor (stream: StreamReader, readOnFileThread: bool)
      requires stream.Valid()
      ensures Valid() && Rest() == stream.Left() && this.stream == stream
      ensures !bufferOwnedByFileThread && buffer == null
    {
      this.stream := stream;
      this.readOnFileThread := readOnFileThread;
      buffer := null;
      bufferOwnedByFileThread := false;
    }

    method ReadResponse(dataOut: array<char>, bytesToRead: nat) returns (more: bool, bytesRead: nat)
      requires Valid() && !bufferOwnedByFileThread
      requires 0 < bytesToRead <= dataOut.Length && dataOut !in Repr()
      modifies this, stream, if buffer == null then {} else {buffer}, dataOut
      ensures Valid() && buffer == old(buffer) && (buffer != null ==> buffer.data == old(buffer.data))
      ensures bytesRead <= bytesToRead
      ensures old(Rest()) == dataOut[..bytesRead] + Rest()
      ensures !more ==> bytesRead == 0 && Rest() == ""
      ensures !readOnFileThread && bytesRead < bytesToRead ==> Rest() == ""
      ensures old(buffer != null && buffer.CanRead()) ==> bytesRead == Min(bytesToRead, |old(Buffered())|)
      ensures bufferOwnedByFileThread <==> more && bytesRead == 0
      ensures bufferOwnedByFileThread ==> !old(Ready())
    {
      hide StreamReader.Left;
      if readOnFileThread {
        if Ready() {
          if buffer.CanRead() {
            bytesRead := buffer.WriteTo(dataOut, bytesToRead);
            more := bytesRead > 0;
          } else {
            bytesRead, more := 0, false;
          }
        } else {
          bytesRead := 0;
          bufferOwnedByFileThread := true;
          more := true;
        }
      } else {
        bytesRead := ReadFully(stream, dataOut, bytesToRead);
        more := bytesRead > 0;
      }
    }

    // The task that ReadResponse posts; it ends with CefCallback::Continue.
    method ReadOnFileThread(bytesToRead: nat)
      requires Valid() && bufferOwnedByFileThread && bytesToRead > 0
      modifies this, stream, if buffer == null then {} else {buffer, buffer.data}
      ensures Valid() && !bufferOwnedByFileThread && Rest() == old(Rest())
      ensures Ready() && |Buffered()| == Min(bytesToRead, |old(Rest())|)
      ensures fresh(Repr() - old(Repr()))
    {
      if buffer == null {
        buffer := new Buffer();
      }
      buffer.Reset(bytesToRead);
      var _ := buffer.ReadFrom(stream);
      bufferOwnedByFileThread := false;
    }
  }

  // One call to ReadResponse and, if it asks for time, the read on the file thread.
  method Round(h: StreamResourceHandler, wanted: nat) returns (more: bool, chunk: string)
    requires h.Valid() && !h.bufferOwnedByFileThread && wanted > 0
    modifies h.Repr()
    ensures h.Valid() && !h.bufferOwnedByFileThread && fresh(h.Repr() - old(h.Repr()))
    ensures old(h.Rest()) == chunk + h.Rest() && |chunk| <= wanted
    ensures !more ==> chunk == "" && h.Rest() == ""
    ensures more ==> chunk != "" || (h.Ready() && !old(h.Ready()))
  {
    var dataOut := new char[wanted];
    var bytesRead;
    more, bytesRead := h.ReadResponse(dataOut, wanted);
    chunk := dataOut[..bytesRead];
    if more && bytesRead == 0 {
      h.ReadOnFileThread(wanted);
    }
  }

  // The caller of ReadResponse, as described for GetResponseHeaders: it reads until ReadResponse
  // returns false or, if the response length is positive, until that many bytes have been read.  It
  // may ask for more than is left of the response length; what it gets beyond is not delivered.
  method Serve(h: StreamResourceHandler, responseLength: int, sizes: nat -> nat) returns (delivered: string)
    requires h.Valid() && !h.bufferOwnedByFileThread
    requires forall i :: sizes(i) > 0
    modifies h.Repr()
    ensures
      var content := old(h.Rest());
      delivered == if 0 < responseLength < |content| then content[..responseLength] else content
  {
    hide StreamResourceHandler.Valid, StreamResourceHandler.Rest, StreamResourceHandler.Ready;
    delivered := "";
    ghost var content := h.Rest();
    var calls := 0;
    while true
      invariant h.Valid() && !h.bufferOwnedByFileThread && fresh(h.Repr() - old(h.Repr()))
      invariant content == delivered + h.Rest()
      invariant 0 < responseLength ==> |delivered| < responseLength
      decreases |h.Rest()|, if h.Ready() then 0 else 1
    {
      var more, chunk := Round(h, sizes(calls));
      calls := calls + 1;
      if 0 < responseLength <= |delivered| + |chunk| {
        ghost var rest := h.Rest();
        assert content == delivered + chunk + rest;
        delivered := delivered + chunk[..responseLength - |delivered|];
        return;
      }
      delivered := delivered + chunk;
      if !more {
        return;
      }
    }
  }
}
