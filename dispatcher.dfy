/**
  The command dispatcher `sendMessages`: one short-lived command socket per
  batch, the handshake and the frames written in order with one read after
  each, then up to ten drain reads that stop at the first read returning no
  byte, then close. The socket is abstracted as the sequence of results its reads return.
 */
module Dispatcher {
  import opened Codec

  /**
    One `readAvailable` into the 32-byte buffer: the byte count it returns and
    the whole buffer decoded as text, the bytes read followed by the NUL
    characters of the unused tail. On this socket a read waits until at least
    one byte has arrived and returns -1 once the peer has closed, so `count`
    is positive or -1, and the text has the shape `IsReadBuffer` states. The
    loops accept any result and treat every count below 1 as the source's
    `bytesRead > 0` test does.
   */
  datatype ReadResult = ReadResult(count: int, text: string)

  /**
    The shape `String(responseBuffer.array())` gives: always the whole buffer,
    and NUL characters after the bytes read (all of it after a close).
   */
  predicate IsReadBuffer(r: ReadResult)
  {
    |r.text| == BufferSize && r.count <= BufferSize &&
    IsNulPadding(r.text[if r.count > 0 then r.count else 0..])
  }

  /** A read that returns the controller's `bytes`, at most one buffer of them. */
  function Buffer(bytes: string): (r: ReadResult)
    requires 0 < |bytes| <= BufferSize
    ensures IsReadBuffer(r) && r.count == |bytes| && r.text[..|bytes|] == bytes
  {
    ReadResult(|bytes|, bytes + Nuls(BufferSize - |bytes|))
  }

  /** The text of such a read is the bytes, then the NUL padding of the rest of the buffer. */
  lemma BufferText(bytes: string)
    requires 0 < |bytes| <= BufferSize
    ensures var r := Buffer(bytes);
      r.text == bytes + r.text[|bytes|..] && IsNulPadding(r.text[|bytes|..]) &&
      |r.text[|bytes|..]| == BufferSize - |bytes|
  {
    var r := Buffer(bytes);
    assert r.text == r.text[..|bytes|] + r.text[|bytes|..];
  }

  /** A read that sees the peer's close: -1, and the buffer left as allocated. */
  function Closed(): (r: ReadResult)
    ensures IsReadBuffer(r) && r.count < 0
  {
    ReadResult(-1, Nuls(BufferSize))
  }

  /** An operation on the command socket. `Read(n)` is the socket's n-th read, counted from 0. */
  datatype SocketOp = Write(frame: string) | Read(n: nat) | Close

  /** The bound of the drain loop `for (n in 1..10)`. */
  const DrainAttempts: nat := 10

  /** The frames written, in order. */
  function Writes(ops: seq<SocketOp>): seq<string>
  {
    if ops == [] then []
    else (if ops[0].Write? then [ops[0].frame] else []) + Writes(ops[1..])
  }

  lemma {:induction false} WritesAppend(a: seq<SocketOp>, b: seq<SocketOp>)
    ensures Writes(a + b) == Writes(a) + Writes(b)
    decreases |a|
  {
    if a == [] {
      assert a + b == b;
    } else {
      assert (a + b)[1..] == a[1..] + b;
      WritesAppend(a[1..], b);
    }
  }

  /** The texts of the first `n` reads that returned at least one byte, in read order. */
  function Received(socket: nat -> ReadResult, n: nat): seq<string>
  {
    if n == 0 then []
    else Received(socket, n - 1) + (if socket(n - 1).count > 0 then [socket(n - 1).text] else [])
  }

  /** Nothing is enqueued from empty reads, and at most one text per read. */
  lemma {:induction false} ReceivedBound(socket: nat -> ReadResult, n: nat)
    ensures |Received(socket, n)| <= n
    ensures (forall k :: 0 <= k < n ==> socket(k).count <= 0) ==> Received(socket, n) == []
  {
    if n > 0 { ReceivedBound(socket, n - 1); }
  }

  /**
    The `commands.forEachIndexed` loop of `sendMessages`: each frame is written
    and flushed, then read after once; a read of at least one byte is enqueued.
   */
  method Exchange(commands: seq<string>, socket: nat -> ReadResult) returns (ops: seq<SocketOp>, enqueued: seq<string>)
    ensures |ops| == 2 * |commands|
    ensures forall i :: 0 <= i < |commands| ==> ops[2 * i] == Write(commands[i]) && ops[2 * i + 1] == Read(i)
    ensures Writes(ops) == commands
    ensures enqueued == Received(socket, |commands|)
  {
    ops, enqueued := [], [];
    for i := 0 to |commands|
      invariant |ops| == 2 * i
      invariant forall j :: 0 <= j < i ==> ops[2 * j] == Write(commands[j]) && ops[2 * j + 1] == Read(j)
      invariant Writes(ops) == commands[..i]
      invariant enqueued == Received(socket, i)
    {
      WritesAppend(ops, [Write(commands[i]), Read(i)]);
      assert Writes([Write(commands[i]), Read(i)]) == [commands[i]] by {
        var pair := [Write(commands[i]), Read(i)];
        assert pair[1..] == [Read(i)] && [Read(i)][1..] == [];
      }
      assert commands[..i + 1] == commands[..i] + [commands[i]];
      ops := ops + [Write(commands[i]), Read(i)];
      var r := socket(i);
      if r.count > 0 {
        enqueued := enqueued + [r.text];
      }
    }
    assert commands[..|commands|] == commands;
  }

  /**
    The drain loop `for (n in 1..10)` of `sendMessages`, starting at the
    socket's read number `start`: reads until a read returns no byte (on this
    socket, until the peer closes), at most ten times, enqueueing every read
    that returned bytes.
   */
  method Drain(socket: nat -> ReadResult, start: nat) returns (ops: seq<SocketOp>, enqueued: seq<string>, drained: nat)
    ensures 1 <= drained <= DrainAttempts && |ops| == drained
    ensures forall k :: 0 <= k < drained ==> ops[k] == Read(start + k)
    ensures forall n :: start <= n < start + drained - 1 ==> socket(n).count > 0
    ensures drained < DrainAttempts ==> socket(start + drained - 1).count <= 0
    ensures Received(socket, start) + enqueued == Received(socket, start + drained)
  {
    ops, enqueued, drained := [], [], 0;
    while drained < DrainAttempts
      invariant 0 <= drained <= DrainAttempts && |ops| == drained
      invariant forall k :: 0 <= k < drained ==> ops[k] == Read(start + k)
      invariant forall n :: start <= n < start + drained ==> socket(n).count > 0
      invariant Received(socket, start) + enqueued == Received(socket, start + drained)
    {
      var r := socket(start + drained);
      ops := ops + [Read(start + drained)];
      drained := drained + 1;
      if r.count > 0 {
        enqueued := enqueued + [r.text];
      } else {
        break;
      }
      // delay(50) is not modelled
    }
  }

  lemma {:induction false} WritesOfReads(ops: seq<SocketOp>)
    requires forall k :: 0 <= k < |ops| ==> ops[k].Read?
    ensures Writes(ops) == []
    decreases |ops|
  {
    if ops != [] { WritesOfReads(ops[1..]); }
  }

  /**
    `sendMessages(messages)` with `socket(k)` the result of the k-th read:
    `ops` is what happens on the socket, `enqueued` what is sent to the
    response queue, `drained` the number of drain reads.
   */
  method SendMessages(messages: seq<string>, socket: nat -> ReadResult)
    returns (ops: seq<SocketOp>, enqueued: seq<string>, drained: nat)
    // the frames written are the command handshake and then the messages, in order
    ensures Writes(ops) == [CommandHandshake] + messages
    // each frame is written and then read after exactly once
    ensures var c := |messages| + 1;
      |ops| == 2 * c + drained + 1 &&
      (forall i :: 0 <= i < c ==> ops[2 * i] == Write(([CommandHandshake] + messages)[i]) && ops[2 * i + 1] == Read(i))
    // then the drain reads, at least one and at most ten, stopping at the first empty read
    ensures var c := |messages| + 1;
      1 <= drained <= DrainAttempts &&
      (forall k :: 2 * c <= k < 2 * c + drained ==> ops[k] == Read(k - c)) &&
      (forall n :: c <= n < c + drained - 1 ==> socket(n).count > 0) &&
      (drained < DrainAttempts ==> socket(c + drained - 1).count <= 0)
    // and last the socket is closed
    ensures ops[|ops| - 1] == Close
    // every non-empty read is enqueued, in read order
    ensures enqueued == Received(socket, |messages| + 1 + drained)
  {
    var commands := [CommandHandshake] + messages;
    var c := |commands|;
    var sent, answers := Exchange(commands, socket);
    var tail, more, n := Drain(socket, c);
    WritesOfReads(tail);
    WritesAppend(sent, tail);
    WritesAppend(sent + tail, [Close]);
    ops := sent + tail + [Close];
    enqueued := answers + more;
    drained := n;
    forall k | 2 * c <= k < 2 * c + drained
      ensures ops[k] == Read(k - c)
    {
      assert ops[k] == tail[k - 2 * c];
    }
  }

  /**
    `sendMessages([message])` against a controller whose socket returns `ack`
    for the read after the handshake and `echo` for the read after the
    message, and then closes: both frames are written, the first drain read
    sees the close, and each of the two reads is enqueued exactly when it
    returned bytes.
   */
  method SendOne(message: string, ack: ReadResult, echo: ReadResult) returns (written: seq<string>, enqueued: seq<string>)
    ensures written == [CommandHandshake, message]
    ensures enqueued == (if ack.count > 0 then [ack.text] else []) + (if echo.count > 0 then [echo.text] else [])
  {
    var closed := Closed();
    var socket := (k: nat) => if k == 0 then ack else if k == 1 then echo else closed;
    var ops, drained;
    ops, enqueued, drained := SendMessages([message], socket);
    written := Writes(ops);
    assert drained == 1;
  }
}
