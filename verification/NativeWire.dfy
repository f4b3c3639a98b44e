/** The bounded native wire: one command at a time, nothing written after failure,
    every byte consumed once and in order, lines independent of chunking. */
module NativeWire {
  import opened Text

  const NEWLINE: Byte := 10
  const MAX_LINE := 1024
  const MAX_BUFFER := 4 * 1024 * 1024 + 2048

  // ---- lines ---------------------------------------------------------------

  /** The first line of a stream: ended by a newline among the first 1024 bytes, too
      long, or not there yet. */
  datatype Line = Ends(text: seq<Byte>) | TooLong | Cut

  function LineOf(stream: seq<Byte>): (l: Line) {
    var k := FirstOf(stream, NEWLINE);
    if k < |stream| && k < MAX_LINE then Ends(stream[..k])
    else if |stream| >= MAX_LINE then TooLong
    else Cut
  }

  /** Bytes that arrive later do not change a line that has been decided. */
  lemma LineStable(stream: seq<Byte>, more: seq<Byte>)
    requires LineOf(stream) != Cut
    ensures LineOf(stream + more) == LineOf(stream)
  {
    var k := FirstOf(stream, NEWLINE);
    if k < |stream| {
      FirstOfUnique(stream + more, NEWLINE, k);
      assert (stream + more)[..k] == stream[..k];
    } else {
      assert forall i :: 0 <= i < |stream| ==> (stream + more)[i] == stream[i];
    }
  }

  function Concat(chunks: seq<seq<Byte>>): seq<Byte> {
    if chunks == [] then [] else Concat(chunks[..|chunks| - 1]) + chunks[|chunks| - 1]
  }

  lemma {:induction false} ConcatSplit(chunks: seq<seq<Byte>>, k: nat)
    requires k <= |chunks|
    ensures Concat(chunks) == Concat(chunks[..k]) + Concat(chunks[k..])
  {
    if k == |chunks| {
      assert chunks[..k] == chunks;
    } else {
      var init := chunks[..|chunks| - 1];
      ConcatSplit(init, k);
      assert init[..k] == chunks[..k];
      assert chunks[k..][..|chunks[k..]| - 1] == init[k..];
    }
  }

  datatype Reply = Answer(text: seq<Byte>) | Refused(fields: seq<seq<Byte>>) | Undecodable | Lost

  /** "ERROR1 " in bytes. */
  const ERROR1: seq<Byte> := [69, 82, 82, 79, 82, 49, 32]

  /** A decided line as the caller sees it. */
  function ReplyOf(line: Line, decodes: seq<Byte> -> bool): Reply {
    match line
    case Ends(text) =>
      if !decodes(text) then Undecodable
      else if ERROR1 <= text then Refused(Split(text, 32))
      else Answer(text)
    case _ => Lost
  }

  // ---- order of writes -----------------------------------------------------

  datatype Mark = Wrote(op: nat) | Failed | Closed

  /** No write follows a failure or the close. */
  ghost predicate Silent(log: seq<Mark>) {
    forall i, j :: 0 <= i < j < |log| && log[j].Wrote? ==> log[i].Wrote?
  }

  /** Where an operation stands: about to write the header, waiting for it to be
      flushed, the same for the payload, or reading its response. */
  datatype Stage = Header | HeaderSent | Payload | PayloadSent | Responding

  datatype Operation = Operation(stage: Stage, payload: bool)

  datatype Event =
    | Data(chunk: seq<Byte>)
    | Trouble
    | ChildClosed
    | Command(valid: bool, payload: bool)
    | Write(op: nat)
    | Flushed(op: nat, error: bool)
    | Take(op: nat, count: nat)
    | Settled(op: nat, bounded: bool)
    | Expired

  class Wire {
    var bytes: seq<Byte>
    var failure: bool
    var closed: bool
    var busy: bool
    var racing: Option<nat>
    var ops: map<nat, Operation>
    var next: nat
    ghost var received: seq<Byte>
    ghost var consumed: seq<Byte>
    ghost var log: seq<Mark>

    ghost predicate Valid()
      reads this
    {
      && (!failure ==> received == consumed + bytes)
      && (busy <==> racing.Some?) && (racing.Some? ==> racing.value in ops)
      && (!failure ==> forall op :: op in ops ==> racing == Some(op))
      && (forall op :: op in ops ==> op < next)
      && Silent(log) && (failure || closed <==> exists i :: 0 <= i < |log| && !log[i].Wrote?)
    }

    constructor ()
      ensures Valid() && bytes == [] && !failure && !closed && !busy && ops == map[] && log == [] && received == []
    {
      bytes, failure, closed, busy, racing, ops, next := [], false, false, false, None, map[], 0;
      received, consumed, log := [], [], [];
    }

    ghost method Mark(m: Mark)
      requires Silent(log) && (m.Wrote? ==> forall i :: 0 <= i < |log| ==> log[i].Wrote?)
      modifies this`log
      ensures Silent(log) && log == old(log) + [m]
    {
      log := log + [m];
    }

    method Stop()
      requires Valid()
      modifies this`failure, this`log
      ensures Valid() && failure && log == old(log) + [Failed]
    {
      Mark(Failed);
      failure := true;
      assert !log[|log| - 1].Wrote?;
    }

    /** A chunk of output: kept whole, or refused whole when the buffer would overflow. */
    method Receive(chunk: seq<Byte>)
      requires Valid()
      modifies this`bytes, this`received, this`failure, this`log
      ensures Valid()
      ensures if |old(bytes)| + |chunk| > MAX_BUFFER then failure && bytes == old(bytes) && log == old(log) + [Failed]
              else failure == old(failure) && bytes == old(bytes) + chunk && received == old(received) + chunk && log == old(log)
    {
      if |bytes| + |chunk| > MAX_BUFFER {
        Stop();
      } else {
        bytes, received := bytes + chunk, received + chunk;
      }
    }

    method CloseChild()
      requires Valid()
      modifies this`closed, this`log
      ensures Valid() && closed && log == old(log) + [Closed]
    {
      Mark(Closed);
      closed := true;
      assert !log[|log| - 1].Wrote?;
    }

    /** Bytes already in the buffer, in stream order. */
    method Consume(count: nat) returns (taken: seq<Byte>)
      requires Valid() && count <= |bytes|
      modifies this`bytes, this`consumed
      ensures Valid() && taken == old(bytes)[..count] && bytes == old(bytes)[count..] && consumed == old(consumed) + taken
    {
      taken := bytes[..count];
      bytes, consumed := bytes[count..], consumed + taken;
    }

    /** One line, waiting for chunks as they come; when they run out before the line is
        decided the deadline has passed. */
    method ReadLine(chunks: seq<seq<Byte>>) returns (line: Line)
      requires Valid()
      modifies this`bytes, this`received, this`consumed, this`failure, this`log
      ensures Valid() && (line.Cut? ==> failure)
      ensures !line.Cut? ==> line == LineOf(old(bytes) + Concat(chunks))
      ensures !old(failure) && !closed && Fits(chunks) ==> line == LineOf(old(bytes) + Concat(chunks))
      ensures line.Ends? ==> log == old(log) && failure == old(failure) && consumed == old(consumed) + line.text + [NEWLINE]
      ensures line.TooLong? ==> failure
    {
      var text, used := [], 0;
      ghost var start := bytes;
      while |text| < MAX_LINE
        invariant Valid() && used <= |chunks| && |text| <= MAX_LINE && log == old(log) && failure == old(failure)
        invariant text + bytes == start + Concat(chunks[..used]) && NEWLINE !in text
        invariant consumed == old(consumed) + text
        decreases MAX_LINE - |text|, |chunks| - used
      {
        if bytes == [] {
          if failure || closed || used == |chunks| || |chunks[used]| > MAX_BUFFER {
            if !failure && !closed && used == |chunks| {
              assert chunks[..used] == chunks && text + bytes == text;
              assert LineOf(text).Cut?;
            }
            Stop();
            return Cut;
          }
          Received(chunks, used);
          Receive(chunks[used]);
          assert text + bytes == start + Concat(chunks[..used]) + chunks[used];
          used := used + 1;
        } else {
          var head := Consume(1);
          ghost var stream := start + Concat(chunks[..used]);
          assert text + head + bytes == stream;
          if head[0] == NEWLINE {
            Decided(text, bytes, stream, start, chunks, used);
            return Ends(text);
          }
          text := text + head;
        }
      }
      TooMuch(text, bytes, start, chunks, used);
      Stop();
      line := TooLong;
    }

    /** A reply: refused by the native side, undecodable, lost, or the text of the line,
        whatever the chunks the stream came in. */
    method AwaitReply(chunks: seq<seq<Byte>>, decodes: seq<Byte> -> bool) returns (reply: Reply)
      requires Valid()
      modifies this`bytes, this`received, this`consumed, this`failure, this`log
      ensures Valid()
      ensures !old(failure) && !closed && Fits(chunks) ==> reply == ReplyOf(LineOf(old(bytes) + Concat(chunks)), decodes)
      ensures (reply.Lost? ==> failure) && (!reply.Lost? ==> failure == old(failure) && log == old(log))
    {
      var line := ReadLine(chunks);
      if !line.Ends? { return Lost; }
      if !decodes(line.text) { return Undecodable; }
      if |line.text| < 7 || line.text[..7] != ERROR1 { return Answer(line.text); }
      reply := Refused(Split(line.text, 32));
    }

    // ---- operations --------------------------------------------------------

    /** A command starts only when no other is in flight and nothing has failed. */
    method Start(valid: bool, payload: bool) returns (op: Option<nat>)
      requires Valid()
      modifies this`busy, this`racing, this`ops, this`next
      ensures Valid() && (op.Some? <==> !old(busy) && !failure && !closed && valid)
      ensures op.None? ==> busy == old(busy) && racing == old(racing) && ops == old(ops)
      ensures op.Some? ==> busy && racing == op && old(ops) == map[] && ops == map[op.value := Operation(Header, payload)]
    {
      if busy || failure || closed || !valid { return None; }
      assert ops == map[] by { assert forall k :: k !in ops; }
      op := Some(next);
      busy, racing, ops, next := true, Some(next), ops[next := Operation(Header, payload)], next + 1;
    }

    /** The end of an operation: the command it belongs to, if still waiting for it,
        ends too, and any but a bounded failure stops the wire. */
    method Settle(op: nat, bounded: bool)
      requires Valid() && op in ops
      modifies this`busy, this`racing, this`ops, this`failure, this`log
      ensures Valid() && ops == old(ops) - {op}
      ensures var mine := old(racing) == Some(op);
              && racing == (if mine then None else old(racing)) && (busy <==> old(busy) && !mine)
              && (failure <==> old(failure) || (mine && !bounded)) && log == old(log) + if mine && !bounded then [Failed] else []
    {
      if racing == Some(op) {
        if !bounded { Stop(); }
        busy, racing := false, None;
      }
      ops := ops - {op};
    }

    /** The operation's timer: the wire fails, and the command gives up on an operation
        that may still be running. */
    method Expire()
      requires Valid() && racing.Some?
      modifies this`busy, this`racing, this`failure, this`log
      ensures Valid() && failure && !busy && racing.None? && log == old(log) + [Failed]
    {
      Stop();
      busy, racing := false, None;
    }

    /** Bytes are handed to the child only while nothing has failed. */
    method Put(op: nat)
      requires Valid() && op in ops && (ops[op].stage == Header || ops[op].stage == Payload)
      modifies this`busy, this`racing, this`ops, this`failure, this`log
      ensures Valid() && failure == old(failure)
      ensures failure || closed ==> ops == old(ops) - {op} && log == old(log)
      ensures !failure && !closed ==> log == old(log) + [Wrote(op)] && old(racing) == Some(op) && busy
      ensures !failure && !closed ==>
                ops == old(ops)[op := old(ops)[op].(stage := if old(ops)[op].stage == Header then HeaderSent else PayloadSent)]
    {
      if failure || closed {
        Settle(op, true);
        return;
      }
      Mark(Wrote(op));
      ops := ops[op := ops[op].(stage := if ops[op].stage == Header then HeaderSent else PayloadSent)];
    }

    /** The child took the bytes, or the write failed. */
    method Flush(op: nat, error: bool)
      requires Valid() && op in ops && (ops[op].stage == HeaderSent || ops[op].stage == PayloadSent)
      modifies this`busy, this`racing, this`ops, this`failure, this`log
      ensures Valid() && old(log) <= log && (failure <==> old(failure) || error)
      ensures failure || closed ==> ops == old(ops) - {op}
      ensures !failure && !closed ==> log == old(log) && old(racing) == Some(op) && busy
      ensures !failure && !closed ==>
                ops == old(ops)[op := old(ops)[op].(stage := if old(ops)[op].stage == HeaderSent && old(ops)[op].payload then Payload else Responding)]
    {
      if error { Stop(); }
      if failure || closed {
        Settle(op, true);
        return;
      }
      ops := ops[op := ops[op].(stage := if ops[op].stage == HeaderSent && ops[op].payload then Payload else Responding)];
    }

    /** The child has been told to end: success means every byte was consumed. */
    method Finish(zero: bool) returns (ok: bool)
      requires Valid() && closed
      ensures ok <==> zero && bytes == [] && !failure
      ensures ok ==> received == consumed
    {
      ok := zero && bytes == [] && !failure;
    }

    predicate At(op: nat, stage: Stage)
      reads this
    {
      op in ops && ops[op].stage == stage
    }

    /** One event; one that fits no operation changes nothing. */
    method Handle(e: Event)
      requires Valid()
      modifies this
      ensures Valid() && old(log) <= log && (old(failure) ==> failure) && (e.Trouble? ==> failure)
    {
      match e
      case Data(chunk) => Receive(chunk);
      case Trouble => Stop();
      case ChildClosed => CloseChild();
      case Command(valid, payload) => var _ := Start(valid, payload);
      case Write(op) => if At(op, Header) || At(op, Payload) { Put(op); }
      case Flushed(op, error) => if At(op, HeaderSent) || At(op, PayloadSent) { Flush(op, error); }
      case Take(op, count) => if At(op, Responding) && count <= |bytes| { var _ := Consume(count); }
      case Settled(op, bounded) => if At(op, Responding) { Settle(op, bounded); }
      case Expired => if racing.Some? { Expire(); }
    }

    /** Any events in any order: while nothing has failed at most one operation is in
        flight and it holds the wire, received bytes are the consumed ones followed by
        the buffer, and no write ever follows a failure. */
    method Run(script: seq<Event>)
      requires Valid()
      modifies this
      ensures Valid() && old(log) <= log && Silent(log)
      ensures (ops != map[] ==> busy || failure) && (!failure ==> |ops| <= 1 && received == consumed + bytes)
    {
      for i := 0 to |script|
        invariant Valid() && old(log) <= log
      {
        Handle(script[i]);
      }
      if ops != map[] && !failure {
        var op :| op in ops;
        assert ops.Keys == {op};
      }
    }
  }

  predicate Fits(chunks: seq<seq<Byte>>) {
    forall i :: 0 <= i < |chunks| ==> |chunks[i]| <= MAX_BUFFER
  }

  lemma Received(chunks: seq<seq<Byte>>, used: nat)
    requires used < |chunks|
    ensures Concat(chunks[..used + 1]) == Concat(chunks[..used]) + chunks[used]
  {
    assert chunks[..used + 1][..used] == chunks[..used];
  }

  lemma Parts(start: seq<Byte>, chunks: seq<seq<Byte>>, used: nat) returns (later: seq<Byte>)
    requires used <= |chunks|
    ensures start + Concat(chunks) == (start + Concat(chunks[..used])) + later
  {
    later := Concat(chunks[used..]);
    ConcatSplit(chunks, used);
  }

  lemma Decided(text: seq<Byte>, rest: seq<Byte>, stream: seq<Byte>, start: seq<Byte>, chunks: seq<seq<Byte>>, used: nat)
    requires used <= |chunks| && stream == start + Concat(chunks[..used]) == text + [NEWLINE] + rest
    requires NEWLINE !in text && |text| < MAX_LINE
    ensures LineOf(start + Concat(chunks)) == Ends(text)
  {
    assert stream[|text|] == NEWLINE && forall i :: 0 <= i < |text| ==> stream[i] == text[i];
    FirstOfUnique(stream, NEWLINE, |text|);
    assert stream[..|text|] == text;
    var later := Parts(start, chunks, used);
    LineStable(stream, later);
  }

  lemma TooMuch(text: seq<Byte>, rest: seq<Byte>, start: seq<Byte>, chunks: seq<seq<Byte>>, used: nat)
    requires used <= |chunks| && start + Concat(chunks[..used]) == text + rest
    requires NEWLINE !in text && |text| == MAX_LINE
    ensures LineOf(start + Concat(chunks)) == TooLong
  {
    var stream := start + Concat(chunks[..used]);
    assert forall i :: 0 <= i < |text| ==> stream[i] == text[i];
    assert LineOf(stream) == TooLong;
    var later := Parts(start, chunks, used);
    LineStable(stream, later);
  }
}
