/** Reading a mount table in chunks. The reader is the Python generator: `Next`
    resumes it, `Close` abandons it. */
module MountText {
  import opened Text
  import opened Ledger

  const NEWLINE: Byte := 10
  const MAX_LINE := 8192
  const WINDOW := 65536 + 8192

  /** The lines of a text; a last line without a newline counts if not empty. */
  function Lines(text: seq<Byte>): (r: seq<seq<Byte>>) {
    var k := FirstOf(text, NEWLINE);
    if text == [] then []
    else if k == |text| then [text]
    else [text[..k]] + Lines(text[k + 1..])
  }

  /** What both digests hash: every line followed by a newline. */
  function Hashed(lines: seq<seq<Byte>>): (r: seq<Byte>) {
    if lines == [] then [] else Hashed(lines[..|lines| - 1]) + lines[|lines| - 1] + [NEWLINE]
  }

  function Flat(chunks: seq<seq<Byte>>): (r: seq<Byte>) {
    if chunks == [] then [] else chunks[0] + Flat(chunks[1..])
  }

  /** A table the scan accepts when no other budget runs out. */
  predicate Fits(text: seq<Byte>) {
    |text| <= MAX_MOUNT_TEXT && forall i :: 0 <= i < |Lines(text)| ==> |Lines(text)[i]| <= MAX_LINE
  }

  lemma LineSplit(head: seq<Byte>, rest: seq<Byte>, k: nat)
    requires k < |head| && head[k] == NEWLINE && forall i :: 0 <= i < k ==> head[i] != NEWLINE
    ensures Lines(head + rest) == [head[..k]] + Lines(head[k + 1..] + rest)
  {
    FirstOfUnique(head + rest, NEWLINE, k);
    assert (head + rest)[..k] == head[..k] && (head + rest)[k + 1..] == head[k + 1..] + rest;
  }

  /** Breaking the first line off the carry moves it to the lines yielded. */
  lemma BreakText(yielded: seq<seq<Byte>>, carry: seq<Byte>, rest: seq<Byte>, text: seq<Byte>, k: nat)
    requires yielded + Lines(carry + rest) == Lines(text)
    requires k < |carry| && carry[k] == NEWLINE && forall i :: 0 <= i < k ==> carry[i] != NEWLINE
    ensures (yielded + [carry[..k]]) + Lines(carry[k + 1..] + rest) == Lines(text)
    ensures |yielded| < |Lines(text)| && Lines(text)[|yielded|] == carry[..k]
  {
    LineSplit(carry, rest, k);
    assert yielded + ([carry[..k]] + Lines(carry[k + 1..] + rest)) == (yielded + [carry[..k]]) + Lines(carry[k + 1..] + rest);
  }

  /** At the end of the text an unbroken carry is its last line. */
  lemma FirstLines(text: seq<Byte>)
    ensures [] + Lines([] + text) == Lines(text)
  {
    assert [] + text == text && [] + Lines(text) == Lines(text);
  }

  lemma LastLine(yielded: seq<seq<Byte>>, carry: seq<Byte>, text: seq<Byte>)
    requires yielded + Lines(carry + []) == Lines(text) && NEWLINE !in carry
    ensures Lines(text) == if carry == [] then yielded else yielded + [carry]
    ensures Lines([] + []) == []
  {
    assert carry + [] == carry;
  }

  /** A long unbroken start is part of a long line, whatever follows. */
  lemma LongStart(head: seq<Byte>, rest: seq<Byte>)
    requires head != [] && forall i :: 0 <= i < |head| ==> head[i] != NEWLINE
    ensures Lines(head + rest) != [] && |Lines(head + rest)[0]| >= |head|
  {
    assert forall i :: 0 <= i < |head| ==> (head + rest)[i] == head[i];
  }

  lemma {:induction false} HashedAppend(a: seq<seq<Byte>>, line: seq<Byte>)
    ensures Hashed(a + [line]) == Hashed(a) + line + [NEWLINE]
  {
    assert (a + [line])[..|a|] == a;
  }

  lemma {:induction false} HashedCons(line: seq<Byte>, a: seq<seq<Byte>>)
    ensures Hashed([line] + a) == line + [NEWLINE] + Hashed(a)
  {
    if a == [] {
      assert [line] + a == [] + [line];
      HashedAppend([], line);
    } else {
      var b := a[..|a| - 1];
      HashedCons(line, b);
      assert [line] + a == ([line] + b) + [a[|a| - 1]];
      HashedAppend([line] + b, a[|a| - 1]);
    }
  }

  /** The text with its last line closed by a newline. */
  function Closed(text: seq<Byte>): (r: seq<Byte>) {
    if text == [] || text[|text| - 1] == NEWLINE then text else text + [NEWLINE]
  }

  lemma ClosedSplit(text: seq<Byte>, k: nat)
    requires k < |text| && text[k] == NEWLINE
    ensures Closed(text) == text[..k] + [NEWLINE] + Closed(text[k + 1..])
  {
    assert text == text[..k] + [NEWLINE] + text[k + 1..];
  }

  /** The hashed bytes are the text itself, closed by a newline if need be: two
      texts with equal digests input differ at most in that newline. */
  lemma {:induction false} HashedIsText(text: seq<Byte>)
    ensures Hashed(Lines(text)) == Closed(text)
    decreases |text|
  {
    var k := FirstOf(text, NEWLINE);
    if text == [] {
    } else if k == |text| {
      HashedCons(text, []);
      assert [text] + [] == [text];
    } else {
      HashedIsText(text[k + 1..]);
      HashedCons(text[..k], Lines(text[k + 1..]));
      ClosedSplit(text, k);
    }
  }

  datatype Step = Line(line: seq<Byte>) | End | Fail(reason: Reason)
  /** `Drained` is suspended at the last, unterminated line. */
  datatype Phase = Fresh | Open | Drained | Ended

  class MountReader {
    const budget: Budget
    var chunks: seq<seq<Byte>>
    var carry: seq<Byte>
    var total: nat
    var phase: Phase
    ghost const text: seq<Byte>
    ghost var yielded: seq<seq<Byte>>

    ghost function Held(): int
      reads this
    {
      if phase == Open || phase == Drained then WINDOW else 0
    }

    /** What is still to be yielded is in the carry and the unread chunks. */
    ghost predicate Reading()
      reads this
    {
      && (phase == Fresh ==> carry == [] && total == 0 && yielded == [])
      && (forall i :: 0 <= i < |yielded| ==> |yielded[i]| <= MAX_LINE)
      && (forall i :: 0 <= i < |chunks| ==> chunks[i] != [])
      && (phase == Drained ==> carry == [] && chunks == [])
      && (phase != Ended ==>
            && total + |Flat(chunks)| == |text| && total <= MAX_MOUNT_TEXT
            && yielded + Lines(carry + Flat(chunks)) == Lines(text))
    }

    ghost predicate Valid()
      reads this, budget
    {
      budget.Valid() && Held() <= budget.viewHeap && Reading()
    }

    constructor (budget: Budget, chunks: seq<seq<Byte>>)
      requires budget.Valid() && forall i :: 0 <= i < |chunks| ==> chunks[i] != []
      ensures Valid() && this.budget == budget && phase == Fresh && text == Flat(chunks) && yielded == []
    {
      this.budget, this.chunks, this.carry, this.total, this.phase := budget, chunks, [], 0, Fresh;
      text, yielded := Flat(chunks), [];
      new;
      FirstLines(text);
    }

    method Close()
      requires Valid()
      modifies this`phase, budget`viewHeap
      ensures Valid() && phase == Ended && budget.viewHeap == old(budget.viewHeap - Held())
    {
      if phase == Open || phase == Drained {
        phase := Ended;
        var o := budget.HeapRelease(WINDOW);
        assert o == Done;
      }
      phase := Ended;
    }

    /** Takes the first line off the carry. */
    method Break(k: nat) returns (step: Step)
      requires Valid() && phase == Open
      requires k < |carry| && carry[k] == NEWLINE && forall i :: 0 <= i < k ==> carry[i] != NEWLINE
      modifies this`phase, this`carry, this`yielded, budget`viewHeap
      ensures Valid() && budget.viewHeap - Held() == old(budget.viewHeap - Held())
      ensures step.Line? ==> phase == Open && yielded == old(yielded) + [step.line]
      ensures !step.Line? ==> step == Fail(LineLimit) && phase == Ended && yielded == old(yielded) && !Fits(text)
    {
      BreakText(yielded, carry, Flat(chunks), text, k);
      var line := carry[..k];
      if |line| > MAX_LINE {
        Close();
        return Fail(LineLimit);
      }
      carry := carry[k + 1..];
      yielded := yielded + [line];
      step := Line(line);
    }

    /** One read: `more` is false at the end of the file. */
    method Fetch() returns (o: Outcome, more: bool)
      requires Valid() && phase == Open && NEWLINE !in carry
      modifies this`chunks, this`carry, this`total, budget`mountIo, budget`mountIoExhausted, budget`textBytes
      ensures budget.Valid() && forall i :: 0 <= i < |chunks| ==> chunks[i] != []
      ensures o == Done ==> Valid() && (more ==> |chunks| < old(|chunks|)) && (!more ==> chunks == [] && carry == old(carry))
      ensures o != Done ==> OutOfBudget(o) || o == Refused(HostError) || (o == Refused(TextLimit) && !Fits(text))
    {
      more := false;
      o := budget.Check();
      if o != Done { return; }
      if budget.mountIoExhausted { return Refused(ByteLimit), false; }
      var failed: bool := *;
      if failed { return Refused(HostError), false; }
      if chunks == [] { return; }
      var chunk := chunks[0];
      chunks := chunks[1..];
      assert carry + (chunk + Flat(chunks)) == carry + chunk + Flat(chunks);
      budget.mountIo := budget.mountIo + |chunk|;
      budget.textBytes := budget.textBytes + |chunk|;
      total := total + |chunk|;
      if budget.mountIo > MAX_MOUNT_IO {
        budget.mountIoExhausted := true;
        return Refused(ByteLimit), false;
      }
      if total > MAX_MOUNT_TEXT { return Refused(TextLimit), false; }
      carry := carry + chunk;
      more := true;
    }

    /** End of file: the unterminated rest is the last line. */
    method AtEnd() returns (step: Step)
      requires Valid() && phase == Open && chunks == [] && NEWLINE !in carry && |carry| <= MAX_LINE
      modifies this`carry, this`phase, this`yielded, budget`viewHeap
      ensures Valid() && budget.viewHeap - Held() == old(budget.viewHeap - Held())
      ensures step.Line? ==> phase == Drained && yielded == old(yielded) + [step.line]
      ensures !step.Line? ==> step.End? && phase == Ended && yielded == old(yielded) == Lines(text) && Fits(text)
    {
      LastLine(yielded, carry, text);
      if carry == [] {
        Close();
        return End;
      }
      step := Line(carry);
      yielded := yielded + [carry];
      carry, phase := [], Drained;
    }

    /** From one suspension to the next, the window being booked. */
    method Advance() returns (step: Step)
      requires Valid() && phase == Open
      modifies this`chunks, this`carry, this`total, this`phase, this`yielded,
               budget`mountIo, budget`mountIoExhausted, budget`textBytes, budget`viewHeap
      ensures Valid() && budget.viewHeap - Held() == old(budget.viewHeap - Held())
      ensures step.Line? ==> phase in {Open, Drained} && yielded == old(yielded) + [step.line]
      ensures !step.Line? ==> phase == Ended && yielded == old(yielded)
      ensures step.End? ==> yielded == Lines(text) && Fits(text)
      ensures step == Fail(LineLimit) || step == Fail(TextLimit) ==> !Fits(text)
    {
      while true
        invariant Valid() && phase == Open && yielded == old(yielded) && budget.viewHeap == old(budget.viewHeap)
        decreases |chunks|
      {
        var k := FirstOf(carry, NEWLINE);
        if k < |carry| {
          step := Break(k);
          return;
        }
        if |carry| > MAX_LINE {
          LongStart(carry, Flat(chunks));
          assert Lines(text)[|yielded|] == Lines(carry + Flat(chunks))[0];
          Close();
          return Fail(LineLimit);
        }
        var o, more := Fetch();
        if o != Done {
          phase := Ended;
          var released := budget.HeapRelease(WINDOW);
          assert released == Done;
          return Fail(o.reason);
        }
        if !more {
          step := AtEnd();
          return;
        }
      }
    }

    /** Resumes the generator. */
    method Next() returns (step: Step)
      requires Valid()
      modifies this`chunks, this`carry, this`total, this`phase, this`yielded,
               budget`mountIo, budget`mountIoExhausted, budget`textBytes, budget`viewHeap, budget`viewHeapPeak
      ensures Valid() && budget.viewHeap - Held() == old(budget.viewHeap - Held())
      ensures step.Line? ==> phase in {Open, Drained} && yielded == old(yielded) + [step.line]
      ensures !step.Line? ==> phase == Ended && yielded == old(yielded)
      ensures step.End? && old(phase) != Ended ==> yielded == Lines(text) && Fits(text)
      ensures step == Fail(LineLimit) || step == Fail(TextLimit) ==> !Fits(text)
    {
      if phase == Ended { return End; }
      if phase == Drained {
        Close();
        return End;
      }
      if phase == Fresh {
        var o := budget.HeapReserve(WINDOW);
        if o != Done { phase := Ended; return Fail(o.reason); }
        phase := Open;
      }
      step := Advance();
    }
  }
}
