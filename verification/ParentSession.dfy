/** The retained parent session: one pair seal, one guest start, one monitor capture,
    over any sequence of calls that may each fail part way. */
module ParentSession {
  import opened Text
  import opened Chronicle

  /** The two files the session publishes: exclusive creation, one name each. */
  datatype Seal =
    | PairSeal(data: string)
    | InvocationSeal(pairHash: string, id: string, invocation: string)

  datatype File = Absent | Torn | Sealed(seal: Seal)

  /** What the session has done to the world, in order. */
  datatype Act =
    | Published(seal: Seal)
    | Started(id: string, pairHash: string)
    | CaptureBegun

  /** What the acts so far amount to. */
  datatype Tally = Tally(pair: Option<string>, started: bool, captured: bool, invoked: bool) {
    function With(act: Act): Tally {
      match act
      case Published(PairSeal(data)) => this.(pair := Some(data))
      case Published(InvocationSeal(_, _, _)) => this.(invoked := true)
      case Started(_, _) => this.(started := true)
      case CaptureBegun => this.(captured := true)
    }

    /** When an act may follow: the guest is started on the hash of the published pair,
        the monitor is captured after the start, each at most once. */
    predicate Allows(hash: string -> string, act: Act) {
      match act
      case Published(PairSeal(_)) => pair.None?
      case Published(InvocationSeal(h, _, _)) => !invoked && captured && pair.Some? && h == hash(pair.value)
      case Started(_, h) => !started && pair.Some? && h == hash(pair.value)
      case CaptureBegun => !captured && started
    }
  }

  const NOTHING := Tally(None, false, false, false)

  // ---- order ---------------------------------------------------------------

  function Launch(hash: string -> string): Rules<Act, Tally> {
    Rules(NOTHING, (t: Tally, act: Act) => t.With(act), (t: Tally, act: Act) => t.Allows(hash, act))
  }

  /** The tally holds an act from its place on. */
  lemma {:induction false} Tallied(hash: string -> string, log: seq<Act>, j: nat)
    requires j < |log|
    ensures log[j].Started? ==> StateOf(Launch(hash), log).started
    ensures log[j].CaptureBegun? ==> StateOf(Launch(hash), log).captured
    ensures log[j].Published? && log[j].seal.PairSeal? ==> StateOf(Launch(hash), log).pair.Some?
    ensures log[j].Published? && log[j].seal.InvocationSeal? ==> StateOf(Launch(hash), log).invoked
  {
    if j < |log| - 1 { Tallied(hash, log[..|log| - 1], j); }
  }

  lemma {:induction false} PairPublished(hash: string -> string, log: seq<Act>) returns (j: nat)
    requires StateOf(Launch(hash), log).pair.Some?
    ensures j < |log| && log[j] == Published(PairSeal(StateOf(Launch(hash), log).pair.value))
  {
    var last := log[|log| - 1];
    if last.Published? && last.seal.PairSeal? {
      j := |log| - 1;
    } else {
      j := PairPublished(hash, log[..|log| - 1]);
    }
  }

  lemma {:induction false} StartIn(hash: string -> string, log: seq<Act>) returns (j: nat)
    requires StateOf(Launch(hash), log).started
    ensures j < |log| && log[j].Started?
  {
    if log[|log| - 1].Started? { j := |log| - 1; } else { j := StartIn(hash, log[..|log| - 1]); }
  }

  /** The guest is started after its pair seal was published, on that seal's hash. */
  lemma StartFollowsSeal(hash: string -> string, log: seq<Act>, k: nat) returns (j: nat, data: string)
    requires Ordered(Launch(hash), log) && k < |log| && log[k].Started?
    ensures j < k && log[j] == Published(PairSeal(data)) && log[k].pairHash == hash(data)
  {
    OrderedAt(Launch(hash), log, k);
    data := StateOf(Launch(hash), log[..k]).pair.value;
    j := PairPublished(hash, log[..k]);
  }

  /** The monitor's capture is attempted only after the guest was started. */
  lemma CaptureFollowsStart(hash: string -> string, log: seq<Act>, k: nat) returns (j: nat)
    requires Ordered(Launch(hash), log) && k < |log| && log[k].CaptureBegun?
    ensures j < k && log[j].Started?
  {
    OrderedAt(Launch(hash), log, k);
    j := StartIn(hash, log[..k]);
  }

  /** The same kind of act: both seals of one name, both starts, both captures. */
  predicate SameKind(a: Act, b: Act) {
    match a
    case Published(s) => b.Published? && b.seal.PairSeal? == s.PairSeal?
    case Started(_, _) => b.Started?
    case CaptureBegun => b.CaptureBegun?
  }

  /** Each act happens at most once in any run. */
  lemma EachOnce(hash: string -> string, log: seq<Act>, j: nat, k: nat)
    requires Ordered(Launch(hash), log) && j < k < |log|
    ensures !SameKind(log[j], log[k])
  {
    OrderedAt(Launch(hash), log, k);
    Tallied(hash, log[..k], j);
    assert log[..k][j] == log[j];
  }

  // ---- the session ---------------------------------------------------------

  /** One call, with what the host answers at each place the call can fail. */
  datatype Call =
    | LiveBindings(valid: bool, made: bool, after: bool)
    | RegisterGuest(id: string, data: string, retained: bool, opens: bool, synced: bool, after: bool)
    | SubmitGuest(id: string, inactive: bool, starts: bool)
    | ObserveInvocation(id: string, invocation: string, matches: bool, captures: bool, opens: bool, synced: bool, after: bool)
    | CloseSession(terminal: bool)

  class Session {
    const hash: string -> string
    var closed: bool
    var liveRootCreated: bool
    var guestId: Option<string>
    var guestHash: Option<string>
    var guestSubmitted: bool
    var monitorSource: bool
    var monitorCaptureStarted: bool
    var monitor: bool
    var pairFile: File
    var invocationFile: File
    ghost var log: seq<Act>

    ghost function PairData(): Option<string>
      reads this
    {
      if pairFile.Sealed? && pairFile.seal.PairSeal? then Some(pairFile.seal.data) else None
    }

    ghost function Sum(): Tally
      reads this
    {
      Tally(PairData(), guestSubmitted, monitorCaptureStarted, invocationFile.Sealed?)
    }

    ghost predicate Valid()
      reads this
    {
      && History(Launch(hash), log, Sum())
      && (guestId.Some? ==> pairFile.Sealed? && pairFile.seal.PairSeal? && guestHash == Some(hash(pairFile.seal.data)))
      && (guestSubmitted ==> guestId.Some?) && (monitorSource <==> guestSubmitted) && (monitor ==> monitorCaptureStarted)
      && (pairFile.Sealed? ==> pairFile.seal.PairSeal?)
    }

    constructor (hash: string -> string)
      ensures Valid() && log == [] && this.hash == hash && guestId.None? && !guestSubmitted && !monitorCaptureStarted
      ensures !closed && !liveRootCreated && pairFile == Absent && invocationFile == Absent
    {
      this.hash := hash;
      closed, liveRootCreated, guestId, guestHash, guestSubmitted := false, false, None, None, false;
      monitorSource, monitorCaptureStarted, monitor, pairFile, invocationFile := false, false, false, Absent, Absent;
      log := [];
    }

    /** The live root, made once. */
    method BindLive(valid: bool, made: bool, after: bool) returns (ok: bool)
      requires Valid()
      modifies this`liveRootCreated
      ensures Valid() && (liveRootCreated <==> old(liveRootCreated) || (valid && !closed && made))
      ensures ok <==> valid && !closed && !old(liveRootCreated) && made && after
    {
      if !valid || closed || liveRootCreated || !made { return false; }
      liveRootCreated := true;
      ok := after;
    }

    /** Publishing the pair: the name is created exclusively, then written and synced. */
    method SealPair(data: string, opens: bool, synced: bool, after: bool) returns (ok: bool)
      requires Valid() && guestId.None?
      modifies this`pairFile, this`log
      ensures Valid()
      ensures var made := liveRootCreated && opens && old(pairFile) == Absent;
              && pairFile == (if !made then old(pairFile) else if synced then Sealed(PairSeal(data)) else Torn)
              && log == old(log) + (if made && synced then [Published(PairSeal(data))] else [])
              && (ok <==> made && synced && after)
    {
      if !liveRootCreated || pairFile != Absent || !opens { return false; }
      if !synced {
        pairFile := Torn;
        return false;
      }
      Append(Launch(hash), log, Sum(), Published(PairSeal(data)));
      pairFile := Sealed(PairSeal(data));
      log := log + [Published(PairSeal(data))];
      ok := after;
    }

    /** A guest is registered only by the call that published its pair. */
    method Register(id: string, data: string, retained: bool, opens: bool, synced: bool, after: bool) returns (ok: bool)
      requires Valid()
      modifies this`guestId, this`guestHash, this`pairFile, this`log
      ensures Valid() && old(log) <= log
      ensures ok <==> !closed && old(guestId).None? && retained && liveRootCreated && old(pairFile) == Absent && opens && synced && after
      ensures ok ==> guestId == Some(id) && pairFile == Sealed(PairSeal(data)) && log == old(log) + [Published(PairSeal(data))]
      ensures !ok ==> guestId == old(guestId) && (old(pairFile) != Absent ==> pairFile == old(pairFile))
    {
      if closed || guestId.Some? || !retained { return false; }
      guestHash := Some(hash(data));
      ok := SealPair(data, opens, synced, after);
      if ok { guestId := Some(id); }
    }

    /** The one submission: consumed before the command is issued, whatever it returns. */
    method Submit(id: string, inactive: bool, starts: bool) returns (ok: bool)
      requires Valid()
      modifies this`guestSubmitted, this`monitorSource, this`log
      ensures Valid()
      ensures var go := !closed && guestId == Some(id) && !old(guestSubmitted) && inactive;
              && (guestSubmitted <==> old(guestSubmitted) || go) && (ok <==> go && starts)
              && (go ==> guestHash.Some? && log == old(log) + [Started(id, guestHash.value)]) && (!go ==> log == old(log))
    {
      if closed || guestId != Some(id) || guestHash.None? || guestSubmitted || !inactive { return false; }
      Append(Launch(hash), log, Sum(), Started(id, guestHash.value));
      monitorSource, guestSubmitted := true, true;
      log := log + [Started(id, guestHash.value)];
      ok := starts;
    }

    /** The one capture attempt: consumed before the monitor is looked at. */
    method Capture(captures: bool) returns (ok: bool)
      requires Valid() && guestSubmitted
      modifies this`monitorCaptureStarted, this`monitor, this`log
      ensures Valid() && monitorCaptureStarted && (ok <==> !old(monitorCaptureStarted) && captures)
      ensures log == old(log) + if old(monitorCaptureStarted) then [] else [CaptureBegun]
      ensures monitor <==> old(monitor) || ok
    {
      if monitorCaptureStarted || guestId.None? || !monitorSource { return false; }
      Append(Launch(hash), log, Sum(), CaptureBegun);
      monitorCaptureStarted := true;
      log := log + [CaptureBegun];
      ok := captures;
      if ok { monitor := true; }
    }

    /** Publishing the invocation, bound to the published pair by its hash. */
    method SealInvocation(id: string, invocation: string, opens: bool, synced: bool, after: bool) returns (ok: bool)
      requires Valid() && guestId.Some? && monitorCaptureStarted
      modifies this`invocationFile, this`log
      ensures Valid() && guestHash.Some?
      ensures var made := liveRootCreated && opens && old(invocationFile) == Absent;
              var seal := InvocationSeal(guestHash.value, id, invocation);
              && invocationFile == (if !made then old(invocationFile) else if synced then Sealed(seal) else Torn)
              && log == old(log) + (if made && synced then [Published(seal)] else [])
              && (ok <==> made && synced && after)
    {
      if !liveRootCreated || invocationFile != Absent || !opens { return false; }
      if !synced {
        invocationFile := Torn;
        return false;
      }
      var seal := InvocationSeal(guestHash.value, id, invocation);
      Append(Launch(hash), log, Sum(), Published(seal));
      invocationFile := Sealed(seal);
      log := log + [Published(seal)];
      ok := after;
    }

    method Observe(id: string, invocation: string, matches: bool, captures: bool, opens: bool, synced: bool, after: bool) returns (ok: bool)
      requires Valid()
      modifies this`monitorCaptureStarted, this`monitor, this`invocationFile, this`log
      ensures Valid() && old(log) <= log
      ensures var looks := !closed && guestId == Some(id) && guestSubmitted && matches;
              && (monitorCaptureStarted <==> old(monitorCaptureStarted) || looks) && (!looks ==> log == old(log))
              && (ok <==> looks && !old(monitorCaptureStarted) && captures && liveRootCreated &&
                          opens && old(invocationFile) == Absent && synced && after)
      ensures ok ==> guestHash.Some? && monitor && invocationFile == Sealed(InvocationSeal(guestHash.value, id, invocation)) &&
                     log == old(log) + [CaptureBegun, Published(InvocationSeal(guestHash.value, id, invocation))]
    {
      if closed || guestId != Some(id) || guestHash.None? || !guestSubmitted || !monitorSource || !matches { return false; }
      ok := Capture(captures);
      if ok { ok := SealInvocation(id, invocation, opens, synced, after); }
    }

    method Close(terminal: bool) returns (ok: bool)
      requires Valid()
      modifies this`closed
      ensures Valid() && (ok <==> !old(closed) && terminal) && (closed <==> old(closed) || ok)
    {
      ok := !closed && terminal;
      if ok { closed := true; }
    }

    method Perform(call: Call) returns (ok: bool)
      requires Valid()
      modifies this
      ensures Valid() && old(log) <= log
      ensures closed && old(closed) ==> !ok
    {
      match call
      case LiveBindings(valid, made, after) => ok := BindLive(valid, made, after);
      case RegisterGuest(id, data, retained, opens, synced, after) => ok := Register(id, data, retained, opens, synced, after);
      case SubmitGuest(id, inactive, starts) => ok := Submit(id, inactive, starts);
      case ObserveInvocation(id, invocation, matches, captures, opens, synced, after) =>
        ok := Observe(id, invocation, matches, captures, opens, synced, after);
      case CloseSession(terminal) => ok := Close(terminal);
    }

    /** Any calls in any order, each free to fail anywhere: the acts stay in order. */
    method Run(calls: seq<Call>)
      requires Valid()
      modifies this
      ensures Valid() && Ordered(Launch(hash), log) && old(log) <= log
    {
      for i := 0 to |calls|
        invariant Valid() && old(log) <= log
      {
        var _ := Perform(calls[i]);
      }
      assert Asked(log);
    }
  }

  /** The session does reach the sealed invocation. */
  method Launches(hash: string -> string, id: string, data: string, invocation: string) returns (session: Session)
    ensures session.Valid() && session.monitor
    ensures session.log == [Published(PairSeal(data)), Started(id, hash(data)), CaptureBegun,
                            Published(InvocationSeal(hash(data), id, invocation))]
  {
    session := new Session(hash);
    var bound := session.BindLive(true, true, true);
    var registered := session.Register(id, data, true, true, true, true);
    var submitted := session.Submit(id, true, true);
    var observed := session.Observe(id, invocation, true, true, true, true, true);
  }
}
