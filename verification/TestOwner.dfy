/** The invocation test owner: four holder channels, each leased to one session at a
    time and reused only after its holder's EXIT line was read. */
module TestOwner {
  import opened Chronicle

  const CHANNELS := 4

  /** What happened to the channels, in order. */
  datatype Mark = Lease(slot: nat) | Exit(slot: nat) | Release(slot: nat) | Stop

  /** The channels held, those whose holder has not been seen to exit, and the stop. */
  datatype Board = Board(held: set<nat>, owed: set<nat>, stopped: bool) {
    function With(m: Mark): Board {
      match m
      case Lease(s) => Board(held + {s}, owed + {s}, stopped)
      case Exit(s) => Board(held, owed - {s}, stopped)
      case Release(s) => Board(held - {s}, owed, stopped)
      case Stop => Board(held, owed, true)
    }

    predicate Allows(m: Mark) {
      match m
      case Lease(s) => !stopped && s < CHANNELS && s !in held && s !in owed
      case Exit(s) => s in held
      case Release(s) => s in held && (s in owed ==> stopped)
      case Stop => !stopped
    }
  }

  // ---- order ---------------------------------------------------------------

  const LEASING := Rules(Board({}, {}, false), (b: Board, m: Mark) => b.With(m), (b: Board, m: Mark) => b.Allows(m))

  /** A stop is for good. */
  lemma {:induction false} StoppedFrom(log: seq<Mark>, j: nat)
    requires j < |log| && log[j] == Stop
    ensures StateOf(LEASING, log).stopped
  {
    if j < |log| - 1 { StoppedFrom(log[..|log| - 1], j); }
  }

  /** A channel leased at i and no longer owed has had its EXIT read since. */
  lemma {:induction false} ExitSince(log: seq<Mark>, i: nat, s: nat) returns (j: nat)
    requires i < |log| && log[i] == Lease(s) && s !in StateOf(LEASING, log).owed
    ensures i < j < |log| && log[j] == Exit(s)
  {
    if log[|log| - 1] == Exit(s) && i < |log| - 1 {
      j := |log| - 1;
    } else {
      j := ExitSince(log[..|log| - 1], i, s);
    }
  }

  /** A channel leased at i and no longer held has been released since. */
  lemma {:induction false} ReleaseSince(log: seq<Mark>, i: nat, s: nat) returns (j: nat)
    requires i < |log| && log[i] == Lease(s) && s !in StateOf(LEASING, log).held
    ensures i < j < |log| && log[j] == Release(s)
  {
    if log[|log| - 1] == Release(s) && i < |log| - 1 {
      j := |log| - 1;
    } else {
      j := ReleaseSince(log[..|log| - 1], i, s);
    }
  }

  /** Between two leases of one channel its holder's EXIT was read and the first lease
      was released, and nothing had stopped the owner before the second. */
  lemma ReuseFollowsExit(log: seq<Mark>, i: nat, k: nat, s: nat) returns (exit: nat, release: nat)
    requires Ordered(LEASING, log) && i < k < |log| && log[i] == Lease(s) && log[k] == Lease(s)
    ensures i < exit < k && log[exit] == Exit(s) && i < release < k && log[release] == Release(s)
    ensures forall j :: 0 <= j < k ==> log[j] != Stop
  {
    OrderedAt(LEASING, log, k);
    exit := ExitSince(log[..k], i, s);
    release := ReleaseSince(log[..k], i, s);
    forall j | 0 <= j < k ensures log[j] != Stop {
      if log[j] == Stop { StoppedFrom(log[..k], j); }
    }
  }

  /** A channel is given up without its EXIT only once the owner is stopped. */
  lemma {:induction false} OwedMeansStopped(log: seq<Mark>)
    requires Ordered(LEASING, log)
    ensures forall s :: s in StateOf(LEASING, log).held ==> s < CHANNELS
    ensures var b := StateOf(LEASING, log); !b.stopped ==> b.owed <= b.held
  {
    if log != [] {
      OwedMeansStopped(log[..|log| - 1]);
    }
  }

  /** At most four channels are held at once. */
  lemma AtMostFour(held: set<nat>)
    requires forall s :: s in held ==> s < CHANNELS
    ensures |held| <= CHANNELS
  {
    Bounded(held, CHANNELS);
  }

  lemma {:induction false} Bounded(held: set<nat>, n: nat)
    requires forall s :: s in held ==> s < n
    ensures |held| <= n
  {
    if n == 0 {
      assert held == {};
    } else {
      Bounded(held - {n - 1}, n - 1);
      assert held <= (held - {n - 1}) + {n - 1};
      assert |held| <= |held - {n - 1}| + 1;
    }
  }

  // ---- sessions ------------------------------------------------------------

  /** Where a session stands: inside the fence, its holder being killed, or waiting for
      the stopped master to exit. */
  datatype Stage = Fenced | Killing | Draining

  datatype Flight = Flight(slot: nat, pid: bool, stage: Stage)

  /** One read of the holder's wire after KILL: an EXIT line, with nothing behind it or
      with bytes left over; another line; a bounded-storage refusal; another error. */
  datatype Reading = ExitLine(clean: bool) | OtherLine | Refusal | Broken

  datatype Entry = Stopped | Exhausted | Entered(session: nat, slot: nat)

  /** A holder's terminal output is read at most four times. */
  method AwaitExit(lines: seq<Reading>) returns (ok: bool)
    requires |lines| == 4
    ensures ok <==> ReadsExit(lines)
  {
    for n := 0 to 4
      invariant forall j :: 0 <= j < n ==> !lines[j].Broken? && lines[j] != ExitLine(true)
    {
      if lines[n] == ExitLine(true) { return true; }
      if lines[n].Broken? { return false; }
    }
    ok := false;
  }

  datatype Event =
    | WithFence
    | Started(session: nat)
    | Finished(session: nat, exit: bool, clean: bool)
    | Failed(session: nat)
    | KillAnswered(session: nat, sent: bool, lines: seq<Reading>)
    | MasterGone(session: nat)
    | Admitted(ok: bool)
    | StopNow

  class Owner {
    var leased: set<nat>
    var stopped: bool
    var issued: bool
    var flights: map<nat, Flight>
    var next: nat
    ghost var owed: set<nat>
    ghost var log: seq<Mark>

    ghost predicate Valid()
      reads this
    {
      History(LEASING, log, Board(leased, owed, stopped)) && Flying(flights, leased, next, stopped) && Clear(leased, owed, stopped)
    }

    constructor ()
      ensures Valid() && leased == {} && !stopped && !issued && flights == map[] && log == []
    {
      leased, stopped, issued, flights, next := {}, false, false, map[], 0;
      owed, log := {}, [];
    }

    method StopOwner()
      requires Valid()
      modifies this`stopped, this`log
      ensures Valid() && stopped && log == old(log) + if old(stopped) then [] else [Stop]
    {
      if stopped { return; }
      Append(LEASING, log, Board(leased, owed, stopped), Stop);
      stopped, log := true, log + [Stop];
    }

    /** The first channel that is not leased. */
    method FreeChannel() returns (slot: nat)
      ensures slot == CHANNELS || FirstFree(leased, slot)
      ensures slot == CHANNELS <==> forall s :: 0 <= s < CHANNELS ==> s in leased
    {
      slot := 0;
      while slot < CHANNELS && slot in leased
        invariant 0 <= slot <= CHANNELS
        invariant forall s :: 0 <= s < slot ==> s in leased
      {
        slot := slot + 1;
      }
    }

    /** A session takes the first free channel, or is refused. */
    method Enter() returns (e: Entry)
      requires Valid()
      modifies this
      ensures Valid() && stopped == old(stopped) && issued == old(issued)
      ensures e == Stopped <==> old(stopped)
      ensures e == Exhausted <==> !old(stopped) && forall s :: 0 <= s < CHANNELS ==> s in old(leased)
      ensures !e.Entered? ==> leased == old(leased) && flights == old(flights) && log == old(log)
      ensures e.Entered? ==> FirstFree(old(leased), e.slot) && e.session !in old(flights) && leased == old(leased) + {e.slot}
      ensures e.Entered? ==> flights == old(flights)[e.session := Flight(e.slot, false, Fenced)] && log == old(log) + [Lease(e.slot)]
    {
      if stopped { return Stopped; }
      var slot := FreeChannel();
      if slot == CHANNELS { return Exhausted; }
      Append(LEASING, log, Board(leased, owed, stopped), Lease(slot));
      EnterFlies(flights, leased, next, slot);
      log, leased, owed := log + [Lease(slot)], leased + {slot}, owed + {slot};
      flights := flights[next := Flight(slot, false, Fenced)];
      e := Entered(next, slot);
      next := next + 1;
    }

    /** The holder's START line: its pid is known from here on. */
    method Begin(id: nat)
      requires Valid() && id in flights && flights[id].stage == Fenced
      modifies this`flights
      ensures Valid() && flights == old(flights)[id := old(flights)[id].(pid := true)]
    {
      SameSlots(flights, leased, id, flights[id].(pid := true));
      flights := flights[id := flights[id].(pid := true)];
    }

    /** The holder's EXIT line. */
    ghost method NoteExit(s: nat)
      requires Valid() && s in leased
      modifies this`owed, this`log
      ensures Valid() && owed == old(owed) - {s} && log == old(log) + [Exit(s)]
    {
      Append(LEASING, log, Board(leased, owed, stopped), Exit(s));
      owed, log := owed - {s}, log + [Exit(s)];
    }

    ghost method LogRelease(slot: nat)
      requires History(LEASING, log, Board(leased, owed, stopped)) && slot in leased && (slot in owed ==> stopped)
      modifies this`log
      ensures History(LEASING, log, Board(leased - {slot}, owed, stopped)) && log == old(log) + [Release(slot)]
    {
      Append(LEASING, log, Board(leased, owed, stopped), Release(slot));
      log := log + [Release(slot)];
    }

    /** The end of a session: its channel is free again. */
    method Leave(id: nat)
      requires Valid() && id in flights && (flights[id].slot in owed ==> stopped)
      modifies this`leased, this`flights, this`log
      ensures Valid() && flights == old(flights) - {id}
      ensures leased == old(leased) - {old(flights)[id].slot} && log == old(log) + [Release(old(flights)[id].slot)]
    {
      var slot := flights[id].slot;
      LogRelease(slot);
      LeaveFlying(flights, leased, id, next, stopped);
      leased, flights := leased - {slot}, flights - {id};
    }

    /** The error path: kill a holder whose pid is known; otherwise the owner stops. */
    method Fail(id: nat)
      requires Valid() && id in flights && flights[id].stage == Fenced
      modifies this`leased, this`flights, this`stopped, this`log
      ensures Valid()
      ensures var f := old(flights)[id];
              if old(stopped) then
                flights == old(flights) - {id} && leased == old(leased) - {f.slot} && stopped && log == old(log) + [Release(f.slot)]
              else
                && flights == old(flights)[id := f.(stage := if f.pid then Killing else Draining)] && leased == old(leased)
                && stopped == !f.pid && log == old(log) + if f.pid then [] else [Stop]
    {
      if stopped {
        Leave(id);
      } else if flights[id].pid {
        SetStage(id, Killing);
      } else {
        StopOwner();
        SetStage(id, Draining);
      }
    }

    method SetStage(id: nat, stage: Stage)
      requires Valid() && id in flights && (stage == Draining ==> stopped)
      modifies this`flights
      ensures Valid() && flights == old(flights)[id := old(flights)[id].(stage := stage)]
    {
      SameSlots(flights, leased, id, flights[id].(stage := stage));
      flights := flights[id := flights[id].(stage := stage)];
    }

    /** The fenced effect is done: END, then the one EXIT line that ends the holder. */
    method Finish(id: nat, exit: bool, clean: bool)
      requires Valid() && id in flights && flights[id].stage == Fenced
      modifies this`leased, this`flights, this`stopped, this`owed, this`log
      ensures Valid() && old(log) <= log
      ensures var f := old(flights)[id];
              && (exit && clean ==> flights == old(flights) - {id} && leased == old(leased) - {f.slot} &&
                                    stopped == old(stopped) && log == old(log) + [Exit(f.slot), Release(f.slot)])
              && (!(exit && clean) && old(stopped) ==> flights == old(flights) - {id} && stopped)
              && (!(exit && clean) && !old(stopped) ==>
                    && flights == old(flights)[id := f.(stage := if f.pid then Killing else Draining)]
                    && leased == old(leased) && stopped == !f.pid)
    {
      if exit { NoteExit(flights[id].slot); }
      if exit && clean {
        Leave(id);
      } else {
        Fail(id);
      }
    }

    /** The answer to KILL and the lines behind it: EXIT read, or the owner is stopped. */
    method Killed(id: nat, sent: bool, lines: seq<Reading>)
      requires Valid() && id in flights && flights[id].stage == Killing && |lines| == 4
      modifies this`leased, this`flights, this`stopped, this`owed, this`log
      ensures Valid() && old(log) <= log
      ensures var f, read := old(flights)[id], sent && ReadsExit(lines);
              && (read ==> flights == old(flights) - {id} && leased == old(leased) - {f.slot} && stopped == old(stopped) &&
                           log == old(log) + [Exit(f.slot), Release(f.slot)])
              && (!read ==> flights == old(flights)[id := f.(stage := Draining)] && leased == old(leased) && stopped)
    {
      var ok := false;
      if sent { ok := AwaitExit(lines); }
      if ok {
        NoteExit(flights[id].slot);
        Leave(id);
      } else {
        StopOwner();
        SetStage(id, Draining);
      }
    }

    /** The stopped master has exited: the waiting session gives up its channel. */
    method Drain(id: nat)
      requires Valid() && id in flights && flights[id].stage == Draining
      modifies this`leased, this`flights, this`log
      ensures Valid() && old(log) <= log && stopped && flights == old(flights) - {id} && leased == old(leased) - {old(flights)[id].slot}
    {
      Leave(id);
    }

    /** A preparation is admitted only while no session is in flight. */
    method Admit(ok: bool) returns (admitted: bool)
      requires Valid()
      modifies this`issued
      ensures Valid() && (admitted <==> !stopped && flights.Keys == {} && ok) && (issued <==> old(issued) || admitted)
    {
      assert |leased| == 0 <==> leased == {};
      assert leased == {} <==> flights.Keys == {} by {
        if leased != {} {
          var s :| s in leased;
          assert FlownBy(flights, s);
        }
      }
      if stopped || |leased| != 0 { return false; }
      if ok { issued := true; }
      admitted := ok;
    }

    /** One event of the owner; one that fits no session changes nothing. */
    method Handle(e: Event)
      requires Valid()
      modifies this
      ensures Valid() && old(log) <= log && (old(stopped) ==> stopped)
      ensures e == StopNow ==> stopped
    {
      match e
      case WithFence => var _ := Enter();
      case Started(id) => if At(id, Fenced) { Begin(id); }
      case Finished(id, exit, clean) => if At(id, Fenced) { Finish(id, exit, clean); }
      case Failed(id) => if At(id, Fenced) { Fail(id); }
      case KillAnswered(id, sent, lines) => if At(id, Killing) && |lines| == 4 { Killed(id, sent, lines); }
      case MasterGone(id) => if At(id, Draining) { Drain(id); }
      case Admitted(ok) => var _ := Admit(ok);
      case StopNow => StopOwner();
    }

    predicate At(id: nat, stage: Stage)
      reads this
    {
      id in flights && flights[id].stage == stage
    }

    /** Any interleaving of any sessions: the log stays in order, the leases are the
        sessions in flight, and never more than four. */
    method Run(script: seq<Event>)
      requires Valid()
      modifies this
      ensures Valid() && Ordered(LEASING, log) && old(log) <= log && (old(stopped) ==> stopped)
      ensures leased == (set id | id in flights :: flights[id].slot) && |leased| == |flights| <= CHANNELS
    {
      for i := 0 to |script|
        invariant Valid() && old(log) <= log && (old(stopped) ==> stopped)
      {
        Handle(script[i]);
      }
      assert Asked(log);
      AtMostFour(leased);
      OneEach(flights, leased);
      SlotsLeased(flights, leased);
    }
  }

  ghost predicate FlownBy(flights: map<nat, Flight>, s: nat) {
    exists id :: id in flights && flights[id].slot == s
  }

  predicate FirstFree(leased: set<nat>, s: nat) {
    s < CHANNELS && s !in leased && forall t :: 0 <= t < s ==> t in leased
  }

  lemma EnterFlies(flights: map<nat, Flight>, leased: set<nat>, next: nat, slot: nat)
    requires forall s :: s in leased ==> FlownBy(flights, s)
    requires next !in flights
    ensures forall s :: s in leased + {slot} ==> FlownBy(flights[next := Flight(slot, false, Fenced)], s)
  {
    var more := flights[next := Flight(slot, false, Fenced)];
    forall s | s in leased + {slot} ensures FlownBy(more, s) {
      if s in leased {
        var id :| id in flights && flights[id].slot == s;
        assert id in more && more[id].slot == s;
      } else {
        assert next in more && more[next].slot == s;
      }
    }
  }

  predicate ReadsExit(lines: seq<Reading>)
    requires |lines| == 4
  {
    exists n :: 0 <= n < 4 && lines[n] == ExitLine(true) && forall j :: 0 <= j < n ==> !lines[j].Broken?
  }

  ghost predicate Flown(flights: map<nat, Flight>, leased: set<nat>) {
    && (forall id :: id in flights ==> flights[id].slot in leased)
    && (forall s :: s in leased ==> FlownBy(flights, s))
    && (forall a, b :: a in flights && b in flights && a != b ==> flights[a].slot != flights[b].slot)
  }

  /** The leases are the sessions in flight, one channel each; only a stopped owner
      has sessions that wait for the master. */
  ghost predicate Flying(flights: map<nat, Flight>, leased: set<nat>, next: nat, stopped: bool) {
    Flown(flights, leased) && forall id :: id in flights ==> id < next && (flights[id].stage == Draining ==> stopped)
  }

  /** Channels that are given up owe nothing until the owner is stopped. */
  ghost predicate Clear(leased: set<nat>, owed: set<nat>, stopped: bool) {
    (!stopped ==> owed <= leased) && forall s :: s in leased ==> s < CHANNELS
  }

  lemma LeaveFlying(flights: map<nat, Flight>, leased: set<nat>, id: nat, next: nat, stopped: bool)
    requires Flying(flights, leased, next, stopped) && id in flights
    ensures Flying(flights - {id}, leased - {flights[id].slot}, next, stopped)
  {
    LeaveFlies(flights, leased, id);
  }

  lemma SameSlots(flights: map<nat, Flight>, leased: set<nat>, id: nat, f: Flight)
    requires Flown(flights, leased) && id in flights && f.slot == flights[id].slot
    ensures Flown(flights[id := f], leased)
  {
    forall s | s in leased ensures FlownBy(flights[id := f], s) {
      var k :| k in flights && flights[k].slot == s;
      assert k in flights[id := f] && flights[id := f][k].slot == s;
    }
  }

  lemma LeaveFlies(flights: map<nat, Flight>, leased: set<nat>, id: nat)
    requires Flown(flights, leased) && id in flights
    ensures Flown(flights - {id}, leased - {flights[id].slot})
  {
    var rest, left := flights - {id}, leased - {flights[id].slot};
    forall s | s in left ensures FlownBy(rest, s) {
      var k :| k in flights && flights[k].slot == s;
      assert k in rest && rest[k].slot == s;
    }
  }

  /** As many leases as sessions. */
  lemma {:induction false} OneEach(flights: map<nat, Flight>, leased: set<nat>)
    requires Flown(flights, leased)
    ensures |leased| == |flights|
    decreases |flights|
  {
    if flights == map[] {
      assert leased == {};
    } else {
      var id :| id in flights;
      LeaveFlies(flights, leased, id);
      OneLess(flights, id);
      OneEach(flights - {id}, leased - {flights[id].slot});
    }
  }

  lemma OneLess(flights: map<nat, Flight>, id: nat)
    requires id in flights
    ensures |flights - {id}| == |flights| - 1
  {
    assert (flights - {id}).Keys == flights.Keys - {id};
  }

  lemma SlotsLeased(flights: map<nat, Flight>, leased: set<nat>)
    requires Flown(flights, leased)
    ensures leased == (set id | id in flights :: flights[id].slot)
  {
    forall s | s in leased ensures s in (set id | id in flights :: flights[id].slot) { assert FlownBy(flights, s); }
  }
}
