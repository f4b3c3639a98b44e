/** The staged observer slot: three gate bytes, sticky revocation, and the order of
    everything the slot does over any interleaving of its callbacks. */
module StagedSlot {
  import opened Chronicle

  /** What the slot has done, in order. `Sent1`, `Sent2` and `Sent3` are the bytes
      written to the child; `Revoked` and `Closing` mark each setting of the flag. */
  datatype Mark = Bootstrap | Sent1 | Fixture | Sent2 | QuerySeen | SystemctlSeen | QueryDone | Sent3 | Revoked | Closing

  datatype Phase = Unconstructed | Constructing | Constructed | Qualified | Closed

  /** Which callback reads the child's output. */
  datatype Wire = Silent | Receiving | Protocol

  /** How far the asynchronous constructor has come. */
  datatype Progress = NotBegun | Begun | Retained | Waiting | Done | Failed

  /** A line of the child's output, with what the host checks it triggers answer,
      in the order the slot asks. */
  datatype Line =
    | BootstrapLine(routes: bool)
    | ConstructorLine(captured: bool, joined: bool, clean: bool, deadline: bool, tables: bool)
    | FixtureLine(joined: bool)
    | QueryLine(captured: bool, joined: bool, deadline: bool)
    | CompleteLine(values: bool, joined: bool, admitted: bool)
    | ArmedLine
    | DeadLine(gone: bool)
    | OtherLine

  /** One callback of the event loop. */
  datatype Event =
    | BeginConstruct(parent: bool)
    | Retain(held: bool, same: bool)
    | Spawn(up: bool)
    | ConstructLost
    | PollSetup(ok: bool, found: bool)
    | Output(line: Line)
    | PollQuery(ok: bool, source: bool, ctl: bool)
    | GateBroken
    | CloseCalled
    | Drain(absent: bool)

  // ---- order ---------------------------------------------------------------

  type Marks = set<Mark>

  predicate Once(made: Marks, m: Mark, after: Mark) {
    m !in made && after in made
  }

  /** When a mark may follow the ones already made. */
  predicate Allows(made: Marks, m: Mark) {
    match m
    case Bootstrap => Bootstrap !in made
    case Sent1 => Once(made, Sent1, Bootstrap) && Closing !in made
    case Fixture => Once(made, Fixture, Sent1) && Closing !in made
    case Sent2 => Once(made, Sent2, Fixture) && Closing !in made
    case QuerySeen => Once(made, QuerySeen, Sent2) && Closing !in made
    case SystemctlSeen => Once(made, SystemctlSeen, QuerySeen) && Closing !in made
    case QueryDone => Once(made, QueryDone, SystemctlSeen)
    case Sent3 => Once(made, Sent3, QueryDone) && Closing !in made && Revoked !in made
    case Revoked => true
    case Closing => Closing !in made
  }

  const GATE := Rules({}, (made: Marks, m: Mark) => made + {m}, (made: Marks, m: Mark) => Allows(made, m))

  /** The state of a log is the marks in it. */
  lemma {:induction false} StateHas(log: seq<Mark>, m: Mark)
    ensures m in StateOf(GATE, log) <==> m in log
  {
    if log != [] {
      StateHas(log[..|log| - 1], m);
      assert log == log[..|log| - 1] + [log[|log| - 1]];
    }
  }

  /** The mark that must come before each mark of the gate's chain. */
  function Prior(m: Mark): Mark {
    match m
    case Sent3 => QueryDone
    case QueryDone => SystemctlSeen
    case SystemctlSeen => QuerySeen
    case QuerySeen => Sent2
    case Sent2 => Fixture
    case Fixture => Sent1
    case _ => Bootstrap
  }

  lemma Earlier(log: seq<Mark>, k: nat) returns (j: nat)
    requires Ordered(GATE, log) && k < |log| && log[k] != Bootstrap && log[k] != Revoked && log[k] != Closing
    ensures j < k && log[j] == Prior(log[k])
  {
    OrderedAt(GATE, log, k);
    StateHas(log[..k], Prior(log[k]));
    j :| 0 <= j < k && log[..k][j] == Prior(log[k]);
  }

  /** The effect byte is written at most once, and before it, in this order, come the
      bootstrap report, "1", the fixture report, "2", both query transitions and
      query_complete. */
  lemma EffectGate(log: seq<Mark>, k: nat) returns (boot: nat, one: nat, fixture: nat, two: nat, source: nat, ctl: nat, done: nat)
    requires Ordered(GATE, log) && k < |log| && log[k] == Sent3
    ensures boot < one < fixture < two < source < ctl < done < k
    ensures log[boot] == Bootstrap && log[one] == Sent1 && log[fixture] == Fixture && log[two] == Sent2
    ensures log[source] == QuerySeen && log[ctl] == SystemctlSeen && log[done] == QueryDone
  {
    done := Earlier(log, k);
    ctl := Earlier(log, done);
    source := Earlier(log, ctl);
    two := Earlier(log, source);
    fixture := Earlier(log, two);
    one := Earlier(log, fixture);
    boot := Earlier(log, one);
  }

  /** The effect byte is sent once, and never after a revocation or the start of close. */
  lemma {:induction false} EffectOnce(log: seq<Mark>, j: nat, k: nat)
    requires Ordered(GATE, log) && j < |log| && k < |log| && log[k] == Sent3
    ensures j != k ==> log[j] != Sent3
    ensures j < k ==> log[j] != Revoked && log[j] != Closing
  {
    if j < k {
      OrderedAt(GATE, log, k);
      StateHas(log[..k], log[j]);
      assert log[..k][j] == log[j];
    } else if k < j {
      OrderedAt(GATE, log, j);
      StateHas(log[..j], log[k]);
      assert log[..j][k] == log[k];
    }
  }

  /** Revocation is final: whatever a run adds to a revoked log, it is not the effect byte. */
  lemma {:induction false} RevokedForGood(log: seq<Mark>, longer: seq<Mark>)
    requires Ordered(GATE, longer) && log <= longer && Revoked in log
    ensures Sent3 in longer ==> Sent3 in log
  {
    if Sent3 in longer {
      var k :| 0 <= k < |longer| && longer[k] == Sent3;
      var j :| 0 <= j < |log| && log[j] == Revoked;
      EffectOnce(longer, j, k);
      assert log[k] == Sent3;
    }
  }

  const BYTES := {Sent1, Sent2, Sent3}

  /** Once close has started no byte reaches the child, and no byte is sent twice. */
  lemma {:induction false} BytesBeforeClose(log: seq<Mark>, i: nat, j: nat)
    requires Ordered(GATE, log) && i < j < |log| && log[j] in BYTES
    ensures log[i] != Closing && log[i] != log[j]
  {
    OrderedAt(GATE, log, j);
    StateHas(log[..j], log[i]);
    assert log[..j][i] == log[i];
  }

  // ---- the slot ------------------------------------------------------------

  /** The variables the slot's callbacks share. `made` holds the sticky ones:
      bootstrapRoutes, fixtureRoutes, querySourceSeen, systemctlSourceSeen,
      queryComplete, consumed (with effectAccepted), revoked and closing, and the
      first two bytes, which the source keeps in no variable. */
  datatype Shared = Shared(
    state: Phase, progress: Progress, wire: Wire, custody: bool, worker: bool, query: bool, setups: nat,
    watching: bool, queryFailure: bool, polling: bool, parentDead: bool, made: Marks)
  {
    /** What holds between any two callbacks. */
    predicate Sound() {
      && (Closing in made || queryFailure ==> Revoked in made) && (progress == Failed || state == Closed ==> Closing in made)
      && (state == Constructed || state == Qualified ==> Sent1 in made) && (Sent3 in made ==> state == Qualified || state == Closed)
      && (Sent1 in made ==> wire == Protocol && Bootstrap in made) && (wire == Protocol ==> worker && (Closing in made || Sent1 in made))
      && (wire == Silent ==> Bootstrap !in made) && (wire == Receiving ==> progress == Waiting || progress == Failed)
      && (progress.NotBegun? || progress.Begun? || progress.Retained? ==> wire == Silent)
      && (progress == Waiting ==> wire == Receiving)
      && (Sent2 in made ==> query && Fixture in made) && (query && !queryFailure ==> Sent2 in made) && (polling ==> Sent2 in made && SystemctlSeen !in made)
      && (Sent3 in made ==> QueryDone in made) && (SystemctlSeen in made ==> QuerySeen in made) && (QuerySeen in made ==> Sent2 in made) && (QueryDone in made ==> SystemctlSeen in made) && (Fixture in made ==> Sent1 in made)
    }

    function Marked(m: Mark): Shared { this.(made := made + {m}) }

    function Shut(): Shared { this.(made := made + {Closing} + {Revoked}) }

    /** The state after any exception in the protocol. */
    function Failing(): Shared { Shut().(queryFailure := true) }
  }

  const START := Shared(Unconstructed, NotBegun, Silent, false, false, false, 0, false, false, false, false, {})

  /** The marks of a close that may already have started. */
  function ShutMarks(closing: bool): seq<Mark> {
    if closing then [] else [Closing, Revoked]
  }

  class Slot {
    var s: Shared
    ghost var log: seq<Mark>

    ghost predicate Valid()
      reads this
    {
      s.Sound() && History(GATE, log, s.made)
    }

    constructor ()
      ensures Valid() && s == START && log == []
    {
      s, log := START, [];
    }

    /** A step that makes one mark. */
    method Record(m: Mark, next: Shared)
      requires Valid() && Allows(s.made, m) && next.made == s.made + {m} && next.Sound()
      modifies this
      ensures Valid() && s == next && log == old(log) + [m]
    {
      Append(GATE, log, s.made, m);
      s, log := next, log + [m];
    }

    method Revoke()
      requires Valid()
      modifies this
      ensures Valid() && s == old(s).Marked(Revoked) && log == old(log) + [Revoked]
      ensures SameBytes(old(s), s)
    {
      Record(Revoked, s.Marked(Revoked));
    }

    /** The start of close; the drain that follows is `Drained`. */
    method StartClose()
      requires Valid()
      modifies this
      ensures Valid() && s == old(s).Shut() && log == old(log) + ShutMarks(Closing in old(s).made)
      ensures SameBytes(old(s), s)
    {
      if Closing in s.made {
        assert s.Shut().made == s.made;
        return;
      }
      Append(GATE, log, s.made, Closing);
      Append(GATE, log + [Closing], s.made + {Closing}, Revoked);
      s := s.Shut();
      log := log + [Closing] + [Revoked];
    }

    /** The constructor fails: its catch starts close in the same turn. */
    method Abandon()
      requires Valid() && (s.progress == Begun || s.progress == Retained || s.progress == Waiting)
      modifies this
      ensures Valid() && s == old(s).Shut().(progress := Failed) && log == old(log) + ShutMarks(Closing in old(s).made)
    {
      StartClose();
      s := s.(progress := Failed);
    }

    /** The constructor's promise is rejected, unless it was settled before. */
    method Reject()
      requires Valid()
      modifies this
      ensures Valid()
      ensures old(s).progress == Waiting ==> s == old(s).Shut().(progress := Failed) && log == old(log) + ShutMarks(Closing in old(s).made)
      ensures old(s).progress != Waiting ==> s == old(s) && log == old(log)
      ensures SameBytes(old(s), s)
    {
      if s.progress == Waiting { Abandon(); }
    }

    /** Any exception in the protocol: revoked, failed for good, close started. */
    method Fail()
      requires Valid()
      modifies this
      ensures Valid() && s == old(s).Failing() && log == old(log) + [Revoked] + ShutMarks(Closing in old(s).made)
    {
      FailsAnyway(s);
      Revoke();
      s := s.(queryFailure := true);
      StartClose();
    }

    /** Every retained actor gone and every descriptor closed, or the drain held. */
    method Drained(absent: bool)
      requires Valid()
      modifies this`s
      ensures Valid() && s == if Closing in old(s).made && absent then old(s).(state := Closed) else old(s)
      ensures SameBytes(old(s), s)
    {
      if Closing in s.made && absent { s := s.(state := Closed); }
    }

    // ---- construction ------------------------------------------------------

    /** Entry of the constructor: a refused call changes nothing. */
    method Begin(parent: bool)
      requires Valid()
      modifies this`s
      ensures Valid()
      ensures var go := parent && Closing !in old(s).made && old(s).state == Unconstructed && old(s).progress == NotBegun;
              s == if go then old(s).(state := Constructing, progress := Begun) else old(s)
      ensures SameBytes(old(s), s)
    {
      if parent && Closing !in s.made && s.state == Unconstructed && s.progress == NotBegun {
        s := s.(state := Constructing, progress := Begun);
      }
    }

    /** The selected guest and the signed facts are retained, if nothing was revoked
        while they were read. */
    method RetainFacts(held: bool, same: bool)
      requires Valid() && s.progress == Begun
      modifies this
      ensures Valid()
      ensures var kept := old(s).(custody := old(s).custody || held);
              var go := held && same && Revoked !in old(s).made;
              && s == (if go then kept.(progress := Retained) else kept.Shut().(progress := Failed))
              && log == old(log) + if go then [] else ShutMarks(Closing in old(s).made)
      ensures SameBytes(old(s), s)
    {
      s := s.(custody := s.custody || held);
      if held && same && Revoked !in s.made {
        s := s.(progress := Retained);
      } else {
        Abandon();
      }
    }

    method SpawnChild(up: bool)
      requires Valid() && s.progress == Retained
      modifies this
      ensures Valid()
      ensures s == if up then old(s).(progress := Waiting, wire := Receiving, watching := true)
                   else old(s).Shut().(progress := Failed)
      ensures log == old(log) + if up then [] else ShutMarks(Closing in old(s).made)
      ensures SameBytes(old(s), s)
    {
      if up {
        s := s.(progress := Waiting, wire := Receiving, watching := true);
      } else {
        Abandon();
      }
    }

    /** One look at the monitor's children. */
    method WatchSetup(ok: bool, found: bool)
      requires Valid()
      modifies this
      ensures Valid()
      ensures var looks := old(s).watching && Closing !in old(s).made && !old(s).worker;
              && (!looks ==> s == old(s).(watching := false) && log == old(log))
              && (looks && ok ==> s == old(s).(setups := old(s).setups + if found then 1 else 0) && log == old(log))
              && (looks && !ok ==> s == old(s).Marked(Revoked).(watching := false, queryFailure := true) && log == old(log) + [Revoked])
      ensures SameBytes(old(s), s)
    {
      if !s.watching || Closing in s.made || s.worker {
        s := s.(watching := false);
      } else if !ok {
        Revoke();
        s := s.(queryFailure := true, watching := false);
      } else if found {
        s := s.(setups := s.setups + 1);
      }
    }

    /** The bootstrap routes are the catalog's. */
    method Booted()
      requires Valid() && s.wire == Receiving && Bootstrap !in s.made
      modifies this
      ensures Valid() && s == old(s).Marked(Bootstrap) && log == old(log) + [Bootstrap]
    {
      Record(Bootstrap, s.Marked(Bootstrap));
    }

    /** Output while the constructor waits for its child. */
    method Receive(line: Line)
      requires Valid() && s.wire == Receiving
      modifies this
      ensures Valid() && old(log) <= log
      ensures BootsNow(old(s), line) ==> s == old(s).Marked(Bootstrap) && log == old(log) + [Bootstrap]
      ensures OpensNow(old(s), line) ==> s == Opened(old(s)) && log == old(log) + [Sent1]
      ensures !BootsNow(old(s), line) && !OpensNow(old(s), line) ==> Closing in s.made && s.progress == Failed && Sent1 !in s.made
    {
      if BootsNow(s, line) {
        Booted();
      } else if line.ConstructorLine? && Bootstrap in s.made && !s.queryFailure && line.captured {
        Announced(line);
      } else {
        Reject();
      }
    }

    /** A failure after the protocol callback has replaced the constructor's. */
    method RejectJoined()
      requires Valid() && s.wire == Receiving && s.worker
      modifies this
      ensures Valid() && old(log) <= log && s == old(s).Shut().(progress := Failed, wire := Protocol)
    {
      Reject();
      s := s.(wire := Protocol);
    }

    /** The announced worker is captured and joined: the last checks, then the first byte. */
    method Release(line: Line)
      requires Valid() && s.wire == Receiving && line.ConstructorLine? && Bootstrap in s.made && s.worker
      modifies this
      ensures Valid() && old(log) <= log
      ensures var go := line.clean && line.deadline && line.tables && Closing !in old(s).made;
              && s == (if go then Opened(old(s)) else old(s).Shut().(progress := Failed, wire := Protocol))
              && (go ==> log == old(log) + [Sent1])
    {
      if !line.clean || !line.deadline || Closing in s.made || !line.tables {
        if line.clean && !line.deadline { Revoke(); }
        RejectJoined();
      } else {
        Record(Sent1, s.Marked(Sent1).(wire := Protocol, state := Constructed, progress := Done));
      }
    }

    /** The worker is captured, then joined. */
    method Announced(line: Line)
      requires Valid() && s.wire == Receiving && line.ConstructorLine? && Bootstrap in s.made && !s.queryFailure
      modifies this
      ensures Valid() && old(log) <= log
      ensures Joins(line) && Closing !in old(s).made ==> s == Opened(old(s)) && log == old(log) + [Sent1]
      ensures !Joins(line) || Closing in old(s).made ==>
                s == old(s).Shut().(progress := Failed, worker := true, wire := if line.joined then Protocol else Receiving)
    {
      s := s.(worker := true);
      if line.joined {
        Release(line);
      } else {
        Reject();
      }
    }

    // ---- protocol ----------------------------------------------------------

    /** The fixture report. */
    method TakeFixture(joined: bool)
      requires Valid() && s.wire == Protocol
      modifies this
      ensures SameBytes(old(s), s)
      ensures Valid()
      ensures var go := joined && Fixture !in old(s).made && Closing !in old(s).made;
              && s == (if go then old(s).Marked(Fixture) else old(s).Failing())
              && log == old(log) + if go then [Fixture] else [Revoked] + ShutMarks(Closing in old(s).made)
    {
      if Bootstrap in s.made && Fixture !in s.made && s.worker && joined && Closing !in s.made {
        Record(Fixture, s.Marked(Fixture));
      } else {
        Fail();
      }
    }

    /** A query that was captured and then failed a check. */
    method LoseQuery(late: bool)
      requires Valid() && s.wire == Protocol
      modifies this
      ensures Valid() && old(log) <= log && s == old(s).Failing().(query := true)
    {
      FailsAnyway(s);
      if late { Revoke(); }
      Fail();
      s := s.(query := true);
    }

    /** The announced query: captured, joined, then released by the second byte. */
    method TakeQuery(line: Line)
      requires Valid() && s.wire == Protocol && line.QueryLine?
      modifies this
      ensures Valid() && old(log) <= log && s == AfterQuery(old(s), line)
      ensures ReleasesNow(old(s), line) ==> log == old(log) + [Sent2]
    {
      if !(Fixture in s.made && !s.query && s.worker && line.captured) {
        Fail();
      } else if !line.joined || Closing in s.made || !line.deadline {
        LoseQuery(line.joined && Closing !in s.made);
      } else {
        Record(Sent2, s.Marked(Sent2).(query := true, polling := true));
      }
    }

    /** The query runs the staged nsenter. */
    method SeeSource(source: bool) returns (ok: bool)
      requires Valid() && Sent2 in s.made
      modifies this
      ensures Valid() && (ok <==> QuerySeen in old(s).made || !source || Closing !in s.made)
      ensures var sees := QuerySeen !in old(s).made && source && Closing !in old(s).made;
              s == (if sees then old(s).Marked(QuerySeen) else old(s)) && log == old(log) + if sees then [QuerySeen] else []
    {
      ok := true;
      if QuerySeen in s.made || !source { return; }
      if Closing in s.made { return false; }
      Record(QuerySeen, s.Marked(QuerySeen));
    }

    /** The query, or its one child, runs the guest's systemctl; the poll is over. */
    method SeeSystemctl(ctl: bool) returns (ok: bool)
      requires Valid() && SystemctlSeen !in s.made
      modifies this
      ensures Valid() && (ok <==> ctl ==> QuerySeen in s.made && Closing !in s.made)
      ensures s == (if ok && ctl then old(s).Marked(SystemctlSeen).(polling := false) else old(s))
      ensures log == old(log) + if ok && ctl then [SystemctlSeen] else []
    {
      ok := true;
      if !ctl { return; }
      if QuerySeen !in s.made || Closing in s.made { return false; }
      Record(SystemctlSeen, s.Marked(SystemctlSeen).(polling := false));
    }

    method LookQuery(source: bool, ctl: bool) returns (good: bool)
      requires Valid() && s.polling
      modifies this
      ensures Valid() && (good <==> Transition(old(s), source, ctl))
      ensures !good ==> s == old(s) && log == old(log)
      ensures good ==> s == Observed(old(s), source, ctl) && log == old(log) + ObservedMarks(old(s), source, ctl)
    {
      good := SeeSource(source);
      if good { good := SeeSystemctl(ctl); }
    }

    /** A poll that fails revokes the slot for good. */
    method HoldQuery()
      requires Valid()
      modifies this
      ensures Valid() && s == Held(old(s)) && log == old(log) + [Revoked]
    {
      Record(Revoked, s.Marked(Revoked).(queryFailure := true, polling := false));
    }

    /** One look at the query's maps and children. */
    method WatchQuery(ok: bool, source: bool, ctl: bool)
      requires Valid() && s.polling
      modifies this
      ensures Valid()
      ensures QueryDone in old(s).made || old(s).state == Closed ==> s == old(s).(polling := false) && log == old(log)
      ensures var good := ok && !old(s).queryFailure && Transition(old(s), source, ctl);
              QueryDone !in old(s).made && old(s).state != Closed ==>
                && s == (if good then Observed(old(s), source, ctl) else Held(old(s)))
                && log == old(log) + (if good then ObservedMarks(old(s), source, ctl) else [Revoked])
      ensures SameBytes(old(s), s)
    {
      if QueryDone in s.made || s.state == Closed {
        s := s.(polling := false);
        return;
      }
      var good := ok && !s.queryFailure;
      if good { good := LookQuery(source, ctl); }
      if !good { HoldQuery(); }
    }

    /** The gate: every fact of the run held at once, consumed before the one write. */
    method Consume(admitted: bool) returns (sent: bool)
      requires Valid()
      modifies this
      ensures Valid()
      ensures sent <==> Admits(old(s), admitted)
      ensures s == if sent then old(s).Marked(Sent3).(state := Qualified) else old(s).Marked(Revoked)
      ensures log == old(log) + [if sent then Sent3 else Revoked]
    {
      sent := Sent3 !in s.made && Revoked !in s.made && Closing !in s.made && s.custody && admitted && s.state == Constructed && s.worker &&
              s.query && QueryDone in s.made && !s.queryFailure && Bootstrap in s.made && Fixture in s.made &&
              QuerySeen in s.made && SystemctlSeen in s.made && s.setups > 0;
      if sent {
        Record(Sent3, s.Marked(Sent3).(state := Qualified));
      } else {
        Revoke();
      }
    }

    /** The one attempt at the effect byte; if it fails, so does the protocol. */
    method Attempt(admitted: bool)
      requires Valid()
      modifies this
      ensures Valid() && old(log) <= log
      ensures s == if Admits(old(s), admitted) then old(s).Marked(Sent3).(state := Qualified) else old(s).Failing()
      ensures Admits(old(s), admitted) ==> log == old(log) + [Sent3]
    {
      FailsAnyway(s);
      var sent := Consume(admitted);
      if !sent { Fail(); }
    }

    /** The reported query result: recorded, then the attempt. */
    method TakeComplete(line: Line)
      requires Valid() && s.wire == Protocol && line.CompleteLine?
      modifies this
      ensures Valid() && old(log) <= log && s == AfterComplete(old(s), line)
      ensures QualifiesNow(old(s), line) ==> log == old(log) + [QueryDone] + [Sent3]
    {
      if !(s.query && QueryDone !in s.made && !s.queryFailure && line.values && QuerySeen in s.made && SystemctlSeen in s.made) {
        Fail();
        return;
      }
      Record(QueryDone, s.Marked(QueryDone));
      if !line.joined || Closing in s.made {
        Fail();
      } else {
        Attempt(line.admitted);
      }
    }

    /** After the effect byte: only `armed` and the parent's death are reported. */
    method TakeReport(line: Line)
      requires Valid() && s.wire == Protocol
      modifies this
      ensures SameBytes(old(s), s)
      ensures Valid()
      ensures var armed := Sent3 in old(s).made && line.ArmedLine?;
              var dead := Sent3 in old(s).made && line.DeadLine? && !old(s).parentDead && line.gone;
              && s == (if armed then old(s) else if dead then old(s).(parentDead := true) else old(s).Failing())
              && log == old(log) + if armed || dead then [] else [Revoked] + ShutMarks(Closing in old(s).made)
    {
      if Sent3 in s.made && line.ArmedLine? { return; }
      if Sent3 in s.made && line.DeadLine? && !s.parentDead && line.gone {
        s := s.(parentDead := true);
      } else {
        Fail();
      }
    }

    /** A line of output goes to the callback that is attached. */
    method Read(line: Line)
      requires Valid()
      modifies this
      ensures Valid() && old(log) <= log
      ensures SentBy(old(s), line, s)
    {
      if s.wire == Receiving {
        Receive(line);
      } else if s.wire == Protocol {
        Converse(line);
      }
    }

    /** A line of the protocol. */
    method Converse(line: Line)
      requires Valid() && s.wire == Protocol
      modifies this
      ensures Valid() && old(log) <= log
      ensures SentBy(old(s), line, s)
    {
      if line.QueryLine? {
        QuerySends(s, line);
        TakeQuery(line);
      } else if line.CompleteLine? {
        CompleteSends(s, line);
        TakeComplete(line);
      } else {
        if line.FixtureLine? { TakeFixture(line.joined); } else { TakeReport(line); }
        OthersSendNothing(old(s), line, s);
      }
    }

    /** One callback. */
    method Handle(e: Event)
      requires Valid()
      modifies this
      ensures Valid() && old(log) <= log
      ensures if e.Output? then SentBy(old(s), e.line, s) else SameBytes(old(s), s)
      ensures (e.CloseCalled? ==> Closing in s.made) && (e.GateBroken? ==> Revoked in s.made)
    {
      match e
      case Output(line) => Read(line);
      case PollQuery(ok, source, ctl) => Poll(ok, source, ctl);
      case GateBroken => Revoke();
      case CloseCalled => StartClose();
      case Drain(absent) => Drained(absent);
      case _ => Construct(e);
    }

    method Poll(ok: bool, source: bool, ctl: bool)
      requires Valid()
      modifies this
      ensures Valid() && old(log) <= log && SameBytes(old(s), s)
    {
      if s.polling { WatchQuery(ok, source, ctl); }
    }

    /** A callback that belongs to the constructor. */
    method Construct(e: Event)
      requires Valid()
      modifies this
      ensures Valid() && old(log) <= log && SameBytes(old(s), s)
    {
      match e
      case BeginConstruct(parent) => Begin(parent);
      case Retain(held, same) => if s.progress == Begun { RetainFacts(held, same); }
      case Spawn(up) => if s.progress == Retained { SpawnChild(up); }
      case ConstructLost => Reject();
      case PollSetup(ok, found) => WatchSetup(ok, found);
      case _ =>
    }

    /** Any callbacks in any order, whatever the host answers: the log stays in order. */
    method Run(script: seq<Event>)
      requires Valid()
      modifies this
      ensures Valid() && Ordered(GATE, log) && old(log) <= log
    {
      for i := 0 to |script|
        invariant Valid() && old(log) <= log
      {
        Handle(script[i]);
      }
      assert Asked(log);
    }
  }

  /** A transition the poll admits: systemctl only after nsenter, neither once closing. */
  predicate Transition(s: Shared, source: bool, ctl: bool) {
    (ctl ==> QuerySeen in s.made || source) && (Closing in s.made ==> !ctl && (QuerySeen in s.made || !source))
  }

  function Observed(s: Shared, source: bool, ctl: bool): Shared {
    var mid := if source && QuerySeen !in s.made then s.Marked(QuerySeen) else s;
    if ctl then mid.Marked(SystemctlSeen).(polling := false) else mid
  }

  /** Revoking on the way to a failure makes no difference to where it ends. */
  lemma FailsAnyway(s: Shared)
    ensures s.Marked(Revoked).Failing() == s.Failing() == s.Marked(Revoked).(queryFailure := true).Shut()
  {
    assert s.made + {Revoked} + {Closing} + {Revoked} == s.made + {Closing} + {Revoked};
  }

  function ObservedMarks(s: Shared, source: bool, ctl: bool): seq<Mark> {
    (if source && QuerySeen !in s.made then [QuerySeen] else []) + if ctl then [SystemctlSeen] else []
  }

  function Held(s: Shared): Shared {
    s.Marked(Revoked).(queryFailure := true, polling := false)
  }

  /** A query announcement every check admits. */
  predicate ReleasesNow(s: Shared, line: Line) {
    line.QueryLine? && Fixture in s.made && !s.query && line.captured && line.joined && Closing !in s.made && line.deadline
  }

  /** A query result that opens the gate. */
  predicate QualifiesNow(s: Shared, line: Line) {
    line.CompleteLine? && Told(s, line) && line.joined && Admits(s.Marked(QueryDone), line.admitted)
  }

  predicate SameBytes(before: Shared, after: Shared) {
    after.made * BYTES == before.made * BYTES
  }

  /** Each byte is sent by the one line whose every check passes, and by nothing else. */
  predicate SentBy(before: Shared, line: Line, after: Shared) {
    && (Sent1 in after.made <==> Sent1 in before.made || (before.wire == Receiving && OpensNow(before, line)))
    && (Sent2 in after.made <==> Sent2 in before.made || (before.wire == Protocol && ReleasesNow(before, line)))
    && (Sent3 in after.made <==> Sent3 in before.made || (before.wire == Protocol && QualifiesNow(before, line)))
  }

  /** The state after a query announcement. */
  function AfterQuery(s: Shared, line: Line): Shared
    requires line.QueryLine?
  {
    if ReleasesNow(s, line) then s.Marked(Sent2).(query := true, polling := true)
    else s.Failing().(query := s.query || (Fixture in s.made && line.captured))
  }

  /** The state after a query result. */
  function AfterComplete(s: Shared, line: Line): Shared
    requires line.CompleteLine?
  {
    if QualifiesNow(s, line) then s.Marked(QueryDone).Marked(Sent3).(state := Qualified)
    else if Told(s, line) then s.Marked(QueryDone).Failing()
    else s.Failing()
  }

  lemma OthersSendNothing(before: Shared, line: Line, after: Shared)
    requires SameBytes(before, after) && before.wire == Protocol && !line.QueryLine? && !line.CompleteLine?
    ensures SentBy(before, line, after)
  {
    assert forall m :: m in BYTES ==> (m in after.made <==> m in after.made * BYTES) && (m in before.made <==> m in before.made * BYTES);
  }

  lemma QuerySends(s: Shared, line: Line)
    requires line.QueryLine? && s.wire == Protocol
    ensures SentBy(s, line, AfterQuery(s, line))
  {
    assert !OpensNow(s, line) && !QualifiesNow(s, line);
    var after := AfterQuery(s, line);
    assert after.made == if ReleasesNow(s, line) then s.made + {Sent2} else s.made + {Closing} + {Revoked};
  }

  lemma CompleteSends(s: Shared, line: Line)
    requires line.CompleteLine? && s.wire == Protocol
    ensures SentBy(s, line, AfterComplete(s, line))
  {
    assert !OpensNow(s, line) && !ReleasesNow(s, line);
    var after := AfterComplete(s, line);
    if QualifiesNow(s, line) {
      assert after.made == s.made + {QueryDone} + {Sent3};
    } else {
      assert after.made == (if Told(s, line) then s.made + {QueryDone} else s.made) + {Closing} + {Revoked};
    }
  }

  /** A query result the slot takes: the first, after both transitions. */
  predicate Told(s: Shared, line: Line)
    requires line.CompleteLine?
  {
    s.query && QueryDone !in s.made && !s.queryFailure && line.values && SystemctlSeen in s.made
  }

  /** When the gate opens: nothing revoked, custody held, the worker constructed, the
      query complete, a setup seen, and every live join admitting it. */
  predicate Admits(s: Shared, admitted: bool) {
    admitted && Revoked !in s.made && s.custody && s.state == Constructed && QueryDone in s.made && s.setups > 0
  }

  /** The bootstrap report, the first time. */
  predicate BootsNow(s: Shared, line: Line) {
    line.BootstrapLine? && line.routes && Bootstrap !in s.made
  }

  /** An announcement every check admits. */
  predicate OpensNow(s: Shared, line: Line) {
    line.ConstructorLine? && Bootstrap in s.made && !s.queryFailure && line.captured && Joins(line) && Closing !in s.made
  }

  predicate Joins(line: Line)
    requires line.ConstructorLine?
  {
    line.joined && line.clean && line.deadline && line.tables
  }

  function Opened(s: Shared): Shared {
    s.Marked(Sent1).(wire := Protocol, state := Constructed, progress := Done, worker := true)
  }

  /** The first half of a run whose every check passes. */
  method Opens() returns (slot: Slot)
    ensures fresh(slot) && slot.Valid() && slot.log == [Bootstrap, Sent1]
    ensures slot.s == Opened(START.Marked(Bootstrap).(custody := true, watching := true, setups := 1))
  {
    slot := new Slot();
    slot.Begin(true);
    slot.RetainFacts(true, true);
    slot.SpawnChild(true);
    slot.WatchSetup(true, true);
    slot.Receive(BootstrapLine(true));
    slot.Receive(ConstructorLine(true, true, true, true, true));
  }

  /** Up to the second byte. */
  method Releases() returns (slot: Slot)
    ensures fresh(slot) && slot.Valid() && slot.log == [Bootstrap, Sent1, Fixture, Sent2]
    ensures slot.s == Opened(START.Marked(Bootstrap).(custody := true, watching := true, setups := 1)).Marked(Fixture).Marked(Sent2).(query := true, polling := true)
  {
    slot := Opens();
    slot.TakeFixture(true);
    slot.TakeQuery(QueryLine(true, true, true));
  }

  /** The gate does open: a run whose every check passes sends the three bytes. */
  method Qualifies() returns (slot: Slot)
    ensures slot.Valid() && slot.s.state == Qualified && Revoked !in slot.s.made
    ensures slot.log == [Bootstrap, Sent1, Fixture, Sent2, QuerySeen, SystemctlSeen, QueryDone, Sent3]
  {
    slot := Releases();
    slot.WatchQuery(true, true, true);
    slot.TakeComplete(CompleteLine(true, true, true));
  }
}
