/** The back seat's driver: what it sends and logs, in which order, over a run
    of control cycles, and how `main` reads its host and port. The autonomy
    engine, the clock, the incoming mail and the warp-factor sleep are inputs;
    the client thread that drains the outgoing queue is not modelled here, so
    "sent" means handed to the client's `send_message`. */
module BackSeat {
  import opened Wrappers
  import opened Text
  import opened Timestamp
  import opened Bluefin
  import opened Directives

  /** One `log_event` call: `("SENT", msg)` or `("RECIEVED", msg)`. */
  datatype LogEntry = Sent(msg: Msg) | Received(raw: string)

  /** What one pass of `while True` sees: the time read by `send_status`, the
      mail `receive_mail` returned, the autonomy engine's output, and the time
      read for each of its pieces. */
  datatype Cycle = Cycle(statusTime: WallTime, mail: seq<string>, output: string, clock: nat -> WallTime)

  /** The event log, the messages handed to the client in order, the number of
      cycles begun, and whether an exception ended the loop. */
  datatype Driver = Driver(log: seq<LogEntry>, handedOff: seq<Msg>, cycles: nat, terminated: bool)

  const LogAllOn: Msg := BPLOG("ALL", "ON")

  /** `send_status`: `BPSTS(hhmmss, 1, 'BWSI Autonomy OK')`. */
  function StatusMessage(t: WallTime): Msg {
    BPSTS(Hhmmss(t), 1, "BWSI Autonomy OK")
  }

  /** `BackSeat.send_message`: log the message as sent, then hand it to the client. */
  function Send(d: Driver, m: Msg): Driver {
    d.(log := d.log + [Sent(m)], handedOff := d.handedOff + [m])
  }

  function SendAll(d: Driver, ms: seq<Msg>): (r: Driver)
    ensures r.handedOff == d.handedOff + ms
    ensures |r.log| == |d.log| + |ms| && r.log[..|d.log|] == d.log
    ensures forall i :: 0 <= i < |ms| ==> r.log[|d.log| + i] == Sent(ms[i])
    ensures r.cycles == d.cycles && r.terminated == d.terminated
    decreases |ms|
  {
    if ms == [] then d else SendAll(Send(d, ms[0]), ms[1..])
  }

  /** `process_message` for each item of mail: log it as received. */
  function ReceiveAll(d: Driver, mail: seq<string>): Driver {
    d.(log := d.log + seq(|mail|, i requires 0 <= i < |mail| => Received(mail[i])))
  }

  /** A cycle with its autonomy output already translated: the status message
      it sends, the mail it logs, and what the translation sends and whether a
      piece raised. */
  datatype Plan = Plan(status: Msg, mail: seq<string>, t: Translation)

  function PlanOf(c: Cycle): Plan {
    Plan(StatusMessage(c.statusTime), c.mail, Translate(c.output, c.clock))
  }

  /** The cycle once the autonomy output has been translated. */
  function Dispatch(d: Driver, status: Msg, mail: seq<string>, t: Translation): Driver {
    var d' := SendAll(ReceiveAll(Send(d, status), mail), t.commands);
    d'.(cycles := d.cycles + 1, terminated := t.crashed)
  }

  function Perform(d: Driver, p: Plan): Driver {
    Dispatch(d, p.status, p.mail, p.t)
  }

  /** One cycle: status, then the mail, then the translated commands; a piece
      that raises ends the loop after the commands before it were sent. */
  function RunCycle(d: Driver, c: Cycle): Driver {
    Perform(d, PlanOf(c))
  }

  /** `run` up to the loop: `BPLOG('ALL', 'ON')` is sent once. */
  function Start(): Driver {
    Send(Driver([], [], 0, false), LogAllOn)
  }

  /** The loop: perform cycles in order until one raises or none is left. */
  function RunPlans(d: Driver, ps: seq<Plan>): Driver
    decreases |ps|
  {
    if ps == [] || d.terminated then d else RunPlans(Perform(d, ps[0]), ps[1..])
  }

  function Plans(cs: seq<Cycle>): (r: seq<Plan>)
    ensures |r| == |cs|
  {
    seq(|cs|, i requires 0 <= i < |cs| => PlanOf(cs[i]))
  }

  /** `run` over a finite prefix of the environment's cycles. */
  function Run(cs: seq<Cycle>): Driver {
    RunPlans(Start(), Plans(cs))
  }

  /** Translating every cycle's output first is the same loop as translating
      each as its cycle comes: a run is the first cycle, then the run of the
      rest. */
  lemma RunUnroll(d: Driver, cs: seq<Cycle>)
    requires cs != [] && !d.terminated
    ensures RunPlans(d, Plans(cs)) == RunPlans(RunCycle(d, cs[0]), Plans(cs[1..]))
  {
    var ps := Plans(cs);
    assert ps[0] == PlanOf(cs[0]);
    assert ps[1..] == Plans(cs[1..]);
  }

  // ---------------------------------------------------------------------------
  // Reference views of a run

  /** The messages the log records as sent, in log order. */
  function SentOf(log: seq<LogEntry>): seq<Msg> {
    if log == [] then []
    else (if log[0].Sent? then [log[0].msg] else []) + SentOf(log[1..])
  }

  /** How many status messages a message sequence holds. */
  function StatusCount(ms: seq<Msg>): nat {
    if ms == [] then 0 else (if ms[0].BPSTS? then 1 else 0) + StatusCount(ms[1..])
  }

  /** The send order the driver promises: the logging request exactly once and
      first, then only status and motion messages, a status message first. */
  ghost predicate Ordered(ms: seq<Msg>) {
    && |ms| >= 1 && ms[0] == LogAllOn
    && (forall i :: 1 <= i < |ms| ==> ms[i].BPSTS? || ms[i].BPRMB?)
    && (|ms| > 1 ==> ms[1].BPSTS?)
  }

  /** Whether a cycle's autonomy output makes the translation raise. */
  predicate Crashes(c: Cycle) {
    Translate(c.output, c.clock).crashed
  }

  lemma {:induction false} SentOfAppend(a: seq<LogEntry>, b: seq<LogEntry>)
    ensures SentOf(a + b) == SentOf(a) + SentOf(b)
    decreases |a|
  {
    if a == [] {
      assert a + b == b;
    } else {
      var h := if a[0].Sent? then [a[0].msg] else [];
      calc {
        SentOf(a + b);
        { assert (a + b)[0] == a[0]; }
        h + SentOf((a + b)[1..]);
        { assert (a + b)[1..] == a[1..] + b; }
        h + SentOf(a[1..] + b);
        { SentOfAppend(a[1..], b); }
        h + (SentOf(a[1..]) + SentOf(b));
        (h + SentOf(a[1..])) + SentOf(b);
        SentOf(a) + SentOf(b);
      }
    }
  }

  lemma {:induction false} SentOfSent(ms: seq<Msg>, log: seq<LogEntry>)
    requires |log| == |ms| && forall i :: 0 <= i < |ms| ==> log[i] == Sent(ms[i])
    ensures SentOf(log) == ms
    decreases |ms|
  {
    if ms != [] {
      SentOfSent(ms[1..], log[1..]);
    }
  }

  lemma {:induction false} SentOfReceived(log: seq<LogEntry>)
    requires forall i :: 0 <= i < |log| ==> log[i].Received?
    ensures SentOf(log) == []
    decreases |log|
  {
    if log != [] {
      SentOfReceived(log[1..]);
    }
  }

  lemma {:induction false} StatusCountAppend(a: seq<Msg>, b: seq<Msg>)
    ensures StatusCount(a + b) == StatusCount(a) + StatusCount(b)
    decreases |a|
  {
    if a == [] {
      assert a + b == b;
    } else {
      assert (a + b)[1..] == a[1..] + b;
      StatusCountAppend(a[1..], b);
    }
  }

  lemma {:induction false} StatusCountNone(ms: seq<Msg>)
    requires forall i :: 0 <= i < |ms| ==> ms[i].BPRMB?
    ensures StatusCount(ms) == 0
    decreases |ms|
  {
    if ms != [] {
      StatusCountNone(ms[1..]);
    }
  }

  /** The run invariant: the log records exactly the messages handed to the
      client, in the same order; they are in the promised order; and one status
      message was sent per cycle begun. */
  ghost predicate Inv(d: Driver) {
    && SentOf(d.log) == d.handedOff
    && Ordered(d.handedOff)
    && StatusCount(d.handedOff) == d.cycles
  }

  lemma StartInv()
    ensures Inv(Start())
  {
    assert SentOf([Sent(LogAllOn)]) == [LogAllOn];
  }

  /** A cycle first logs and sends its status message, then logs each item of
      mail in arrival order, then sends the translated commands. */
  lemma DispatchOrder(d: Driver, status: Msg, mail: seq<string>, t: Translation)
    ensures var r := Dispatch(d, status, mail, t);
      var n := |d.log|;
      && |r.log| == n + 1 + |mail| + |t.commands|
      && r.log[..n] == d.log
      && r.log[n] == Sent(status)
      && (forall i :: 0 <= i < |mail| ==> r.log[n + 1 + i] == Received(mail[i]))
      && (forall i :: 0 <= i < |t.commands| ==> r.log[n + 1 + |mail| + i] == Sent(t.commands[i]))
      && r.handedOff == d.handedOff + [status] + t.commands
      && r.cycles == d.cycles + 1
      && r.terminated == t.crashed
  {
    var d2 := ReceiveAll(Send(d, status), mail);
    assert d2.log[..|d.log|] == d.log;
    assert d2.log[|d.log|] == Sent(status);
  }

  lemma CommandsLogged(d: Driver, status: Msg, mail: seq<string>, t: Translation)
    requires forall m :: m in t.commands ==> m.BPRMB?
    ensures var r := Dispatch(d, status, mail, t);
      var n := |d.log|;
      && |r.log| >= n + 1 + |mail|
      && r.log[..n] == d.log
      && r.log[n] == Sent(status)
      && (forall i :: 0 <= i < |mail| ==> r.log[n + 1 + i] == Received(mail[i]))
      && (forall i :: n + 1 + |mail| <= i < |r.log| ==> r.log[i].Sent? && r.log[i].msg.BPRMB?)
      && r.cycles == d.cycles + 1
      && r.terminated == t.crashed
  {
    DispatchOrder(d, status, mail, t);
    var r := Dispatch(d, status, mail, t);
    var n := |d.log|;
    forall i | n + 1 + |mail| <= i < |r.log|
      ensures r.log[i].Sent? && r.log[i].msg.BPRMB?
    {
      var j := i - (n + 1 + |mail|);
      assert r.log[i] == Sent(t.commands[j]);
      assert t.commands[j] in t.commands;
    }
  }

  /** So a cycle's status message precedes its mail, which precedes its
      commands, all of which are motion requests; and the loop ends after the
      cycle exactly when its output raised. */
  lemma CycleOrder(d: Driver, c: Cycle)
    ensures var r := RunCycle(d, c);
      var n := |d.log|;
      && |r.log| >= n + 1 + |c.mail|
      && r.log[..n] == d.log
      && r.log[n] == Sent(StatusMessage(c.statusTime))
      && (forall i :: 0 <= i < |c.mail| ==> r.log[n + 1 + i] == Received(c.mail[i]))
      && (forall i :: n + 1 + |c.mail| <= i < |r.log| ==> r.log[i].Sent? && r.log[i].msg.BPRMB?)
      && r.cycles == d.cycles + 1
      && (r.terminated <==> Crashes(c))
  {
    var t := Translate(c.output, c.clock);
    TranslateShape(c.output, c.clock);
    CommandsLogged(d, StatusMessage(c.statusTime), c.mail, t);
  }

  /** The log of a cycle records as sent exactly what was handed to the client. */
  lemma DispatchSent(d: Driver, status: Msg, mail: seq<string>, t: Translation)
    requires SentOf(d.log) == d.handedOff
    ensures SentOf(Dispatch(d, status, mail, t).log) == Dispatch(d, status, mail, t).handedOff
  {
    var r := Dispatch(d, status, mail, t);
    var n := |d.log|;
    DispatchOrder(d, status, mail, t);
    var a := d.log + [Sent(status)];
    var mailLog := r.log[n + 1..n + 1 + |mail|];
    var cmdLog := r.log[n + 1 + |mail|..];
    assert r.log == a + mailLog + cmdLog;
    SentOfAppend(a + mailLog, cmdLog);
    SentOfAppend(a, mailLog);
    SentOfAppend(d.log, [Sent(status)]);
    assert SentOf([Sent(status)]) == [status];
    SentOfReceived(mailLog);
    SentOfSent(t.commands, cmdLog);
    calc {
      SentOf(r.log);
      SentOf(a + mailLog) + SentOf(cmdLog);
      SentOf(a) + SentOf(mailLog) + SentOf(cmdLog);
      d.handedOff + [status] + [] + t.commands;
      { assert d.handedOff + [status] + [] == d.handedOff + [status]; }
      r.handedOff;
    }
  }

  /** A cycle hands over one more status message. */
  lemma DispatchCount(d: Driver, status: Msg, mail: seq<string>, t: Translation)
    requires StatusCount(d.handedOff) == d.cycles
    requires status.BPSTS?
    requires forall m :: m in t.commands ==> m.BPRMB?
    ensures StatusCount(Dispatch(d, status, mail, t).handedOff) == Dispatch(d, status, mail, t).cycles
  {
    DispatchOrder(d, status, mail, t);
    var cmds := t.commands;
    StatusCountAppend(d.handedOff + [status], cmds);
    StatusCountAppend(d.handedOff, [status]);
    assert forall i :: 0 <= i < |cmds| ==> cmds[i] in cmds;
    StatusCountNone(cmds);
  }

  lemma DispatchOrdered(d: Driver, status: Msg, mail: seq<string>, t: Translation)
    requires Ordered(d.handedOff)
    requires status.BPSTS?
    requires forall m :: m in t.commands ==> m.BPRMB?
    ensures Ordered(Dispatch(d, status, mail, t).handedOff)
  {
    DispatchOrder(d, status, mail, t);
    var h := Dispatch(d, status, mail, t).handedOff;
    var n := |d.handedOff|;
    assert h[n] == status;
    forall i | 1 <= i < |h|
      ensures h[i].BPSTS? || h[i].BPRMB?
    {
      if i > n {
        assert h[i] == t.commands[i - n - 1];
        assert h[i] in t.commands;
      } else if i < n {
        assert h[i] == d.handedOff[i];
      }
    }
  }

  lemma DispatchInv(d: Driver, status: Msg, mail: seq<string>, t: Translation)
    requires Inv(d)
    requires status.BPSTS?
    requires forall m :: m in t.commands ==> m.BPRMB?
    ensures Inv(Dispatch(d, status, mail, t))
  {
    DispatchSent(d, status, mail, t);
    DispatchCount(d, status, mail, t);
    DispatchOrdered(d, status, mail, t);
  }

  /** What every translated cycle satisfies: it sends a status message, and
      every command it sends is a motion request. */
  ghost predicate WellFormed(p: Plan) {
    p.status.BPSTS? && forall m :: m in p.t.commands ==> m.BPRMB?
  }

  lemma PlanWellFormed(c: Cycle)
    ensures WellFormed(PlanOf(c))
  {
    TranslateShape(c.output, c.clock);
  }

  lemma {:induction false} RunPlansInv(d: Driver, ps: seq<Plan>)
    requires Inv(d)
    requires forall i :: 0 <= i < |ps| ==> WellFormed(ps[i])
    ensures Inv(RunPlans(d, ps))
    decreases |ps|
  {
    if ps != [] && !d.terminated {
      assert WellFormed(ps[0]);
      DispatchInv(d, ps[0].status, ps[0].mail, ps[0].t);
      assert forall i :: 0 <= i < |ps[1..]| ==> ps[1..][i] == ps[i + 1];
      RunPlansInv(Perform(d, ps[0]), ps[1..]);
    }
  }

  /** Over any run: `BPLOG('ALL','ON')` is sent first and never again; after it
      only status and motion messages are sent, a status message first; one
      status message per cycle; and everything sent is logged as sent, in order. */
  lemma RunOrder(cs: seq<Cycle>)
    ensures var d := Run(cs);
      && |d.handedOff| >= 1 && d.handedOff[0] == LogAllOn
      && (forall i :: 1 <= i < |d.handedOff| ==> d.handedOff[i] != LogAllOn)
      && (|d.handedOff| > 1 ==> d.handedOff[1].BPSTS?)
      && (forall i :: 1 <= i < |d.handedOff| ==> d.handedOff[i].BPSTS? || d.handedOff[i].BPRMB?)
      && StatusCount(d.handedOff) == d.cycles
      && SentOf(d.log) == d.handedOff
  {
    StartInv();
    var ps := Plans(cs);
    forall i | 0 <= i < |ps|
      ensures WellFormed(ps[i])
    {
      PlanWellFormed(cs[i]);
    }
    RunPlansInv(Start(), ps);
  }

  /** The loop stops exactly at the first plan that raised; plans after it are
      never performed. */
  lemma {:induction false} RunPlansStops(d: Driver, ps: seq<Plan>)
    requires !d.terminated
    ensures var r := RunPlans(d, ps);
      var k := r.cycles - d.cycles;
      && d.cycles <= r.cycles <= d.cycles + |ps|
      && (forall i :: 0 <= i < k - 1 ==> !ps[i].t.crashed)
      && (r.terminated <==> k >= 1 && ps[k - 1].t.crashed)
      && (!r.terminated ==> k == |ps|)
    decreases |ps|
  {
    if ps != [] {
      var d1 := Perform(d, ps[0]);
      assert d1.cycles == d.cycles + 1 && d1.terminated == ps[0].t.crashed;
      if !d1.terminated {
        RunPlansStops(d1, ps[1..]);
        var r := RunPlans(d, ps);
        var k := r.cycles - d.cycles;
        assert forall i :: 1 <= i < |ps| ==> ps[i] == ps[1..][i - 1];
        if r.terminated {
          assert ps[k - 1] == ps[1..][k - 2];
        }
      }
    }
  }

  lemma CrashingPlans(cs: seq<Cycle>)
    ensures forall i :: 0 <= i < |cs| ==> Plans(cs)[i].t.crashed == Crashes(cs[i])
  {
  }

  /** At most one cycle per element, and all of them unless one raised. */
  lemma RunStopsCount(cs: seq<Cycle>)
    ensures var d := Run(cs);
      && d.cycles <= |cs|
      && (!d.terminated ==> d.cycles == |cs|)
  {
    RunPlansStops(Start(), Plans(cs));
  }

  /** No cycle before the last one begun raised. */
  lemma RunStopsBefore(cs: seq<Cycle>)
    ensures var d := Run(cs);
      d.cycles <= |cs| && forall i :: 0 <= i < d.cycles - 1 ==> !Crashes(cs[i])
  {
    RunPlansStops(Start(), Plans(cs));
    CrashingPlans(cs);
  }

  /** The loop ended early exactly when the last cycle begun raised. */
  lemma RunStopsAt(cs: seq<Cycle>)
    ensures var d := Run(cs);
      d.cycles <= |cs| && (d.terminated <==> d.cycles >= 1 && Crashes(cs[d.cycles - 1]))
  {
    RunPlansStops(Start(), Plans(cs));
    CrashingPlans(cs);
  }

  /** The loop stops exactly at the first cycle whose output raises; cycles
      after it are never begun. */
  lemma RunStops(cs: seq<Cycle>)
    ensures var d := Run(cs);
      && d.cycles <= |cs|
      && (forall i :: 0 <= i < d.cycles - 1 ==> !Crashes(cs[i]))
      && (d.terminated <==> d.cycles >= 1 && Crashes(cs[d.cycles - 1]))
      && (!d.terminated ==> d.cycles == |cs|)
  {
    RunStopsCount(cs);
    RunStopsBefore(cs);
    RunStopsAt(cs);
  }

  // ---------------------------------------------------------------------------
  // Command line

  datatype Config = Config(host: string, port: int)

  const DefaultHost: string := "localhost"
  const DefaultPort: int := 8042

  /** `int(s)` for an optional sign followed by decimal digits. */
  function ParseInt(s: string): (r: Option<int>)
    ensures r.Some? ==> |s| >= 1
  {
    if s == [] then None
    else
      var negative := s[0] == '-';
      var digits := if s[0] == '-' || s[0] == '+' then s[1..] else s;
      if digits != [] && AllDigits(digits) then
        var v: int := Value(digits);
        Some(if negative then -v else v)
      else None
  }

  /** The decimal text `str(n)` of an integer. */
  function IntText(n: int): string {
    if n < 0 then "-" + Decimal(-n) else Decimal(n)
  }

  /** Unsigned digits read as their value. */
  lemma ParseDigits(s: string)
    requires s != [] && AllDigits(s)
    ensures ParseInt(s) == Some(Value(s))
  {
    assert IsDigit(s[0]);
  }

  /** A minus sign before digits negates their value. */
  lemma ParseNegative(s: string)
    requires s != [] && AllDigits(s)
    ensures ParseInt("-" + s) == Some(-(Value(s) as int))
  {
    assert ("-" + s)[1..] == s;
  }

  /** `int` reads back every integer `str` writes. */
  lemma ParseIntText(n: int)
    ensures ParseInt(IntText(n)) == Some(n)
  {
    if n < 0 {
      var t := Decimal(-n);
      calc {
        ParseInt(IntText(n));
        ParseInt("-" + t);
        { ParseNegative(t); }
        Some(-(Value(t) as int));
        { DecimalValue(-n); }
        Some(n);
      }
    } else {
      var t := Decimal(n);
      calc {
        ParseInt(IntText(n));
        ParseInt(t);
        { ParseDigits(t); }
        Some(Value(t) as int);
        { DecimalValue(n); }
        Some(n);
      }
    }
  }


  /** `main`'s reading of `sys.argv` (whose first element is the program
      name); `int` raising on a malformed port is the failure. */
  function ParseArgs(argv: seq<string>): (r: Result<Config, string>)
    ensures r.Success? ==> r.value.host == (if |argv| > 1 then argv[1] else DefaultHost)
    ensures |argv| <= 2 ==> r == Success(Config(if |argv| > 1 then argv[1] else DefaultHost, DefaultPort))
    ensures |argv| > 2 ==> (r.Success? <==> ParseInt(argv[2]).Some?)
    ensures |argv| > 2 && r.Success? ==> Some(r.value.port) == ParseInt(argv[2])
  {
    var host := if |argv| > 1 then argv[1] else DefaultHost;
    if |argv| > 2 then
      match ParseInt(argv[2])
      case Some(p) => Success(Config(host, p))
      case None => Failure("invalid literal for int()")
    else Success(Config(host, DefaultPort))
  }

  /** With host and port given, the port is the number written. */
  lemma ParseArgsPort(prog: string, host: string, port: int, rest: seq<string>)
    ensures ParseArgs([prog, host, IntText(port)] + rest) == Success(Config(host, port))
  {
    ParseIntText(port);
  }
}
