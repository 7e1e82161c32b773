/** Translation of the autonomy engine's output string into motion requests,
    exactly as the back seat does it: split on `;`, split each piece on a single
    space, test the first token for `turn` before the second for `thruster`,
    and index the second token before checking the count, so a piece of one
    token raises and ends the back seat's loop. */
module Directives {
  import opened Wrappers
  import opened Text
  import opened Timestamp
  import opened Bluefin

  /** What one piece of the output does: send a command, nothing, or raise
      `IndexError` on `args[1]`. */
  datatype Step = Emit(cmd: Msg) | Skip | Crash

  /** The commands sent before the output was used up or a piece raised. */
  datatype Translation = Translation(commands: seq<Msg>, crashed: bool)

  /** The body of `for command in command_str.split(';')` for one piece, with
      `ts` the timestamp taken just before the tests. */
  function TranslatePiece(piece: string, ts: string): Step {
    var args := Split(piece, ' ');
    if args[0] == "turn" && |args| == 2 then Emit(TurnCommand(ts, args[1]))
    else if |args| < 2 then Crash
    else if args[1] == "thruster" && |args| == 2 then Emit(ThrustCommand(ts, args[1]))
    else Skip
  }

  /** Each piece with the timestamp read for it: `clock(k)` is the wall-clock
      time read at the `k`-th piece. */
  function Steps(pieces: seq<string>, clock: nat -> WallTime): (r: seq<Step>)
    ensures |r| == |pieces|
  {
    seq(|pieces|, k requires 0 <= k < |pieces| => TranslatePiece(pieces[k], Hhmmss(clock(k))))
  }

  /** Running the steps in order: each command is sent as its piece is
      reached, and the first piece that raises ends the loop. */
  function Collect(steps: seq<Step>): Translation
    decreases |steps|
  {
    if steps == [] then Translation([], false)
    else
      match steps[0]
      case Crash => Translation([], true)
      case Skip => Collect(steps[1..])
      case Emit(m) =>
        var rest := Collect(steps[1..]);
        Translation([m] + rest.commands, rest.crashed)
  }

  /** The whole of lines 63-75: an empty output is not split at all. */
  function Translate(output: string, clock: nat -> WallTime): Translation {
    if output == "" then Translation([], false)
    else Collect(Steps(Split(output, ';'), clock))
  }

  // ---------------------------------------------------------------------------
  // One piece

  /** A piece raises exactly when it holds no space, i.e. splits into one token:
      `turn` alone, `spin`, or the empty piece. */
  lemma PieceCrashes(piece: string, ts: string)
    ensures TranslatePiece(piece, ts).Crash? <==> ' ' !in piece
  {
    SplitSingle(piece, ' ');
  }

  /** A turn command comes exactly from `turn`, one space, and a heading with
      no space; the heading is sent as written, even when it is `thruster`. */
  lemma PieceTurn(piece: string, ts: string, heading: string)
    ensures TranslatePiece(piece, ts) == Emit(TurnCommand(ts, heading)) <==>
      piece == "turn " + heading && ' ' !in heading
  {
    SplitTwo(piece, ' ', "turn", heading);
    assert "turn " + heading == "turn" + [' '] + heading;
  }

  /** A speed command comes only from a first token other than `turn`, one
      space, and `thruster`; the speed it carries is always the literal
      `thruster`, never a number. */
  lemma PieceThrustSource(piece: string, ts: string)
    requires TranslatePiece(piece, ts).Emit? && TranslatePiece(piece, ts).cmd.speed.Some?
    ensures TranslatePiece(piece, ts) == Emit(ThrustCommand(ts, "thruster"))
    ensures var first := Split(piece, ' ')[0];
      piece == first + " thruster" && ' ' !in first && first != "turn"
  {
    var args := Split(piece, ' ');
    assert args == [args[0], "thruster"];
    SplitTwo(piece, ' ', args[0], "thruster");
    assert args[0] + [' '] + "thruster" == args[0] + " thruster";
  }

  /** Conversely every such piece yields that speed command. */
  lemma PieceThrust(first: string, ts: string)
    requires ' ' !in first && first != "turn"
    ensures TranslatePiece(first + " thruster", ts) == Emit(ThrustCommand(ts, "thruster"))
  {
    assert first + " thruster" == first + [' '] + "thruster";
    SplitTwo(first + " thruster", ' ', first, "thruster");
  }

  /** Every other piece is dropped without error: one with two or more spaces
      (three or more tokens), or two tokens matching neither rule. */
  lemma PieceSkip(piece: string, ts: string)
    ensures TranslatePiece(piece, ts) == Skip <==>
      Occurrences(piece, ' ') >= 2 ||
      exists a, b :: piece == a + " " + b && ' ' !in a && ' ' !in b && a != "turn" && b != "thruster"
  {
    var args := Split(piece, ' ');
    SplitJoinInverse(piece, ' ');
    if TranslatePiece(piece, ts) == Skip && |args| == 2 {
      var a, b := args[0], args[1];
      SplitTwo(piece, ' ', a, b);
      assert args == [a, b];
      assert piece == a + " " + b;
    }
    if exists a, b :: piece == a + " " + b && ' ' !in a && ' ' !in b && a != "turn" && b != "thruster" {
      var a, b :| piece == a + " " + b && ' ' !in a && ' ' !in b && a != "turn" && b != "thruster";
      assert piece == a + [' '] + b;
      SplitTwo(piece, ' ', a, b);
    }
  }

  // ---------------------------------------------------------------------------
  // A whole output

  /** Steps are taken in order: running `s1 + s2` runs `s1`, and only if that
      did not raise goes on to `s2`. */
  lemma {:induction false} CollectAppend(s1: seq<Step>, s2: seq<Step>)
    ensures var t1, t2 := Collect(s1), Collect(s2);
      Collect(s1 + s2) == if t1.crashed then t1 else Translation(t1.commands + t2.commands, t2.crashed)
    decreases |s1|
  {
    if s1 == [] {
      assert s1 + s2 == s2;
      assert [] + Collect(s2).commands == Collect(s2).commands;
    } else {
      assert (s1 + s2)[0] == s1[0];
      assert (s1 + s2)[1..] == s1[1..] + s2;
      CollectAppend(s1[1..], s2);
      var r1, r2 := Collect(s1[1..]), Collect(s2);
      if s1[0].Emit? && !r1.crashed {
        assert [s1[0].cmd] + (r1.commands + r2.commands) == ([s1[0].cmd] + r1.commands) + r2.commands;
      }
    }
  }

  /** The run raises exactly when some step raises; every command sent is the
      command of some step (`CollectAppend` gives their order). */
  lemma {:induction false} CollectContents(steps: seq<Step>)
    ensures Collect(steps).crashed <==> HasCrash(steps)
    ensures |Collect(steps).commands| <= |steps|
    ensures forall m :: m in Collect(steps).commands ==> Emit(m) in steps
    decreases |steps|
  {
    if steps != [] {
      CollectContents(steps[1..]);
      assert forall j :: 1 <= j < |steps| ==> steps[j] == steps[1..][j - 1];
      assert steps == [steps[0]] + steps[1..];
    }
  }

  /** Some piece holds no space character. */
  predicate HasBarePiece(pieces: seq<string>) {
    exists j :: 0 <= j < |pieces| && ' ' !in pieces[j]
  }

  predicate HasCrash(steps: seq<Step>) {
    exists j :: 0 <= j < |steps| && steps[j].Crash?
  }

  lemma StepsCrash(pieces: seq<string>, clock: nat -> WallTime)
    ensures HasCrash(Steps(pieces, clock)) <==> HasBarePiece(pieces)
  {
    var steps := Steps(pieces, clock);
    forall j | 0 <= j < |pieces|
      ensures steps[j].Crash? <==> ' ' !in pieces[j]
    {
      PieceCrashes(pieces[j], Hhmmss(clock(j)));
    }
  }

  /** The translation raises exactly when the output is non-empty and one of
      its `;`-pieces holds no space. */
  lemma TranslateCrashes(output: string, clock: nat -> WallTime)
    ensures Translate(output, clock).crashed <==> output != "" && HasBarePiece(Split(output, ';'))
  {
    if output != "" {
      var pieces := Split(output, ';');
      var steps := Steps(pieces, clock);
      assert Translate(output, clock) == Collect(steps);
      CollectContents(steps);
      StepsCrash(pieces, clock);
    }
  }

  /** Every command sent is a turn or speed request stamped with a nine-character
      timestamp, and every speed request carries `thruster`. */
  lemma TranslateShape(output: string, clock: nat -> WallTime)
    ensures forall m :: m in Translate(output, clock).commands ==>
      m.BPRMB? && |m.ts| == 9 &&
      ((m.heading.Some? && m == TurnCommand(m.ts, m.heading.value)) || m == ThrustCommand(m.ts, "thruster"))
  {
    if output != "" {
      var pieces := Split(output, ';');
      var steps := Steps(pieces, clock);
      CollectContents(steps);
      forall m | Emit(m) in steps
        ensures m.BPRMB? && |m.ts| == 9 &&
          ((m.heading.Some? && m == TurnCommand(m.ts, m.heading.value)) || m == ThrustCommand(m.ts, "thruster"))
      {
        var j :| 0 <= j < |steps| && steps[j] == Emit(m);
        var ts := Hhmmss(clock(j));
        if m.speed.Some? {
          PieceThrustSource(pieces[j], ts);
        }
      }
    }
  }

  // ---------------------------------------------------------------------------
  // Worked cases

  /** An empty output sends nothing and does not raise. */
  lemma EmptyOutput(clock: nat -> WallTime)
    ensures Translate("", clock) == Translation([], false)
  {
  }


  /** A single `turn <heading>` directive sends one turn request. */
  lemma TurnOutput(heading: string, clock: nat -> WallTime)
    requires ' ' !in heading && ';' !in heading
    ensures Translate("turn " + heading, clock) == Translation([TurnCommand(Hhmmss(clock(0)), heading)], false)
  {
    var m := TurnCommand(Hhmmss(clock(0)), heading);
    SplitNoSeparator("turn " + heading, ';');
    PieceTurn("turn " + heading, Hhmmss(clock(0)), heading);
    assert Steps(["turn " + heading], clock) == [Emit(m)];
    assert Collect([Emit(m)]) == Translation([m] + [], false);
  }

  /** A single `<first> thruster` directive sends one speed request, whose
      speed is `thruster`. */
  lemma ThrustOutput(first: string, clock: nat -> WallTime)
    requires ' ' !in first && ';' !in first && first != "turn"
    ensures Translate(first + " thruster", clock) == Translation([ThrustCommand(Hhmmss(clock(0)), "thruster")], false)
  {
    var m := ThrustCommand(Hhmmss(clock(0)), "thruster");
    SplitNoSeparator(first + " thruster", ';');
    PieceThrust(first, Hhmmss(clock(0)));
    assert Steps([first + " thruster"], clock) == [Emit(m)];
    assert Collect([Emit(m)]) == Translation([m] + [], false);
  }

  /** A single two-token directive matching neither rule sends nothing and
      does not raise. */
  lemma UnknownOutput(first: string, second: string, clock: nat -> WallTime)
    requires ' ' !in first && ';' !in first && ' ' !in second && ';' !in second
    requires first != "turn" && second != "thruster"
    ensures Translate(first + " " + second, clock) == Translation([], false)
  {
    var s := first + " " + second;
    assert s == first + [' '] + second;
    SplitNoSeparator(s, ';');
    SplitTwo(s, ' ', first, second);
    assert Steps([s], clock) == [Skip];
    assert Collect([Skip]) == Collect([]);
  }

  /** A turn directive followed by an empty piece (`"turn 090;"`) sends the
      turn request, then raises on the empty piece. */
  lemma TurnThenEmptyPiece(heading: string, clock: nat -> WallTime)
    requires ' ' !in heading && ';' !in heading
    ensures Translate("turn " + heading + ";", clock) ==
      Translation([TurnCommand(Hhmmss(clock(0)), heading)], true)
  {
    var first := "turn " + heading;
    var m := TurnCommand(Hhmmss(clock(0)), heading);
    assert first + ";" == first + [';'] + "";
    SplitTwo(first + ";", ';', first, "");
    PieceTurn(first, Hhmmss(clock(0)), heading);
    PieceCrashes("", Hhmmss(clock(1)));
    var steps := Steps([first, ""], clock);
    assert steps == [Emit(m), Crash];
    assert steps[1..] == [Crash];
    assert Collect(steps) == Translation([m] + [], true);
  }
}
