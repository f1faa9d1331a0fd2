/**
 The read-parse loop of Program.Main, with the console replaced by the list of
 lines the user types. Each line goes to ParseCommand; a raised exception is
 shown and the loop carries on with the store as it was; the loop ends after
 the first line that asks to exit.
 */
module Session {
  import opened Notes
  import opened Commands

  /** The store after the loop, the outcome of each line it read, and whether it
      ended on an exit request rather than running out of lines. */
  datatype Session = Session(user: User, outcomes: seq<Outcome>, exited: bool)

  predicate IsQuit(cmd: string) {
    Verb(cmd) in {"q", "quit"}
  }

  /** Position of the first line that asks to exit, or -1 when none does. */
  function FirstQuit(cmds: seq<string>): (k: int)
    ensures -1 <= k < |cmds|
    ensures k == -1 <==> forall j :: 0 <= j < |cmds| ==> !IsQuit(cmds[j])
    ensures 0 <= k ==> IsQuit(cmds[k]) && forall j :: 0 <= j < k ==> !IsQuit(cmds[j])
    decreases |cmds|
  {
    if cmds == [] then -1
    else if IsQuit(cmds[0]) then 0
    else
      var k := FirstQuit(cmds[1..]);
      assert forall j :: 1 <= j < |cmds| ==> cmds[j] == cmds[1..][j - 1];
      if k == -1 then -1 else k + 1
  }

  /** The shape of Main's loop for any handler `exec` of one line: run each line
      on the store the previous one left, and stop after a line that asks to exit. */
  function Loop(exec: (User, string) -> Step, u: User, cmds: seq<string>): (s: Session)
    ensures |s.outcomes| <= |cmds|
    ensures !s.exited ==> |s.outcomes| == |cmds|
    decreases |cmds|
  {
    if cmds == [] then Session(u, [], false)
    else
      var step := exec(u, cmds[0]);
      if step.exit then Session(step.user, [step.outcome], true)
      else
        var rest := Loop(exec, step.user, cmds[1..]);
        Session(rest.user, [step.outcome] + rest.outcomes, rest.exited)
  }

  /** One line runs `exec` on the starting store, and the loop exits exactly
      when that step asks to. */
  lemma LoopOne(exec: (User, string) -> Step, u: User, c: string)
    ensures Loop(exec, u, [c]) == Session(exec(u, c).user, [exec(u, c).outcome], exec(u, c).exit)
  {
    var step := exec(u, c);
    assert [c][1..] == [];
    assert Loop(exec, step.user, []) == Session(step.user, [], false);
    assert [step.outcome] + [] == [step.outcome];
  }

  /** Running two batches of lines, the second from where the first left the
      store, is running them together, provided the first does not exit. */
  lemma {:induction false} LoopConcat(exec: (User, string) -> Step, u: User, xs: seq<string>, ys: seq<string>)
    requires !Loop(exec, u, xs).exited
    ensures Loop(exec, u, xs + ys) ==
      var s := Loop(exec, u, xs);
      var t := Loop(exec, s.user, ys);
      Session(t.user, s.outcomes + t.outcomes, t.exited)
    decreases |xs|
  {
    if xs == [] {
      assert [] + ys == ys;
    } else {
      var a := xs + ys;
      assert a[0] == xs[0] && a[1..] == xs[1..] + ys;
      var step := exec(u, xs[0]);
      var s' := Loop(exec, step.user, xs[1..]);
      var t := Loop(exec, s'.user, ys);
      LoopConcat(exec, step.user, xs[1..], ys);
      assert [step.outcome] + (s'.outcomes + t.outcomes) == ([step.outcome] + s'.outcomes) + t.outcomes;
    }
  }

  /** Lines after one that always asks to exit are never read. */
  lemma {:induction false} LoopStopsAt(exec: (User, string) -> Step, u: User, cmds: seq<string>, q: string, rest: seq<string>)
    requires forall v :: exec(v, q).exit
    ensures Loop(exec, u, cmds + [q] + rest) == Loop(exec, u, cmds + [q])
    decreases |cmds|
  {
    var a, b := cmds + [q] + rest, cmds + [q];
    if cmds == [] {
      assert a[0] == q && b[0] == q;
    } else {
      assert a[0] == cmds[0] && b[0] == cmds[0];
      assert a[1..] == cmds[1..] + [q] + rest && b[1..] == cmds[1..] + [q];
      var step := exec(u, cmds[0]);
      if !step.exit {
        LoopStopsAt(exec, step.user, cmds[1..], q, rest);
      }
    }
  }

  /** The loop of Main over the lines `cmds`, starting from store `u`: it reads
      up to and including the first quit line, or every line when none quits. */
  function Run(u: User, cmds: seq<string>): (s: Session)
    ensures s.exited <==> FirstQuit(cmds) != -1
    ensures |s.outcomes| == if s.exited then FirstQuit(cmds) + 1 else |cmds|
  {
    RunQuits(u, cmds);
    Loop(ParseCommand, u, cmds)
  }

  /** ParseCommand asks to exit exactly on a quit line, so the loop stops at the first one. */
  lemma {:induction false} RunQuits(u: User, cmds: seq<string>)
    ensures Loop(ParseCommand, u, cmds).exited <==> FirstQuit(cmds) != -1
    ensures Loop(ParseCommand, u, cmds).exited ==> |Loop(ParseCommand, u, cmds).outcomes| == FirstQuit(cmds) + 1
    decreases |cmds|
  {
    if cmds != [] {
      var step := ParseCommand(u, cmds[0]);
      assert step.exit <==> IsQuit(cmds[0]);
      if !step.exit {
        RunQuits(step.user, cmds[1..]);
      }
    }
  }

  /** A one-line session runs ParseCommand on the starting store and exits
      exactly on a quit line. With RunConcat this fixes every session: each
      line runs on the store the previous line left. */
  lemma RunOne(u: User, c: string)
    ensures Run(u, [c]) == Session(ParseCommand(u, c).user, [ParseCommand(u, c).outcome], IsQuit(c))
  {
    assert Run(u, [c]) == Loop(ParseCommand, u, [c]);
    LoopOne(ParseCommand, u, c);
  }

  /** The first outcome of a session is that of its first line. */
  lemma RunFirstOutcome(u: User, cmds: seq<string>)
    requires cmds != []
    ensures Run(u, cmds).outcomes != [] && Run(u, cmds).outcomes[0] == ParseCommand(u, cmds[0]).outcome
  {
  }

  /** Lines after the first quit are never read. */
  lemma RunStopsAtQuit(u: User, cmds: seq<string>, q: string, rest: seq<string>)
    requires IsQuit(q)
    ensures Run(u, cmds + [q] + rest) == Run(u, cmds + [q])
  {
    LoopStopsAt(ParseCommand, u, cmds, q, rest);
  }

  /** Running two batches of lines, the second from where the first left the
      store, is running them together, provided the first does not quit. */
  lemma RunConcat(u: User, xs: seq<string>, ys: seq<string>)
    requires FirstQuit(xs) == -1
    ensures Run(u, xs + ys) ==
      var s := Run(u, xs);
      var t := Run(s.user, ys);
      Session(t.user, s.outcomes + t.outcomes, t.exited)
  {
    var s := Run(u, xs);
    assert s == Loop(ParseCommand, u, xs) && !s.exited;
    assert Run(s.user, ys) == Loop(ParseCommand, s.user, ys);
    assert Run(u, xs + ys) == Loop(ParseCommand, u, xs + ys);
    LoopConcat(ParseCommand, u, xs, ys);
  }

  /** A session without edit commands keeps titles distinct: Add refuses a title
      already in use and Remove only deletes. */
  lemma {:induction false} RunKeepsTitlesDistinct(u: User, cmds: seq<string>)
    requires DistinctTitles(u)
    requires forall j :: 0 <= j < |cmds| ==> ActionOf(Verb(cmds[j])) != Edit
    ensures DistinctTitles(Run(u, cmds).user)
    decreases |cmds|
  {
    if cmds != [] {
      var step := ParseCommand(u, cmds[0]);
      if !step.exit {
        assert forall j :: 1 <= j < |cmds| ==> cmds[1..][j - 1] == cmds[j];
        RunKeepsTitlesDistinct(step.user, cmds[1..]);
      }
    }
  }
}
