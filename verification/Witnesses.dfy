/** Concrete runs on one page: what goes wrong without the page discipline, and what a
    message reading "NULL" does within it. */
module Witnesses {
  import opened MsiCache
  import opened Protocol
  import opened Matching
  import opened Coherence
  import opened Progress
  import Schedules

  const INV1 := Request(0, InvalidateOp, 1)
  const DONE1 := Reply("Success", INV1)
  const GET1 := Request(0, ReadOp, 1)
  const GET2 := Request(0, ReadOp, 2)

  function Peer(st: State, text: string, main: Main, responder: Responder,
                requests: seq<Request>, replies: seq<Reply>, sent: nat): Node {
    Node(Cache([st], [text]), main, responder, Conn(requests, replies), sent)
  }

  function WritingX(stage: Stage): Main { Busy(Job(Write("x"), 0, 0), 0, stage) }
  function WritingY(stage: Stage): Main { Busy(Job(Write("y"), 0, 0), 0, stage) }
  function WritingNull(stage: Stage): Main { Busy(Job(Write("NULL"), 0, 0), 0, stage) }
  function Echoing(stage: Stage): Main { Busy(Job(Echo, 0, 0), 0, stage) }
  function Reading(stage: Stage): Main { Busy(Job(Read, 0, 0), 0, stage) }

  ghost predicate Reachable(t: System, disciplined: bool) {
    exists moves :: Run(Init(1), moves) == t && (disciplined ==> Disciplined(Init(1), moves))
  }

  lemma Step(s: System, move: Move, t: System, disciplined: bool) returns (next: System)
    requires WellFormed(s) && Apply(s, move) == t && (disciplined ==> !Overlap(t.a, t.b))
    requires Reachable(s, disciplined)
    ensures next == t && WellFormed(t) && Reachable(t, disciplined)
  {
    var moves :| Run(Init(1), moves) == s && (disciplined ==> Disciplined(Init(1), moves));
    assert (moves + [move])[..|moves|] == moves;
    if disciplined {
      DisciplinedSnoc(Init(1), moves, move);
    }
    assert Run(Init(1), moves + [move]) == t;
    next := t;
  }

  // A main starts a command, a main takes a step, a responder takes a step.
  lemma Begin(s: System, side: Side, job: Job, t: System, disciplined: bool) returns (next: System)
    requires WellFormed(s) && Reachable(s, disciplined)
    requires (if side.A? then s.a else s.b).main.Prompt? && IsCommand(job, |s.a.cache.state|)
    requires
      var main := Busy(job, job.first, Ready);
      && t.log == s.log
      && if side.A? then t.a == s.a.(main := main) && t.b == s.b else t.a == s.a && t.b == s.b.(main := main)
    requires disciplined ==> !Overlap(t.a, t.b)
    ensures next == t && WellFormed(t) && Reachable(t, disciplined)
  {
    next := Step(s, Move(side, Start(job)), t, disciplined);
  }

  lemma Go(s: System, side: Side, t: System, disciplined: bool) returns (next: System)
    requires WellFormed(s) && Reachable(s, disciplined)
    requires CanAdvance(if side.A? then s.a else s.b)
    requires
      var (me, events) := Advance(if side.A? then s.a else s.b);
      t.log == s.log + events && if side.A? then t.a == me && t.b == s.b else t.a == s.a && t.b == me
    requires disciplined ==> !Overlap(t.a, t.b)
    ensures next == t && WellFormed(t) && Reachable(t, disciplined)
  {
    next := Step(s, Move(side, MainStep), t, disciplined);
  }

  lemma Respond(s: System, side: Side, t: System, disciplined: bool) returns (next: System)
    requires WellFormed(s) && Reachable(s, disciplined)
    requires if side.A? then CanServe(s.a, s.b) else CanServe(s.b, s.a)
    requires t.log == s.log
    requires
      var (me, peer) := if side.A? then Serve(s.a, s.b) else Serve(s.b, s.a);
      if side.A? then t.a == me && t.b == peer else t.b == me && t.a == peer
    requires disciplined ==> !Overlap(t.a, t.b)
    ensures next == t && WellFormed(t) && Reachable(t, disciplined)
  {
    next := Step(s, Move(side, ServeStep), t, disciplined);
  }

  lemma ReachInit()
    ensures Init(1) == System(Peer(I, "", Prompt, Listening, [], [], 0), Peer(I, "", Prompt, Listening, [], [], 0), [])
    ensures Reachable(Init(1), true) && Reachable(Init(1), false)
  {
    assert Init(1).a.cache == Cache([I], [""]);
    assert Run(Init(1), []) == Init(1);
    assert Disciplined(Init(1), []);
  }

  function Crossing(): System {
    System(Peer(M, "x", WritingX(Awaiting), Listening, [INV1], [], 1),
           Peer(I, "", WritingY(Ready), Listening, [], [], 0), [])
  }

  lemma ReachCrossing()
    ensures Reachable(Crossing(), false)
  {
    hide Reachable, Run;
    ReachInit();
    var s := Init(1);
    s := Begin(s, A, Job(Write("x"), 0, 0), s.(a := s.a.(main := WritingX(Ready))), false);
    s := Go(s, A, s.(a := s.a.(main := WritingX(Writing))), false);
    s := Go(s, A, s.(a := s.a.(cache := Cache([I], ["x"]), main := WritingX(Marking))), false);
    s := Go(s, A, s.(a := s.a.(cache := Cache([M], ["x"]), main := WritingX(Sending))), false);
    s := Go(s, A, s.(a := s.a.(main := WritingX(Awaiting), conn := Conn([INV1], []), sent := 1)), false);
    s := Begin(s, B, Job(Write("y"), 0, 0), s.(b := s.b.(main := WritingY(Ready))), false);
    assert s.log == Crossing().log;
  }

  function Crossed(): System {
    System(Peer(M, "x", WritingX(Awaiting), Listening, [], [DONE1], 1),
           Peer(I, "", WritingY(Marking), Listening, [], [], 0), [])
  }

  lemma ReachCrossed()
    ensures Reachable(Crossed(), false)
  {
    hide Reachable, Run;
    ReachCrossing();
    var s := Crossing();
    s := Go(s, B, s.(b := s.b.(main := WritingY(Writing))), false);
    s := Go(s, B, s.(b := s.b.(cache := Cache([I], ["y"]), main := WritingY(Marking))), false);
    s := Respond(s, B, s.(a := s.a.(conn := Conn([], [])), b := s.b.(responder := Received(INV1))), false);
    s := Respond(s, B, s.(b := s.b.(responder := Dropping(INV1))), false);
    s := Respond(s, B, s.(b := s.b.(cache := Cache([I], [""]), responder := Replying(INV1, "Success"))), false);
    s := Respond(s, B, s.(a := s.a.(conn := Conn([], [DONE1])), b := s.b.(responder := Listening)), false);
    assert s.log == Crossed().log;
  }

  function Marked(): System {
    System(Peer(M, "x", Echoing(Ready), Listening, [], [], 1),
           Peer(M, "", WritingY(Awaiting), Listening, [INV1], [], 1), [Wrote(0, "x")])
  }

  lemma ReachMarked()
    ensures Reachable(Marked(), false)
  {
    hide Reachable, Run;
    ReachCrossed();
    var s := Crossed();
    s := Go(s, A, s.(a := s.a.(main := Echoing(Ready), conn := Conn([], [])), log := s.log + [Wrote(0, "x")]), false);
    s := Go(s, B, s.(b := s.b.(cache := Cache([M], [""]), main := WritingY(Sending))), false);
    s := Go(s, B, s.(b := s.b.(main := WritingY(Awaiting), conn := Conn([INV1], []), sent := 1)), false);
    assert s.log == Marked().log;
  }

  function BothDone(): System {
    System(Peer(I, "", Echoing(Ready), Listening, [], [], 1),
           Peer(M, "", Echoing(Ready), Listening, [], [], 1), [Wrote(0, "x"), Wrote(0, "y")])
  }

  lemma ReachBothDone()
    ensures Reachable(BothDone(), false)
  {
    hide Reachable, Run;
    ReachMarked();
    var s := Marked();
    s := Respond(s, A, s.(a := s.a.(responder := Received(INV1)), b := s.b.(conn := Conn([], []))), false);
    s := Respond(s, A, s.(a := s.a.(cache := Cache([I], ["x"]), responder := Dropping(INV1))), false);
    s := Respond(s, A, s.(a := s.a.(cache := Cache([I], [""]), responder := Replying(INV1, "Success"))), false);
    s := Respond(s, A, s.(a := s.a.(responder := Listening), b := s.b.(conn := Conn([], [DONE1]))), false);
    s := Go(s, B, s.(b := s.b.(main := Echoing(Ready), conn := Conn([], [])), log := s.log + [Wrote(0, "y")]), false);
    assert s.log == BothDone().log;
  }

  function Asking(): System {
    System(Peer(I, "", Prompt, Listening, [], [], 1),
           Peer(M, "", Echoing(Ready), Listening, [], [], 1), [Wrote(0, "x"), Wrote(0, "y"), Showed(0, "", Skipped)])
  }

  lemma ReachAsking()
    ensures Reachable(Asking(), false)
  {
    hide Reachable, Run;
    ReachBothDone();
    var s := BothDone();
    s := Go(s, A, s.(a := s.a.(main := Echoing(Formatting))), false);
    s := Go(s, A, s.(a := s.a.(main := Echoing(Checking("")))), false);
    s := Go(s, A, s.(a := s.a.(main := Echoing(Printing("", Skipped)))), false);
    s := Go(s, A, s.(a := s.a.(main := Prompt), log := s.log + [Showed(0, "", Skipped)]), false);
    assert s.log == Asking().log;
  }

  function Asked(): System {
    System(Peer(I, "", Reading(Awaiting), Listening, [GET2], [], 2),
           Peer(M, "", Echoing(Ready), Listening, [], [], 1), [Wrote(0, "x"), Wrote(0, "y"), Showed(0, "", Skipped)])
  }

  lemma ReachAsked()
    ensures Reachable(Asked(), false)
  {
    hide Reachable, Run;
    ReachAsking();
    var s := Asking();
    s := Begin(s, A, Job(Read, 0, 0), s.(a := s.a.(main := Reading(Ready))), false);
    s := Go(s, A, s.(a := s.a.(main := Reading(Formatting))), false);
    s := Go(s, A, s.(a := s.a.(main := Reading(Checking("")))), false);
    s := Go(s, A, s.(a := s.a.(main := Reading(Sending))), false);
    s := Go(s, A, s.(a := s.a.(main := Reading(Awaiting), conn := Conn([GET2], []), sent := 2)), false);
    assert s.log == Asked().log;
  }

  function Blocked(): System {
    System(Peer(I, "", Reading(Awaiting), Listening, [], [], 2),
           Peer(S, "", Echoing(Ready), Listening, [], [], 1), [Wrote(0, "x"), Wrote(0, "y"), Showed(0, "", Skipped)])
  }

  lemma ReachBlocked()
    ensures Reachable(Blocked(), false)
  {
    hide Reachable, Run;
    ReachAsked();
    var s := Asked();
    s := Respond(s, B, s.(a := s.a.(conn := Conn([], [])), b := s.b.(responder := Received(GET2))), false);
    s := Respond(s, B, s.(b := s.b.(cache := Cache([S], [""]), responder := Looked(GET2, true))), false);
    s := Respond(s, B, s.(b := s.b.(responder := Relented(GET2, true))), false);
    s := Respond(s, B, s.(b := s.b.(responder := Replying(GET2, ""))), false);
    s := Respond(s, B, s.(b := s.b.(responder := Listening)), false);
    assert s.log == Blocked().log;
  }

  function SentNull(): System {
    System(Peer(M, "NULL", WritingNull(Awaiting), Listening, [INV1], [], 1),
           Peer(I, "", Prompt, Listening, [], [], 0), [])
  }

  lemma ReachSentNull()
    ensures Reachable(SentNull(), true)
  {
    hide Reachable, Run;
    ReachInit();
    var s := Init(1);
    s := Begin(s, A, Job(Write("NULL"), 0, 0), s.(a := s.a.(main := WritingNull(Ready))), true);
    s := Go(s, A, s.(a := s.a.(main := WritingNull(Writing))), true);
    s := Go(s, A, s.(a := s.a.(cache := Cache([I], ["NULL"]), main := WritingNull(Marking))), true);
    s := Go(s, A, s.(a := s.a.(cache := Cache([M], ["NULL"]), main := WritingNull(Sending))), true);
    s := Go(s, A, s.(a := s.a.(main := WritingNull(Awaiting), conn := Conn([INV1], []), sent := 1)), true);
    assert s.log == SentNull().log;
  }

  function ServedNull(): System {
    System(Peer(M, "NULL", WritingNull(Awaiting), Listening, [], [DONE1], 1),
           Peer(I, "", Prompt, Listening, [], [], 0), [])
  }

  lemma ReachServedNull()
    ensures Reachable(ServedNull(), true)
  {
    hide Reachable, Run;
    ReachSentNull();
    var s := SentNull();
    s := Respond(s, B, s.(a := s.a.(conn := Conn([], [])), b := s.b.(responder := Received(INV1))), true);
    s := Respond(s, B, s.(b := s.b.(responder := Dropping(INV1))), true);
    s := Respond(s, B, s.(b := s.b.(responder := Replying(INV1, "Success"))), true);
    s := Respond(s, B, s.(a := s.a.(conn := Conn([], [DONE1])), b := s.b.(responder := Listening)), true);
    assert s.log == ServedNull().log;
  }

  function AskedNull(): System {
    System(Peer(M, "NULL", Echoing(Ready), Listening, [], [], 1),
           Peer(I, "", Reading(Sending), Listening, [], [], 0), [Wrote(0, "NULL")])
  }

  lemma ReachAskedNull()
    ensures Reachable(AskedNull(), true)
  {
    hide Reachable, Run;
    ReachServedNull();
    var s := ServedNull();
    s := Go(s, A, s.(a := s.a.(main := Echoing(Ready), conn := Conn([], [])), log := s.log + [Wrote(0, "NULL")]), true);
    s := Begin(s, B, Job(Read, 0, 0), s.(b := s.b.(main := Reading(Ready))), true);
    s := Go(s, B, s.(b := s.b.(main := Reading(Formatting))), true);
    s := Go(s, B, s.(b := s.b.(main := Reading(Checking("")))), true);
    s := Go(s, B, s.(b := s.b.(main := Reading(Sending))), true);
    assert s.log == AskedNull().log;
  }

  function GotNull(): System {
    System(Peer(S, "NULL", Echoing(Ready), Replying(GET1, "NULL"), [], [], 1),
           Peer(I, "", Reading(Awaiting), Listening, [], [], 1), [Wrote(0, "NULL")])
  }

  lemma ReachGotNull()
    ensures Reachable(GotNull(), true)
  {
    hide Reachable, Run;
    ReachAskedNull();
    var s := AskedNull();
    s := Go(s, B, s.(b := s.b.(main := Reading(Awaiting), conn := Conn([GET1], []), sent := 1)), true);
    s := Respond(s, A, s.(a := s.a.(responder := Received(GET1)), b := s.b.(conn := Conn([], []))), true);
    s := Respond(s, A, s.(a := s.a.(cache := Cache([S], ["NULL"]), responder := Looked(GET1, true))), true);
    s := Respond(s, A, s.(a := s.a.(responder := Relented(GET1, true))), true);
    s := Respond(s, A, s.(a := s.a.(responder := Replying(GET1, "NULL"))), true);
    assert s.log == GotNull().log;
  }

  function TookNull(): System {
    System(Peer(S, "NULL", Echoing(Ready), Listening, [], [], 1),
           Peer(I, "", Reading(Printing("", Fetched)), Listening, [], [], 1), [Wrote(0, "NULL")])
  }

  lemma ReachTookNull()
    ensures Reachable(TookNull(), true)
  {
    hide Reachable, Run;
    ReachGotNull();
    var s := GotNull();
    s := Respond(s, A, s.(a := s.a.(responder := Listening), b := s.b.(conn := Conn([], [Reply("NULL", GET1)]))), true);
    s := Go(s, B, s.(b := s.b.(main := Reading(Replied("NULL")), conn := Conn([], []))), true);
    s := Go(s, B, s.(b := s.b.(main := Reading(Printing("", Fetched)))), true);
    assert s.log == TookNull().log;
  }

  function ShownNull(): System {
    System(Peer(S, "NULL", Echoing(Ready), Listening, [], [], 1),
           Peer(I, "", Prompt, Listening, [], [], 1), [Wrote(0, "NULL"), Showed(0, "", Fetched)])
  }

  lemma ReachShownNull()
    ensures Reachable(ShownNull(), true)
  {
    hide Reachable, Run;
    ReachTookNull();
    var s := TookNull();
    s := Go(s, B, s.(b := s.b.(main := Prompt), log := s.log + [Showed(0, "", Fetched)]), true);
    assert s.log == ShownNull().log;
  }

  // ---------- a read overlapping a write ----------

  lemma Along(s: System, t: System)
    requires Reachable(s, false) && WellFormed(s) && Schedules.Leads(s, t)
    ensures WellFormed(t) && Reachable(t, false)
  {
    var xs :| Run(Init(1), xs) == s;
    var ys :| Schedules.TakesTurns(ys) && Run(s, ys) == t;
    RunAppend(Init(1), xs, ys);
    assert Run(Init(1), xs + ys) == t;
  }

  // One iteration of node a's command, from any reachable state.
  lemma Iterate(s: System) returns (t: System)
    requires Reachable(s, false) && s.a.main.Busy? && s.a.main.stage.Ready?
    ensures Schedules.AtPage(s) && WellFormed(t) && Reachable(t, false)
    ensures t == if s.a.main.job.kind.Write? then Schedules.AfterWrite(s) else Schedules.AfterRead(s)
  {
    var moves :| Run(Init(1), moves) == s;
    MatchedAlways(1, moves);
    if s.a.main.job.kind.Write? {
      Schedules.WriteIsASchedule(s);
      t := Schedules.AfterWrite(s);
    } else {
      Schedules.ReadIsASchedule(s);
      t := Schedules.AfterRead(s);
    }
    Along(s, t);
  }

  const LOG_X := [Wrote(0, "x"), Showed(0, "x", Local)]

  function Served(): System {
    System(Peer(M, "x", Prompt, Listening, [], [], 1), Peer(I, "", Prompt, Listening, [], [], 0), LOG_X)
  }

  lemma ReachServed()
    ensures Reachable(Served(), false)
  {
    hide Reachable, Run;
    ReachInit();
    var s := Init(1);
    s := Begin(s, A, Job(Write("x"), 0, 0), s.(a := s.a.(main := WritingX(Ready))), false);
    s := Iterate(s);
    s := Iterate(s);
    assert s == Served();
  }

  function Fetching(): System {
    System(Peer(M, "x", Prompt, Listening, [], [], 1), Peer(I, "", Reading(Awaiting), Listening, [GET1], [], 1), LOG_X)
  }

  lemma ReachFetching()
    ensures Reachable(Fetching(), false)
  {
    hide Reachable, Run;
    ReachServed();
    var s := Served();
    s := Begin(s, B, Job(Read, 0, 0), s.(b := s.b.(main := Reading(Ready))), false);
    s := Go(s, B, s.(b := s.b.(main := Reading(Formatting))), false);
    s := Go(s, B, s.(b := s.b.(main := Reading(Checking("")))), false);
    s := Go(s, B, s.(b := s.b.(main := Reading(Sending))), false);
    s := Go(s, B, s.(b := s.b.(main := Reading(Awaiting), conn := Conn([GET1], []), sent := 1)), false);
    assert s.log == Fetching().log;
  }

  // The reply "x" is on its way.
  function OnItsWay(): System {
    System(Peer(S, "x", Prompt, Listening, [], [], 1),
           Peer(I, "", Reading(Awaiting), Listening, [], [Reply("x", GET1)], 1), LOG_X)
  }

  lemma ReachOnItsWay()
    ensures Reachable(OnItsWay(), false)
  {
    hide Reachable, Run;
    ReachFetching();
    var s := Fetching();
    s := Respond(s, A, s.(a := s.a.(responder := Received(GET1)), b := s.b.(conn := Conn([], []))), false);
    s := Respond(s, A, s.(a := s.a.(cache := Cache([S], ["x"]), responder := Looked(GET1, true))), false);
    s := Respond(s, A, s.(a := s.a.(responder := Relented(GET1, true))), false);
    s := Respond(s, A, s.(a := s.a.(responder := Replying(GET1, "x"))), false);
    s := Respond(s, A, s.(a := s.a.(responder := Listening), b := s.b.(conn := Conn([], [Reply("x", GET1)]))), false);
    assert s.log == OnItsWay().log;
  }

  // A whole write of "y" has overtaken it.
  function Overtaken(): System {
    System(Peer(M, "y", Echoing(Ready), Listening, [], [], 2),
           Peer(I, "", Reading(Awaiting), Listening, [], [Reply("x", GET1)], 1), LOG_X + [Wrote(0, "y")])
  }

  lemma ReachOvertaken()
    ensures Reachable(Overtaken(), false)
  {
    hide Reachable, Run;
    ReachOnItsWay();
    var s := OnItsWay();
    s := Begin(s, A, Job(Write("y"), 0, 0), s.(a := s.a.(main := WritingY(Ready))), false);
    s := Iterate(s);
    assert s == Overtaken();
  }

  function Stale(): System {
    System(Peer(M, "y", Echoing(Ready), Listening, [], [], 2), Peer(S, "x", Prompt, Listening, [], [], 1),
           LOG_X + [Wrote(0, "y"), Showed(0, "x", Fetched)])
  }

  lemma ReachStale()
    ensures Reachable(Stale(), false)
  {
    hide Reachable, Run;
    ReachOvertaken();
    var s := Overtaken();
    s := Go(s, B, s.(b := s.b.(main := Reading(Replied("x")), conn := Conn([], []))), false);
    s := Go(s, B, s.(b := s.b.(cache := Cache([I], ["x"]), main := Reading(Stored("x")))), false);
    s := Go(s, B, s.(b := s.b.(cache := Cache([S], ["x"]), main := Reading(Printing("x", Fetched)))), false);
    s := Go(s, B, s.(b := s.b.(main := Prompt), log := s.log + [Showed(0, "x", Fetched)]), false);
    assert s == Stale();
  }

  // ---------- what the runs show ----------

  lemma StaleLog()
    ensures |Stale().log| == 4 && Stale().log[3] == Showed(0, "x", Fetched)
    ensures LastWrite(Stale().log[..3], 0) == "y"
  {
    var log := LOG_X + [Wrote(0, "y")];
    assert Stale().log[..3] == log;
    assert log[|log| - 1] == Wrote(0, "y");
  }

  /** Why a read may not overlap a write: a reply overtaken by a whole write at the node that sent
      it makes the reader store S after it has served that write's invalidation: M at one node
      and a stale S at the other, with nothing under way, and a read that showed "x" though "y"
      was written before. */
  lemma OverlapKeepsStaleCopy() returns (moves: seq<Move>)
    ensures
      var s := Run(Init(1), moves);
      && !OperatesOn(s.a, 0) && !OperatesOn(s.b, 0)
      && s.a.cache == Cache([M], ["y"]) && s.b.cache == Cache([S], ["x"])
      && |s.log| > 0 && s.log[|s.log| - 1] == Showed(0, "x", Fetched)
      && LastWrite(s.log[..|s.log| - 1], 0) == "y"
  {
    hide Run;
    ReachStale();
    StaleLog();
    moves :| Run(Init(1), moves) == Stale();
  }

  /** Without the discipline two writes to a page can both complete and leave nothing
      under way, yet the node that is M holds an empty page although "y" was written last. */
  lemma OverlapLosesWrite() returns (moves: seq<Move>)
    ensures
      var s := Run(Init(1), moves);
      && !OperatesOn(s.a, 0) && !OperatesOn(s.b, 0)
      && s.b.cache.state[0].M? && s.b.cache.text[0] == ""
      && LastWrite(s.log, 0) == "y"
  {
    hide Run;
    ReachBothDone();
    moves :| Run(Init(1), moves) == BothDone();
  }

  /** The same run carried on: a reader asks for the empty page, no bytes come back, and
      its main stays blocked whatever is scheduled next. */
  lemma OverlapBlocksReader() returns (moves: seq<Move>)
    ensures forall more :: Run(Init(1), moves + more).a.main == Reading(Awaiting)
  {
    ReachBlocked();
    moves :| Run(Init(1), moves) == Blocked();
    MatchedAlways(1, moves);
    forall more
      ensures Run(Init(1), moves + more).a.main == Reading(Awaiting)
    {
      RunAppend(Init(1), moves, more);
      LostForever(Blocked(), more);
    }
  }

  /** A disciplined run in which a fetched read does not show the last completed write:
      the message reads "NULL", and the reader takes the reply for an absent page. */
  lemma NullMessageIsMisread() returns (moves: seq<Move>)
    ensures Disciplined(Init(1), moves)
    ensures
      var log := Run(Init(1), moves).log;
      |log| > 0 && log[|log| - 1] == Showed(0, "", Fetched) && LastWrite(log[..|log| - 1], 0) == "NULL"
  {
    hide Run;
    ReachShownNull();
    moves :| Run(Init(1), moves) == ShownNull() && Disciplined(Init(1), moves);
    assert ShownNull().log[..1] == [Wrote(0, "NULL")];
  }
}
