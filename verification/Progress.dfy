/** Commands finish: under the page discipline nothing is ever stuck, and in every
    interleaving each step that does not start a command lowers a measure. */
module Progress {
  import opened Protocol
  import opened Matching
  import opened Coherence

  // ---------- the measure ----------

  // Steps a pending request still needs before its reply can be consumed.
  function ExchangeLeft(me: Node, peer: Node): nat {
    if me.conn.requests != [] then 6
    else if me.conn.replies != [] then 1
    else
      match peer.responder
      case Listening => 0
      case Received(_) => 5
      case Looked(_, _) => 4
      case Relented(_, _) => 3
      case Dropping(_) => 3
      case Replying(_, _) => 2
  }

  function StageLeft(me: Node, peer: Node): nat
    requires me.main.Busy?
  {
    match me.main.stage
    case Ready => 16
    case Writing => 15
    case Marking => 14
    case Formatting => 15
    case Checking(_) => 14
    case Sending => 13
    case Awaiting => 4 + ExchangeLeft(me, peer)
    case Replied(_) => 3
    case Stored(_) => 2
    case Printing(_, _) => 1
  }

  function PagesLeft(job: Job, page: nat): nat
    requires job.first <= page <= job.last
  {
    job.last - page + (if job.kind.Write? then job.last - job.first + 1 else 0)
  }

  function Work(me: Node, peer: Node): nat
    requires me.main.Busy? ==> me.main.job.first <= me.main.page <= me.main.job.last
  {
    if me.main.Prompt? then 0 else PagesLeft(me.main.job, me.main.page) * 16 + StageLeft(me, peer)
  }

  function Measure(s: System): nat
    requires WellFormed(s)
  {
    Work(s.a, s.b) + Work(s.b, s.a)
  }

  lemma AdvanceLowersWork(s: System)
    requires Matched(s) && CanAdvance(s.a)
    ensures var s' := Act(s, MainStep); Work(s'.a, s'.b) < Work(s.a, s.b)
  {
    var s' := Act(s, MainStep);
    var Busy(job, page, _) := s.a.main;
    if s'.a.main == NextPage(s.a).main {
      if page < job.last {
        assert PagesLeft(job, page) == PagesLeft(job, page + 1) + 1;
      } else if job.kind.Write? {
        assert PagesLeft(job, page) == PagesLeft(s'.a.main.job, job.first) + 1;
      }
    } else {
      assert PagesLeft(s'.a.main.job, s'.a.main.page) == PagesLeft(job, page);
    }
  }

  lemma ServeLowersWork(s: System)
    requires Matched(s) && CanServe(s.a, s.b)
    ensures var s' := Act(s, ServeStep); Work(s'.b, s'.a) < Work(s.b, s.a)
  {
    assert s.b.main.Busy? && s.b.main.stage.Awaiting?;
    assert Act(s, ServeStep).b.main == s.b.main;
  }

  lemma {:induction false} ActLowersMeasure(s: System, action: Action)
    requires Matched(s) && !action.Start? && Enabled(s, Move(A, action))
    ensures Measure(Act(s, action)) < Measure(s)
  {
    var s' := Act(s, action);
    if action.MainStep? {
      AdvanceLowersWork(s);
      assert s'.b == s.b && s'.a.responder == s.a.responder;
      assert Work(s'.b, s'.a) == Work(s.b, s.a);
    } else {
      ServeLowersWork(s);
      assert s'.a.main == s.a.main && s'.b.responder == s.b.responder && s'.a.conn == s.a.conn;
      assert Work(s'.a, s'.b) == Work(s.a, s.b);
    }
  }

  lemma {:induction false} StepLowersMeasure(s: System, move: Move)
    requires Matched(s) && !move.action.Start? && Enabled(s, move)
    ensures Measure(Apply(s, move)) < Measure(s)
  {
    if move.side.A? {
      ActLowersMeasure(s, move.action);
    } else {
      ActLowersMeasure(Flip(s), move.action);
    }
  }

  // ---------- schedules ----------

  /** Every move does something and none starts a command. */
  ghost predicate Effective(s: System, moves: seq<Move>)
    requires WellFormed(s)
  {
    forall k | 0 <= k < |moves| :: !moves[k].action.Start? && Enabled(Run(s, moves[..k]), moves[k])
  }

  lemma {:induction false} RunAppend(s: System, xs: seq<Move>, ys: seq<Move>)
    requires WellFormed(s)
    ensures Run(s, xs + ys) == Run(Run(s, xs), ys)
  {
    if ys == [] {
      assert xs + ys == xs;
    } else {
      assert (xs + ys)[..|xs + ys| - 1] == xs + ys[..|ys| - 1];
      RunAppend(s, xs, ys[..|ys| - 1]);
    }
  }

  /** In every interleaving, with no discipline at all: from any reachable state the mains
      and responders can take at most `Measure` steps before a new command must start. */
  lemma {:induction false} WorkIsBounded(n: nat, moves: seq<Move>, more: seq<Move>)
    requires n > 0 && Effective(Run(Init(n), moves), more)
    ensures |more| + Measure(Run(Init(n), moves + more)) <= Measure(Run(Init(n), moves))
  {
    if more == [] {
      assert moves + more == moves;
    } else {
      var s, before := Run(Init(n), moves), more[..|more| - 1];
      assert forall k | 0 <= k <= |before| :: more[..k] == before[..k];
      WorkIsBounded(n, moves, before);
      MatchedAlways(n, moves + before);
      RunAppend(Init(n), moves, before);
      RunAppend(Init(n), moves, more);
      StepLowersMeasure(Run(s, before), more[|more| - 1]);
    }
  }

  // ---------- nothing is stuck ----------

  predicate Usable(s: System, move: Move)
    requires WellFormed(s)
  {
    !move.action.Start? && Enabled(s, move) && var s' := Apply(s, move); !Overlap(s'.a, s'.b)
  }

  // A main in the middle of a page's operation can move, or the responder working for it can.
  lemma OperationMoves(s: System) returns (move: Move)
    requires Coherent(s) && !Overlap(s.a, s.b)
    requires s.a.main.Busy? && !s.a.main.stage.Ready?
    ensures Usable(s, move)
  {
    if CanAdvance(s.a) {
      move := Move(A, MainStep);
    } else {
      var page := s.a.main.page;
      var last := LastWrite(s.log, page);
      assert PageOk(s.a, s.b, page, last);
      if !s.a.main.job.kind.Write? {
        assert ReaderOk(s.a, s.b, page, last);
      }
      move := Move(B, ServeStep);
    }
  }

  lemma BusyMoves(s: System) returns (move: Move)
    requires Coherent(s) && !Overlap(s.a, s.b) && s.a.main.Busy?
    ensures Usable(s, move)
  {
    if !s.a.main.stage.Ready? {
      move := OperationMoves(s);
    } else if s.b.main.Busy? && !s.b.main.stage.Ready? {
      FlipCoherent(s);
      move := OperationMoves(Flip(s));
      move := move.(side := if move.side.A? then B else A);
    } else {
      move := Move(A, MainStep);
    }
  }

  /** Under the page discipline no state with an unfinished command is stuck: some step
      other than starting a command is enabled and keeps the discipline. */
  lemma {:induction false} NeverStuck(n: nat, moves: seq<Move>) returns (move: Move)
    requires n > 0 && Disciplined(Init(n), moves)
    requires var s := Run(Init(n), moves); s.a.main.Busy? || s.b.main.Busy?
    ensures Usable(Run(Init(n), moves), move)
  {
    CoherentAlways(n, moves);
    var s := Run(Init(n), moves);
    if s.a.main.Busy? {
      move := BusyMoves(s);
    } else {
      FlipCoherent(s);
      move := BusyMoves(Flip(s));
      move := move.(side := if move.side.A? then B else A);
    }
  }

  /** So a disciplined run that no step but the start of a command can carry on, within the
      discipline, has both mains at the prompt. */
  lemma {:induction false} NothingLeftMeansFinished(n: nat, moves: seq<Move>)
    requires n > 0 && Disciplined(Init(n), moves)
    requires forall move :: !Usable(Run(Init(n), moves), move)
    ensures var s := Run(Init(n), moves); s.a.main.Prompt? && s.b.main.Prompt?
  {
    var s := Run(Init(n), moves);
    if s.a.main.Busy? || s.b.main.Busy? {
      var move := NeverStuck(n, moves);
      assert false;
    }
  }

  lemma LostStep(s: System, move: Move)
    requires Matched(s) && Lost(s.a, s.b)
    ensures var t := Apply(s, move); Lost(t.a, t.b) && t.a.main == s.a.main
  {
  }

  /** A main whose reply is lost stays blocked under every continuation. */
  lemma {:induction false} LostForever(s: System, more: seq<Move>)
    requires Matched(s) && Lost(s.a, s.b)
    ensures var t := Run(s, more); Matched(t) && Lost(t.a, t.b) && t.a.main == s.a.main
  {
    if more != [] {
      var before := more[..|more| - 1];
      LostForever(s, before);
      MatchedStep(Run(s, before), more[|more| - 1]);
      LostStep(Run(s, before), more[|more| - 1]);
    }
  }

  lemma {:induction false} DisciplinedSnoc(s: System, moves: seq<Move>, move: Move)
    requires WellFormed(s) && Disciplined(s, moves)
    requires var t := Apply(Run(s, moves), move); !Overlap(t.a, t.b)
    ensures Disciplined(s, moves + [move]) && Run(s, moves + [move]) == Apply(Run(s, moves), move)
  {
    var next := moves + [move];
    assert next[..|moves|] == moves;
    forall k | 0 <= k <= |next|
      ensures var t := Run(s, next[..k]); !Overlap(t.a, t.b)
    {
      if k == |next| {
        assert next[..k] == next;
      } else {
        assert next[..k] == moves[..k];
      }
    }
  }

  /** Every disciplined run can be carried on, without starting a command and within
      `Measure` steps, to a state where both mains are back at the prompt. */
  lemma {:induction false} CommandsFinish(n: nat, moves: seq<Move>) returns (more: seq<Move>)
    requires n > 0 && Disciplined(Init(n), moves)
    ensures |more| <= Measure(Run(Init(n), moves))
    ensures forall m <- more :: !m.action.Start?
    ensures Disciplined(Init(n), moves + more)
    ensures var s := Run(Init(n), moves + more); s.a.main.Prompt? && s.b.main.Prompt?
    decreases Measure(Run(Init(n), moves))
  {
    var s := Run(Init(n), moves);
    if s.a.main.Prompt? && s.b.main.Prompt? {
      more := [];
      assert moves + more == moves;
    } else {
      var move := NeverStuck(n, moves);
      var next := moves + [move];
      MatchedAlways(n, moves);
      StepLowersMeasure(s, move);
      DisciplinedSnoc(Init(n), moves, move);
      var rest := CommandsFinish(n, next);
      more := [move] + rest;
      assert moves + more == next + rest;
    }
  }
}
