/** Progress with no discipline on the commands: exactly when a main fails to finish. The
    guard of the failing step is in the responder: a page it has decided to hand out is found
    empty when it is formatted, and the send of no bytes leaves the peer's main in read(). */
module Starvation {
  import opened MsiCache
  import opened Protocol
  import opened Matching
  import opened Coherence
  import opened Progress

  function Other(side: Side): Side {
    if side.A? then B else A
  }

  function Flipped(move: Move): Move {
    Move(Other(move.side), move.action)
  }

  /** The move by which the responder that serves the main of `side` formats an empty page. */
  predicate FormatsEmpty(s: System, move: Move, side: Side)
    requires WellFormed(s)
  {
    var peer := if side.A? then s.b else s.a;
    && move == Move(Other(side), ServeStep)
    && peer.responder.Relented? && peer.responder.valid && peer.cache.text[peer.responder.request.page] == ""
  }

  // The reply to me's request is empty: about to be sent, or sent.
  predicate Starved(me: Node, peer: Node) {
    Lost(me, peer) || (peer.responder.Replying? && peer.responder.text == "")
  }

  predicate StarvedAt(s: System, side: Side) {
    if side.A? then Starved(s.a, s.b) else Starved(s.b, s.a)
  }

  // ---------- one step ----------

  // A step at node a can neither starve its main nor feed it.
  lemma {:induction false} OwnStep(s: System, action: Action)
    requires Matched(s) && Enabled(s, Move(A, action))
    ensures var t := Act(s, action); Starved(t.a, t.b) <==> Starved(s.a, s.b)
  {
  }

  // A step at node a starves the main of node b only by formatting an empty page.
  lemma {:induction false} PeerStep(s: System, action: Action)
    requires Matched(s) && Enabled(s, Move(A, action))
    ensures
      var t := Act(s, action);
      Starved(t.b, t.a) <==> Starved(s.b, s.a) || FormatsEmpty(s, Move(A, action), B)
  {
  }

  lemma {:induction false} StarvedStep(s: System, move: Move, side: Side)
    requires Matched(s)
    ensures StarvedAt(Apply(s, move), side) <==> StarvedAt(s, side) || FormatsEmpty(s, move, side)
  {
    if Enabled(s, move) {
      var me := if move.side.A? then s else Flip(s);
      if side == move.side {
        OwnStep(me, move.action);
      } else {
        PeerStep(me, move.action);
      }
    }
  }

  // ---------- whole runs ----------

  // The k-th move of a run is one.
  predicate FormatsEmptyAt(n: nat, moves: seq<Move>, k: nat, side: Side)
    requires k < |moves|
  {
    FormatsEmpty(Run(Init(n), moves[..k]), moves[k], side)
  }

  ghost predicate EverFormatsEmpty(n: nat, moves: seq<Move>, side: Side) {
    exists k | 0 <= k < |moves| :: FormatsEmptyAt(n, moves, k, side)
  }

  lemma {:induction false} EverSnoc(n: nat, moves: seq<Move>, side: Side)
    requires moves != []
    ensures
      var before := moves[..|moves| - 1];
      EverFormatsEmpty(n, moves, side) <==>
      EverFormatsEmpty(n, before, side) || FormatsEmpty(Run(Init(n), before), moves[|moves| - 1], side)
  {
    hide FormatsEmpty, Run;
    var before := moves[..|moves| - 1];
    forall k: nat | k < |before|
      ensures FormatsEmptyAt(n, moves, k, side) <==> FormatsEmptyAt(n, before, k, side)
    {
      assert moves[..k] == before[..k];
    }
    assert FormatsEmptyAt(n, moves, |before|, side) <==> FormatsEmpty(Run(Init(n), before), moves[|moves| - 1], side);
  }

  /** In every interleaving, with no discipline: the reply a main waits for will not come if
      and only if at some step the responder that serves it formatted an empty page. */
  lemma {:induction false} StarvedIffFormattedEmpty(n: nat, moves: seq<Move>, side: Side)
    requires n > 0
    ensures StarvedAt(Run(Init(n), moves), side) <==> EverFormatsEmpty(n, moves, side)
  {
    if moves != [] {
      var before := moves[..|moves| - 1];
      StarvedIffFormattedEmpty(n, before, side);
      MatchedAlways(n, before);
      StarvedStep(Run(Init(n), before), moves[|moves| - 1], side);
      EverSnoc(n, moves, side);
    }
  }

  predicate LostAt(s: System, side: Side) {
    if side.A? then Lost(s.a, s.b) else Lost(s.b, s.a)
  }

  lemma {:induction false} StaysLost(s: System, more: seq<Move>, side: Side)
    requires Matched(s) && LostAt(s, side)
    ensures Matched(Run(s, more)) && LostAt(Run(s, more), side)
    ensures Me(Run(s, more), side).main == Me(s, side).main
  {
    hide Lost, Exchange, LossOk;
    if more != [] {
      var t, move := Run(s, more[..|more| - 1]), more[|more| - 1];
      StaysLost(s, more[..|more| - 1], side);
      MatchedStep(t, move);
      if side.A? {
        LostStep(t, move);
      } else {
        LostStep(Flip(t), Flipped(move));
        assert Apply(Flip(t), Flipped(move)) == Flip(Apply(t, move));
      }
    }
  }

  // The main of a side, and the two threads that can take its command on.
  function Me(s: System, side: Side): Node {
    if side.A? then s.a else s.b
  }

  predicate CanMove(s: System, side: Side) {
    Enabled(s, Move(side, MainStep)) || Enabled(s, Move(Other(side), ServeStep))
  }

  /** Progress with no discipline. As long as no page handed out to it was formatted empty, a
      busy main can move or the responder that serves it can. */
  lemma {:induction false} BusyCanMove(n: nat, moves: seq<Move>, side: Side)
    requires n > 0 && !EverFormatsEmpty(n, moves, side)
    ensures var s := Run(Init(n), moves); Me(s, side).main.Busy? ==> CanMove(s, side)
  {
    StarvedIffFormattedEmpty(n, moves, side);
  }

  /** So when neither thread can move any more, as must come to pass between two commands, the
      main is back at its prompt if and only if that never happened. */
  lemma {:induction false} FinishedIffNeverFormattedEmpty(n: nat, moves: seq<Move>, side: Side)
    requires n > 0 && !CanMove(Run(Init(n), moves), side)
    ensures Me(Run(Init(n), moves), side).main.Prompt? <==> !EverFormatsEmpty(n, moves, side)
  {
    StarvedIffFormattedEmpty(n, moves, side);
    MatchedAlways(n, moves);
  }

  /** Otherwise it is in a read, and stays there under every continuation. */
  lemma {:induction false} UnfinishedForever(n: nat, moves: seq<Move>, side: Side, more: seq<Move>)
    requires n > 0 && !CanMove(Run(Init(n), moves), side) && EverFormatsEmpty(n, moves, side)
    ensures
      var main := Me(Run(Init(n), moves), side).main;
      main.Busy? && main.job.kind.Read? && Me(Run(Init(n), moves + more), side).main == main
  {
    StarvedIffFormattedEmpty(n, moves, side);
    MatchedAlways(n, moves);
    RunAppend(Init(n), moves, more);
    StaysLost(Run(Init(n), moves), more, side);
  }

  /** And it does come to pass: from any reachable state, within the measure and without
      starting a command, a run gets to where no thread can move. */
  lemma {:induction false} RunOut(n: nat, moves: seq<Move>) returns (more: seq<Move>)
    requires n > 0
    ensures |more| <= Measure(Run(Init(n), moves)) && forall m <- more :: !m.action.Start?
    ensures var s := Run(Init(n), moves + more); !CanMove(s, A) && !CanMove(s, B)
    decreases Measure(Run(Init(n), moves))
  {
    var s := Run(Init(n), moves);
    if !CanMove(s, A) && !CanMove(s, B) {
      more := [];
      assert moves + more == moves;
    } else {
      var side := if CanMove(s, A) then A else B;
      var move := if Enabled(s, Move(side, MainStep)) then Move(side, MainStep) else Move(Other(side), ServeStep);
      var next := moves + [move];
      assert next[..|moves|] == moves;
      MatchedAlways(n, moves);
      StepLowersMeasure(s, move);
      var rest := RunOut(n, next);
      more := [move] + rest;
      assert moves + more == next + rest;
    }
  }

  // ---------- under the discipline ----------

  lemma {:induction false} HandsOutText(s: System)
    requires Coherent(s) && !Overlap(s.a, s.b)
    requires s.b.responder.Relented? && s.b.responder.valid
    ensures s.b.cache.text[s.b.responder.request.page] != ""
  {
    var page := s.a.main.page;
    var last := LastWrite(s.log, page);
    assert PageOk(s.a, s.b, page, last);
    assert ReaderOk(s.a, s.b, page, last);
  }

  /** The page discipline is enough: under it no page is formatted empty. */
  lemma {:induction false} DisciplineFeeds(n: nat, moves: seq<Move>, side: Side)
    requires n > 0 && Disciplined(Init(n), moves)
    ensures !EverFormatsEmpty(n, moves, side)
  {
    if moves != [] {
      var before := moves[..|moves| - 1];
      assert forall k | 0 <= k <= |before| :: moves[..k] == before[..k];
      DisciplineFeeds(n, before, side);
      EverSnoc(n, moves, side);
      CoherentAlways(n, before);
      var s := Run(Init(n), before);
      FlipCoherent(s);
      if FormatsEmpty(s, moves[|moves| - 1], side) {
        HandsOutText(if side.A? then s else Flip(s));
        assert false;
      }
    }
  }
}
