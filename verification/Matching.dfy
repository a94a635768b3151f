/** What holds in every interleaving, with no discipline on the commands. */
module Matching {
  import opened MsiCache
  import opened Protocol

  // The request a blocked main is waiting on.
  predicate IsCurrent(me: Node, request: Request) {
    me.main.Busy? && me.main.stage.Awaiting? && request == Request(me.main.page, CurrentOp(me), me.sent)
  }

  predicate StageServesOp(r: Responder) {
    match r
    case Dropping(q) => q.op.InvalidateOp?
    case Looked(q, _) => q.op.ReadOp?
    case Relented(q, _) => q.op.ReadOp?
    case Replying(q, text) => q.op.InvalidateOp? ==> text == SUCCESS_REPLY
    case _ => true
  }

  /** At most one message, or the peer's responder, carries me's current request;
      when me is not waiting there is nothing under way at all. */
  predicate Exchange(me: Node, peer: Node) {
    && |me.conn.requests| <= 1 && |me.conn.replies| <= 1
    && (me.conn.requests != [] ==> me.conn.replies == [] && peer.responder.Listening?)
    && (me.conn.replies != [] ==> peer.responder.Listening?)
    && (me.conn.requests != [] ==> IsCurrent(me, me.conn.requests[0]))
    && (me.conn.replies != [] ==>
          var reply := me.conn.replies[0];
          && IsCurrent(me, reply.request) && reply.text != ""
          && (reply.request.op.InvalidateOp? ==> reply.text == SUCCESS_REPLY))
    && (!peer.responder.Listening? ==> IsCurrent(me, peer.responder.request) && StageServesOp(peer.responder))
  }

  /** A reply that fails to come: only an empty page asked for by a read. */
  predicate Lost(me: Node, peer: Node) {
    && me.main.Busy? && me.main.stage.Awaiting?
    && me.conn.requests == [] && me.conn.replies == [] && peer.responder.Listening?
  }

  predicate LossOk(me: Node, peer: Node) {
    Lost(me, peer) ==> CurrentOp(me).ReadOp?
  }

  predicate Matched(s: System) {
    && WellFormed(s)
    && Exchange(s.a, s.b) && Exchange(s.b, s.a)
    && LossOk(s.a, s.b) && LossOk(s.b, s.a)
  }

  lemma {:induction false} MatchedStep(s: System, move: Move)
    requires Matched(s)
    ensures Matched(Apply(s, move))
  {
    if Enabled(s, move) {
      if move.side.A? {
        MatchedAct(s, move.action);
      } else {
        MatchedAct(Flip(s), move.action);
      }
    }
  }

  lemma MatchedAct(s: System, action: Action)
    requires Matched(s) && Enabled(s, Move(A, action))
    ensures Matched(Act(s, action))
  {
    match action
    case Start(_) =>
    case MainStep => MatchedAdvance(s);
    case ServeStep => MatchedServe(s);
  }

  lemma MatchedAdvance(s: System)
    requires Matched(s) && CanAdvance(s.a)
    ensures Matched(Act(s, MainStep))
  {
  }

  lemma MatchedServe(s: System)
    requires Matched(s) && CanServe(s.a, s.b)
    ensures Matched(Act(s, ServeStep))
  {
  }

  lemma {:induction false} MatchedAlways(n: nat, moves: seq<Move>)
    requires n > 0
    ensures Matched(Run(Init(n), moves))
  {
    if moves != [] {
      MatchedAlways(n, moves[..|moves| - 1]);
      MatchedStep(Run(Init(n), moves[..|moves| - 1]), moves[|moves| - 1]);
    }
  }

  /** Request/reply matching, in every interleaving: a main's connection never holds two
      messages, and the reply it is about to consume answers its latest request: same page,
      same operation, and the last serial number it sent. */
  lemma {:induction false} ReplyMatchesRequest(n: nat, moves: seq<Move>, side: Side)
    requires n > 0
    ensures
      var s := Run(Init(n), moves);
      var me := if side.A? then s.a else s.b;
      && |me.conn.requests| + |me.conn.replies| <= 1
      && (me.main.Busy? && me.main.stage.Awaiting? && me.conn.replies != [] ==>
            var reply, writes := me.conn.replies[0], me.main.job.kind.Write?;
            && reply.request == Request(me.main.page, if writes then InvalidateOp else ReadOp, me.sent)
            && (writes ==> reply.text == "Success"))
  {
    MatchedAlways(n, moves);
  }

  // ---------- two Ms ----------

  /** me has stored M for the page and the peer has not yet stored I in answer. */
  predicate InvalidationPending(me: Node, peer: Node, page: nat) {
    && me.main.Busy? && me.main.page == page && me.main.job.kind.Write?
    && (me.main.stage.Sending?
        || (me.main.stage.Awaiting? && (me.conn.requests != [] || peer.responder.Received?)))
  }

  predicate TwoMsPend(a: Node, b: Node, page: nat)
    requires page < |a.cache.state| && page < |b.cache.state|
  {
    a.cache.state[page].M? && b.cache.state[page].M? ==>
      InvalidationPending(a, b, page) || InvalidationPending(b, a, page)
  }

  lemma {:induction false} TwoMsStep(s: System, move: Move, page: nat)
    requires Matched(s) && page < |s.a.cache.state| && TwoMsPend(s.a, s.b, page)
    ensures var s' := Apply(s, move); TwoMsPend(s'.a, s'.b, page)
  {
    if Enabled(s, move) {
      if move.side.A? {
        TwoMsAct(s, move.action, page);
      } else {
        TwoMsAct(Flip(s), move.action, page);
      }
    }
  }

  lemma TwoMsAct(s: System, action: Action, page: nat)
    requires Matched(s) && Enabled(s, Move(A, action))
    requires page < |s.a.cache.state| && TwoMsPend(s.a, s.b, page)
    ensures var s' := Act(s, action); TwoMsPend(s'.a, s'.b, page)
  {
    match action
    case Start(_) =>
    case MainStep => TwoMsAdvance(s, page);
    case ServeStep => TwoMsServe(s, page);
  }

  lemma TwoMsAdvance(s: System, page: nat)
    requires Matched(s) && CanAdvance(s.a)
    requires page < |s.a.cache.state| && TwoMsPend(s.a, s.b, page)
    ensures var s' := Act(s, MainStep); TwoMsPend(s'.a, s'.b, page)
  {
  }

  lemma TwoMsServe(s: System, page: nat)
    requires Matched(s) && CanServe(s.a, s.b)
    requires page < |s.a.cache.state| && TwoMsPend(s.a, s.b, page)
    ensures var s' := Act(s, ServeStep); TwoMsPend(s'.a, s'.b, page)
  {
  }

  lemma {:induction false} TwoMsPendAlways(n: nat, moves: seq<Move>, page: nat)
    requires page < n
    ensures var s := Run(Init(n), moves); TwoMsPend(s.a, s.b, page)
  {
    if moves != [] {
      var before := moves[..|moves| - 1];
      MatchedAlways(n, before);
      TwoMsPendAlways(n, before, page);
      TwoMsStep(Run(Init(n), before), moves[|moves| - 1], page);
    }
  }

  /** In every reachable state, two Ms on a page mean that one of the two nodes has stored M
      and its peer has not yet applied its invalidation. */
  lemma {:induction false} TwoMsOnlyWhilePending(n: nat, moves: seq<Move>, page: nat) returns (writer: Side)
    requires page < n
    requires var s := Run(Init(n), moves); s.a.cache.state[page].M? && s.b.cache.state[page].M?
    ensures
      var s := Run(Init(n), moves);
      var (me, peer) := if writer.A? then (s.a, s.b) else (s.b, s.a);
      && me.main.Busy? && me.main.page == page && me.main.job.kind.Write?
      && (me.main.stage.Sending?
          || (me.main.stage.Awaiting? && (me.conn.requests != [] || peer.responder.Received?)))
  {
    TwoMsPendAlways(n, moves, page);
    var s := Run(Init(n), moves);
    writer := if InvalidationPending(s.a, s.b, page) then A else B;
  }

  /** So with no write to the page under way at most one node is M. */
  lemma {:induction false} OneMWhenSettled(n: nat, moves: seq<Move>, page: nat)
    requires page < n
    requires
      var s := Run(Init(n), moves);
      && !(s.a.main.Busy? && s.a.main.page == page && s.a.main.job.kind.Write?)
      && !(s.b.main.Busy? && s.b.main.page == page && s.b.main.job.kind.Write?)
    ensures var s := Run(Init(n), moves); !(s.a.cache.state[page].M? && s.b.cache.state[page].M?)
  {
    TwoMsPendAlways(n, moves, page);
  }
}
