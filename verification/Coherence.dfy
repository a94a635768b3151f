/** What holds under the page discipline: no write to a page overlaps another
    operation on that page. A page's operation is one loop iteration. */
module Coherence {
  import opened MsiCache
  import opened Protocol
  import opened Matching

  // ---------- the discipline ----------

  predicate OperatesOn(me: Node, page: nat) {
    me.main.Busy? && me.main.page == page && !me.main.stage.Ready?
  }

  predicate WritesOn(me: Node, page: nat) {
    OperatesOn(me, page) && me.main.job.kind.Write?
  }

  /** A write to a page is under way at one node, and any operation on it at the other. */
  predicate Overlap(a: Node, b: Node) {
    && a.main.Busy? && b.main.Busy? && a.main.page == b.main.page
    && !a.main.stage.Ready? && !b.main.stage.Ready?
    && (a.main.job.kind.Write? || b.main.job.kind.Write?)
  }

  /** What the discipline leaves free: mains between two iterations, operations on different
      pages, and reads of one page by both. */
  lemma {:induction false} FreeToInterleave(a: Node, b: Node)
    requires
      || a.main.Prompt? || b.main.Prompt? || a.main.stage.Ready? || b.main.stage.Ready?
      || a.main.page != b.main.page || (!a.main.job.kind.Write? && !b.main.job.kind.Write?)
    ensures !Overlap(a, b)
    ensures a.main.Prompt? || a.main.stage.Ready? ==> forall page :: !OperatesOn(a, page)
    ensures a.main.Busy? ==> forall page | page != a.main.page :: !OperatesOn(a, page)
  {
  }

  /** And what it forbids, page by page. */
  lemma {:induction false} OverlapMeans(a: Node, b: Node)
    ensures
      Overlap(a, b) <==>
      exists page :: (WritesOn(a, page) && OperatesOn(b, page)) || (OperatesOn(a, page) && WritesOn(b, page))
  {
    if Overlap(a, b) {
      assert OperatesOn(a, a.main.page) && OperatesOn(b, a.main.page);
    }
  }

  ghost predicate Disciplined(s: System, moves: seq<Move>)
    requires WellFormed(s)
  {
    forall k | 0 <= k <= |moves| :: var t := Run(s, moves[..k]); !Overlap(t.a, t.b)
  }

  // ---------- the invariant for one page ----------

  // The text a responder sends for a page whose last completed write was `last`.
  function Answer(last: string): string {
    if last == "" then NULL_REPLY else last
  }

  // What is printed, by where it came from. A message that reads "NULL" is taken for no page.
  function Shown(last: string, source: Source): string {
    match source
    case Local => last
    case Fetched => if last == NULL_REPLY then "" else last
    case Skipped => ""
  }

  /** The bytes of a write are in place and its invalidation has not been acknowledged. */
  predicate Dirty(me: Node, page: nat) {
    WritesOn(me, page) && !me.main.stage.Writing?
  }

  predicate DirtyOk(me: Node, peer: Node, page: nat)
    requires page < |me.cache.state| && me.cache.Holds(|peer.cache.state|)
    requires Dirty(me, page)
  {
    && me.cache.text[page] == me.main.job.kind.message
    && (!me.main.stage.Marking? ==> me.cache.state[page].M?)
    && (me.main.stage.Awaiting? && me.conn.requests == [] && !peer.responder.Received? ==>
          peer.cache.state[page].I?)
  }

  predicate CopyOk(me: Node, peer: Node, page: nat, last: string)
    requires page < |me.cache.state| && me.cache.Holds(|peer.cache.state|)
  {
    && (me.cache.state[page].M? ==> peer.cache.state[page].I?)
    && (!me.cache.state[page].I? ==> me.cache.text[page] == last != "")
  }

  predicate AnswerOk(peer: Node, page: nat, text: string, last: string)
    requires page < |peer.cache.state|
  {
    text == Answer(last) && !peer.cache.state[page].M?
  }

  predicate WaitOk(me: Node, peer: Node, page: nat, last: string)
    requires page < |peer.cache.state|
  {
    && !Lost(me, peer)
    && (me.conn.replies != [] ==> AnswerOk(peer, page, me.conn.replies[0].text, last))
    && (match peer.responder
        case Looked(_, valid) => (valid <==> last != "") && !peer.cache.state[page].M?
        case Relented(_, valid) => (valid <==> last != "") && !peer.cache.state[page].M?
        case Replying(_, text) => AnswerOk(peer, page, text, last)
        case _ => true)
  }

  predicate ReaderOk(me: Node, peer: Node, page: nat, last: string)
    requires page < |me.cache.state| && me.cache.Holds(|peer.cache.state|)
  {
    OperatesOn(me, page) && !me.main.job.kind.Write? ==>
      var invalid := me.cache.state[page].I?;
      match me.main.stage
      case Checking(text) => invalid || text == last
      case Sending => invalid
      case Awaiting => invalid && WaitOk(me, peer, page, last)
      case Replied(text) => invalid && AnswerOk(peer, page, text, last)
      case Stored(text) => text == me.cache.text[page] == last != "" && last != NULL_REPLY && !peer.cache.state[page].M?
      case Printing(text, source) => text == Shown(last, source)
      case _ => true
  }

  /** No write to the page is past its first byte. */
  predicate Settled(a: Node, b: Node, page: nat, last: string)
    requires page < |a.cache.state| && a.cache.Holds(|b.cache.state|) && b.cache.Holds(|a.cache.state|)
  {
    && CopyOk(a, b, page, last) && CopyOk(b, a, page, last)
    && (last != "" ==> !a.cache.state[page].I? || !b.cache.state[page].I?)
    && ReaderOk(a, b, page, last) && ReaderOk(b, a, page, last)
  }

  predicate PageOk(a: Node, b: Node, page: nat, last: string)
    requires page < |a.cache.state| && a.cache.Holds(|b.cache.state|) && b.cache.Holds(|a.cache.state|)
  {
    && (Dirty(a, page) ==> DirtyOk(a, b, page))
    && (Dirty(b, page) ==> DirtyOk(b, a, page))
    && (!Dirty(a, page) && !Dirty(b, page) ==> Settled(a, b, page, last))
  }

  ghost predicate CoherentLog(log: seq<Event>) {
    forall k | 0 <= k < |log| && log[k].Showed? ::
      log[k].text == Shown(LastWrite(log[..k], log[k].page), log[k].source)
  }

  ghost predicate Coherent(s: System) {
    && Matched(s) && CoherentLog(s.log)
    && forall page | 0 <= page < |s.a.cache.state| :: PageOk(s.a, s.b, page, LastWrite(s.log, page))
  }

  // ---------- every step keeps it ----------

  lemma FlipCoherent(s: System)
    requires Coherent(s)
    ensures Coherent(Flip(s))
  {
    forall page | 0 <= page < |s.b.cache.state|
      ensures PageOk(s.b, s.a, page, LastWrite(s.log, page))
    {
      assert PageOk(s.a, s.b, page, LastWrite(s.log, page));
    }
  }

  // The page the responder of node a is at work on, or is about to be asked about.
  function ServedPage(s: System): nat
    requires CanServe(s.a, s.b)
  {
    if s.a.responder.Listening? then s.b.conn.requests[0].page else s.a.responder.request.page
  }

  lemma {:induction false} ServeKeepsOtherReader(s: System, page: nat, last: string)
    requires Matched(s) && CanServe(s.a, s.b) && page != ServedPage(s)
    requires page < |s.a.cache.state| && ReaderOk(s.a, s.b, page, last)
    ensures
      var s' := Act(s, ServeStep);
      !OperatesOn(s'.b, page) && ReaderOk(s'.a, s'.b, page, last) && ReaderOk(s'.b, s'.a, page, last)
  {
    var s' := Act(s, ServeStep);
    assert !OperatesOn(s.b, page) && s'.b.main == s.b.main;
    assert s'.a.cache.state[page] == s.a.cache.state[page] && s'.a.cache.text[page] == s.a.cache.text[page];
    assert s'.b.cache == s.b.cache && s'.b.responder == s.b.responder && s'.a.main == s.a.main && s'.a.conn == s.a.conn;
  }

  lemma {:induction false} ServeKeepsOtherPage(s: System, page: nat, last: string)
    requires Matched(s) && CanServe(s.a, s.b) && page != ServedPage(s)
    requires page < |s.a.cache.state| && PageOk(s.a, s.b, page, last)
    ensures var s' := Act(s, ServeStep); PageOk(s'.a, s'.b, page, last)
  {
    hide ReaderOk;
    var s' := Act(s, ServeStep);
    if !Dirty(s.a, page) {
      assert !OperatesOn(s.b, page);
      ServeKeepsOtherReader(s, page, last);
    }
    assert s'.a.cache.state[page] == s.a.cache.state[page] && s'.a.cache.text[page] == s.a.cache.text[page];
    assert s'.b.main == s.b.main && s'.b.cache == s.b.cache && s'.a.main == s.a.main && s'.a.conn == s.a.conn;
  }

  lemma {:induction false} ServeKeepsPage(s: System, page: nat, last: string)
    requires Matched(s) && CanServe(s.a, s.b) && !Overlap(s.a, s.b)
    requires page < |s.a.cache.state| && PageOk(s.a, s.b, page, last)
    ensures var s' := Act(s, ServeStep); PageOk(s'.a, s'.b, page, last)
  {
    if page != ServedPage(s) {
      ServeKeepsOtherPage(s, page, last);
    } else {
      assert OperatesOn(s.b, page);
      if s.b.main.job.kind.Write? {
        ServeInvalidate(s, page, last);
      } else {
        ServeRead(s, page, last);
      }
    }
  }

  lemma ServeInvalidate(s: System, page: nat, last: string)
    requires Matched(s) && CanServe(s.a, s.b) && !Overlap(s.a, s.b) && page == ServedPage(s)
    requires s.b.main.Busy? && s.b.main.job.kind.Write?
    requires page < |s.a.cache.state| && PageOk(s.a, s.b, page, last)
    ensures var s' := Act(s, ServeStep); PageOk(s'.a, s'.b, page, last)
  {
    assert Dirty(s.b, page) && !OperatesOn(s.a, page);
  }

  lemma ServeRead(s: System, page: nat, last: string)
    requires Matched(s) && CanServe(s.a, s.b) && !Overlap(s.a, s.b) && page == ServedPage(s)
    requires s.b.main.Busy? && !s.b.main.job.kind.Write?
    requires page < |s.a.cache.state| && PageOk(s.a, s.b, page, last)
    ensures var s' := Act(s, ServeStep); PageOk(s'.a, s'.b, page, last)
  {
    var s' := Act(s, ServeStep);
    assert OperatesOn(s.b, page) && !WritesOn(s.a, page);
    assert Settled(s.a, s.b, page, last);
    assert s'.a.cache.text == s.a.cache.text && s'.b.main == s.b.main && s'.b.cache == s.b.cache;
    assert CopyOk(s'.a, s'.b, page, last) && CopyOk(s'.b, s'.a, page, last);
    assert ReaderOk(s'.a, s'.b, page, last);
  }

  lemma AdvanceKeepsOtherPage(s: System, page: nat, last: string)
    requires Matched(s) && CanAdvance(s.a) && page != s.a.main.page
    requires page < |s.a.cache.state| && PageOk(s.a, s.b, page, last)
    ensures var s' := Act(s, MainStep); PageOk(s'.a, s'.b, page, last)
  {
    var s' := Act(s, MainStep);
    assert s'.a.cache.state[page] == s.a.cache.state[page] && s'.a.cache.text[page] == s.a.cache.text[page];
    assert !OperatesOn(s.a, page) && !OperatesOn(s'.a, page);
    assert s'.b == s.b && s'.a.responder == s.a.responder;
  }

  function LastAfter(events: seq<Event>, page: nat, last: string): string {
    if events != [] && events[0].Wrote? && events[0].page == page then events[0].message else last
  }

  lemma {:induction false} AdvanceKeepsPage(s: System, page: nat, last: string)
    requires Matched(s) && CanAdvance(s.a) && !Overlap(s.a, s.b)
    requires var s' := Act(s, MainStep); !Overlap(s'.a, s'.b)
    requires page < |s.a.cache.state| && PageOk(s.a, s.b, page, last)
    ensures var s' := Act(s, MainStep); PageOk(s'.a, s'.b, page, LastAfter(Advance(s.a).1, page, last))
  {
    if page != s.a.main.page {
      AdvanceKeepsOtherPage(s, page, last);
    } else if s.a.main.job.kind.Write? {
      AdvanceWrite(s, page, last);
    } else {
      AdvanceRead(s, page, last);
    }
  }

  lemma AdvanceWrite(s: System, page: nat, last: string)
    requires Matched(s) && CanAdvance(s.a) && !Overlap(s.a, s.b)
    requires var s' := Act(s, MainStep); !Overlap(s'.a, s'.b)
    requires page == s.a.main.page < |s.a.cache.state| && PageOk(s.a, s.b, page, last)
    requires s.a.main.job.kind.Write?
    ensures var s' := Act(s, MainStep); PageOk(s'.a, s'.b, page, LastAfter(Advance(s.a).1, page, last))
  {
    var s' := Act(s, MainStep);
    assert s'.b == s.b && s'.a.responder == s.a.responder;
    if !s.a.main.stage.Ready? {
      assert !OperatesOn(s.b, page);
    }
    if s.a.main.stage.Awaiting? {
      assert !OperatesOn(s'.a, page);
      assert Settled(s'.a, s'.b, page, s.a.main.job.kind.message);
    }
  }

  lemma {:induction false} AdvanceRead(s: System, page: nat, last: string)
    requires Matched(s) && CanAdvance(s.a) && !Overlap(s.a, s.b)
    requires var s' := Act(s, MainStep); !Overlap(s'.a, s'.b)
    requires page == s.a.main.page < |s.a.cache.state| && PageOk(s.a, s.b, page, last)
    requires !s.a.main.job.kind.Write?
    ensures var s' := Act(s, MainStep); PageOk(s'.a, s'.b, page, LastAfter(Advance(s.a).1, page, last))
  {
    var s' := Act(s, MainStep);
    assert s'.b == s.b && s'.a.responder == s.a.responder;
    if s.a.main.stage.Ready? {
    } else {
      assert Settled(s.a, s.b, page, last);
    }
  }

  lemma AdvanceKeepsLog(s: System)
    requires Coherent(s) && CanAdvance(s.a) && !Overlap(s.a, s.b)
    ensures CoherentLog(Act(s, MainStep).log)
  {
    var events := Advance(s.a).1;
    var log' := s.log + events;
    assert |events| <= 1;
    forall k | 0 <= k < |log'| && log'[k].Showed?
      ensures log'[k].text == Shown(LastWrite(log'[..k], log'[k].page), log'[k].source)
    {
      assert log'[..k] == s.log[..k];
      if k == |s.log| {
        assert s.log[..k] == s.log;
        var page := s.a.main.page;
        assert PageOk(s.a, s.b, page, LastWrite(s.log, page));
      }
    }
  }

  lemma LastWriteAfter(log: seq<Event>, events: seq<Event>, page: nat)
    requires |events| <= 1
    ensures LastWrite(log + events, page) == LastAfter(events, page, LastWrite(log, page))
  {
    if events == [] {
      assert log + events == log;
    } else {
      assert (log + events)[..|log|] == log;
    }
  }

  lemma {:induction false} ActKeepsPage(s: System, action: Action, page: nat)
    requires Coherent(s) && Enabled(s, Move(A, action)) && !Overlap(s.a, s.b)
    requires var s' := Act(s, action); !Overlap(s'.a, s'.b)
    requires page < |s.a.cache.state|
    ensures var s' := Act(s, action); PageOk(s'.a, s'.b, page, LastWrite(s'.log, page))
  {
    var last := LastWrite(s.log, page);
    assert PageOk(s.a, s.b, page, last);
    match action
    case Start(_) =>
    case ServeStep => ServeKeepsPage(s, page, last);
    case MainStep =>
      AdvanceKeepsPage(s, page, last);
      LastWriteAfter(s.log, Advance(s.a).1, page);
  }

  lemma {:induction false} ActKeepsCoherence(s: System, action: Action)
    requires Coherent(s) && Enabled(s, Move(A, action)) && !Overlap(s.a, s.b)
    requires var s' := Act(s, action); !Overlap(s'.a, s'.b)
    ensures Coherent(Act(s, action))
  {
    var s' := Act(s, action);
    MatchedAct(s, action);
    if action.MainStep? {
      AdvanceKeepsLog(s);
    }
    forall page | 0 <= page < |s'.a.cache.state|
      ensures PageOk(s'.a, s'.b, page, LastWrite(s'.log, page))
    {
      ActKeepsPage(s, action, page);
    }
  }

  lemma {:induction false} ApplyKeepsCoherence(s: System, move: Move)
    requires Coherent(s) && !Overlap(s.a, s.b)
    requires var s' := Apply(s, move); !Overlap(s'.a, s'.b)
    ensures Coherent(Apply(s, move))
  {
    if Enabled(s, move) {
      if move.side.A? {
        ActKeepsCoherence(s, move.action);
      } else {
        FlipCoherent(s);
        ActKeepsCoherence(Flip(s), move.action);
        FlipCoherent(Act(Flip(s), move.action));
      }
    }
  }

  lemma {:induction false} CoherentAlways(n: nat, moves: seq<Move>)
    requires n > 0 && Disciplined(Init(n), moves)
    ensures Coherent(Run(Init(n), moves)) && !Overlap(Run(Init(n), moves).a, Run(Init(n), moves).b)
  {
    assert moves[..|moves|] == moves;
    if moves != [] {
      var before := moves[..|moves| - 1];
      assert forall k | 0 <= k <= |before| :: moves[..k] == before[..k];
      CoherentAlways(n, before);
      ApplyKeepsCoherence(Run(Init(n), before), moves[|moves| - 1]);
    }
  }

  /** With commands at one node only, every schedule keeps the discipline. */
  lemma {:induction false} SoloIsDisciplined(n: nat, moves: seq<Move>)
    requires n > 0 && forall move <- moves :: move.action.Start? ==> move.side.A?
    ensures Disciplined(Init(n), moves) && Run(Init(n), moves).b.main.Prompt?
  {
    assert moves[..|moves|] == moves;
    if moves != [] {
      var before := moves[..|moves| - 1];
      SoloIsDisciplined(n, before);
      MatchedAlways(n, before);
      SoloStep(Run(Init(n), before), moves[|moves| - 1]);
      forall k | 0 <= k <= |moves|
        ensures var t := Run(Init(n), moves[..k]); !Overlap(t.a, t.b)
      {
        assert k < |moves| ==> moves[..k] == before[..k];
      }
    }
  }

  lemma {:induction false} SoloStep(s: System, move: Move)
    requires WellFormed(s) && s.b.main.Prompt? && (move.action.Start? ==> move.side.A?)
    ensures Apply(s, move).b.main.Prompt?
  {
  }

  // ---------- the theorems ----------

  /** Coherence of every run. Whatever a completed read or print shows is decided by the
      last completed write to that page by either node. A text that came from the page
      itself or from the peer is exactly that write's message, except that a fetched
      "NULL" reads as an empty page; a print that skips an invalid page shows nothing. */
  lemma {:induction false} ReadsShowLastWrite(n: nat, moves: seq<Move>, k: nat)
    requires n > 0 && Disciplined(Init(n), moves)
    requires var log := Run(Init(n), moves).log; k < |log| && log[k].Showed?
    ensures
      var log := Run(Init(n), moves).log;
      var last := LastWrite(log[..k], log[k].page);
      && (!log[k].source.Skipped? ==> (log[k].text == last <==> !(log[k].source.Fetched? && last == NULL_REPLY)))
      && (log[k].source.Fetched? && last == NULL_REPLY ==> log[k].text == "")
      && (log[k].source.Skipped? ==> log[k].text == "")
  {
    CoherentAlways(n, moves);
  }

  /** Single writer, agreeing readers: when no operation on the page is under way, M at one
      node means I at the other, every valid copy holds the last completed write, and a
      page that has been written is valid somewhere. */
  lemma {:induction false} SingleWriterAgreeingReaders(n: nat, moves: seq<Move>, page: nat)
    requires Disciplined(Init(n), moves) && page < n
    requires var s := Run(Init(n), moves); !OperatesOn(s.a, page) && !OperatesOn(s.b, page)
    ensures
      var s := Run(Init(n), moves);
      var last := LastWrite(s.log, page);
      && (s.a.cache.state[page].M? ==> s.b.cache.state[page].I?)
      && (s.b.cache.state[page].M? ==> s.a.cache.state[page].I?)
      && (!s.a.cache.state[page].I? ==> s.a.cache.text[page] == last)
      && (!s.b.cache.state[page].I? ==> s.b.cache.text[page] == last)
      && (last != "" <==> !s.a.cache.state[page].I? || !s.b.cache.state[page].I?)
  {
    CoherentAlways(n, moves);
    var s := Run(Init(n), moves);
    assert PageOk(s.a, s.b, page, LastWrite(s.log, page));
  }
}
