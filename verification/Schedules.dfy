/** The commands of `Commands`, which the byte-level node carries out, are schedules of the
    transition system: one main and its peer's responder taking turns. */
module Schedules {
  import opened Basics
  import opened MsiCache
  import opened Protocol
  import opened Matching
  import opened Commands
  import Progress

  // ---------- schedules of one main and the responder that serves it ----------

  predicate TakesTurns(moves: seq<Move>) {
    forall move <- moves :: move == Move(A, MainStep) || move == Move(B, ServeStep)
  }

  ghost predicate Leads(s: System, t: System)
    requires WellFormed(s)
  {
    exists moves :: TakesTurns(moves) && Run(s, moves) == t
  }

  lemma LeadsNowhere(s: System)
    requires WellFormed(s)
    ensures Leads(s, s)
  {
    assert TakesTurns([]) && Run(s, []) == s;
  }

  lemma LeadsOn(s: System, t: System, u: System)
    requires WellFormed(s) && Leads(s, t) && WellFormed(t) && Leads(t, u)
    ensures WellFormed(u) && Leads(s, u)
    ensures Matched(s) ==> Matched(u)
  {
    var xs :| TakesTurns(xs) && Run(s, xs) == t;
    var ys :| TakesTurns(ys) && Run(t, ys) == u;
    Progress.RunAppend(s, xs, ys);
    assert TakesTurns(xs + ys);
    if Matched(s) {
      MatchedRun(s, xs + ys);
    }
  }

  lemma {:induction false} MatchedRun(s: System, moves: seq<Move>)
    requires Matched(s)
    ensures Matched(Run(s, moves))
  {
    if moves != [] {
      MatchedRun(s, moves[..|moves| - 1]);
      MatchedStep(Run(s, moves[..|moves| - 1]), moves[|moves| - 1]);
    }
  }

  lemma OneMove(s: System, move: Move, t: System)
    requires WellFormed(s) && TakesTurns([move]) && Apply(s, move) == t
    ensures WellFormed(t) && Leads(s, t)
  {
    assert [move][..0] == [];
    assert Run(s, [move]) == Apply(Run(s, []), move);
  }

  // A step of the main, or of the responder, after a schedule from `from`.
  lemma MainGoes(from: System, s: System, t: System) returns (next: System)
    requires WellFormed(from) && WellFormed(s) && Leads(from, s)
    requires CanAdvance(s.a)
    requires var (a, events) := Advance(s.a); t.a == a && t.b == s.b && t.log == s.log + events
    ensures next == t && WellFormed(t) && Leads(from, t)
  {
    OneMove(s, Move(A, MainStep), t);
    LeadsOn(from, s, t);
    next := t;
  }

  lemma PeerServes(from: System, s: System, t: System) returns (next: System)
    requires WellFormed(from) && WellFormed(s) && Leads(from, s)
    requires CanServe(s.b, s.a)
    requires var (b, a) := Serve(s.b, s.a); t.a == a && t.b == b && t.log == s.log
    ensures next == t && WellFormed(t) && Leads(from, t)
  {
    OneMove(s, Move(B, ServeStep), t);
    LeadsOn(from, s, t);
    next := t;
  }

  // ---------- a request and its answer ----------

  // node a blocked on a request it has just sent, and the same when it has been answered; an
  // empty reply puts nothing on the connection.
  function AfterAsking(s: System, cache: Cache): System
    requires s.a.main.Busy?
  {
    var request := Request(s.a.main.page, CurrentOp(s.a), s.a.sent + 1);
    s.(a := Goto(s.a, Awaiting).(cache := cache, conn := Conn([request], []), sent := s.a.sent + 1))
  }

  function AfterAnswer(s: System, cache: Cache, text: string): System
    requires s.a.conn.requests != []
  {
    var replies := if text == "" then [] else [Reply(text, s.a.conn.requests[0])];
    s.(a := s.a.(conn := Conn([], replies)), b := s.b.(cache := cache))
  }

  lemma Answering(s: System)
    requires WellFormed(s) && |s.a.conn.requests| == 1 && s.a.conn.replies == [] && s.b.responder.Listening?
    ensures
      var request := s.a.conn.requests[0];
      var (cache, text) := Answered(s.b.cache, request.page, request.op.InvalidateOp?);
      Leads(s, AfterAnswer(s, cache, text))
  {
    hide Leads, Run;
    var request := s.a.conn.requests[0];
    var (cache, text) := Answered(s.b.cache, request.page, request.op.InvalidateOp?);
    LeadsNowhere(s);
    var t := s;
    t := PeerServes(s, t, t.(a := t.a.(conn := Conn([], [])), b := t.b.(responder := Received(request))));
    if request.op.InvalidateOp? {
      var invalid := SetState(t.b.cache, request.page, I);
      t := PeerServes(s, t, t.(b := t.b.(cache := invalid, responder := Dropping(request))));
      t := PeerServes(s, t, t.(b := t.b.(cache := cache, responder := Replying(request, text))));
    } else {
      var valid := Serves(t.b.cache, request.page);
      t := PeerServes(s, t, t.(b := t.b.(cache := cache, responder := Looked(request, valid))));
      t := PeerServes(s, t, t.(b := t.b.(responder := Relented(request, valid))));
      t := PeerServes(s, t, t.(b := t.b.(responder := Replying(request, text))));
    }
    t := PeerServes(s, t, AfterAnswer(s, cache, text));
  }

  // ---------- one page ----------

  // node a at the start of an iteration of its command, with nothing under way for it.
  predicate AtPage(s: System) {
    Matched(s) && s.a.main.Busy? && s.a.main.stage.Ready?
  }

  /** What a whole iteration of a write leaves. */
  function AfterWrite(s: System): System
    requires AtPage(s) && s.a.main.job.kind.Write?
  {
    var Busy(job, page, _) := s.a.main;
    var (me, peer) := WritePage(s.a.cache, s.b.cache, page, job.kind.message);
    System(NextPage(s.a).(cache := me, sent := s.a.sent + 1), s.b.(cache := peer),
           s.log + [Wrote(page, job.kind.message)])
  }

  lemma WriteAsks(s: System)
    requires AtPage(s) && s.a.main.job.kind.Write?
    ensures Leads(s, AfterAsking(s, WritePage(s.a.cache, s.b.cache, s.a.main.page, s.a.main.job.kind.message).0))
  {
    hide Leads, Run;
    var Busy(job, page, _) := s.a.main;
    LeadsNowhere(s);
    var t := s;
    t := MainGoes(s, t, t.(a := Goto(t.a, Writing)));
    t := MainGoes(s, t, t.(a := Goto(t.a, Marking).(cache := SetText(t.a.cache, page, job.kind.message))));
    t := MainGoes(s, t, t.(a := Goto(t.a, Sending).(cache := SetState(t.a.cache, page, M))));
    t := MainGoes(s, t, AfterAsking(s, t.a.cache));
  }

  /** One iteration of a write command, run without the other main, is a schedule. */
  lemma WriteIsASchedule(s: System)
    requires AtPage(s) && s.a.main.job.kind.Write?
    ensures Leads(s, AfterWrite(s))
  {
    hide Leads, Run;
    var page := s.a.main.page;
    WriteAsks(s);
    var t := AfterAsking(s, WritePage(s.a.cache, s.b.cache, page, s.a.main.job.kind.message).0);
    Answering(t);
    var u := AfterAnswer(t, Answered(t.b.cache, page, true).0, SUCCESS_REPLY);
    LeadsOn(s, t, u);
    u := MainGoes(s, u, AfterWrite(s));
  }

  // Where an iteration of a read, or of the print after a write, finds its text.
  function Origin(s: System): Source
    requires AtPage(s)
  {
    if !s.a.cache.state[s.a.main.page].I? then Local else if s.a.main.job.kind.Read? then Fetched else Skipped
  }

  /** What a whole iteration of a read, or of the print after a write, leaves; if its read
      stalls, what is left is the main waiting and nothing under way. */
  function AfterRead(s: System): System
    requires AtPage(s) && !s.a.main.job.kind.Write?
  {
    var Busy(job, page, _) := s.a.main;
    var (me, peer, text) := ReadPage(s.a.cache, s.b.cache, page, job.kind.Read?);
    var sent := if Origin(s).Fetched? then s.a.sent + 1 else s.a.sent;
    if text.None? then AfterAnswer(AfterAsking(s, me), peer, "")
    else
      System(NextPage(s.a).(cache := me, sent := sent), s.b.(cache := peer),
             s.log + [Showed(page, text.value, Origin(s))])
  }

  lemma ShowsLocally(s: System)
    requires AtPage(s) && !s.a.main.job.kind.Write? && !Origin(s).Fetched?
    ensures Leads(s, AfterRead(s))
  {
    hide Leads, Run;
    var page := s.a.main.page;
    var text := s.a.cache.text[page];
    LeadsNowhere(s);
    var t := s;
    t := MainGoes(s, t, t.(a := Goto(t.a, Formatting)));
    t := MainGoes(s, t, t.(a := Goto(t.a, Checking(text))));
    t := MainGoes(s, t, t.(a := Goto(t.a, if Origin(s).Local? then Printing(text, Local) else Printing("", Skipped))));
    t := MainGoes(s, t, AfterRead(s));
  }

  lemma ReadAsks(s: System)
    requires AtPage(s) && !s.a.main.job.kind.Write? && Origin(s).Fetched?
    ensures Leads(s, AfterAsking(s, s.a.cache))
  {
    hide Leads, Run;
    LeadsNowhere(s);
    var t := s;
    t := MainGoes(s, t, t.(a := Goto(t.a, Formatting)));
    t := MainGoes(s, t, t.(a := Goto(t.a, Checking(s.a.cache.text[s.a.main.page]))));
    t := MainGoes(s, t, t.(a := Goto(t.a, Sending)));
    t := MainGoes(s, t, AfterAsking(s, s.a.cache));
  }

  lemma ReadIsAnswered(s: System)
    requires AtPage(s) && !s.a.main.job.kind.Write? && Origin(s).Fetched?
    ensures
      var (peer, text) := Answered(s.b.cache, s.a.main.page, false);
      var t := AfterAnswer(AfterAsking(s, s.a.cache), peer, text);
      WellFormed(t) && Leads(s, t)
  {
    hide Leads, Run;
    ReadAsks(s);
    var t := AfterAsking(s, s.a.cache);
    var (peer, text) := Answered(s.b.cache, s.a.main.page, false);
    Answering(t);
    LeadsOn(s, t, AfterAnswer(t, peer, text));
  }

  lemma ShowsFetched(s: System)
    requires AtPage(s) && !s.a.main.job.kind.Write? && Origin(s).Fetched?
    requires !Stalls(s.a.cache, s.b.cache, s.a.main.page)
    ensures Leads(s, AfterRead(s))
  {
    hide Leads, Run;
    var page := s.a.main.page;
    ReadIsAnswered(s);
    var (peer, text) := Answered(s.b.cache, page, false);
    var u := AfterAnswer(AfterAsking(s, s.a.cache), peer, text);
    u := MainGoes(s, u, u.(a := Goto(u.a, Replied(text)).(conn := Conn([], []))));
    if text != NULL_REPLY {
      u := MainGoes(s, u, u.(a := Goto(u.a, Stored(text)).(cache := SetText(u.a.cache, page, text))));
      u := MainGoes(s, u, u.(a := Goto(u.a, Printing(text, Fetched)).(cache := SetState(u.a.cache, page, S))));
    } else {
      u := MainGoes(s, u, u.(a := Goto(u.a, Printing("", Fetched)).(cache := Drop(u.a.cache, page))));
    }
    u := MainGoes(s, u, AfterRead(s));
  }

  /** One iteration of a read command, or of the print after a write, run without the other
      main, is a schedule. */
  lemma ReadIsASchedule(s: System)
    requires AtPage(s) && !s.a.main.job.kind.Write?
    ensures Leads(s, AfterRead(s))
  {
    if Origin(s).Fetched? && Stalls(s.a.cache, s.b.cache, s.a.main.page) {
      ReadIsAnswered(s);
    } else if Origin(s).Fetched? {
      ShowsFetched(s);
    } else {
      ShowsLocally(s);
    }
  }

  lemma StallIsLost(s: System)
    requires AtPage(s) && !s.a.main.job.kind.Write?
    requires Stalls(s.a.cache, s.b.cache, s.a.main.page) && s.a.main.job.kind.Read?
    ensures Lost(AfterRead(s).a, AfterRead(s).b)
  {
  }

  // ---------- whole commands ----------

  // node a between two iterations, having done the pages before i; past the last it goes on
  // to `next`.
  predicate Between(s: System, job: Job, i: nat, next: Main) {
    Matched(s) && s.a.main == if i <= job.last then Busy(job, i, Ready) else next
  }

  function WroteEach(first: nat, i: nat, message: string): (events: seq<Event>)
    requires first <= i
    ensures |events| == i - first
  {
    seq(i - first, k requires 0 <= k => Wrote(first + k, message))
  }

  lemma {:induction false} WritesUpTo(s: System, i: nat) returns (t: System)
    requires AtPage(s) && s.a.main.job.kind.Write? && s.a.main.page == s.a.main.job.first
    requires s.a.main.job.first <= i <= s.a.main.job.last + 1
    ensures
      var job := s.a.main.job;
      && Leads(s, t) && Between(t, job, i, Busy(Job(Echo, job.first, job.last), job.first, Ready))
      && (t.a.cache, t.b.cache) == WritePages(s.a.cache, s.b.cache, job.first, i, job.kind.message)
      && t.log == s.log + WroteEach(job.first, i, job.kind.message)
      && t.b.main == s.b.main
  {
    hide Leads, Run, Exchange, LossOk;
    var job := s.a.main.job;
    if i == job.first {
      t := s;
      LeadsNowhere(s);
    } else {
      var u := WritesUpTo(s, i - 1);
      WriteIsASchedule(u);
      t := AfterWrite(u);
      LeadsOn(s, u, t);
      assert WroteEach(job.first, i, job.kind.message) ==
             WroteEach(job.first, i - 1, job.kind.message) + [Wrote(i - 1, job.kind.message)];
    }
  }

  predicate ShowedEach(events: seq<Event>, first: nat, shown: seq<string>) {
    && |events| == |shown|
    && forall k | 0 <= k < |shown| ::
         events[k].Showed? && events[k].page == first + k && events[k].text == shown[k]
  }

  // node a has shown that many pages of a job: all of those before i, or the reply for the
  // next one was lost.
  predicate GotTo(s: System, job: Job, i: nat, count: nat) {
    if job.first + count == i then Between(s, job, i, Prompt)
    else Matched(s) && Lost(s.a, s.b) && s.a.main == Busy(job, job.first + count, Awaiting)
  }

  // One iteration, and where it leaves the main.
  lemma {:induction false} ShowsOne(s: System) returns (t: System)
    requires AtPage(s) && !s.a.main.job.kind.Write?
    ensures
      var Busy(job, page, _) := s.a.main;
      var (me, peer, text) := ReadPage(s.a.cache, s.b.cache, page, job.kind.Read?);
      && Leads(s, t) && Matched(t) && t.a.cache == me && t.b.cache == peer && t.b.main == s.b.main
      && match text
         case Some(text) => t.a.main == NextMain(job, page) && t.log == s.log + [Showed(page, text, Origin(s))]
         case None => Lost(t.a, t.b) && t.a.main == Busy(job, page, Awaiting) && t.log == s.log
  {
    hide Leads, Run, Exchange, LossOk, Lost;
    LeadsNowhere(s);
    ReadIsASchedule(s);
    t := AfterRead(s);
    LeadsOn(s, s, t);
    if s.a.main.job.kind.Read? && Stalls(s.a.cache, s.b.cache, s.a.main.page) {
      StallIsLost(s);
    }
  }

  lemma {:induction false} ShowsUpTo(s: System, i: nat) returns (t: System, events: seq<Event>)
    requires AtPage(s) && !s.a.main.job.kind.Write? && s.a.main.page == s.a.main.job.first
    requires s.a.main.job.first <= i <= s.a.main.job.last + 1
    ensures
      var job := s.a.main.job;
      var (me, peer, shown) := ReadPages(s.a.cache, s.b.cache, job.first, i, job.kind.Read?);
      && Leads(s, t) && GotTo(t, job, i, |shown|)
      && t.a.cache == me && t.b.cache == peer
      && t.log == s.log + events && ShowedEach(events, job.first, shown)
      && t.b.main == s.b.main
  {
    hide Leads, Run, Exchange, LossOk, Lost, ReadPage, Fits;
    var job := s.a.main.job;
    if i == job.first {
      t, events := s, [];
      LeadsNowhere(s);
    } else {
      t, events := ShowsUpTo(s, i - 1);
      if |events| == i - 1 - job.first {
        var u := t;
        assert u.a.main == Busy(job, i - 1, Ready);
        t := ShowsOne(u);
        LeadsOn(s, u, t);
        var text := ReadPage(u.a.cache, u.b.cache, i - 1, job.kind.Read?).2;
        assert text.Some? ==> t.a.main == NextMain(job, i - 1);
        events := events + t.log[|u.log|..];
      }
    }
  }

  /** A read command for page q (all pages if -1) given at a prompt, run without the other
      main, is a schedule: it ends with the caches, and the texts shown, that `ReadPages`
      tells, back at the prompt if all its pages were shown, else waiting for ever for the
      reply to the next. */
  lemma {:induction false} ReadCommandIsASchedule(s: System, q: int) returns (t: System, events: seq<Event>)
    requires Matched(s) && s.a.main.Prompt? && -1 <= q < |s.a.cache.state| && 0 < |s.a.cache.state|
    ensures
      var first: nat, last: nat := if q == -1 then 0 else q, if q == -1 then |s.a.cache.state| - 1 else q;
      var job := Job(Read, first, last);
      var (me, peer, shown) := ReadPages(s.a.cache, s.b.cache, first, last + 1, true);
      && Enabled(s, Move(A, Start(job)))
      && Leads(Apply(s, Move(A, Start(job))), t) && t.b.main == s.b.main
      && (if |shown| == last + 1 - first then t.a.main.Prompt?
          else forall more :: Run(t, more).a.main == Busy(job, first + |shown|, Awaiting))
      && t.a.cache == me && t.b.cache == peer
      && t.log == s.log + events && ShowedEach(events, first, shown)
  {
    hide Leads, Run, Exchange, LossOk;
    var first: nat, last: nat := if q == -1 then 0 else q, if q == -1 then |s.a.cache.state| - 1 else q;
    var job := Job(Read, first, last);
    var started := Apply(s, Move(A, Start(job)));
    MatchedStep(s, Move(A, Start(job)));
    t, events := ShowsUpTo(started, last + 1);
    if Lost(t.a, t.b) {
      forall more
        ensures Run(t, more).a.main == t.a.main
      {
        Progress.LostForever(t, more);
      }
    }
  }

  lemma {:induction false} WriteCommandEnds(s: System, job: Job) returns (t: System, events: seq<Event>)
    requires Matched(s) && Enabled(s, Move(A, Start(job))) && job.kind.Write?
    ensures
      var (me, peer) := WritePages(s.a.cache, s.b.cache, job.first, job.last + 1, job.kind.message);
      var (me', peer', shown) := ReadPages(me, peer, job.first, job.last + 1, false);
      && Leads(Apply(s, Move(A, Start(job))), t) && t.a.main.Prompt? && t.b.main == s.b.main
      && t.a.cache == me' && t.b.cache == peer'
      && t.log == s.log + WroteEach(job.first, job.last + 1, job.kind.message) + events
      && ShowedEach(events, job.first, shown)
  {
    hide Leads, Run, Exchange, LossOk;
    var started := Apply(s, Move(A, Start(job)));
    MatchedStep(s, Move(A, Start(job)));
    var u := WritesUpTo(started, job.last + 1);
    t, events := ShowsUpTo(u, job.last + 1);
    LeadsOn(started, u, t);
  }

  // A write and the print after it, on one page.
  lemma {:induction false} WritePrintEffect(me: Cache, peer: Cache, first: nat, end: nat, message: string, page: nat)
    requires first <= end <= |me.state| && me.Holds(|me.state|) && peer.Holds(|me.state|) && page < |me.state|
    ensures
      var (me', peer') := WritePages(me, peer, first, end, message);
      var (me'', peer'', shown) := ReadPages(me', peer', first, end, false);
      && |shown| == end - first
      && if first <= page < end then
           PageIs(me'', page, M, message) && PageIs(peer'', page, I, "") && shown[page - first] == message
         else Untouched(me, peer, me'', peer'', page)
  {
    WritePagesEffect(me, peer, first, end, message, page);
    WriteThenEcho(me, peer, first, end, message, page);
  }

  /** So is a write command, the print that follows it included. It ends at the prompt with
      each target page M and the message here, I and empty there, and every other page as it
      was; the log gains a write and then a print of the message for each target page. */
  lemma {:induction false} WriteCommandIsASchedule(s: System, q: int, message: string)
      returns (t: System, writes: seq<Event>, prints: seq<Event>)
    requires Matched(s) && s.a.main.Prompt? && -1 <= q < |s.a.cache.state| && 0 < |s.a.cache.state| && |message| > 0
    ensures
      var first: nat, last: nat := if q == -1 then 0 else q, if q == -1 then |s.a.cache.state| - 1 else q;
      var start := Move(A, Start(Job(Write(message), first, last)));
      && Enabled(s, start) && Leads(Apply(s, start), t) && t.a.main.Prompt? && t.b.main == s.b.main
      && t.log == s.log + writes + prints && |writes| == |prints| == last + 1 - first
      && (forall k: nat | k < |writes| :: writes[k] == Wrote(first + k, message))
      && (forall k: nat | k < |prints| ::
            prints[k].Showed? && prints[k].page == first + k && prints[k].text == message)
    ensures
      forall p: nat | p < |s.a.cache.state| ::
        if q == -1 || p == q then PageIs(t.a.cache, p, M, message) && PageIs(t.b.cache, p, I, "")
        else Untouched(s.a.cache, s.b.cache, t.a.cache, t.b.cache, p)
  {
    hide Leads, Run, Exchange, LossOk, Lost, WritePages, ReadPages, PageIs, Untouched;
    var first: nat, last: nat := if q == -1 then 0 else q, if q == -1 then |s.a.cache.state| - 1 else q;
    t, prints := WriteCommandEnds(s, Job(Write(message), first, last));
    writes := WroteEach(first, last + 1, message);
    forall p: nat | p < |s.a.cache.state|
      ensures
        if q == -1 || p == q then PageIs(t.a.cache, p, M, message) && PageIs(t.b.cache, p, I, "")
        else Untouched(s.a.cache, s.b.cache, t.a.cache, t.b.cache, p)
    {
      WritePrintEffect(s.a.cache, s.b.cache, first, last + 1, message, p);
    }
    forall k: nat | k < |prints|
      ensures prints[k].text == message
    {
      WritePrintEffect(s.a.cache, s.b.cache, first, last + 1, message, first + k);
    }
  }
}
