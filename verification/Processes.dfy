/** The two processes carrying out any schedule of the transition system on their real arrays:
    what is proved of every run holds of the bytes. */
module Processes {
  import opened MsiCache
  import opened PageBytes
  import opened Protocol
  import opened Coherence
  import SharedNode

  // A text that a page can hold.
  predicate FitsPage(text: string, pageSize: nat) {
    NulFree(text) && |text| < pageSize
  }

  predicate KindFits(kind: Kind, pageSize: nat) {
    kind.Write? ==> FitsPage(kind.message, pageSize)
  }

  // Every text under way fits a page.
  predicate TextsFit(main: Main, responder: Responder, conn: Conn, pageSize: nat) {
    && (main.Busy? ==>
          && KindFits(main.job.kind, pageSize)
          && (main.stage.Replied? ==> FitsPage(main.stage.text, pageSize)))
    && (responder.Replying? ==> FitsPage(responder.text, pageSize))
    && forall reply <- conn.replies :: FitsPage(reply.text, pageSize)
  }

  predicate OnPages(stage: Stage) {
    !stage.Ready? && !stage.Sending? && !stage.Awaiting? && !stage.Printing?
  }

  /** One process: its pages, where its two threads are, and the connection its main uses. */
  class Process {
    const pages: SharedNode.Node
    var main: Main
    var responder: Responder
    var conn: Conn
    var sent: nat

    /** The node of the transition system that this process is. */
    ghost function View(): Protocol.Node
      requires pages.Valid()
      reads this, pages, pages.msiArray, pages.mem
    {
      Protocol.Node(pages.View(), main, responder, conn, sent)
    }

    ghost predicate Valid()
      reads this, pages, pages.msiArray, pages.mem
    {
      && pages.Valid() && NodeOk(View(), pages.numPages)
      && TextsFit(main, responder, conn, pages.pageSize)
    }

    constructor (numPages: nat, pageSize: nat)
      requires 1024 <= pageSize && 1 <= numPages < SharedNode.STATE_SLOTS
      ensures Valid() && fresh(pages) && fresh(pages.msiArray) && fresh(pages.mem)
      ensures pages.numPages == numPages && pages.pageSize == pageSize && View() == Fresh(numPages)
    {
      pages := new SharedNode.Node(numPages, pageSize);
      main, responder, conn, sent := Prompt, Listening, Conn([], []), 0;
    }

    function MayAdvance(): bool
      reads this
    {
      main.Busy? && (main.stage.Awaiting? ==> conn.replies != [])
    }

    // The stages of a main that work on the pages.
    method AdvanceOnPages()
      requires Valid() && CanAdvance(View()) && OnPages(main.stage)
      modifies this`main, pages.msiArray, pages.mem
      ensures Valid() && View() == Advance(old(View())).0
    {
      var Busy(job, page, stage) := main;
      match stage {
        case Writing =>
          pages.StoreMessage(page, job.kind.message);
          main := Busy(job, page, Marking);
        case Marking =>
          pages.StoreState(page, M);
          main := Busy(job, page, Sending);
        case Formatting =>
          var text := pages.ReadText(page);
          main := Busy(job, page, Checking(text));
        case Checking(text) =>
          if !pages.msiArray[page].I? {
            main := Busy(job, page, Printing(text, Local));
          } else if job.kind.Read? {
            main := Busy(job, page, Sending);
          } else {
            main := Busy(job, page, Printing("", Skipped));
          }
        case Replied(text) =>
          if text != NULL_REPLY {
            pages.StoreMessage(page, text);
            main := Busy(job, page, Stored(text));
          } else {
            pages.Discard(page);
            main := Busy(job, page, Printing("", Fetched));
          }
        case Stored(text) =>
          pages.StoreState(page, S);
          main := Busy(job, page, Printing(text, Fetched));
      }
    }

    /** The main's next step. */
    method AdvanceOnBytes() returns (events: seq<Event>)
      requires Valid() && CanAdvance(View())
      modifies this`main, this`conn, this`sent, pages.msiArray, pages.mem
      ensures Valid()
      ensures var (me, e) := Advance(old(View())); View() == me && events == e
    {
      var Busy(job, page, stage) := main;
      events := [];
      if OnPages(stage) {
        AdvanceOnPages();
        return;
      }
      match stage {
        case Ready => main := Busy(job, page, if job.kind.Write? then Writing else Formatting);
        case Sending =>
          var request := Request(page, OpOf(job.kind), sent + 1);
          sent, conn := sent + 1, conn.(requests := conn.requests + [request]);
          main := Busy(job, page, Awaiting);
        case Awaiting =>
          var text := conn.replies[0].text;
          conn := conn.(replies := conn.replies[1..]);
          if job.kind.Write? {
            events := [Wrote(page, job.kind.message)];
            main := NextMain(job, page);
          } else {
            main := Busy(job, page, Replied(text));
          }
        case Printing(text, source) =>
          events := [Showed(page, text, source)];
          main := NextMain(job, page);
      }
    }

    function MayServe(peer: Process): bool
      reads this, peer
    {
      responder.Listening? ==> peer.conn.requests != []
    }

    // The work of a responder on the pages, between taking a request and replying.
    method ServeOnPages(ghost peer: Protocol.Node)
      requires Valid() && NodeOk(peer, pages.numPages) && !responder.Listening? && !responder.Replying?
      modifies this`responder, pages.msiArray, pages.mem
      ensures Valid() && View() == Serve(old(View()), peer).0
    {
      match responder {
        case Received(request) =>
          if request.op.InvalidateOp? {
            pages.StoreState(request.page, I);
            responder := Dropping(request);
          } else {
            var valid := pages.GetResponse(request.page);
            responder := Looked(request, valid);
          }
        case Dropping(request) =>
          pages.Discard(request.page);
          responder := Replying(request, SUCCESS_REPLY);
        case Looked(request, valid) =>
          pages.TransitionStateOnRead(request.page);
          responder := Relented(request, valid);
        case Relented(request, valid) =>
          var text := NULL_REPLY;
          if valid {
            text := pages.ReadText(request.page);
          }
          responder := Replying(request, text);
      }
    }

    /** The responder's next step, serving the peer's main. */
    method ServeOnBytes(peer: Process)
      requires Valid() && peer.Valid() && Apart(peer) && CanServe(View(), peer.View())
      modifies this`responder, pages.msiArray, pages.mem, peer`conn
      ensures Valid() && peer.Valid()
      ensures var (me, p) := Serve(old(View()), old(peer.View())); View() == me && peer.View() == p
    {
      match responder {
        case Listening =>
          responder := Received(peer.conn.requests[0]);
          peer.conn := peer.conn.(requests := peer.conn.requests[1..]);
        case Replying(request, text) =>
          responder := Listening;
          if text != "" {
            peer.conn := peer.conn.(replies := peer.conn.replies + [Reply(text, request)]);
          }
        case _ =>
          ServeOnPages(peer.View());
      }
    }

    // Nothing is shared between the two processes but the connections.
    ghost predicate Apart(peer: Process)
      reads this, peer
    {
      && this != peer && pages != peer.pages
      && pages.msiArray != peer.pages.msiArray && pages.mem != peer.pages.mem
      && pages.numPages == peer.pages.numPages && pages.pageSize == peer.pages.pageSize
    }
  }

  // ---------- any schedule ----------

  // One move of the process `me`.
  method ActOnBytes(me: Process, peer: Process, action: Action, ghost log: seq<Event>) returns (events: seq<Event>)
    requires me.Valid() && peer.Valid() && me.Apart(peer) && peer.Apart(me)
    requires action.Start? ==> KindFits(action.job.kind, me.pages.pageSize)
    modifies me, me.pages.msiArray, me.pages.mem, peer`conn
    ensures me.Valid() && peer.Valid()
    ensures
      var s, s' := old(System(me.View(), peer.View(), log)), System(me.View(), peer.View(), log + events);
      s' == if Enabled(s, Move(A, action)) then Act(s, action) else s
  {
    events := [];
    match action {
      case Start(job) =>
        if me.main.Prompt? && IsCommand(job, me.pages.numPages) {
          me.main := Busy(job, job.first, Ready);
        }
      case MainStep =>
        if me.MayAdvance() {
          events := me.AdvanceOnBytes();
        }
      case ServeStep =>
        if me.MayServe(peer) {
          me.ServeOnBytes(peer);
        }
    }
  }

  /** Two processes carry out any schedule on their arrays, and stand where the transition
      system does; what they have logged is its log. */
  method RunOnBytes(numPages: nat, pageSize: nat, moves: seq<Move>) returns (a: Process, b: Process, log: seq<Event>)
    requires 1024 <= pageSize && 1 <= numPages <= 99
    requires
      forall move <- moves | move.action.Start? && move.action.job.kind.Write? ::
        '\0' !in move.action.job.kind.message && |move.action.job.kind.message| < pageSize
    ensures a.Valid() && b.Valid() && a.pages.numPages == b.pages.numPages == numPages
    ensures a.pages.pageSize == b.pages.pageSize == pageSize
    ensures System(a.View(), b.View(), log) == Run(Init(numPages), moves)
  {
    a := new Process(numPages, pageSize);
    b := new Process(numPages, pageSize);
    log := [];
    var i := 0;
    while i < |moves|
      invariant 0 <= i <= |moves|
      invariant a.Valid() && b.Valid() && a.Apart(b) && b.Apart(a)
      invariant a.pages.numPages == numPages && a.pages.pageSize == pageSize
      invariant fresh(a) && fresh(a.pages) && fresh(a.pages.msiArray) && fresh(a.pages.mem)
      invariant fresh(b) && fresh(b.pages) && fresh(b.pages.msiArray) && fresh(b.pages.mem)
      invariant System(a.View(), b.View(), log) == Run(Init(numPages), moves[..i])
    {
      assert moves[..i + 1][..i] == moves[..i];
      var move := moves[i];
      assert move in moves;
      var events;
      if move.side.A? {
        events := ActOnBytes(a, b, move.action, log);
      } else {
        events := ActOnBytes(b, a, move.action, log);
      }
      log := log + events;
      i := i + 1;
    }
    assert moves[..i] == moves;
  }

  /** Coherence of the bytes. After any disciplined schedule, every read that came from a page
      or from the peer showed the last completed write, "NULL" when fetched excepted; and at
      every page with no operation under way the bytes of each valid copy spell the last
      completed write, with one writer or agreeing readers. */
  method RunDisciplined(numPages: nat, pageSize: nat, moves: seq<Move>)
      returns (a: Process, b: Process, log: seq<Event>)
    requires 1024 <= pageSize && 1 <= numPages <= 99
    requires
      forall move <- moves | move.action.Start? && move.action.job.kind.Write? ::
        '\0' !in move.action.job.kind.message && |move.action.job.kind.message| < pageSize
    requires Disciplined(Init(numPages), moves)
    ensures a.Valid() && b.Valid() && a.pages.numPages == b.pages.numPages == numPages
    ensures
      forall k | 0 <= k < |log| && log[k].Showed? && !log[k].source.Skipped? ::
        var last := LastWrite(log[..k], log[k].page);
        log[k].text == last <==> !(log[k].source.Fetched? && last == "NULL")
    ensures
      forall page | 0 <= page < numPages && !OperatesOn(a.View(), page) && !OperatesOn(b.View(), page) ::
        var here, there, last := a.pages.msiArray[page], b.pages.msiArray[page], LastWrite(log, page);
        && (here.M? ==> there.I?) && (there.M? ==> here.I?) && (last != "" <==> !here.I? || !there.I?)
        && (!here.I? ==> SpellsAt(a.pages.mem[..], page * pageSize, last))
        && (!there.I? ==> SpellsAt(b.pages.mem[..], page * pageSize, last))
  {
    a, b, log := RunOnBytes(numPages, pageSize, moves);
    forall k | 0 <= k < |log| && log[k].Showed? && !log[k].source.Skipped?
      ensures
        var last := LastWrite(log[..k], log[k].page);
        log[k].text == last <==> !(log[k].source.Fetched? && last == NULL_REPLY)
    {
      ReadsShowLastWrite(numPages, moves, k);
    }
    forall page | 0 <= page < numPages && !OperatesOn(a.View(), page) && !OperatesOn(b.View(), page)
      ensures
        var here, there, last := a.pages.msiArray[page], b.pages.msiArray[page], LastWrite(log, page);
        && (here.M? ==> there.I?) && (there.M? ==> here.I?) && (last != "" <==> !here.I? || !there.I?)
        && (!here.I? ==> SpellsAt(a.pages.mem[..], page * pageSize, last))
        && (!there.I? ==> SpellsAt(b.pages.mem[..], page * pageSize, last))
    {
      SingleWriterAgreeingReaders(numPages, moves, page);
      assert a.View().cache.state[page] == a.pages.msiArray[page];
      assert b.View().cache.state[page] == b.pages.msiArray[page];
      TextSpells(a.pages.mem[..], numPages, page, pageSize);
      TextSpells(b.pages.mem[..], numPages, page, pageSize);
    }
  }
}
