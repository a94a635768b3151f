/** Two nodes of the shared memory as a transition system. Each node runs a main
    thread (the command loop) and a responder thread; a connection joins the main
    of one node to the responder of the other. A step is one access to the state
    array, one send, one receive, or one whole piece of work on a page's bytes:
    Writing and Replied are the byte loop of `updatePageContents`, Formatting and
    Relented an `sprintf` of the page, Dropping (and Replied, for "NULL") a `madvise`.

    The state load and the state store inside `getResponse` and inside
    `transitionStateOnRead` are one step: the only other writer of the array entry
    between them is the node's own main, and it never stores I.

    `serial`, `Reply.request` and `log` are bookkeeping for the theorems: no step
    looks at them. */
module Protocol {
  import opened MsiCache

  datatype Op = ReadOp | InvalidateOp
  datatype Request = Request(page: nat, op: Op, serial: nat)
  datatype Reply = Reply(text: string, request: Request)
  datatype Conn = Conn(requests: seq<Request>, replies: seq<Reply>)

  // What a main is doing: a read, a write, or the fetch-free print that follows a write.
  datatype Kind = Read | Write(message: string) | Echo
  datatype Job = Job(kind: Kind, first: nat, last: nat)

  // Where the printed text came from; only an echo skips.
  datatype Source = Local | Fetched | Skipped

  datatype Stage =
    | Ready                                   // between two loop iterations
    | Writing                                 // about to copy the message into the page
    | Marking                                 // about to store M
    | Sending                                 // in communicateWithPeer, about to send
    | Awaiting                                // blocked in read()
    | Formatting                              // about to copy the page's text out
    | Checking(text: string)                  // about to look at the page's state
    | Replied(text: string)                   // about to act on a fetched reply
    | Stored(text: string)                    // reply copied in, about to store S
    | Printing(text: string, source: Source)

  datatype Main = Prompt | Busy(job: Job, page: nat, stage: Stage)

  datatype Responder =
    | Listening
    | Received(request: Request)
    | Dropping(request: Request)              // state is I, page not yet discarded
    | Looked(request: Request, valid: bool)   // getResponse has returned
    | Relented(request: Request, valid: bool) // transitionStateOnRead has returned
    | Replying(request: Request, text: string)

  // `conn` is the connection this node's main talks over.
  datatype Node = Node(cache: Cache, main: Main, responder: Responder, conn: Conn, sent: nat)

  datatype Event = Wrote(page: nat, message: string) | Showed(page: nat, text: string, source: Source)

  datatype System = System(a: Node, b: Node, log: seq<Event>)

  datatype Side = A | B
  datatype Action = Start(job: Job) | MainStep | ServeStep
  datatype Move = Move(side: Side, action: Action)

  function Flip(s: System): System {
    System(s.b, s.a, s.log)
  }

  // ---------- well-formedness ----------

  predicate Fits(kind: Kind, stage: Stage) {
    match kind
    case Read => !stage.Writing? && !stage.Marking? && (stage.Printing? ==> !stage.source.Skipped?)
    case Write(m) => stage.Ready? || stage.Writing? || stage.Marking? || stage.Sending? || stage.Awaiting?
    case Echo => stage.Ready? || stage.Formatting? || stage.Checking? || stage.Printing?
  }

  // The prompt offers one page or all of them; the message scanned for a write is never empty.
  predicate IsCommand(job: Job, n: nat) {
    && (job.kind.Read? || (job.kind.Write? && job.kind.message != ""))
    && (job.first == job.last < n || (job.first == 0 && job.last == n - 1))
  }

  predicate NodeOk(me: Node, n: nat) {
    && me.cache.Holds(n)
    && (me.main.Busy? ==>
          && me.main.job.first <= me.main.page <= me.main.job.last < n
          && Fits(me.main.job.kind, me.main.stage)
          && (me.main.job.kind.Write? ==> me.main.job.kind.message != ""))
    && (!me.responder.Listening? ==> me.responder.request.page < n)
    && (forall r <- me.conn.requests :: r.page < n)
  }

  predicate WellFormed(s: System) {
    NodeOk(s.a, |s.a.cache.state|) && NodeOk(s.b, |s.a.cache.state|)
  }

  // ---------- the main thread ----------

  function Goto(me: Node, stage: Stage): Node
    requires me.main.Busy?
  {
    me.(main := me.main.(stage := stage))
  }

  /** The end of a loop iteration: the next page, the print after a write, or the prompt. */
  function NextMain(job: Job, page: nat): Main {
    if page < job.last then Busy(job, page + 1, Ready)
    else if job.kind.Write? then Busy(Job(Echo, job.first, job.last), job.first, Ready)
    else Prompt
  }

  function NextPage(me: Node): Node
    requires me.main.Busy?
  {
    me.(main := NextMain(me.main.job, me.main.page))
  }

  function OpOf(kind: Kind): Op {
    if kind.Write? then InvalidateOp else ReadOp
  }

  function CurrentOp(me: Node): Op
    requires me.main.Busy?
  {
    OpOf(me.main.job.kind)
  }

  predicate CanAdvance(me: Node) {
    me.main.Busy? && (me.main.stage.Awaiting? ==> me.conn.replies != [])
  }

  function Advance(me: Node): (r: (Node, seq<Event>))
    requires CanAdvance(me) && NodeOk(me, |me.cache.state|)
    ensures NodeOk(r.0, |me.cache.state|)
  {
    var Busy(job, page, stage) := me.main;
    match stage
    case Ready => (Goto(me, if job.kind.Write? then Writing else Formatting), [])
    case Writing =>
      var message := if job.kind.Write? then job.kind.message else "";
      (Goto(me, Marking).(cache := SetText(me.cache, page, message)), [])
    case Marking => (Goto(me, Sending).(cache := SetState(me.cache, page, M)), [])
    case Sending =>
      var request := Request(page, CurrentOp(me), me.sent + 1);
      (Goto(me, Awaiting).(sent := me.sent + 1, conn := me.conn.(requests := me.conn.requests + [request])), [])
    case Awaiting =>
      var text := me.conn.replies[0].text;
      var me' := me.(conn := me.conn.(replies := me.conn.replies[1..]));
      if job.kind.Write? then (NextPage(me'), [Wrote(page, job.kind.message)])
      else (Goto(me', Replied(text)), [])
    case Formatting => (Goto(me, Checking(me.cache.text[page])), [])
    case Checking(text) =>
      (Goto(me,
            if !me.cache.state[page].I? then Printing(text, Local)
            else if job.kind.Read? then Sending
            else Printing("", Skipped)), [])
    case Replied(text) =>
      if text != NULL_REPLY then (Goto(me, Stored(text)).(cache := SetText(me.cache, page, text)), [])
      else (Goto(me, Printing("", Fetched)).(cache := Drop(me.cache, page)), [])
    case Stored(text) => (Goto(me, Printing(text, Fetched)).(cache := SetState(me.cache, page, S)), [])
    case Printing(text, source) => (NextPage(me), [Showed(page, text, source)])
  }

  // ---------- the responder thread ----------

  predicate CanServe(me: Node, peer: Node) {
    me.responder.Listening? ==> peer.conn.requests != []
  }

  function Serve(me: Node, peer: Node): (r: (Node, Node))
    requires CanServe(me, peer) && NodeOk(me, |me.cache.state|) && NodeOk(peer, |me.cache.state|)
    ensures NodeOk(r.0, |me.cache.state|) && NodeOk(r.1, |me.cache.state|)
  {
    match me.responder
    case Listening =>
      (me.(responder := Received(peer.conn.requests[0])),
       peer.(conn := peer.conn.(requests := peer.conn.requests[1..])))
    case Received(request) =>
      if request.op.InvalidateOp? then
        (me.(cache := SetState(me.cache, request.page, I), responder := Dropping(request)), peer)
      else
        (me.(cache := Demote(me.cache, request.page),
             responder := Looked(request, Serves(me.cache, request.page))), peer)
    case Dropping(request) =>
      (me.(cache := Drop(me.cache, request.page), responder := Replying(request, SUCCESS_REPLY)), peer)
    case Looked(request, valid) =>
      (me.(cache := Demote(me.cache, request.page), responder := Relented(request, valid)), peer)
    case Relented(request, valid) =>
      (me.(responder := Replying(request, if valid then me.cache.text[request.page] else NULL_REPLY)), peer)
    case Replying(request, text) =>
      // Sending an empty string puts nothing on the connection.
      (me.(responder := Listening),
       if text == "" then peer else peer.(conn := peer.conn.(replies := peer.conn.replies + [Reply(text, request)])))
  }

  // ---------- runs ----------

  predicate Enabled(s: System, move: Move) {
    var (me, peer) := if move.side.A? then (s.a, s.b) else (s.b, s.a);
    match move.action
    case Start(job) => me.main.Prompt? && IsCommand(job, |s.a.cache.state|)
    case MainStep => CanAdvance(me)
    case ServeStep => CanServe(me, peer)
  }

  /** One move of node a. */
  function Act(s: System, action: Action): (s': System)
    requires WellFormed(s) && Enabled(s, Move(A, action))
    ensures WellFormed(s') && |s'.a.cache.state| == |s.a.cache.state|
  {
    match action
    case Start(job) => s.(a := s.a.(main := Busy(job, job.first, Ready)))
    case MainStep => var (a, events) := Advance(s.a); System(a, s.b, s.log + events)
    case ServeStep => var (a, b) := Serve(s.a, s.b); System(a, b, s.log)
  }

  /** A move that is not enabled changes nothing, so any list of moves is a schedule. */
  function Apply(s: System, move: Move): (s': System)
    requires WellFormed(s)
    ensures WellFormed(s') && |s'.a.cache.state| == |s.a.cache.state|
  {
    if !Enabled(s, move) then s
    else if move.side.A? then Act(s, move.action)
    else Flip(Act(Flip(s), move.action))
  }

  function Fresh(n: nat): Node {
    Node(Cache(seq(n, _ => I), seq(n, _ => "")), Prompt, Listening, Conn([], []), 0)
  }

  function Init(n: nat): System {
    System(Fresh(n), Fresh(n), [])
  }

  function Run(s: System, moves: seq<Move>): (s': System)
    requires WellFormed(s)
    ensures WellFormed(s') && |s'.a.cache.state| == |s.a.cache.state|
  {
    if moves == [] then s else Apply(Run(s, moves[..|moves| - 1]), moves[|moves| - 1])
  }

  /** The message of the last completed write to a page, empty if there was none. */
  function LastWrite(log: seq<Event>, page: nat): string {
    if log == [] then ""
    else
      var e := log[|log| - 1];
      if e.Wrote? && e.page == page then e.message else LastWrite(log[..|log| - 1], page)
  }

  // ---------- the prompt ----------

  /** What a prompt takes, in every reachable state and at either node: a read, or a write of
      a message, of page q, or of all pages when q is -1. It sets that main on the first of
      them and changes nothing else. */
  lemma {:induction false} PromptTakes(n: nat, moves: seq<Move>, side: Side, kind: Kind, q: int)
    requires n > 0 && -1 <= q < n && (kind.Read? || (kind.Write? && |kind.message| > 0))
    requires var s := Run(Init(n), moves); (if side.A? then s.a else s.b).main.Prompt?
    ensures
      var s := Run(Init(n), moves);
      var job := if q == -1 then Job(kind, 0, n - 1) else Job(kind, q, q);
      var busy := Busy(job, if q == -1 then 0 else q, Ready);
      && Enabled(s, Move(side, Start(job)))
      && Apply(s, Move(side, Start(job))) ==
         if side.A? then System(s.a.(main := busy), s.b, s.log) else System(s.a, s.b.(main := busy), s.log)
  {
  }

  /** And it takes nothing else. */
  lemma {:induction false} PromptTakesOnly(n: nat, moves: seq<Move>, side: Side, job: Job) returns (q: int)
    requires n > 0 && Enabled(Run(Init(n), moves), Move(side, Start(job)))
    ensures -1 <= q < n && (job.kind.Read? || (job.kind.Write? && |job.kind.message| > 0))
    ensures job == if q == -1 then Job(job.kind, 0, n - 1) else Job(job.kind, q, q)
    ensures var s := Run(Init(n), moves); (if side.A? then s.a else s.b).main.Prompt?
  {
    q := if job.first == job.last then job.first else -1;
  }
}
