/** One command at a time: the caches of the two nodes before and after a whole read or
    write, when each request is answered while its sender waits. */
module Commands {
  import opened Basics
  import opened MsiCache

  /** Everything the responder does for one request: its cache afterwards and the reply. */
  function Answered(c: Cache, page: nat, invalidate: bool): (Cache, string)
    requires page < |c.state| && page < |c.text|
  {
    if invalidate then (Drop(SetState(c, page, I), page), SUCCESS_REPLY)
    else (Demote(c, page), if Serves(c, page) then c.text[page] else NULL_REPLY)
  }

  function WritePage(me: Cache, peer: Cache, page: nat, message: string): (Cache, Cache)
    requires page < |me.state| && me.Holds(|me.state|) && peer.Holds(|me.state|)
  {
    (SetState(SetText(me, page, message), page, M), Answered(peer, page, true).0)
  }

  // This node asks for the page, and the peer has it with no text: it sends no bytes, and
  // the asking main stays in read().
  predicate Stalls(me: Cache, peer: Cache, page: nat)
    requires page < |me.state| && page < |peer.state| && page < |peer.text|
  {
    me.state[page].I? && !peer.state[page].I? && peer.text[page] == ""
  }

  // The two caches, and the text printed for the page, None if the read never comes back.
  function ReadPage(me: Cache, peer: Cache, page: nat, fetch: bool): (Cache, Cache, Option<string>)
    requires page < |me.state| && me.Holds(|me.state|) && peer.Holds(|me.state|)
  {
    if !me.state[page].I? then (me, peer, Some(me.text[page]))
    else if !fetch then (me, peer, Some(""))
    else
      var (peer', reply) := Answered(peer, page, false);
      if reply == "" then (me, peer', None)
      else if reply != NULL_REPLY then (SetState(SetText(me, page, reply), page, S), peer', Some(reply))
      else (Drop(me, page), peer', Some(""))
  }

  /** The loop of updatePageContents over pages first up to (not including) end. */
  function WritePages(me: Cache, peer: Cache, first: nat, end: nat, message: string): (r: (Cache, Cache))
    requires first <= end <= |me.state| && me.Holds(|me.state|) && peer.Holds(|me.state|)
    ensures r.0.Holds(|me.state|) && r.1.Holds(|me.state|)
  {
    if first == end then (me, peer)
    else
      var (me', peer') := WritePages(me, peer, first, end - 1, message);
      WritePage(me', peer', end - 1, message)
  }

  /** The loop of printPageContents, with the texts it prints: fewer than there are pages if
      the read of one never comes back. */
  function ReadPages(me: Cache, peer: Cache, first: nat, end: nat, fetch: bool): (r: (Cache, Cache, seq<string>))
    requires first <= end <= |me.state| && me.Holds(|me.state|) && peer.Holds(|me.state|)
    ensures r.0.Holds(|me.state|) && r.1.Holds(|me.state|)
    ensures |r.2| <= end - first && (!fetch ==> |r.2| == end - first)
  {
    if first == end then (me, peer, [])
    else
      var (me', peer', shown) := ReadPages(me, peer, first, end - 1, fetch);
      if |shown| < end - 1 - first then (me', peer', shown)
      else
        var (me'', peer'', text) := ReadPage(me', peer', end - 1, fetch);
        (me'', peer'', if text.Some? then shown + [text.value] else shown)
  }

  lemma {:induction false} StaysStopped(me: Cache, peer: Cache, first: nat, mid: nat, end: nat, fetch: bool)
    requires first <= mid <= end <= |me.state| && me.Holds(|me.state|) && peer.Holds(|me.state|)
    requires |ReadPages(me, peer, first, mid, fetch).2| < mid - first
    ensures ReadPages(me, peer, first, end, fetch) == ReadPages(me, peer, first, mid, fetch)
  {
    if mid < end {
      StaysStopped(me, peer, first, mid, end - 1, fetch);
    }
  }

  predicate PageIs(c: Cache, page: nat, st: State, text: string) {
    page < |c.state| && page < |c.text| && c.state[page] == st && c.text[page] == text
  }

  // The page holds the same in both nodes as before.
  predicate Untouched(me: Cache, peer: Cache, me': Cache, peer': Cache, page: nat)
    requires page < |me.state| && me.Holds(|me.state|) && peer.Holds(|me.state|)
  {
    PageIs(me', page, me.state[page], me.text[page]) && PageIs(peer', page, peer.state[page], peer.text[page])
  }

  predicate WriteEffect(me: Cache, peer: Cache, me': Cache, peer': Cache, page: nat, target: bool, message: string)
    requires page < |me.state| && me.Holds(|me.state|) && peer.Holds(|me.state|)
  {
    if target then PageIs(me', page, M, message) && PageIs(peer', page, I, "")
    else Untouched(me, peer, me', peer', page)
  }

  predicate ReadEffect(me: Cache, peer: Cache, me': Cache, peer': Cache, page: nat, fetch: bool, shown: string)
    requires page < |me.state| && me.Holds(|me.state|) && peer.Holds(|me.state|)
  {
    if !me.state[page].I? then
      shown == me.text[page] && Untouched(me, peer, me', peer', page)
    else if !fetch then
      shown == "" && Untouched(me, peer, me', peer', page)
    else if peer.state[page].I? then
      shown == "" && PageIs(me', page, I, "") && PageIs(peer', page, I, peer.text[page])
    else if peer.text[page] == NULL_REPLY then
      shown == "" && PageIs(me', page, I, "") && PageIs(peer', page, S, NULL_REPLY)
    else
      && shown == peer.text[page]
      && PageIs(me', page, S, peer.text[page]) && PageIs(peer', page, S, peer.text[page])
  }

  /** A write leaves every target page M here with the message and I with no text there,
      and touches no other page of either node. */
  lemma {:induction false} WritePagesEffect(me: Cache, peer: Cache, first: nat, end: nat, message: string, page: nat)
    requires first <= end <= |me.state| && me.Holds(|me.state|) && peer.Holds(|me.state|) && page < |me.state|
    ensures
      var (me', peer') := WritePages(me, peer, first, end, message);
      WriteEffect(me, peer, me', peer', page, first <= page < end, message)
  {
    if first < end {
      WritePagesEffect(me, peer, first, end - 1, message, page);
    }
  }

  lemma ReadPageEffect(me: Cache, peer: Cache, at: nat, page: nat, fetch: bool)
    requires at < |me.state| && me.Holds(|me.state|) && peer.Holds(|me.state|) && page < |me.state|
    ensures
      var (me', peer', text) := ReadPage(me, peer, at, fetch);
      && me'.Holds(|me.state|) && peer'.Holds(|me.state|)
      && if page != at then Untouched(me, peer, me', peer', page)
         else if text.Some? then ReadEffect(me, peer, me', peer', page, fetch, text.value)
         else PageIs(me', page, me.state[page], me.text[page]) && PageIs(peer', page, S, peer.text[page])
  {
  }

  /** A read shows, for each page, this node's text if it is valid here, else the peer's if
      it is valid there; a valid copy whose text is "NULL" cannot be told from no copy. At a
      page whose read stalls only the peer's state changes, and nothing further on does. The
      print after a write shows the text here if it is valid, else nothing. */
  lemma {:induction false} ReadPagesEffect(me: Cache, peer: Cache, first: nat, end: nat, page: nat, fetch: bool)
    requires first <= end <= |me.state| && me.Holds(|me.state|) && peer.Holds(|me.state|) && page < |me.state|
    ensures
      var (me', peer', shown) := ReadPages(me, peer, first, end, fetch);
      var stop := first + |shown|;
      if first <= page < stop then ReadEffect(me, peer, me', peer', page, fetch, shown[page - first])
      else if page == stop < end then
        PageIs(me', page, me.state[page], me.text[page]) && PageIs(peer', page, S, peer.text[page])
      else Untouched(me, peer, me', peer', page)
  {
    hide ReadPage;
    if first < end {
      ReadPagesEffect(me, peer, first, end - 1, page, fetch);
      var (me', peer', shown) := ReadPages(me, peer, first, end - 1, fetch);
      if |shown| == end - 1 - first {
        ReadPageEffect(me', peer', end - 1, page, fetch);
      }
    }
  }

  /** A read gets exactly as far as the first page whose read stalls. */
  lemma {:induction false} ReadStopsAtStall(me: Cache, peer: Cache, first: nat, end: nat)
    requires first <= end <= |me.state| && me.Holds(|me.state|) && peer.Holds(|me.state|)
    ensures
      var stop := first + |ReadPages(me, peer, first, end, true).2|;
      && stop <= end && (stop < end ==> Stalls(me, peer, stop))
      && forall q | first <= q < stop :: !Stalls(me, peer, q)
  {
    if first < end {
      ReadStopsAtStall(me, peer, first, end - 1);
      ReadPagesEffect(me, peer, first, end - 1, end - 1, true);
    }
  }

  // What a read tells of one of its pages, the at-th: its text if it got that far.
  predicate ReadTold(me: Cache, peer: Cache, me': Cache, peer': Cache, page: nat, fetch: bool,
                     shown: seq<string>, at: nat)
    requires page < |me.state| && me.Holds(|me.state|) && peer.Holds(|me.state|)
  {
    if at < |shown| then ReadEffect(me, peer, me', peer', page, fetch, shown[at])
    else if at == |shown| then
      && fetch && Stalls(me, peer, page)
      && PageIs(me', page, I, me.text[page]) && PageIs(peer', page, S, "")
    else Untouched(me, peer, me', peer', page)
  }

  lemma {:induction false} ReadsTold(me: Cache, peer: Cache, first: nat, end: nat, page: nat, fetch: bool)
    requires first <= end <= |me.state| && me.Holds(|me.state|) && peer.Holds(|me.state|) && page < |me.state|
    ensures
      var (me', peer', shown) := ReadPages(me, peer, first, end, fetch);
      if first <= page < end then ReadTold(me, peer, me', peer', page, fetch, shown, page - first)
      else Untouched(me, peer, me', peer', page)
  {
    hide ReadPages, ReadEffect, Untouched;
    ReadPagesEffect(me, peer, first, end, page, fetch);
    if fetch {
      ReadStopsAtStall(me, peer, first, end);
    }
  }

  // Told of a page just written at the peer.
  lemma ToldWritten(me: Cache, peer: Cache, me': Cache, peer': Cache, page: nat,
                    shown: seq<string>, at: nat, message: string)
    requires page < |me.state| && me.Holds(|me.state|) && peer.Holds(|me.state|)
    requires message != "" && message != NULL_REPLY
    requires PageIs(me, page, I, "") && PageIs(peer, page, M, message)
    requires ReadTold(me, peer, me', peer', page, true, shown, at)
    ensures at != |shown| && (at < |shown| ==> shown[at] == message)
  {
  }

  lemma {:induction false} AllTold(me: Cache, peer: Cache, me': Cache, peer': Cache,
                                   shown: seq<string>, message: string)
    requires me.Holds(|me.state|) && peer.Holds(|me.state|) && |shown| <= |me.state|
    requires message != "" && message != NULL_REPLY
    requires forall p: nat | p < |me.state| :: PageIs(me, p, I, "")
    requires forall p: nat | p < |me.state| :: PageIs(peer, p, M, message)
    requires forall p: nat | p < |me.state| :: ReadTold(me, peer, me', peer', p, true, shown, p)
    ensures shown == seq(|me.state|, _ => message)
  {
    hide PageIs, ReadTold;
    if |shown| < |me.state| {
      ToldWritten(me, peer, me', peer', |shown|, shown, |shown|, message);
      assert false;
    }
    forall p: nat | p < |me.state|
      ensures shown[p] == message
    {
      ToldWritten(me, peer, me', peer', p, shown, p, message);
    }
  }

  lemma ReadsHere(me: Cache, peer: Cache, first: nat, end: nat, message: string)
    requires first <= end <= |me.state| && me.Holds(|me.state|) && peer.Holds(|me.state|)
    requires forall page | first <= page < end :: PageIs(me, page, M, message)
    ensures ReadPages(me, peer, first, end, true).2 == seq(end - first, _ => message)
  {
    ReadStopsAtStall(me, peer, first, end);
    var shown := ReadPages(me, peer, first, end, true).2;
    var stop := first + |shown|;
    assert stop < end ==> PageIs(me, stop, M, message);
    forall k | 0 <= k < |shown|
      ensures shown[k] == message
    {
      assert PageIs(me, first + k, M, message);
      ReadPagesEffect(me, peer, first, end, first + k, true);
    }
  }

  lemma ReadsThere(me: Cache, peer: Cache, first: nat, end: nat, message: string)
    requires message != ""
    requires first <= end <= |me.state| && me.Holds(|me.state|) && peer.Holds(|me.state|)
    requires forall page | first <= page < end :: PageIs(me, page, I, "")
    requires forall page | first <= page < end :: PageIs(peer, page, M, message)
    ensures
      ReadPages(me, peer, first, end, true).2 == seq(end - first, _ => if message == NULL_REPLY then "" else message)
  {
    ReadStopsAtStall(me, peer, first, end);
    var shown := ReadPages(me, peer, first, end, true).2;
    var stop := first + |shown|;
    assert stop < end ==> PageIs(peer, stop, M, message);
    forall k | 0 <= k < |shown|
      ensures shown[k] == if message == NULL_REPLY then "" else message
    {
      assert PageIs(me, first + k, I, "") && PageIs(peer, first + k, M, message);
      ReadPagesEffect(me, peer, first, end, first + k, true);
    }
  }

  /** The print after a write shows the message for every page written, and changes nothing. */
  lemma {:induction false} WriteThenEcho(me: Cache, peer: Cache, first: nat, end: nat, message: string, page: nat)
    requires first <= end <= |me.state| && me.Holds(|me.state|) && peer.Holds(|me.state|) && page < |me.state|
    ensures
      var (me', peer') := WritePages(me, peer, first, end, message);
      var (me'', peer'', shown) := ReadPages(me', peer', first, end, false);
      && |shown| == end - first && Untouched(me', peer', me'', peer'', page)
      && (first <= page < end ==> shown[page - first] == message)
  {
    var (me', peer') := WritePages(me, peer, first, end, message);
    WritePagesEffect(me, peer, first, end, message, page);
    ReadPagesEffect(me', peer', first, end, page, false);
  }

  /** Writing pages at one node and then reading them, at the writer or at the peer, shows
      the message on every page; the peer shows nothing when the message reads "NULL". */
  lemma {:induction false} WriteThenRead(me: Cache, peer: Cache, first: nat, end: nat, message: string)
    requires message != ""
    requires first <= end <= |me.state| && me.Holds(|me.state|) && peer.Holds(|me.state|)
    ensures
      var (me', peer') := WritePages(me, peer, first, end, message);
      && ReadPages(me', peer', first, end, true).2 == seq(end - first, _ => message)
      && ReadPages(peer', me', first, end, true).2 ==
         seq(end - first, _ => if message == NULL_REPLY then "" else message)
  {
    var (me', peer') := WritePages(me, peer, first, end, message);
    forall page | first <= page < end
      ensures PageIs(me', page, M, message) && PageIs(peer', page, I, "")
    {
      WritePagesEffect(me, peer, first, end, message, page);
    }
    ReadsHere(me', peer', first, end, message);
    ReadsThere(peer', me', first, end, message);
  }
}
