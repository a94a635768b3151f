/** One node as the program holds it: the state array, the mapped bytes, and the routines
    that change them in place. Requests to the peer are answered while the caller waits. */
module SharedNode {
  import opened Basics
  import opened MsiCache
  import opened PageBytes
  import opened Commands
  import Wire

  const STATE_SLOTS := 100

  class Node {
    const pageSize: nat
    const numPages: nat
    const msiArray: array<State>
    const mem: array<char>

    // The sizes, and a NUL on every page but perhaps one.
    ghost predicate ValidBut(page: nat)
      reads this, msiArray, mem
    {
      && 1024 <= pageSize && 1 <= numPages < STATE_SLOTS
      && msiArray.Length == STATE_SLOTS
      && MappedBut(mem[..], numPages, page, pageSize)
    }

    ghost predicate Valid()
      reads this, msiArray, mem
    {
      && 1024 <= pageSize && 1 <= numPages < STATE_SLOTS
      && msiArray.Length == STATE_SLOTS
      && Mapped(mem[..], numPages, pageSize)
    }

    /** The cache this node stands for in the protocol. */
    ghost function View(): (c: Cache)
      requires numPages <= msiArray.Length
      reads this, msiArray, mem
      ensures c.Holds(numPages)
    {
      Cache(msiArray[..numPages], Texts(mem[..], numPages, pageSize))
    }

    constructor (numPages: nat, pageSize: nat)
      requires 1024 <= pageSize && 1 <= numPages < STATE_SLOTS
      ensures Valid() && fresh(msiArray) && fresh(mem)
      ensures this.numPages == numPages && this.pageSize == pageSize
      ensures msiArray.Length == 100 && mem.Length == numPages * pageSize
      ensures View() == Cache(seq(numPages, _ => I), seq(numPages, _ => ""))
    {
      this.numPages, this.pageSize := numPages, pageSize;
      msiArray := new State[STATE_SLOTS](_ => M);
      mem := new char[Start(numPages, pageSize)](_ => '\0');
      new;
      ZeroedText(mem[..], numPages, pageSize);
      FillWithInvalid();
      assert msiArray[..numPages] == seq(numPages, _ => I);
    }

    /** Fills one entry past the last page, which is why there can be at most 99 pages. */
    method FillWithInvalid()
      requires Valid()
      modifies msiArray
      ensures forall j | 0 <= j <= numPages :: msiArray[j] == I
      ensures forall j | numPages < j < STATE_SLOTS :: msiArray[j] == old(msiArray[j])
    {
      var j := 0;
      while j <= numPages
        invariant 0 <= j <= numPages + 1
        invariant forall k | 0 <= k < j :: msiArray[k] == I
        invariant forall k | j <= k < STATE_SLOTS :: msiArray[k] == old(msiArray[k])
      {
        msiArray[j] := I;
        j := j + 1;
      }
    }

    // No byte but the page's own differs from before.
    ghost predicate OnlyBytesOfPage(before: seq<char>, page: nat)
      reads this, mem
    {
      && |before| == mem.Length
      && forall k | 0 <= k < mem.Length && !(page * pageSize <= k < page * pageSize + pageSize) :: mem[k] == before[k]
    }

    // No byte outside pages first up to (not including) end differs from before.
    ghost predicate OnlyBytesBetween(before: seq<char>, first: nat, end: nat)
      reads this, mem
    {
      && |before| == mem.Length
      && forall k | 0 <= k < mem.Length && !(Start(first, pageSize) <= k < Start(end, pageSize)) :: mem[k] == before[k]
    }

    /** Copies the message and its NUL over the start of a page, whatever bytes it holds. */
    method StoreMessage(page: nat, message: string)
      requires ValidBut(page) && page < numPages && NulFree(message) && |message| < pageSize
      modifies mem
      ensures Valid() && View() == SetText(old(View()), page, message)
      ensures
        var at := page * pageSize;
        && 0 <= at && at + |message| < mem.Length
        && (forall k | 0 <= k < |message| :: mem[at + k] == message[k]) && mem[at + |message|] == '\0'
        && forall k | 0 <= k < mem.Length && !(at <= k <= at + |message|) :: mem[k] == old(mem[k])
    {
      ghost var before := mem[..];
      PagesApart(page, numPages, pageSize);
      var at := Start(page, pageSize);
      var l := at;
      var j := 0;
      while j < |message|
        invariant 0 <= j <= |message| && l == at + j
        invariant forall k | 0 <= k < mem.Length :: mem[k] == if at <= k < l then message[k - at] else before[k]
      {
        mem[l] := message[j];
        l := l + 1;
        j := j + 1;
      }
      mem[l] := '\0';
      assert mem[..] == before[..at] + message + ['\0'] + before[at + |message| + 1..];
      StoreText(before, mem[..], numPages, page, pageSize, message);
    }

    /** `madvise(MADV_DONTNEED)` on a page, and the zero fill of its next touch. */
    method Discard(page: nat)
      requires ValidBut(page) && page < numPages
      modifies mem
      ensures Valid() && View() == Drop(old(View()), page)
      ensures OnlyBytesBetween(old(mem[..]), page, page + 1)
      ensures forall k | 0 <= k < mem.Length && page * pageSize <= k < page * pageSize + pageSize :: mem[k] == '\0'
    {
      PagesApart(page, numPages, pageSize);
      ghost var before := mem[..];
      var at := Start(page, pageSize);
      forall k | at <= k < at + pageSize {
        mem[k] := '\0';
      }
      DiscardText(before, mem[..], numPages, page, pageSize);
    }

    /** `%s` at the start of a page. */
    method ReadText(page: nat) returns (text: string)
      requires Valid() && page < numPages
      ensures text == View().text[page] && NulFree(text) && |text| < pageSize
      ensures
        var at := page * pageSize;
        && 0 <= at && at + |text| < mem.Length
        && (forall k | 0 <= k < |text| :: mem[at + k] == text[k] != '\0') && mem[at + |text|] == '\0'
    {
      hide CString, HasNul;
      TextBounded(mem[..], numPages, page, pageSize);
      ghost var whole := TextAt(mem[..], page, pageSize);
      var at := Start(page, pageSize);
      assert forall k | 0 <= k < |whole| ::
        mem[at + k] == mem[..][at..at + |whole|][k] == whole[k] && whole[k] in whole;
      text := "";
      while mem[at + |text|] != '\0'
        invariant |text| <= |whole| < pageSize && text == whole[..|text|]
        invariant at + pageSize <= mem.Length
        decreases |whole| - |text|
      {
        text := text + [mem[at + |text|]];
      }
    }

    // `msi_array[page] = st`.
    method StoreState(page: nat, st: State)
      requires Valid() && page < numPages
      modifies msiArray
      ensures Valid() && View() == SetState(old(View()), page, st)
    {
      msiArray[page] := st;
    }

    method TransitionStateOnRead(page: nat)
      requires Valid() && page < numPages
      modifies msiArray
      ensures Valid() && View() == Demote(old(View()), page)
    {
      if msiArray[page].M? {
        msiArray[page] := S;
      }
    }

    /** Hands out the page (true) or the text "NULL" (false). */
    method GetResponse(page: nat) returns (valid: bool)
      requires Valid() && page < numPages
      modifies msiArray
      ensures Valid() && View() == Demote(old(View()), page)
      ensures valid == Serves(old(View()), page)
    {
      match msiArray[page] {
        case M =>
          msiArray[page] := S;
          valid := true;
        case S =>
          valid := true;
        case I =>
          valid := false;
      }
    }

    /** One round of the responder loop, from the bytes received to the bytes sent. */
    method Respond(buffer: string, ghost page: nat, ghost op: nat) returns (reply: string)
      requires Valid() && Wire.Parse(buffer) == Some((page, op))
      requires page < numPages && op in {Wire.READ_OP, Wire.INVALIDATE_OP}
      modifies msiArray, mem
      ensures Valid() && (View(), reply) == Answered(old(View()), page, op == Wire.INVALIDATE_OP)
      ensures OnlyBytesBetween(old(mem[..]), page, page + 1)
      ensures op == Wire.READ_OP ==> mem[..] == old(mem[..])
      ensures NulFree(reply) && |reply| < pageSize
    {
      var Some((requestPage, operation)) := Wire.Parse(buffer);
      if operation == Wire.INVALIDATE_OP {
        msiArray[requestPage] := I;
        Discard(requestPage);
        reply := SUCCESS_REPLY;
      } else {
        var valid := GetResponse(requestPage);
        TransitionStateOnRead(requestPage);
        if valid {
          reply := ReadText(requestPage);
        } else {
          reply := NULL_REPLY;
        }
      }
    }

    /** The peer's reply; None if it has no bytes to send, and the caller stays in read(). */
    method CommunicateWithPeer(peer: Node, page: nat, op: nat) returns (reply: Option<string>)
      requires peer.Valid() && page < peer.numPages && op in {Wire.READ_OP, Wire.INVALIDATE_OP}
      modifies peer.msiArray, peer.mem
      ensures peer.Valid()
      ensures
        var (cache, text) := Answered(old(peer.View()), page, op == Wire.INVALIDATE_OP);
        peer.View() == cache && reply == if text == "" then None else Some(text)
      ensures peer.OnlyBytesBetween(old(peer.mem[..]), page, page + 1)
      ensures op == Wire.READ_OP ==> peer.mem[..] == old(peer.mem[..])
      ensures reply.Some? ==> NulFree(reply.value) && |reply.value| < peer.pageSize
    {
      Wire.RequestRoundTrip(page, op);
      var text := peer.Respond(Wire.Encode(page, op), page, op);
      reply := if text == "" then None else Some(text);
    }

    ghost predicate PairedWith(peer: Node)
      reads this, msiArray, mem, peer, peer.msiArray, peer.mem
    {
      && Valid() && peer.Valid()
      && numPages == peer.numPages && pageSize == peer.pageSize
      && msiArray != peer.msiArray && mem != peer.mem
    }

    method TransitionStateOnWrite(peer: Node, page: nat)
      requires PairedWith(peer) && page < numPages
      modifies msiArray, peer.msiArray, peer.mem
      ensures PairedWith(peer)
      ensures View() == SetState(old(View()), page, M)
      ensures peer.View() == Answered(old(peer.View()), page, true).0
      ensures peer.OnlyBytesBetween(old(peer.mem[..]), page, page + 1)
    {
      msiArray[page] := M;
      var _ := CommunicateWithPeer(peer, page, Wire.INVALIDATE_OP);
    }

    lemma BytesOfOnePage(before: seq<char>, page: nat)
      requires OnlyBytesBetween(before, page, page + 1)
      ensures OnlyBytesOfPage(before, page)
    {
      PagesApart(page, page + 1, pageSize);
    }

    // The loop of updatePageContents, over pages first up to (not including) end.
    method WriteRange(peer: Node, first: nat, end: nat, message: string)
      requires PairedWith(peer) && first <= end <= numPages
      requires NulFree(message) && |message| < pageSize
      modifies msiArray, mem, peer.msiArray, peer.mem
      ensures PairedWith(peer)
      ensures (View(), peer.View()) == WritePages(old(View()), old(peer.View()), first, end, message)
      ensures OnlyBytesBetween(old(mem[..]), first, end) && peer.OnlyBytesBetween(old(peer.mem[..]), first, end)
    {
      var i := first;
      while i < end
        invariant first <= i <= end && PairedWith(peer)
        invariant (View(), peer.View()) == WritePages(old(View()), old(peer.View()), first, i, message)
        invariant OnlyBytesBetween(old(mem[..]), first, i)
        invariant peer.OnlyBytesBetween(old(peer.mem[..]), first, i)
      {
        PagesOrdered(first, i, pageSize);
        PagesApart(i, i + 1, pageSize);
        StoreMessage(i, message);
        TransitionStateOnWrite(peer, i);
        i := i + 1;
      }
    }

    /** A write command: each target page, all of them for -1, gets the message and M here and
        is I and empty there; nothing else changes, down to the bytes. */
    method UpdatePageContents(peer: Node, requestPage: int, message: string)
      requires PairedWith(peer) && -1 <= requestPage < numPages
      requires NulFree(message) && |message| < pageSize
      modifies msiArray, mem, peer.msiArray, peer.mem
      ensures PairedWith(peer)
      ensures
        forall p: nat | p < numPages ::
          if requestPage == -1 || p == requestPage then
            PageIs(View(), p, M, message) && PageIs(peer.View(), p, I, "")
          else Untouched(old(View()), old(peer.View()), View(), peer.View(), p)
      ensures requestPage >= 0 ==> OnlyBytesOfPage(old(mem[..]), requestPage)
      ensures requestPage >= 0 ==> peer.OnlyBytesOfPage(old(peer.mem[..]), requestPage)
    {
      hide WritePages, PageIs, Untouched, OnlyBytesBetween, OnlyBytesOfPage;
      ghost var here, there := View(), peer.View();
      var first: nat, end: nat := 0, numPages;
      if requestPage != -1 {
        first, end := requestPage, requestPage + 1;
      }
      WriteRange(peer, first, end, message);
      forall p: nat | p < numPages
        ensures
          if first <= p < end then PageIs(View(), p, M, message) && PageIs(peer.View(), p, I, "")
          else Untouched(here, there, View(), peer.View(), p)
      {
        WritePagesEffect(here, there, first, end, message, p);
      }
      if requestPage != -1 {
        BytesOfOnePage(old(mem[..]), first);
        peer.BytesOfOnePage(old(peer.mem[..]), first);
      }
    }

    /** One page of printPageContents; None if its request gets no reply. */
    method PrintPage(peer: Node, page: nat, fetch: bool) returns (output: Option<string>)
      requires PairedWith(peer) && page < numPages
      modifies msiArray, mem, peer.msiArray, peer.mem
      ensures PairedWith(peer)
      ensures (View(), peer.View(), output) == ReadPage(old(View()), old(peer.View()), page, fetch)
      ensures OnlyBytesBetween(old(mem[..]), page, page + 1) && peer.mem[..] == old(peer.mem[..])
    {
      var text := ReadText(page);
      output := Some(text);
      if msiArray[page].I? {
        output := Some("");
        if fetch {
          output := CommunicateWithPeer(peer, page, Wire.READ_OP);
          if output == Some(NULL_REPLY) {
            Discard(page);
            output := Some("");
          } else if output.Some? {
            StoreMessage(page, output.value);
            msiArray[page] := S;
          }
        }
      }
    }

    // The loop of printPageContents, over pages first up to (not including) end.
    method ReadRange(peer: Node, first: nat, end: nat, fetch: bool) returns (shown: seq<string>)
      requires PairedWith(peer) && first <= end <= numPages
      modifies msiArray, mem, peer.msiArray, peer.mem
      ensures PairedWith(peer)
      ensures (View(), peer.View(), shown) == ReadPages(old(View()), old(peer.View()), first, end, fetch)
      ensures OnlyBytesBetween(old(mem[..]), first, end) && peer.mem[..] == old(peer.mem[..])
    {
      hide ReadPage;
      shown := [];
      // Where the program would wait for ever, the loop here ends.
      var j, waiting := first, false;
      while j < end && !waiting
        invariant first <= j <= end && PairedWith(peer)
        invariant |shown| == j - first - if waiting then 1 else 0
        invariant (View(), peer.View(), shown) == ReadPages(old(View()), old(peer.View()), first, j, fetch)
        invariant OnlyBytesBetween(old(mem[..]), first, j) && peer.mem[..] == old(peer.mem[..])
      {
        PagesOrdered(first, j, pageSize);
        PagesOrdered(j, j + 1, pageSize);
        var output := PrintPage(peer, j, fetch);
        if output.Some? {
          shown := shown + [output.value];
        }
        j, waiting := j + 1, output.None?;
      }
      if waiting {
        StaysStopped(old(View()), old(peer.View()), first, j, end, fetch);
        PagesOrdered(j, end, pageSize);
      }
    }

    /** A read command (`fetch`), or the print after a write: what it shows of each target page,
        all of them for -1, as far as it gets, and what it leaves of every page. */
    method PrintPageContents(peer: Node, requestPage: int, fetch: bool) returns (shown: seq<string>)
      requires PairedWith(peer) && -1 <= requestPage < numPages
      modifies msiArray, mem, peer.msiArray, peer.mem
      ensures PairedWith(peer) && |shown| <= if requestPage == -1 then numPages else 1
      ensures
        requestPage == -1 ==>
          forall p: nat | p < numPages ::
            ReadTold(old(View()), old(peer.View()), View(), peer.View(), p, fetch, shown, p)
      ensures
        requestPage != -1 ==>
          && ReadTold(old(View()), old(peer.View()), View(), peer.View(), requestPage, fetch, shown, 0)
          && forall p: nat | p < numPages && p != requestPage ::
               Untouched(old(View()), old(peer.View()), View(), peer.View(), p)
      ensures requestPage >= 0 ==> OnlyBytesOfPage(old(mem[..]), requestPage)
      ensures peer.mem[..] == old(peer.mem[..])
    {
      hide ReadPages, ReadTold, Untouched, OnlyBytesBetween, OnlyBytesOfPage;
      ghost var here, there := View(), peer.View();
      var first: nat, end: nat := 0, numPages;
      if requestPage != -1 {
        first, end := requestPage, requestPage + 1;
      }
      shown := ReadRange(peer, first, end, fetch);
      if requestPage == -1 {
        forall p: nat | p < numPages
          ensures ReadTold(here, there, View(), peer.View(), p, fetch, shown, p)
        {
          ReadsTold(here, there, first, end, p, fetch);
        }
      } else {
        forall p: nat | p < numPages && p != requestPage
          ensures Untouched(here, there, View(), peer.View(), p)
        {
          ReadsTold(here, there, first, end, p, fetch);
        }
        ReadsTold(here, there, first, end, first, fetch);
        BytesOfOnePage(old(mem[..]), first);
      }
    }
  }

  /** Two nodes, a write at one and a read at the other, all the way down to the bytes. */
  method WriteHereReadThere(writer: Node, reader: Node, requestPage: int, message: string) returns (shown: seq<string>)
    requires writer.PairedWith(reader) && -1 <= requestPage < writer.numPages
    requires message != "" && message != NULL_REPLY && NulFree(message) && |message| < writer.pageSize
    modifies writer.msiArray, writer.mem, reader.msiArray, reader.mem
    ensures shown == seq(if requestPage == -1 then writer.numPages else 1, _ => message)
  {
    writer.UpdatePageContents(reader, requestPage, message);
    ghost var there, here := writer.View(), reader.View();
    shown := reader.PrintPageContents(writer, requestPage, true);
    ghost var me, peer := reader.View(), writer.View();
    if requestPage == -1 {
      AllTold(here, there, me, peer, shown, message);
    } else {
      ToldWritten(here, there, me, peer, requestPage, shown, 0, message);
    }
  }
}
