/** sb_stream_recv: the receiving half of a stream, and the body slice `event_handler` takes from it. */
module SbReceiver {
  import opened CStrings
  import opened SbBuffer
  import opened SbRequest
  import opened Seqs

  /**
    find_header_value: the index of the value, or NULL. When a turn of the loop has not moved, no later turn of the
    source's loop does; the method then ends with `hangs`.
   */
  method FindHeaderValue(t: string, field: string) returns (r: int, hangs: bool)
    ensures hangs <==> FindHeader(t, 0, field) == Loops
    ensures match FindHeader(t, 0, field)
            case Found(p) => r == p
            case _ => r == NULL
    ensures IsFieldName(field) ==>
              && (forall p | FieldLine(t, 0, field, p) :: r == ValueAt(t, field, p))
              && (r != NULL ==> exists p :: FieldLine(t, 0, field, p))
  {
    if IsFieldName(field) { FoundExactly(t, 0, field); }
    var str := 0;
    while At(t, str) != NUL && !CrLfAt(t, str)
      invariant FindHeader(t, str, field) == FindHeader(t, 0, field)
      decreases |t| - str
    {
      if FieldAt(t, str, field) {
        str := str + |field| + 1;
        return SkipSpaces(t, str), false;
      }
      var was := str;
      str := SkipToCr(t, str);
      str := str + if CrLfAt(t, str) then 2 else 0;
      if str == was {
        return NULL, true;
      }
    }
    r, hangs := NULL, false;
  }

  /** What the fields say once the bytes `got` are in and the request is not complete. */
  ghost predicate RecvState(got: string, state: State, expectedRecvLen: nat, dataIdx: nat, toUint: string -> nat) {
    && Frame(got, toUint) == Incomplete
    && (state == RECEIVING_HEADER || state == RECEIVING_REQUEST)
    && (state == RECEIVING_HEADER ==> HeaderEnd(got, 0).None? && expectedRecvLen == 0 && dataIdx == 0)
    && (state == RECEIVING_REQUEST ==>
          && HeaderEnd(got, 0) == Some(dataIdx) && FindHeader(got[..dataIdx], 0, CONTENT_LENGTH).Found?
          && expectedRecvLen == dataIdx + toUint(got[..dataIdx][FindHeader(got[..dataIdx], 0, CONTENT_LENGTH).value..]))
  }

  /** One more byte, while the header is not complete. */
  lemma NextInHeader(got: string, c: char, toUint: string -> nat)
    requires RecvState(got, RECEIVING_HEADER, 0, 0, toUint)
    ensures var now := got + [c];
            if !EndsHeader(now, |now|) then RecvState(now, RECEIVING_HEADER, 0, 0, toUint)
            else
              match FindHeader(now, 0, CONTENT_LENGTH)
              case Loops => Frame(now, toUint) == Hangs
              case Absent(_) => Frame(now, toUint) == SbRequest.Request(now, 0)
              case Found(p) =>
                if toUint(now[p..]) == 0 then Frame(now, toUint) == SbRequest.Request(now, |now|)
                else RecvState(now, RECEIVING_REQUEST, |now| + toUint(now[p..]), |now|, toUint)
  {
    HeaderEndPush(got, c);
    assert (got + [c])[..|got| + 1] == got + [c];
  }

  /** One more byte of the body. */
  lemma NextInBody(got: string, c: char, expected: nat, dataIdx: nat, toUint: string -> nat)
    requires RecvState(got, RECEIVING_REQUEST, expected, dataIdx, toUint)
    ensures var now := got + [c];
            if expected == |now| then Frame(now, toUint) == SbRequest.Request(now, dataIdx) && dataIdx > 0
            else RecvState(now, RECEIVING_REQUEST, expected, dataIdx, toUint)
  {
    HeaderEndStable(got, [c]);
    assert (got + [c])[..|got| + 1] == got + [c];
  }

  /** What one received byte leads to. Hung is a search for the header field that never ends. */
  datatype Step = GoOn | Complete | Failed(err: int) | Hung

  /** The fields of sb_Stream that receiving uses. */
  class Receiver {
    const toUint: string -> nat
    const recvBuf: Buffer
    var state: State
    var expectedRecvLen: nat
    var dataIdx: nat

    constructor (toUint: string -> nat)
      ensures this.toUint == toUint && fresh(recvBuf) && fresh(recvBuf.s) && Receiving("") && !recvBuf.refused
    {
      this.toUint := toUint;
      recvBuf := new Buffer();
      state, expectedRecvLen, dataIdx := RECEIVING_HEADER, 0, 0;
    }

    /** The bytes `got` are in, and the request is not complete. */
    ghost predicate Receiving(got: string)
      reads this, recvBuf, recvBuf.s
    {
      recvBuf.Valid() && recvBuf.Contents() == got && RecvState(got, state, expectedRecvLen, dataIdx, toUint)
    }

    /** The bytes received are exactly a request, and the response may begin. */
    ghost predicate Ready(got: string)
      reads this, recvBuf, recvBuf.s
    {
      && recvBuf.Valid() && recvBuf.Contents() == got && state == SENDING_STATUS
      && Frame(got, toUint) == SbRequest.Request(got, dataIdx)
      && (dataIdx > 0 ==> expectedRecvLen == |got|)
    }

    /** Where a failure leaves the stream: closing, unless only the end of a complete request could not be marked. */
    ghost predicate GivenUp(got: string)
      reads this
    {
      state == CLOSING || (state == SENDING_STATUS && Frame(got, toUint).Request?)
    }

    /** One turn of the loop over received bytes. */
    method ReceiveByte(c: char, ghost got: string) returns (step: Step)
      requires Receiving(got)
      modifies this, recvBuf, recvBuf.s
      ensures recvBuf.s == old(recvBuf.s) || fresh(recvBuf.s)
      ensures step.GoOn? ==> Receiving(got + [c])
      ensures step.Complete? ==> Ready(got + [c])
      ensures step.Hung? ==> Frame(got + [c], toUint) == Hangs
      ensures step.Failed? ==> step.err == SB_EOUTOFMEM && GivenUp(got + [c])
      ensures recvBuf.refused <==> old(recvBuf.refused) || step.Failed?
    {
      var err := recvBuf.PushChar(c);
      if err != SB_ESUCCESS {
        state := CLOSING;
        return Failed(err);
      }
      ghost var now := got + [c];
      if state == RECEIVING_HEADER {
        NextInHeader(got, c, toUint);
      } else {
        NextInBody(got, c, expectedRecvLen, dataIdx, toUint);
      }
      var atEnd := HeaderComplete(now);
      if state == RECEIVING_HEADER && atEnd {
        var more;
        step, more := HeaderReceived(now);
        if !more {
          return;
        }
      }
      if expectedRecvLen == recvBuf.len {
        step := HandleRequest(now);
      } else {
        step := GoOn;
      }
    }

    /**
      The header block is in: look for its Content-Length. `more` says that the check for the whole request
      follows.
     */
    method HeaderReceived(ghost now: string) returns (step: Step, more: bool)
      requires recvBuf.Valid() && recvBuf.Contents() == now
      requires FindHeader(now, 0, CONTENT_LENGTH).Absent? ==> Frame(now, toUint) == SbRequest.Request(now, 0)
      requires dataIdx == 0
      modifies this, recvBuf, recvBuf.s
      ensures recvBuf.s == old(recvBuf.s) || fresh(recvBuf.s)
      ensures more ==>
                && FindHeader(now, 0, CONTENT_LENGTH).Found? && state == RECEIVING_REQUEST
                && recvBuf.Valid() && recvBuf.Contents() == now
                && dataIdx == |now|
                && expectedRecvLen == |now| + toUint(now[FindHeader(now, 0, CONTENT_LENGTH).value..])
      ensures !more ==>
                match step
                case Complete => Ready(now)
                case Failed(err) => err == SB_EOUTOFMEM && GivenUp(now)
                case Hung => FindHeader(now, 0, CONTENT_LENGTH) == Loops
                case GoOn => false
      ensures recvBuf.refused <==> old(recvBuf.refused) || (!more && step.Failed?)
    {
      step, more := GoOn, false;
      state := RECEIVING_REQUEST;
      var err := recvBuf.NullTerminate();
      if err != SB_ESUCCESS {
        state := CLOSING;
        step := Failed(err);
        return;
      }
      var text := recvBuf.s[..recvBuf.len];
      var s, hangs := FindHeaderValue(text, CONTENT_LENGTH);
      if hangs {
        step := Hung;
      } else if s != NULL {
        expectedRecvLen := recvBuf.len + toUint(text[s..]);
        dataIdx := recvBuf.len;
        more := true;
      } else {
        step := HandleRequest(now);
      }
    }

    /** recv_buf ends in CRLF CRLF */
    method HeaderComplete(ghost got: string) returns (r: bool)
      requires recvBuf.Valid() && recvBuf.Contents() == got
      ensures r <==> EndsHeader(got, |got|)
    {
      var s, n := recvBuf.s, recvBuf.len;
      assert got == s[..n];
      r := n >= 4 && s[n - 4] == '\r' && s[n - 3] == '\n' && s[n - 2] == '\r' && s[n - 1] == '\n';
    }

    /** handle_request, up to the parsing of the request line. */
    method HandleRequest(ghost got: string) returns (step: Step)
      requires recvBuf.Valid() && recvBuf.Contents() == got && Frame(got, toUint) == SbRequest.Request(got, dataIdx)
      requires dataIdx > 0 ==> expectedRecvLen == |got|
      modifies this`state, recvBuf, recvBuf.s
      ensures recvBuf.s == old(recvBuf.s) || fresh(recvBuf.s)
      ensures step.Complete? || step == Failed(SB_EOUTOFMEM)
      ensures step.Complete? ==> Ready(got)
      ensures step.Failed? ==> GivenUp(got)
      ensures recvBuf.refused <==> old(recvBuf.refused) || step.Failed?
    {
      state := SENDING_STATUS;
      var err := recvBuf.NullTerminate();
      step := if err == SB_ESUCCESS then Complete else Failed(err);
    }

    /**
      sb_stream_recv over the chunks `recv` returns, after which it reports a disconnect or nothing more to read. The
      outcome depends on the bytes alone: a complete request is the one `Frame` finds in them, however they were cut.
     */
    method Recv(chunks: seq<string>, disconnected: bool) returns (step: Step, ghost got: string)
      requires Receiving("")
      modifies this, recvBuf, recvBuf.s
      ensures step.Complete? ==> Ready(got) && Frame(Joined(chunks), toUint) == SbRequest.Request(got, dataIdx)
      ensures step.GoOn? ==>
                got == Joined(chunks) && Frame(got, toUint) == Incomplete && recvBuf.Valid()
                  && recvBuf.Contents() == got
      ensures step.GoOn? ==> if disconnected then state == CLOSING else Receiving(got)
      ensures step.Hung? ==> Frame(Joined(chunks), toUint) == Hangs
      ensures step.Failed? ==> step.err == SB_EOUTOFMEM && GivenUp(got)
      ensures recvBuf.refused <==> old(recvBuf.refused) || step.Failed?
    {
      var k := 0;
      got := "";
      ghost var all := Joined(chunks);
      assert chunks[..0] == [];
      while k < |chunks|
        invariant k <= |chunks| && got == Joined(chunks[..k]) && Receiving(got)
        invariant (recvBuf.s == old(recvBuf.s) || fresh(recvBuf.s)) && recvBuf.refused == old(recvBuf.refused)
      {
        NextChunk(chunks, k);
        step, got := ReceiveChunk(chunks[k], got, all);
        if !step.GoOn? {
          return;
        }
        k := k + 1;
      }
      assert chunks[..|chunks|] == chunks;
      if disconnected {
        state := CLOSING;
      }
      step := GoOn;
    }

    /** The loop over the bytes of one chunk; `all` is everything that will have been received. */
    method ReceiveChunk(chunk: string, ghost before: string, ghost all: string) returns (step: Step, ghost got: string)
      requires Receiving(before) && before + chunk <= all
      modifies this, recvBuf, recvBuf.s
      ensures recvBuf.s == old(recvBuf.s) || fresh(recvBuf.s)
      ensures step.Complete? ==> Ready(got) && Frame(all, toUint) == SbRequest.Request(got, dataIdx)
      ensures step.GoOn? ==> got == before + chunk && Receiving(got)
      ensures step.Hung? ==> Frame(all, toUint) == Hangs
      ensures step.Failed? ==> step.err == SB_EOUTOFMEM && GivenUp(got)
      ensures recvBuf.refused <==> old(recvBuf.refused) || step.Failed?
    {
      var i := 0;
      got := before;
      while i < |chunk|
        invariant i <= |chunk| && got == before + chunk[..i] && Receiving(got)
        invariant (recvBuf.s == old(recvBuf.s) || fresh(recvBuf.s)) && recvBuf.refused == old(recvBuf.refused)
      {
        ghost var now := got + [chunk[i]];
        NextByte(before, chunk, i, got, now);
        step := ReceiveByte(chunk[i], got);
        got := now;
        if !step.GoOn? {
          PrefixFrame(now, before + chunk, all, toUint);
          return;
        }
        i := i + 1;
      }
      assert chunk[..|chunk|] == chunk;
      step := GoOn;
    }

    /** The body `event_handler` passes to the handler of a POST request; NULL when there is none. */
    method BodySlice(ghost got: string) returns (data: int, dataSize: nat)
      requires Ready(got)
      ensures if dataIdx > 0 && |got| > dataIdx then
                data == dataIdx && 0 <= data && data + dataSize == |got|
                  && recvBuf.Contents()[data..data + dataSize] == got[dataIdx..]
              else data == NULL && dataSize == 0
    {
      data, dataSize := NULL, 0;
      if dataIdx > 0 && expectedRecvLen > dataIdx {
        data := dataIdx;
        dataSize := expectedRecvLen - dataIdx;
      }
    }
  }

  lemma NextByte(before: string, chunk: string, i: nat, got: string, now: string)
    requires i < |chunk| && got == before + chunk[..i] && now == got + [chunk[i]]
    ensures now == before + chunk[..i + 1] && now <= before + chunk
  {
  }

  lemma NextChunk(chunks: seq<string>, k: nat)
    requires k < |chunks|
    ensures Joined(chunks[..k + 1]) == Joined(chunks[..k]) + chunks[k] <= Joined(chunks)
  {
    assert chunks[..k + 1][..k] == chunks[..k];
    JoinedPrefix(chunks[..k + 1], chunks);
  }

  /**
    Two runs of the receive loop over the same bytes, cut differently: they end the same way, with the same request,
    unless memory runs out in one of them.
   */
  method TwoRuns(toUint: string -> nat, a: seq<string>, b: seq<string>, disconnected: bool)
    returns (r1: Receiver, r2: Receiver, step1: Step, step2: Step, ghost got1: string, ghost got2: string)
    requires Joined(a) == Joined(b)
    ensures fresh(r1) && fresh(r2)
    ensures step1.Failed? <==> r1.recvBuf.refused
    ensures step2.Failed? <==> r2.recvBuf.refused
    ensures !step1.Failed? && !step2.Failed? ==> step1 == step2
    ensures step1.Complete? && step2.Complete? ==>
              r1.Ready(got1) && r2.Ready(got2) && got1 == got2 && r1.dataIdx == r2.dataIdx
  {
    r1 := new Receiver(toUint);
    step1, got1 := r1.Recv(a, disconnected);
    r2 := new Receiver(toUint);
    step2, got2 := r2.Recv(b, disconnected);
  }

  /** What a prefix amounts to, when it is something, the whole amounts to. */
  lemma PrefixFrame(a: string, b: string, all: string, toUint: string -> nat)
    requires a <= b <= all
    ensures Frame(a, toUint) == Incomplete || Frame(a, toUint) == Frame(all, toUint)
  {
    if Frame(a, toUint) != Incomplete {
      assert all == a + all[|a|..];
      FrameStable(a, all[|a|..], toUint);
    }
  }
}
