/**
  Range downloads: download_file_cb, http_download_file and http_get_file_size (RPI/http.c).

  The server and the SDK's read call are nondeterministic: a server may answer a range request with 206 and the
  range, ignore it and answer 200 with the whole file, or answer with any other status; it may leave the
  Content-Length out; a read may return any number of the body's next bytes, stop early, or fail.
 */
module Download {
  import opened Bytes
  import opened CStrings
  import opened Seqs

  const DOWNLOAD_CHUNK_SIZE: nat := 16384

  /** The SDK's error codes, of which only that they are negative and differ is modelled. */
  const INVALID_ID: int := -1
  const INVALID_VALUE: int := -2
  const NO_CONTENT_LENGTH: int := -3
  const READ_FAILED: int := -4
  const OUT_OF_MEMORY: int := -5

  datatype Range = Whole | Span(first: nat, last: nat)

  datatype Answer = Answer(status: int, length: Option<Uint64>, body: seq<Byte>)

  predicate GoodStatus(status: int) {
    status == 200 || status == 206
  }

  predicate Satisfiable(file: seq<Byte>, range: Range) {
    range.Span? && range.first <= range.last && range.first < |file|
  }

  /** Sections 14.2 and 15.3.7 of RFC 9110, for a server that may also ignore the range. */
  predicate Answers(file: seq<Byte>, range: Range, a: Answer) {
    && (GoodStatus(a.status) && a.length.Some? ==> a.length.value == |a.body|)
    && (a.status == 200 ==> a.body == file)
    && (a.status == 206 ==>
          Satisfiable(file, range) && a.body == file[range.first..Min(range.last + 1, |file|)])
  }

  /** The request as far as the answer: none if it could not be sent. */
  method Exchange(file: seq<Byte>, range: Range) returns (a: Option<Answer>)
    requires |file| < UINT64
    ensures a.Some? ==> Answers(file, range, a.value)
  {
    var sent: bool := *;
    var honoured: bool := *;
    var counted: bool := *;
    var other: int := *;
    if !sent {
      a := None;
    } else if Satisfiable(file, range) && honoured {
      var body := file[range.first..Min(range.last + 1, |file|)];
      a := Some(Answer(206, if counted then Some(|body|) else None, body));
    } else {
      a := Some(Answer(if other == 206 then 200 else other, if counted then Some(|file|) else None, file));
    }
  }

  /** The body of a response as the SDK hands it out. */
  class Response {
    const body: seq<Byte>
    var pos: nat
    ghost var ended: bool  // a read has returned no bytes
    ghost var failed: bool // a read has failed

    constructor (body: seq<Byte>)
      ensures this.body == body && pos == 0 && !ended && !failed
    {
      this.body := body;
      pos, ended, failed := 0, false, false;
    }

    /** sceHttpReadData */
    method ReadData(chunk: array<Byte>, size: nat) returns (ret: int)
      requires 0 < size <= chunk.Length && pos <= |body|
      modifies this, chunk
      ensures ret <= size && old(pos) <= pos <= |body|
      ensures (ended <==> old(ended) || ret == 0) && (failed <==> old(failed) || ret < 0)
      ensures ret >= 0 ==> pos == old(pos) + ret && chunk[..ret] == body[old(pos)..pos]
    {
      ret := *;
      if ret < 0 {
        failed := true;
        return;
      }
      ret := Min(ret, Min(size, |body| - pos));
      var i := 0;
      while i < ret
        invariant 0 <= i <= ret && pos == old(pos) + i <= |body| && ended == old(ended) && failed == old(failed)
        invariant chunk[..i] == body[old(pos)..pos]
      {
        chunk[i] := body[pos];
        pos := pos + 1;
        i := i + 1;
      }
      ended := ended || ret == 0;
    }
  }

  /** struct download_file_cb_args */
  class Args {
    var data: array?<Byte>
    var dataSize: Uint64
    var actualSize: nat
    var contentLength: Uint64
    var chunk: array?<Byte>
    var wantPartial: bool
    var rangeIgnored: bool
    var statusCode: int

    constructor (dataSize: Uint64, chunk: array?<Byte>, wantPartial: bool)
      ensures data == null && this.dataSize == dataSize && actualSize == 0 && contentLength == 0
      ensures this.chunk == chunk && this.wantPartial == wantPartial && !rangeIgnored && statusCode == 0
    {
      data, this.dataSize, actualSize, contentLength := null, dataSize, 0, 0;
      this.chunk, this.wantPartial, rangeIgnored, statusCode := chunk, wantPartial, false, 0;
    }
  }

  /** How much of the body is wanted: all of it if no size was asked for, and never more than its length. */
  function TotalSize(dataSize: Uint64, length: Option<Uint64>): (total: Option<Uint64>)
  {
    var known := if length.Some? then length.value else UINT64_MAX;
    if dataSize == UINT64_MAX && length.None? then None else Some(Min(dataSize, known))
  }

  /**
    The loop of download_file_cb: the body's bytes from the front, as many as were wanted unless a read ended
    it early.
   */
  method ReadBody(data: array<Byte>, chunk: array<Byte>, r: Response, total: nat) returns (ok: bool, size: nat)
    requires r.pos == 0 && !r.failed && total <= data.Length && chunk != data && 0 < chunk.Length
    modifies data, chunk, r
    ensures ok <==> !r.failed
    ensures ok && size < total ==> r.ended
    ensures size <= total && size <= |r.body| && data[..size] == r.body[..size]
    ensures data[size..] == old(data[size..])
  {
    size := 0;
    while size < total
      invariant size <= total && r.pos == size <= |r.body| && !r.failed
      invariant data[..size] == r.body[..size] && data[size..] == old(data[size..])
      decreases total - size
    {
      var n := Min(total - size, chunk.Length);
      var ret := r.ReadData(chunk, n);
      if ret < 0 { return false, size; }
      if ret == 0 { break; }
      CopyInto(data, size, chunk, ret);
      assert data[..size + ret] == r.body[..size + ret];
      size := size + ret;
    }
    ok := true;
  }

  /** What a call that returned 0 has stored. */
  twostate predicate Stored(args: Args, r: Response, status: int, length: Option<Uint64>)
    reads args, args.data, r
  {
    && GoodStatus(status) && args.statusCode == status && !args.rangeIgnored
    && (args.wantPartial ==> status == 206)
    && args.contentLength == (if length.Some? then length.value else UINT64_MAX)
    && TotalSize(old(args.dataSize), length).Some?
    && var total := TotalSize(old(args.dataSize), length).value;
    && args.dataSize == total && args.data != null && args.data.Length == (total + 1) % UINT64
    && args.actualSize <= total && (args.actualSize < total ==> r.ended)
    && args.actualSize <= |r.body|
    && args.actualSize < args.data.Length
    && args.data[..args.actualSize] == r.body[..args.actualSize]
    && args.data[args.actualSize] == 0
  }

  /** What the callback asks of a response before it reads the body. */
  predicate Acceptable(reqId: int, status: int, length: Option<Uint64>, wantPartial: bool, dataSize: Uint64,
                       hasChunk: bool) {
    && reqId >= 0 && GoodStatus(status) && (wantPartial ==> status == 206)
    && TotalSize(dataSize, length).Some? && (TotalSize(dataSize, length).value > 0 ==> hasChunk)
  }

  method DownloadFileCb(args: Args, reqId: int, r: Response, status: int, length: Option<Uint64>, memory: bool)
    returns (ret: int)
    requires r.pos == 0 && !r.failed && !args.rangeIgnored
    requires GoodStatus(status) && length.Some? ==> length.value < UINT64_MAX
    requires args.chunk != null ==> args.chunk.Length == DOWNLOAD_CHUNK_SIZE
    modifies args, args.chunk, r
    ensures args.wantPartial == old(args.wantPartial) && args.chunk == old(args.chunk)
    ensures args.data != null ==> args.data == old(args.data) || fresh(args.data)
    ensures args.rangeIgnored <==> reqId >= 0 && GoodStatus(status) && args.wantPartial && status != 206
    ensures ret == 0 <==>
              && Acceptable(reqId, status, length, old(args.wantPartial), old(args.dataSize), old(args.chunk != null))
              && memory && !r.failed
    ensures ret == 0 ==> Stored(args, r, status, length)
    ensures ret != 0 ==>
              ret == if reqId < 0 then INVALID_ID else if !GoodStatus(status) then 404
                     else if old(args.wantPartial) && status != 206 then INVALID_VALUE
                     else if old(args.dataSize) == UINT64_MAX && length.None? then NO_CONTENT_LENGTH
                     else if old(args.chunk == null) && TotalSize(old(args.dataSize), length) != Some(0) then
                       INVALID_VALUE
                     else if !memory then OUT_OF_MEMORY else READ_FAILED
  {
    args.statusCode := status;
    if reqId < 0 { return INVALID_ID; }
    if !GoodStatus(status) { return 404; }
    if args.wantPartial && status != 206 {
      args.rangeIgnored := true;
      return INVALID_VALUE;
    }
    var contentLength := if length.Some? then length.value else UINT64_MAX;
    var total: Uint64;
    if args.dataSize == UINT64_MAX {
      if length.None? { return NO_CONTENT_LENGTH; }
      total := contentLength;
    } else if args.dataSize > contentLength {
      total := contentLength;
    } else {
      total := args.dataSize;
    }
    if total > 0 && args.chunk == null { return INVALID_VALUE; }
    var size;
    ret, size := Transfer(args, r, total, memory);
    args.dataSize := total;
    args.actualSize := size;
    args.contentLength := contentLength;
  }

  /** The allocation and the loop of download_file_cb. */
  method Transfer(args: Args, r: Response, total: Uint64, memory: bool) returns (ret: int, size: nat)
    requires r.pos == 0 && !r.failed && total < UINT64_MAX && (total > 0 ==> args.chunk != null)
    requires args.chunk != null ==> args.chunk.Length == DOWNLOAD_CHUNK_SIZE
    modifies args`data, args.chunk, r
    ensures args.data != null ==> fresh(args.data) && args.data.Length == (total + 1) % UINT64
    ensures ret == 0 <==> memory && !r.failed
    ensures ret != 0 ==> ret == if memory then READ_FAILED else OUT_OF_MEMORY
    ensures ret == 0 ==>
              && args.data != null && size <= total && size <= |r.body| && (size < total ==> r.ended)
              && args.data[..size] == r.body[..size] && args.data[size] == 0
  {
    if !memory {
      args.data := null;
      return OUT_OF_MEMORY, 0;
    }
    var data := new Byte[(total + 1) % UINT64](_ => 0);
    args.data := data;
    ret, size := 0, 0;
    if total > 0 {
      var ok;
      ok, size := ReadBody(data, args.chunk, r, total);
      if !ok { ret := READ_FAILED; }
    }
  }

  /** data is the file's bytes from offset on. */
  predicate Faithful(file: seq<Byte>, offset: nat, data: seq<Byte>) {
    data == [] || (offset + |data| <= |file| && data == file[offset..offset + |data|])
  }

  /** No size asked for is the largest size. */
  function Wish(wanted: Option<Uint64>): Uint64 {
    if wanted.Some? then wanted.value else UINT64_MAX
  }

  /** The range http_download_file asks for. The end of it is computed in 64 bits. */
  function Asked(dataSize: Uint64, offset: Uint64): Range {
    if offset > 0 && dataSize > 0 then Span(offset, (offset + dataSize - 1) % UINT64) else Whole
  }

  /** How many bytes the file has from offset on, up to the size asked for. */
  function Available(file: seq<Byte>, dataSize: Uint64, offset: Uint64): nat {
    if offset >= |file| then 0 else Min(dataSize, |file| - offset)
  }

  lemma AnswerIsFaithful(file: seq<Byte>, dataSize: Uint64, offset: Uint64, a: Answer, size: nat)
    requires |file| < UINT64_MAX && Answers(file, Asked(dataSize, offset), a) && GoodStatus(a.status)
    requires Asked(dataSize, offset).Span? ==> a.status == 206
    requires size <= |a.body| && size <= dataSize
    ensures Faithful(file, offset, a.body[..size])
    ensures size <= Available(file, dataSize, offset)
    ensures Asked(dataSize, offset).Span? ==>
              offset + dataSize - 1 < UINT64 && |a.body| == Available(file, dataSize, offset)
    ensures offset == 0 ==> |a.body| == |file|
  {
  }

  /** The environment of one download: the server's answer, if there is one, and whether the SDK or memory failed. */
  datatype Outcome = Outcome(answer: Option<Answer>, broke: bool, ended: bool)

  /** Whether http_download_file succeeds. */
  predicate Succeeds(o: Outcome, dataSize: Uint64, offset: Uint64) {
    && !o.broke && o.answer.Some? && GoodStatus(o.answer.value.status)
    && (Asked(dataSize, offset).Span? ==> o.answer.value.status == 206)
    && TotalSize(dataSize, o.answer.value.length).Some?
  }

  /** One exchange with a server for a file: the range asked for, and what the environment did. */
  datatype Trip = Trip(file: seq<Byte>, range: Range, outcome: Outcome)

  /** The server answered as it may. */
  predicate Honest(t: Trip) {
    t.outcome.answer.Some? ==> Answers(t.file, t.range, t.outcome.answer.value)
  }

  /**
    The SDK and memory did not fail, no read ended early, and the server sends the whole file if asked for it and
    honours a range that can be satisfied.
   */
  predicate Fair(t: Trip) {
    && !t.outcome.broke && !t.outcome.ended && t.outcome.answer.Some?
    && (t.range.Whole? ==> t.outcome.answer.value.status == 200)
    && (Satisfiable(t.file, t.range) ==> t.outcome.answer.value.status == 206)
  }

  /** The answer comes with a length. */
  predicate Counted(t: Trip) {
    t.outcome.answer.Some? && t.outcome.answer.value.length.Some?
  }

  predicate Smooth(t: Trip) {
    Fair(t) && Counted(t)
  }

  /** A download that succeeds with fewer bytes than the file has to give was cut short by the connection. */
  method HttpDownloadFile(file: seq<Byte>, wanted: Option<Uint64>, offset: Uint64)
    returns (status: bool, data: array?<Byte>, dataSize: nat, totalSize: Uint64, ghost o: Outcome)
    requires |file| < UINT64_MAX
    ensures o.answer.Some? ==> Answers(file, Asked(Wish(wanted), offset), o.answer.value)
    ensures status <==> Succeeds(o, Wish(wanted), offset)
    ensures status ==> data != null && fresh(data) && dataSize < data.Length && data[dataSize] == 0
    ensures status ==> Faithful(file, offset, data[..dataSize])
    ensures status && wanted.Some? ==> dataSize <= wanted.value
    ensures status && !o.ended ==> dataSize == Available(file, Wish(wanted), offset)
    ensures status && offset > 0 && wanted != Some(0) ==> offset + Wish(wanted) - 1 < UINT64
    ensures status && offset == 0 ==> totalSize == if o.answer.value.length.Some? then |file| else UINT64_MAX
  {
    status, data, dataSize, totalSize := false, null, 0, 0;
    var size := Wish(wanted);
    var chunk := new Byte[DOWNLOAD_CHUNK_SIZE];
    var range := Asked(size, offset);
    var args := new Args(size, chunk, range.Span?);
    var a := Exchange(file, range);
    o := Outcome(a, false, false);
    if a == None { return; }
    var r := new Response(a.value.body);
    var reqId: int := *;
    var memory: bool := *;
    var ret := DownloadFileCb(args, reqId, r, a.value.status, a.value.length, memory);
    o := Outcome(a, reqId < 0 || !memory || r.failed, r.ended);
    if args.rangeIgnored || ret != 0 || !GoodStatus(args.statusCode) { return; }
    AnswerIsFaithful(file, size, offset, a.value, args.actualSize);
    return true, args.data, args.actualSize, args.contentLength, o;
  }

  method HttpGetFileSize(file: seq<Byte>) returns (status: bool, totalSize: nat, ghost o: Outcome)
    requires |file| < UINT64_MAX
    ensures status ==> totalSize == |file|
    ensures o.answer.Some? ==> Answers(file, Whole, o.answer.value)
    ensures status <==> Succeeds(o, 0, 0) && o.answer.value.length.Some?
  {
    status, totalSize := false, 0;
    var args := new Args(0, null, false);
    var a := Exchange(file, Whole);
    o := Outcome(a, false, false);
    if a == None { return; }
    var r := new Response(a.value.body);
    var reqId: int := *;
    var memory: bool := *;
    var ret := DownloadFileCb(args, reqId, r, a.value.status, a.value.length, memory);
    o := Outcome(a, reqId < 0 || !memory || r.failed, r.ended);
    if ret != 0 || !GoodStatus(args.statusCode) || args.contentLength == UINT64_MAX { return; }
    return true, args.contentLength, o;
  }

  /** The range asked for, if one is, ends where it should and begins in the file. */
  predicate RangeInside(file: seq<Byte>, dataSize: Uint64, offset: Uint64) {
    offset > 0 && dataSize > 0 ==> offset + dataSize - 1 < UINT64 && offset < |file|
  }

  /** Some answer a server may give lets the download succeed exactly if the range asked for lies in the file. */
  lemma SucceedsExactly(file: seq<Byte>, dataSize: Uint64, offset: Uint64)
    requires |file| < UINT64_MAX
    ensures (exists o :: Succeeds(o, dataSize, offset) && Answers(file, Asked(dataSize, offset), o.answer.value))
            <==> RangeInside(file, dataSize, offset)
  {
    if RangeInside(file, dataSize, offset) {
      var range := Asked(dataSize, offset);
      var body := if range.Span? then file[offset..Min(range.last + 1, |file|)] else file;
      var o := Outcome(Some(Answer(if range.Span? then 206 else 200, Some(|body|), body)), false, false);
      assert Succeeds(o, dataSize, offset) && Answers(file, range, o.answer.value);
    }
  }

  /** With no size given, no answer lets a download from an offset of 2 or more succeed. */
  lemma NoSizeFails(file: seq<Byte>, offset: Uint64, o: Outcome)
    requires |file| < UINT64_MAX && offset >= 2
    requires o.answer.Some? && Answers(file, Asked(Wish(None), offset), o.answer.value)
    ensures !Succeeds(o, Wish(None), offset)
  {
    SucceedsExactly(file, Wish(None), offset);
  }

  /** The download of all but the first two bytes of a file of three. */
  lemma NoSizeExample(o: Outcome)
    requires o.answer.Some? && Answers([1, 2, 3], Asked(Wish(None), 2), o.answer.value)
    ensures Asked(Wish(None), 2) == Span(2, 0) && !Succeeds(o, Wish(None), 2)
  {
    NoSizeFails([1, 2, 3], 2, o);
  }
}
