/**
  The sending half of a stream in sandbird.c: queueing a response, sending it, and the loop of conn_thread.

  `parts` records the response as the calls have built it; what has gone out on the wire, then the
  send buffer, then the unread rest of the file is always exactly that response.
 */
module SbSender {
  import opened CStrings
  import opened SbBuffer
  import opened SbRequest
  import opened Seqs
  import HashBits

  const SB_EBADSTATE: int := -4
  const SB_EBADRESULT: int := -5
  const SB_ECANTOPEN: int := -6

  const CRLF: string := "\r\n"
  const OK_STATUS: string := "HTTP/1.1 200 OK\r\n"

  /** A response, or the beginning of one: at most one status line and one blank line, in their places. */
  datatype Parts = Parts(status: Option<string>, headers: seq<string>, blank: bool, body: string, file: Option<string>)

  const NOTHING: Parts := Parts(None, [], false, "", None)

  function Render(p: Parts): string {
    (if p.status.None? then "" else p.status.value) + Joined(p.headers) + (if p.blank then CRLF else "") + p.body +
    (if p.file.None? then "" else p.file.value)
  }

  /** No headers without a status line, no body without a blank line, and a file instead of a body. */
  ghost predicate WellFormed(p: Parts) {
    && (p.status.None? ==> p.headers == [] && !p.blank)
    && (!p.blank ==> p.body == "" && p.file.None?)
    && (p.file.Some? ==> p.body == "")
  }

  /** What may have been queued in which state. A stream can be closed at any time. */
  ghost predicate StateFits(state: State, p: Parts) {
    match state
    case SENDING_HEADER => p.status.Some? && !p.blank
    case SENDING_DATA => p.blank && p.file.None?
    case SENDING_FILE => p.blank && p.file.Some?
    case CLOSING => true
    case _ => p == NOTHING
  }

  /** q is p with more queued behind it. */
  ghost predicate Extends(p: Parts, q: Parts) {
    && (p.status.Some? ==> q.status == p.status)
    && p.headers <= q.headers && (p.blank ==> q.blank && q.headers == p.headers)
    && p.body <= q.body && (p.file.Some? ==> q.file == p.file)
  }

  function Rank(s: State): nat {
    match s
    case RECEIVING_HEADER => 0
    case RECEIVING_REQUEST => 1
    case SENDING_STATUS => 2
    case SENDING_HEADER => 3
    case SENDING_DATA => 4
    case SENDING_FILE => 5
    case CLOSING => 6
  }

  /** The codes of RPI/sandbird.h that a caller of these functions sees. */
  lemma ErrorCodes()
    ensures SB_ESUCCESS == 0 && SB_EOUTOFMEM == -2 && SB_EBADSTATE == -4 && SB_EBADRESULT == -5 && SB_ECANTOPEN == -6
  {
  }

  /** The states in the order a stream goes through them. */
  lemma StateOrder()
    ensures Rank(RECEIVING_HEADER) < Rank(RECEIVING_REQUEST) < Rank(SENDING_STATUS) < Rank(SENDING_HEADER)
    ensures Rank(SENDING_HEADER) < Rank(SENDING_DATA) < Rank(SENDING_FILE) < Rank(CLOSING)
  {
  }

  /** The bytes of a complete response: status line, header lines, an empty line, and a body or a file. */
  lemma ResponseBytes(p: Parts)
    requires WellFormed(p) && p.blank
    ensures Render(p) == p.status.value + Joined(p.headers) + "\r\n" + if p.file.Some? then p.file.value else p.body
  {
  }

  /** The status line that is sent when none has been: version, code and message. */
  lemma DefaultLine()
    ensures OK_STATUS == "HTTP/1.1" + " " + "200" + " " + "OK" + "\r\n"
  {
  }

  /** A header line that is sent is read back by the search for its field, whole and as it was. */
  lemma HeaderReadsBack(t: string, i: nat, field: string, val: string)
    requires IsFieldName(field) && i + |HeaderLine(field, val)| <= |t|
    requires t[i..i + |HeaderLine(field, val)|] == HeaderLine(field, val)
    requires forall k | 0 <= k < |val| :: val[k] != NUL && val[k] != '\r'
    requires val != "" ==> val[0] != ' ' && val[0] != '\t'
    ensures FindHeader(t, i, field).Found?
    ensures var v := FindHeader(t, i, field).value;
            && v + |val| + 2 == i + |HeaderLine(field, val)|
            && t[v..v + |val|] == val && SkipToCr(t, v) == v + |val| && CrLfAt(t, v + |val|)
  {
    var v := i + |field| + 2;
    LineStands(t, i, v, field, val);
    FieldStands(t, i, field);
    ValueStands(t, i, v, field, val);
  }

  lemma LineStands(t: string, i: nat, v: nat, field: string, val: string)
    requires v == i + |field| + 2 && v + |val| + 2 <= |t| && t[i..v + |val| + 2] == HeaderLine(field, val)
    ensures forall k | 0 <= k < |field| :: At(t, i + k) == field[k]
    ensures At(t, v - 2) == ':' && At(t, v - 1) == ' ' && t[v..v + |val|] == val && CrLfAt(t, v + |val|)
  {
    var line := HeaderLine(field, val);
    assert line == field + (": " + (val + CRLF));
    PartStands(t, i, field, ": " + (val + CRLF));
    PartStands(t, v - 2, ": ", val + CRLF);
    PartStands(t, v, val, CRLF);
    assert t[v - 2] == t[v - 2..v][0] && t[v - 1] == t[v - 2..v][1];
    assert t[v + |val|] == t[v + |val|..v + |val| + 2][0] && t[v + |val| + 1] == t[v + |val|..v + |val| + 2][1];
  }

  lemma PartStands(t: string, i: nat, a: string, b: string)
    requires i + |a| + |b| <= |t| && t[i..i + |a| + |b|] == a + b
    ensures t[i..i + |a|] == a && t[i + |a|..i + |a| + |b|] == b
    ensures forall k | 0 <= k < |a| :: At(t, i + k) == a[k]
  {
    assert forall k | 0 <= k < |a| + |b| :: t[i + k] == (a + b)[k];
    assert t[i..i + |a|] == (a + b)[..|a|] && t[i + |a|..i + |a| + |b|] == (a + b)[|a|..];
  }

  lemma FieldStands(t: string, i: nat, field: string)
    requires IsFieldName(field) && (forall k | 0 <= k < |field| :: At(t, i + k) == field[k])
    requires At(t, i + |field|) == ':'
    ensures At(t, i) != NUL && !CrLfAt(t, i) && FieldAt(t, i, field)
  {
    FieldBegins(t, i, field);
  }

  lemma ValueStands(t: string, i: nat, v: nat, field: string, val: string)
    requires At(t, i) != NUL && !CrLfAt(t, i) && FieldAt(t, i, field) && v == i + |field| + 2
    requires v + |val| <= |t| && At(t, v - 1) == ' ' && t[v..v + |val|] == val && CrLfAt(t, v + |val|)
    requires forall k | 0 <= k < |val| :: val[k] != NUL && val[k] != '\r'
    requires val != "" ==> val[0] != ' ' && val[0] != '\t'
    ensures FindHeader(t, i, field) == Found(v) && SkipToCr(t, v) == v + |val|
  {
    forall k | v <= k < v + |val| ensures At(t, k) != NUL && At(t, k) != '\r' {
      assert t[v..v + |val|][k - v] == t[k];
    }
    assert val != "" ==> t[v] == t[v..v + |val|][0];
    ReachesCr(t, v, v + |val|);
    assert SkipSpaces(t, v) == v;
    assert SkipSpaces(t, v - 1) == v;
  }

  lemma ReachesCr(t: string, v: nat, end: nat)
    requires v <= end && At(t, end) == '\r' && forall k | v <= k < end :: At(t, k) != NUL && At(t, k) != '\r'
    ensures SkipToCr(t, v) == end
    decreases end - v
  {
    if v < end { ReachesCr(t, v + 1, end); }
  }

  /** Extending a well-formed response only appends to its bytes. */
  lemma ExtendsAppends(p: Parts, q: Parts)
    requires WellFormed(p) && WellFormed(q) && Extends(p, q)
    ensures Render(p) <= Render(q)
  {
    if !p.blank {
      if p.status.Some? {
        JoinedPrefix(p.headers, q.headers);
      } else {
        assert Render(p) == "";
      }
    } else if p.file.None? {
      assert q.body == p.body + q.body[|p.body|..];
    }
  }

  class Sender {
    const sendBuf: Buffer
    var state: State
    var sendFd: Option<string>   // the unread rest of the file being sent, when one is open
    ghost var wire: string
    ghost var asked: nat         // how often the socket has been asked to take bytes
    ghost var parts: Parts

    ghost predicate Valid()
      reads this, sendBuf, sendBuf.s
    {
      && sendBuf.Valid() && WellFormed(parts) && StateFits(state, parts)
      && wire + sendBuf.Contents() + (if sendFd.None? then "" else sendFd.value) == Render(parts)
      && (sendFd.Some? ==> state == SENDING_FILE || state == CLOSING)
    }

    /** Nothing that was queued is lost or reordered, and the state does not go back. */
    twostate predicate Progress()
      reads this
    {
      Extends(old(parts), parts) && Rank(old(state)) <= Rank(state) && wire == old(wire)
    }

    constructor ()
      ensures Valid() && fresh(sendBuf) && fresh(sendBuf.s) && state == RECEIVING_HEADER && parts == NOTHING
      ensures wire == ""
    {
      sendBuf := new Buffer();
      state, sendFd, wire, asked, parts := RECEIVING_HEADER, None, "", 0, NOTHING;
    }

    /** Queues text, all of it or nothing, which makes the response `next`. */
    method Queue(text: string, ghost next: Parts) returns (err: int)
      requires Valid() && sendFd.None? && Render(next) == Render(parts) + text
      modifies this`parts, sendBuf, sendBuf.s
      ensures sendBuf.Valid() && (sendBuf.s == old(sendBuf.s) || fresh(sendBuf.s))
      ensures wire + sendBuf.Contents() == Render(parts)
      ensures parts == if err == SB_ESUCCESS then next else old(parts)
      ensures err == SB_ESUCCESS || err == SB_EOUTOFMEM
      ensures sendBuf.refused <==> old(sendBuf.refused) || err == SB_EOUTOFMEM
    {
      ghost var before := sendBuf.Contents();
      err := sendBuf.PushStr(text);
      assert wire + (before + text) == (wire + before) + text;
      if err == SB_ESUCCESS {
        parts := next;
      }
    }

    /** sb_send_status; `line` is the formatted status line. */
    method SendStatus(line: string) returns (err: int)
      requires Valid()
      modifies this, sendBuf, sendBuf.s
      ensures Valid() && Progress() && (sendBuf.s == old(sendBuf.s) || fresh(sendBuf.s))
      ensures err == SB_EBADSTATE <==> old(state) != SENDING_STATUS
      ensures err == SB_ESUCCESS ==> state == SENDING_HEADER && parts == old(parts).(status := Some(line))
      ensures err != SB_ESUCCESS ==> state == old(state) && parts == old(parts) && sendFd == old(sendFd)
      ensures err == SB_ESUCCESS || err == SB_EBADSTATE || err == SB_EOUTOFMEM
      ensures sendBuf.refused <==> old(sendBuf.refused) || err == SB_EOUTOFMEM
    {
      if state != SENDING_STATUS {
        return SB_EBADSTATE;
      }
      err := sendBuf.PushStr(line);
      if err != SB_ESUCCESS {
        return err;
      }
      state := SENDING_HEADER;
      parts := parts.(status := Some(line));
      return SB_ESUCCESS;
    }

    /** What sb_send_header and sb_stream_finalize_header start with: a status line, if none has been sent. */
    method DefaultStatus() returns (err: int)
      requires Valid() && Rank(state) <= Rank(SENDING_HEADER)
      modifies this, sendBuf, sendBuf.s
      ensures Valid() && (sendBuf.s == old(sendBuf.s) || fresh(sendBuf.s)) && sendFd == old(sendFd) && wire == old(wire)
      ensures Rank(old(state)) < Rank(SENDING_STATUS) ==> err == SB_EBADSTATE
      ensures err == SB_ESUCCESS ==>
                state == SENDING_HEADER && parts == old(parts).(status := parts.status)
                && (old(parts).status.Some? ==> parts.status == old(parts).status)
      ensures err != SB_ESUCCESS ==> state == old(state) && parts == old(parts)
      ensures parts.status == old(parts).status || (old(parts).status.None? && parts.status == Some(OK_STATUS))
      ensures Rank(old(state)) >= Rank(SENDING_STATUS) ==> err == SB_ESUCCESS || err == SB_EOUTOFMEM
      ensures sendBuf.refused <==> old(sendBuf.refused) || err == SB_EOUTOFMEM
    {
      err := SB_ESUCCESS;
      if Rank(state) < Rank(SENDING_HEADER) {
        err := SendStatus(OK_STATUS);
      }
    }

    /** sb_send_header */
    method SendHeader(field: string, val: string) returns (err: int)
      requires Valid()
      modifies this, sendBuf, sendBuf.s
      ensures Valid() && Progress() && (sendBuf.s == old(sendBuf.s) || fresh(sendBuf.s)) && sendFd == old(sendFd)
      ensures Rank(old(state)) > Rank(SENDING_HEADER) || Rank(old(state)) < Rank(SENDING_STATUS) ==>
                err == SB_EBADSTATE && parts == old(parts)
      ensures err == SB_ESUCCESS ==>
                state == SENDING_HEADER && parts.headers == old(parts).headers + [HeaderLine(field, val)]
      ensures err != SB_ESUCCESS ==> parts.headers == old(parts).headers && Rank(state) <= MaxRank(Rank(old(state)), 3)
      ensures parts.(status := None, headers := []) == old(parts).(status := None, headers := [])
      ensures parts.status == old(parts).status || (old(parts).status.None? && parts.status == Some(OK_STATUS))
      ensures Rank(SENDING_STATUS) <= Rank(old(state)) <= Rank(SENDING_HEADER) ==>
                err == SB_ESUCCESS || err == SB_EOUTOFMEM
      ensures sendBuf.refused <==> old(sendBuf.refused) || err == SB_EOUTOFMEM
    {
      if Rank(state) > Rank(SENDING_HEADER) {
        return SB_EBADSTATE;
      }
      err := DefaultStatus();
      if err == SB_ESUCCESS {
        err := PushHeader(HeaderLine(field, val));
      }
    }

    method PushHeader(line: string) returns (err: int)
      requires Valid() && state == SENDING_HEADER && sendFd.None?
      modifies this`parts, sendBuf, sendBuf.s
      ensures Valid() && (sendBuf.s == old(sendBuf.s) || fresh(sendBuf.s))
      ensures parts == if err == SB_ESUCCESS then old(parts).(headers := old(parts).headers + [line]) else old(parts)
      ensures err == SB_ESUCCESS || err == SB_EOUTOFMEM
      ensures sendBuf.refused <==> old(sendBuf.refused) || err == SB_EOUTOFMEM
    {
      AppendHeader(parts, line);
      err := Queue(line, parts.(headers := parts.headers + [line]));
    }

    /** sb_stream_finalize_header */
    method FinalizeHeader() returns (err: int)
      requires Valid() && Rank(state) < Rank(SENDING_DATA)
      modifies this, sendBuf, sendBuf.s
      ensures Valid() && Progress() && (sendBuf.s == old(sendBuf.s) || fresh(sendBuf.s)) && sendFd == old(sendFd)
      ensures Rank(old(state)) < Rank(SENDING_STATUS) ==> err == SB_EBADSTATE && parts == old(parts)
      ensures parts.headers == old(parts).headers
      ensures err == SB_ESUCCESS ==> state == SENDING_DATA && parts.blank
      ensures err != SB_ESUCCESS ==> !parts.blank && Rank(state) < Rank(SENDING_DATA)
      ensures parts.body == "" && parts.file.None?
      ensures parts.status == old(parts).status || (old(parts).status.None? && parts.status == Some(OK_STATUS))
      ensures Rank(old(state)) >= Rank(SENDING_STATUS) ==> err == SB_ESUCCESS || err == SB_EOUTOFMEM
      ensures sendBuf.refused <==> old(sendBuf.refused) || err == SB_EOUTOFMEM
    {
      err := DefaultStatus();
      if err == SB_ESUCCESS {
        err := PushBlank();
      }
    }

    method PushBlank() returns (err: int)
      requires Valid() && state == SENDING_HEADER && sendFd.None?
      modifies this`state, this`parts, sendBuf, sendBuf.s
      ensures Valid() && (sendBuf.s == old(sendBuf.s) || fresh(sendBuf.s))
      ensures err == SB_ESUCCESS ==> state == SENDING_DATA && parts == old(parts).(blank := true)
      ensures err != SB_ESUCCESS ==> state == old(state) && parts == old(parts)
      ensures err == SB_ESUCCESS || err == SB_EOUTOFMEM
      ensures sendBuf.refused <==> old(sendBuf.refused) || err == SB_EOUTOFMEM
    {
      AppendBlank(parts);
      err := Queue(CRLF, parts.(blank := true));
      if err == SB_ESUCCESS {
        state := SENDING_DATA;
      }
    }

    /**
      sb_send_file. `file` is the file's contents when it can be opened, and `size` its length in decimal;
      `statOk` is whether its size can be had.
     */
    method SendFile(file: Option<string>, statOk: bool, size: string) returns (err: int)
      requires Valid()
      modifies this, sendBuf, sendBuf.s
      ensures Valid() && Progress() && (sendBuf.s == old(sendBuf.s) || fresh(sendBuf.s))
      ensures Rank(old(state)) > Rank(SENDING_HEADER) ==>
                err == SB_EBADSTATE && parts == old(parts) && state == old(state)
      ensures err == SB_ESUCCESS ==>
                && state == SENDING_FILE && file.Some? && parts.file == file
                && parts.headers == old(parts).headers + [HeaderLine("Content-Length", size)]
      ensures err != SB_ESUCCESS ==> parts.file == old(parts).file && sendFd == old(sendFd)
      ensures parts.status == old(parts).status || (old(parts).status.None? && parts.status == Some(OK_STATUS))
      ensures Rank(SENDING_STATUS) <= Rank(old(state)) <= Rank(SENDING_HEADER) ==>
                if file.None? then err == SB_ECANTOPEN else if !statOk then err == SB_EBADRESULT
                else err == SB_ESUCCESS || err == SB_EOUTOFMEM
      ensures sendBuf.refused <==> old(sendBuf.refused) || err == SB_EOUTOFMEM
    {
      if Rank(state) > Rank(SENDING_HEADER) {
        return SB_EBADSTATE;
      }
      err := if file.None? then SB_ECANTOPEN else if !statOk then SB_EBADRESULT else SB_ESUCCESS;
      if err == SB_ESUCCESS {
        err := QueueFile(file.value, size);
      }
    }

    method QueueFile(content: string, size: string) returns (err: int)
      requires Valid() && Rank(state) <= Rank(SENDING_HEADER)
      modifies this, sendBuf, sendBuf.s
      ensures Valid() && Progress() && (sendBuf.s == old(sendBuf.s) || fresh(sendBuf.s))
      ensures err == SB_ESUCCESS ==>
                && state == SENDING_FILE && parts.file == Some(content) == sendFd
                && parts.headers == old(parts).headers + [HeaderLine("Content-Length", size)]
      ensures err != SB_ESUCCESS ==> parts.file == old(parts).file && sendFd == old(sendFd)
      ensures parts.status == old(parts).status || (old(parts).status.None? && parts.status == Some(OK_STATUS))
      ensures Rank(old(state)) >= Rank(SENDING_STATUS) ==> err == SB_ESUCCESS || err == SB_EOUTOFMEM
      ensures sendBuf.refused <==> old(sendBuf.refused) || err == SB_EOUTOFMEM
    {
      err := EndHeader(size);
      if err == SB_ESUCCESS {
        AttachFile(content);
      }
    }

    /** The part of sb_send_file that writes the rest of the header. */
    method EndHeader(size: string) returns (err: int)
      requires Valid() && Rank(state) <= Rank(SENDING_HEADER)
      modifies this, sendBuf, sendBuf.s
      ensures Valid() && Progress() && (sendBuf.s == old(sendBuf.s) || fresh(sendBuf.s)) && sendFd == old(sendFd)
      ensures parts.body == "" && parts.file.None? && old(parts).file.None?
      ensures err == SB_ESUCCESS ==>
                state == SENDING_DATA && parts.headers == old(parts).headers + [HeaderLine("Content-Length", size)]
      ensures err != SB_ESUCCESS ==> Rank(state) < Rank(SENDING_DATA)
      ensures parts.status == old(parts).status || (old(parts).status.None? && parts.status == Some(OK_STATUS))
      ensures Rank(old(state)) >= Rank(SENDING_STATUS) ==> err == SB_ESUCCESS || err == SB_EOUTOFMEM
      ensures sendBuf.refused <==> old(sendBuf.refused) || err == SB_EOUTOFMEM
    {
      err := SendHeader("Content-Length", size);
      if err == SB_ESUCCESS {
        err := FinalizeHeader();
      }
    }

    /** The end of sb_send_file, where the stream takes the open file over. */
    method AttachFile(content: string)
      requires Valid() && state == SENDING_DATA && parts.body == "" && parts.file.None?
      modifies this
      ensures Valid() && state == SENDING_FILE && sendFd == Some(content)
      ensures wire == old(wire) && parts == old(parts).(file := Some(content))
    {
      AppendFile(parts, content);
      sendFd := Some(content);
      state := SENDING_FILE;
      parts := parts.(file := Some(content));
    }

    /** sb_write */
    method Write(data: string) returns (err: int)
      requires Valid()
      modifies this, sendBuf, sendBuf.s
      ensures Valid() && Progress() && (sendBuf.s == old(sendBuf.s) || fresh(sendBuf.s)) && sendFd == old(sendFd)
      ensures Rank(old(state)) > Rank(SENDING_DATA) ==> err == SB_EBADSTATE && parts == old(parts)
      ensures parts.headers == old(parts).headers && parts.file == old(parts).file
      ensures parts.body == if err == SB_ESUCCESS then old(parts).body + data else old(parts).body
      ensures err == SB_ESUCCESS ==> state == SENDING_DATA && parts.blank
      ensures parts.status == old(parts).status || (old(parts).status.None? && parts.status == Some(OK_STATUS))
      ensures Rank(SENDING_STATUS) <= Rank(old(state)) <= Rank(SENDING_DATA) ==>
                err == SB_ESUCCESS || err == SB_EOUTOFMEM
      ensures sendBuf.refused <==> old(sendBuf.refused) || err == SB_EOUTOFMEM
    {
      if Rank(state) < Rank(SENDING_DATA) {
        err := FinalizeHeader();
        if err != SB_ESUCCESS {
          return err;
        }
      }
      if state != SENDING_DATA {
        return SB_EBADSTATE;
      }
      err := PushBody(data);
    }

    method PushBody(data: string) returns (err: int)
      requires Valid() && state == SENDING_DATA
      modifies this`parts, sendBuf, sendBuf.s
      ensures Valid() && (sendBuf.s == old(sendBuf.s) || fresh(sendBuf.s))
      ensures parts == if err == SB_ESUCCESS then old(parts).(body := old(parts).body + data) else old(parts)
      ensures err == SB_ESUCCESS || err == SB_EOUTOFMEM
      ensures sendBuf.refused <==> old(sendBuf.refused) || err == SB_EOUTOFMEM
    {
      AppendBody(parts, data);
      err := Queue(data, parts.(body := parts.body + data));
    }

    // ---- sending ----

    /** What is left to do: the open file first, then the bytes in the buffer. */
    ghost function FileLeft(): nat
      reads this
    {
      if sendFd.None? then 0 else 1 + |sendFd.value|
    }

    /** send(2): how many bytes were taken; 0 or less for a failure, which may mean only that it would block. */
    method SocketSend(len: nat, mayBlock: bool) returns (sz: int, wouldBlock: bool)
      requires len > 0
      modifies this`asked
      ensures asked == old(asked) + 1
      ensures sz <= len && (wouldBlock ==> sz <= 0 && mayBlock)
    {
      asked := asked + 1;
      sz :| sz <= len;
      wouldBlock := *;
      wouldBlock := wouldBlock && sz <= 0 && mayBlock;
    }

    /** The part of sb_stream_send from send_data on. `lost` says that the connection failed. */
    method SendData(mayBlock: bool) returns (ghost lost: bool, ghost taken: int)
      requires Valid() && sendBuf.len > 0
      modifies this`state, this`wire, this`asked, sendBuf`len, sendBuf.s
      ensures Valid() && old(wire) <= wire
      ensures taken <= old(sendBuf.len)
      ensures sendBuf.Contents() == old(sendBuf.Contents())[if taken > 0 then taken else 0..]
      ensures wire == old(wire) + old(sendBuf.Contents())[..if taken > 0 then taken else 0]
      ensures state == old(state) || (state == CLOSING && lost)
      ensures lost ==> taken <= 0
      ensures asked == old(asked) + 1
      ensures sendBuf.len <= old(sendBuf.len)
      ensures !mayBlock ==> state == CLOSING || sendBuf.len < old(sendBuf.len)
    {
      lost := false;
      var sz, wouldBlock := SocketSend(sendBuf.len, mayBlock);
      taken := sz;
      if sz <= 0 {
        if !wouldBlock {
          state := CLOSING;
          lost := true;
        }
        return;
      }
      ghost var before := sendBuf.Contents();
      sendBuf.Shift(sz);
      assert before == before[..sz] + before[sz..];
      wire := wire + before[..sz];
    }

    /** read(2) into the empty send buffer: some of the rest of the file, none of it only at its end. */
    method ReadFile() returns (n: nat)
      requires Valid() && sendFd.Some? && sendBuf.len == 0 && sendBuf.cap > 0
      modifies this`sendFd, sendBuf`len, sendBuf.s
      ensures Valid() && n == sendBuf.len && (n == 0 <==> old(sendFd).value == "")
      ensures sendFd == Some(old(sendFd).value[n..]) && n <= |old(sendFd).value|
    {
      var rest := sendFd.value;
      var least := if rest == "" then 0 else 1;
      n :| least <= n <= |rest| && n <= sendBuf.cap && (n == 0 <==> rest == "");
      Fill(rest, n);
      assert rest == rest[..n] + rest[n..];
      sendFd := Some(rest[n..]);
    }

    method Fill(rest: string, n: nat)
      requires sendBuf.Valid() && n <= |rest| && n <= sendBuf.cap
      modifies sendBuf`len, sendBuf.s
      ensures sendBuf.Valid() && sendBuf.len == n && sendBuf.Contents() == rest[..n]
    {
      forall i | 0 <= i < n {
        sendBuf.s[i] := rest[i];
      }
      sendBuf.len := n;
    }

    /** sb_stream_send */
    method Send(mayBlock: bool) returns (err: int, ghost lost: bool)
      requires Valid()
      modifies this`state, this`sendFd, this`wire, this`asked, sendBuf, sendBuf.s
      ensures Valid() && parts == old(parts) && old(wire) <= wire
      ensures sendBuf.s == old(sendBuf.s) || fresh(sendBuf.s)
      ensures err == SB_ESUCCESS || err == SB_EOUTOFMEM
      ensures state == old(state) || (state == CLOSING && (lost || wire == Render(parts)))
      ensures err == SB_ESUCCESS ==>
                asked == old(asked) + if old(sendBuf.len) > 0 || old(sendFd.Some? && sendFd.value != "") then 1 else 0
      ensures !mayBlock && err == SB_ESUCCESS ==>
                || state == CLOSING || FileLeft() < old(FileLeft())
                || (FileLeft() == old(FileLeft()) && sendBuf.len < old(sendBuf.len))
      ensures sendBuf.refused <==> old(sendBuf.refused) || err == SB_EOUTOFMEM
    {
      lost := false;
      ghost var taken: int;
      if sendBuf.len > 0 {
        lost, taken := SendData(mayBlock);
      } else if sendFd.Some? {
        Pow2Of8192();
        err := sendBuf.Reserve(8192);
        if err != SB_ESUCCESS {
          return err, lost;
        }
        var n := ReadFile();
        if n > 0 {
          lost, taken := SendData(mayBlock);
        } else {
          sendFd := None;
        }
      } else {
        state := CLOSING;
      }
      err := SB_ESUCCESS;
    }

    /**
      The loop of conn_thread, on a blocking socket: it ends, and it ends without an error and without losing the
      connection only when the whole response is on the wire.
     */
    method SendAll() returns (err: int, ghost lost: bool)
      requires Valid()
      modifies this`state, this`sendFd, this`wire, this`asked, sendBuf, sendBuf.s
      ensures Valid() && parts == old(parts) && old(wire) <= wire <= Render(parts)
      ensures err == SB_ESUCCESS ==> state == CLOSING
      ensures sendBuf.refused <==> old(sendBuf.refused) || err != SB_ESUCCESS
      ensures err == SB_ESUCCESS && !lost && old(state) != CLOSING ==> wire == Render(parts)
    {
      err, lost := SB_ESUCCESS, false;
      while state != CLOSING
        invariant Valid() && parts == old(parts) && old(wire) <= wire && err == SB_ESUCCESS
        invariant sendBuf.refused == old(sendBuf.refused)
        invariant sendBuf.s == old(sendBuf.s) || fresh(sendBuf.s)
        invariant old(state) != CLOSING && state == CLOSING ==> lost || wire == Render(parts)
        decreases state != CLOSING, FileLeft(), sendBuf.len
      {
        err, lost := Send(false);
        if err != SB_ESUCCESS {
          return;
        }
      }
    }

    /** Any sequence of calls a handler may make, whatever their results. */
    method Perform(calls: seq<Call>)
      requires Valid()
      modifies this, sendBuf, sendBuf.s
      ensures Valid() && Progress()
    {
      var i := 0;
      while i < |calls|
        invariant i <= |calls| && Valid() && Extends(old(parts), parts) && Rank(old(state)) <= Rank(state)
        invariant wire == old(wire) && (sendBuf.s == old(sendBuf.s) || fresh(sendBuf.s))
      {
        var err;
        match calls[i] {
          case Status(line) => err := SendStatus(line);
          case Header(field, val) => err := SendHeader(field, val);
          case File(file, statOk, size) => err := SendFile(file, statOk, size);
          case Body(data) => err := Write(data);
        }
        i := i + 1;
      }
    }
  }

  datatype Call =
    | Status(line: string)
    | Header(field: string, val: string)
    | File(file: Option<string>, statOk: bool, size: string)
    | Body(data: string)

  lemma Pow2Of8192()
    ensures Grown(8192)
  {
    assert HashBits.Pow2(4) == 16;
    assert HashBits.Pow2(8) == 256;
    assert HashBits.Pow2(13) == 8192;
  }

  function HeaderLine(field: string, val: string): string {
    field + ": " + val + CRLF
  }

  function MaxRank(a: nat, b: nat): nat {
    if a >= b then a else b
  }

  lemma AppendHeader(p: Parts, line: string)
    requires WellFormed(p) && !p.blank
    ensures Render(p.(headers := p.headers + [line])) == Render(p) + line
  {
    assert (p.headers + [line])[..|p.headers|] == p.headers;
  }

  lemma AppendBlank(p: Parts)
    requires WellFormed(p) && !p.blank
    ensures Render(p.(blank := true)) == Render(p) + CRLF
  {
  }

  lemma AppendBody(p: Parts, data: string)
    requires WellFormed(p) && p.file.None?
    ensures Render(p.(body := p.body + data)) == Render(p) + data
  {
  }

  lemma AppendFile(p: Parts, content: string)
    requires WellFormed(p) && p.file.None? && p.body == ""
    ensures Render(p.(file := Some(content))) == Render(p) + content
  {
  }
}
