/** The per-connection message gate of package `qulifi`.

    A connection handler reads one '\n'-terminated message, checks it and
    either closes at once or writes "+PONG\r\n" and then closes. Whatever
    the message says, the reply is the same; there is never a second
    message. */
module Qulifi {
  import opened Wire

  const MsgDelimiter: Bytes := [CR, LF]

  /** The only reply the handler ever writes: "+PONG\r\n". */
  const Pong: Bytes := [Plus, UpperP, UpperO, UpperN, UpperG] + MsgDelimiter

  /** The error a read returns alongside its bytes. */
  datatype ReadErr = NoErr | Eof | IoError

  datatype Read = Read(msg: Bytes, err: ReadErr)

  /** What the handler does with the connection. */
  datatype Outcome = NoReplyClose | ReplyThenClose(reply: Bytes)

  /** Reading up to and including the first '\n' of the bytes still to
      arrive on the connection, `pending`, after which the connection
      reports `end` (end of stream or an I/O failure). The error is nil
      exactly when the bytes returned end in '\n'. */
  function ReadBytes(pending: Bytes, end: ReadErr): (r: Read)
    requires end != NoErr
    ensures r.msg <= pending
    ensures r.err == NoErr <==> LF in pending
    ensures r.err == NoErr ==>
              |r.msg| > 0 && r.msg[|r.msg| - 1] == LF && LF !in r.msg[..|r.msg| - 1]
    ensures r.err != NoErr ==> r.msg == pending && r.err == end
  {
    if |pending| == 0 then Read([], end)
    else if pending[0] == LF then Read([LF], NoErr)
    else
      var rest := ReadBytes(pending[1..], end);
      assert pending == [pending[0]] + pending[1..];
      Read([pending[0]] + rest.msg, rest.err)
  }

  /** `validateEnding`: the message's last two bytes are "\r\n". Slicing
      the last two bytes of a shorter message panics. */
  function ValidateEnding(msg: Bytes): (ok: bool)
    requires |msg| >= 2
    ensures ok <==> msg[|msg| - 2] == CR && msg[|msg| - 1] == LF
  {
    msg[|msg| - 2..] == MsgDelimiter
  }

  /** Every message framed with the delimiter passes the check ... */
  lemma DelimitedIsValid(m: Bytes)
    ensures ValidateEnding(m + MsgDelimiter)
  {
    var msg := m + MsgDelimiter;
    assert msg[|msg| - 2..] == MsgDelimiter;
  }

  /** ... and every message that passes is some body framed with it. */
  lemma ValidIsDelimited(msg: Bytes)
    requires |msg| >= 2 && ValidateEnding(msg)
    ensures msg[..|msg| - 2] + MsgDelimiter == msg
  {
    assert msg[|msg| - 2..] == MsgDelimiter;
    assert msg == msg[..|msg| - 2] + msg[|msg| - 2..];
  }

  /** The decision in the handler's loop body for one read: a failed read
      (other than end of stream), a message under three bytes or one not
      ending in "\r\n" closes without a reply; anything else is answered
      with PONG. Every path returns, so the loop body runs once. */
  function Classify(msg: Bytes, err: ReadErr): (o: Outcome)
    ensures o == NoReplyClose || o == ReplyThenClose(Pong)
    ensures o.ReplyThenClose? <==>
              err != IoError && |msg| >= 3 && msg[|msg| - 2] == CR && msg[|msg| - 1] == LF
  {
    if err == IoError then NoReplyClose
    else if |msg| < 3 then NoReplyClose
    else if !ValidateEnding(msg) then NoReplyClose
    else ReplyThenClose(Pong)
  }

  /** The handler on a connection whose bytes are `input`, followed by `end`.
      A connection that ends or fails before its first '\n' is never
      answered. Since `end` is the end of stream or an I/O error, the model
      covers only connections that send a '\n' or end; the read has no
      deadline, so a peer that does neither would block the handler. */
  function HandleConnection(input: Bytes, end: ReadErr): (o: Outcome)
    requires end != NoErr
    ensures o == NoReplyClose || o == ReplyThenClose(Pong)
    ensures o.ReplyThenClose? ==> LF in input
  {
    var r := ReadBytes(input, end);
    Classify(r.msg, r.err)
  }

  /** Index `k` holds the first '\n' of `input`. */
  predicate FirstLineEndsAt(input: Bytes, k: int) {
    0 <= k < |input| && input[k] == LF && LF !in input[..k]
  }

  lemma FirstLineUnique(input: Bytes, line: Bytes, k: int)
    requires line <= input && |line| > 0 && line[|line| - 1] == LF && LF !in line[..|line| - 1]
    requires FirstLineEndsAt(input, k)
    ensures k == |line| - 1
  {
  }

  /** PONG is written exactly when the connection's first line is
      terminated by "\r\n" and carries at least one byte before it. */
  lemma PongIffFirstLineEndsInCrlf(input: Bytes, end: ReadErr)
    requires end != NoErr
    ensures HandleConnection(input, end).ReplyThenClose? <==>
              exists k :: FirstLineEndsAt(input, k) && k >= 2 && input[k - 1] == CR
  {
    var r := ReadBytes(input, end);
    if r.err == NoErr {
      var k := |r.msg| - 1;
      assert r.msg == input[..k + 1];
      assert input[..k] == r.msg[..k];
      assert FirstLineEndsAt(input, k);
      forall j | FirstLineEndsAt(input, j) ensures j == k {
        FirstLineUnique(input, r.msg, j);
      }
    }
  }

  lemma {:induction false} ReadBytesFirstLine(line: Bytes, rest: Bytes, end: ReadErr)
    requires end != NoErr
    requires |line| > 0 && line[|line| - 1] == LF && LF !in line[..|line| - 1]
    ensures ReadBytes(line + rest, end) == Read(line, NoErr)
  {
    if line[0] != LF {
      var tail := line[1..];
      assert tail[..|tail| - 1] == line[..|line| - 1][1..];
      assert (line + rest)[1..] == tail + rest;
      ReadBytesFirstLine(tail, rest, end);
      assert [line[0]] + tail == line;
    }
  }

  /** The handler acts on its first message only: nothing that arrives
      after the first '\n', and not how the stream then ends, changes what
      it does. */
  lemma HandlesOneMessage(line: Bytes, rest1: Bytes, end1: ReadErr, rest2: Bytes, end2: ReadErr)
    requires end1 != NoErr && end2 != NoErr
    requires |line| > 0 && line[|line| - 1] == LF && LF !in line[..|line| - 1]
    ensures HandleConnection(line + rest1, end1) == HandleConnection(line + rest2, end2)
  {
    ReadBytesFirstLine(line, rest1, end1);
    ReadBytesFirstLine(line, rest2, end2);
  }
}
