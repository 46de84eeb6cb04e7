/** The bulk-string codec and the array line decoder of package `resp`.

    A bulk string goes on the wire as its type byte `$`, the payload and the
    delimiter "\r\n" -- there is no length header. An array is read as a
    decimal length line followed by that many item lines, each a bulk string
    in that form. The decoder reads through a line reader that strips each
    line's ending, so it is modelled over the lines such a reader would hand
    back, in order; running off the end of that sequence is the reader's
    error. */
module Resp {
  import opened Wire
  import Strconv

  const MsgDelimiter: Bytes := [CR, LF]
  const ByteBulkString: Byte := Dollar

  /** Size of an encoded bulk string with a payload of `bodyLen` bytes. */
  function MsgLen(bodyLen: int): int {
    1 + bodyLen + |MsgDelimiter|
  }

  /** `TypeBulkString.MarshalBinary`. Its error result is always nil, so the
      model returns the bytes alone. */
  function MarshalBinary(t: Bytes): (data: Bytes)
    ensures |data| == MsgLen(|t|)
    ensures data[0] == ByteBulkString
    ensures data[1..|data| - 2] == t
    ensures data[|data| - 2..] == MsgDelimiter
  {
    [ByteBulkString] + t + MsgDelimiter
  }

  /** `TypeBulkString.UnmarshalBinary`: the payload is everything after the
      type byte, whatever that byte is. Slicing an empty input panics, so
      callers must supply at least one byte; the error result is always nil. */
  function UnmarshalBinary(data: Bytes): (t: Bytes)
    requires |data| > 0
    ensures [data[0]] + t == data
  {
    data[1..]
  }

  /** The line a line reader hands back for `line`: it drops a trailing
      "\r\n" or a bare trailing "\n". */
  function TrimLineEnding(line: Bytes): (r: Bytes)
    ensures r <= line
    ensures r == line || r + [LF] == line || r + MsgDelimiter == line
    ensures r != line ==> line[|line| - 1] == LF
    ensures |line| > 0 && line[|line| - 1] == LF ==> |r| < |line|
    ensures |line| >= 2 && line[|line| - 2..] == MsgDelimiter ==> r + MsgDelimiter == line
  {
    if |line| >= 2 && line[|line| - 2..] == MsgDelimiter then line[..|line| - 2]
    else if |line| >= 1 && line[|line| - 1] == LF then line[..|line| - 1]
    else line
  }

  /** Encoding a bulk string, reading it back as a line and decoding that
      line gives the payload back; the line plus its delimiter is exactly
      the encoded size. */
  lemma BulkStringRoundTrip(t: Bytes)
    ensures |TrimLineEnding(MarshalBinary(t))| > 0
    ensures UnmarshalBinary(TrimLineEnding(MarshalBinary(t))) == t
    ensures |TrimLineEnding(MarshalBinary(t))| + |MsgDelimiter| == MsgLen(|t|)
  {
    var data := MarshalBinary(t);
    assert TrimLineEnding(data) == data[..|data| - 2];
  }

  // ---------------------------------------------------------------------
  // TypeArray.ReadFrom

  datatype ReadError =
    | ReadLength             // no length line
    | ConvertLength          // the length line is not a decimal integer
    | ReadItem               // fewer item lines than the length promised
    | UnknownType(typ: Byte) // an item line not starting with '$'

  datatype Status = Done | Failed(error: ReadError)

  /** What `ReadFrom` leaves behind: the receiver array, the byte count it
      returns and whether it returned an error. */
  datatype ReadResult = ReadResult(elems: seq<Bytes>, nRead: int, status: Status)

  /** The failures that come from running out of input lines. */
  predicate RanOutOfInput(s: Status) {
    s == Failed(ReadLength) || s == Failed(ReadItem)
  }

  predicate StartsBulk(line: Bytes) {
    |line| > 0 && line[0] == ByteBulkString
  }

  /** Bytes counted for the first `n` of `lines` (all of them if there are
      fewer): each line plus a two-byte delimiter. */
  function LinesSize(lines: seq<Bytes>, n: nat): nat {
    if n == 0 || |lines| == 0 then 0
    else |lines[0]| + |MsgDelimiter| + LinesSize(lines[1..], n - 1)
  }

  /** The item loop never indexes an empty line: every line it reaches, up
      to `count` of them and stopping after the first one that is not a bulk
      string, has a first byte. (`rawItem[0]` on an empty line panics.) */
  predicate ItemsIndexable(items: seq<Bytes>, count: nat) {
    count == 0 || |items| == 0 ||
    (|items[0]| > 0 && (items[0][0] != ByteBulkString || ItemsIndexable(items[1..], count - 1)))
  }

  /** `ReadFrom` does not panic on `lines`: a declared length is not negative
      (`make` with a negative capacity panics) and no empty item line is
      reached. */
  predicate CanRead(lines: seq<Bytes>) {
    |lines| == 0 ||
    match Strconv.Atoi(lines[0])
    case None => true
    case Some(n) => n >= 0 && ItemsIndexable(lines[1..], n)
  }

  /** The item loop of `ReadFrom`: reads up to `count` lines from `items`,
      counting each line read plus its delimiter, and decoding each as a bulk
      string until one is not. `ReadItemsElements`, `ReadItemsDone` and
      `ReadItemsFailure` below characterise it. */
  function ReadItems(items: seq<Bytes>, count: nat): (r: ReadResult)
    requires ItemsIndexable(items, count)
    ensures r.status.Failed? ==> r.status.error.ReadItem? || r.status.error.UnknownType?
    decreases count
  {
    if count == 0 then ReadResult([], 0, Done)
    // the reader's error comes with an empty line, yet its delimiter is counted
    else if |items| == 0 then ReadResult([], 0 + |MsgDelimiter|, Failed(ReadItem))
    else
      var line := items[0];
      if line[0] != ByteBulkString then
        ReadResult([], |line| + |MsgDelimiter|, Failed(UnknownType(line[0])))
      else
        var rest := ReadItems(items[1..], count - 1);
        ReadResult([UnmarshalBinary(line)] + rest.elems,
                   |line| + |MsgDelimiter| + rest.nRead, rest.status)
  }

  /** The elements the item loop keeps, whether it completes or fails:
      element `i` is item line `i` minus its `$`. */
  lemma {:induction false} ReadItemsElements(items: seq<Bytes>, count: nat)
    requires ItemsIndexable(items, count)
    ensures var r := ReadItems(items, count);
      && |r.elems| <= count && |r.elems| <= |items|
      && forall i :: 0 <= i < |r.elems| ==>
           StartsBulk(items[i]) && r.elems[i] == UnmarshalBinary(items[i])
    decreases count
  {
    if count > 0 && |items| > 0 && items[0][0] == ByteBulkString {
      ReadItemsElements(items[1..], count - 1);
    }
  }

  /** The item loop completes iff `count` lines are there and all are bulk
      strings; it then holds `count` elements and has counted exactly those
      lines. */
  lemma {:induction false} ReadItemsDone(items: seq<Bytes>, count: nat)
    requires ItemsIndexable(items, count)
    ensures var r := ReadItems(items, count);
      && (r.status == Done <==>
            count <= |items| && forall i :: 0 <= i < count ==> StartsBulk(items[i]))
      && (r.status == Done ==> |r.elems| == count && r.nRead == LinesSize(items, count))
    decreases count
  {
    if count > 0 && |items| > 0 && items[0][0] == ByteBulkString {
      ReadItemsDone(items[1..], count - 1);
    }
  }

  /** How the item loop fails: on a missing line, with every line counted
      plus one delimiter for the line that was never read; or on the first
      line that is not a bulk string, with that line counted and the
      elements before it kept. */
  lemma {:induction false} ReadItemsFailure(items: seq<Bytes>, count: nat)
    requires ItemsIndexable(items, count)
    ensures var r := ReadItems(items, count);
      && (r.status == Failed(ReadItem) ==>
            |r.elems| == |items| < count && r.nRead == LinesSize(items, |items|) + |MsgDelimiter|)
      && (r.status.Failed? && r.status.error.UnknownType? ==>
            var k := |r.elems|;
            && k < count && k < |items|
            && |items[k]| > 0 && items[k][0] == r.status.error.typ != ByteBulkString
            && r.nRead == LinesSize(items, k + 1))
    decreases count
  {
    if count > 0 && |items| > 0 && items[0][0] == ByteBulkString {
      ReadItemsFailure(items[1..], count - 1);
    }
  }

  /** `TypeArray.ReadFrom` over the lines its reader yields. `prior` is the
      receiver's value before the call: the length errors leave it as it was,
      every later path replaces it with the items decoded so far. `nRead`
      counts item lines only, never the length line. */
  function ReadFrom(prior: seq<Bytes>, lines: seq<Bytes>): (r: ReadResult)
    requires CanRead(lines)
    ensures |lines| == 0 ==> r == ReadResult(prior, 0, Failed(ReadLength))
    ensures |lines| > 0 && Strconv.Atoi(lines[0]).None? ==>
              r == ReadResult(prior, 0, Failed(ConvertLength))
    ensures |lines| > 0 && Strconv.Atoi(lines[0]).Some? ==>
              r.status == Done || r.status == Failed(ReadItem) || r.status.error.UnknownType?
    ensures r.status == Done <==>
              && |lines| > 0 && Strconv.Atoi(lines[0]).Some?
              && Strconv.Atoi(lines[0]).value < |lines|
              && forall i :: 1 <= i <= Strconv.Atoi(lines[0]).value ==> StartsBulk(lines[i])
    ensures r.status == Done ==>
              && Strconv.Atoi(lines[0]) == Some(|r.elems|)
              && r.nRead == LinesSize(lines[1..], |r.elems|)
    ensures r.status != Failed(ReadLength) && r.status != Failed(ConvertLength) ==>
              && |r.elems| < |lines|
              && forall i :: 0 <= i < |r.elems| ==>
                   StartsBulk(lines[i + 1]) && r.elems[i] == UnmarshalBinary(lines[i + 1])
    ensures r.status == Failed(ReadItem) ==>
              && |lines| > 0 && Strconv.Atoi(lines[0]).Some?
              && |r.elems| == |lines| - 1 < Strconv.Atoi(lines[0]).value
              && r.nRead == LinesSize(lines[1..], |lines| - 1) + |MsgDelimiter|
    ensures r.status.Failed? && r.status.error.UnknownType? ==>
              var k := |r.elems|;
              && |lines| > 0 && Strconv.Atoi(lines[0]).Some? && k < Strconv.Atoi(lines[0]).value
              && k + 1 < |lines| && |lines[k + 1]| > 0
              && lines[k + 1][0] == r.status.error.typ != ByteBulkString
              && r.nRead == LinesSize(lines[1..], k + 1)
  {
    if |lines| == 0 then ReadResult(prior, 0, Failed(ReadLength))
    else
      match Strconv.Atoi(lines[0])
      case None => ReadResult(prior, 0, Failed(ConvertLength))
      case Some(arrLen) =>
        ReadItemsElements(lines[1..], arrLen);
        ReadItemsDone(lines[1..], arrLen);
        ReadItemsFailure(lines[1..], arrLen);
        ReadItems(lines[1..], arrLen)
  }

  /** The item loop runs out of lines before `count` items, all of them
      bulk strings: it fails with a read-item error. */
  lemma {:induction false} ReadItemsRunsOut(items: seq<Bytes>, count: nat)
    requires ItemsIndexable(items, count)
    requires |items| < count
    requires forall i :: 0 <= i < |items| ==> StartsBulk(items[i])
    ensures ReadItems(items, count).status == Failed(ReadItem)
    decreases count
  {
    if |items| > 0 {
      assert StartsBulk(items[0]);
      forall i | 0 <= i < |items| - 1
        ensures StartsBulk(items[1..][i])
      {
        assert items[1..][i] == items[i + 1];
      }
      ReadItemsRunsOut(items[1..], count - 1);
    }
  }

  /** The item loop reaches a line `k` within `count` that does not start
      with `$`, after bulk-string lines only: it fails with an unknown-type
      error naming that line's first byte. */
  lemma {:induction false} ReadItemsStopsAt(items: seq<Bytes>, count: nat, k: nat)
    requires ItemsIndexable(items, count)
    requires k < count && k < |items|
    requires forall i :: 0 <= i < k ==> StartsBulk(items[i])
    requires |items[k]| > 0 && items[k][0] != ByteBulkString
    ensures ReadItems(items, count).status == Failed(UnknownType(items[k][0]))
    decreases k
  {
    if k > 0 {
      assert StartsBulk(items[0]);
      forall i | 0 <= i < k - 1
        ensures StartsBulk(items[1..][i])
      {
        assert items[1..][i] == items[i + 1];
      }
      ReadItemsStopsAt(items[1..], count - 1, k - 1);
    }
  }

  /** Fewer item lines than the length promises, all of them bulk strings:
      the read fails with a read-item error. */
  lemma TooFewItemsIsReadItem(prior: seq<Bytes>, lines: seq<Bytes>)
    requires CanRead(lines) && |lines| > 0 && Strconv.Atoi(lines[0]).Some?
    requires Strconv.Atoi(lines[0]).value >= |lines|
    requires forall i :: 1 <= i < |lines| ==> StartsBulk(lines[i])
    ensures ReadFrom(prior, lines).status == Failed(ReadItem)
  {
    var items := lines[1..];
    forall i | 0 <= i < |items|
      ensures StartsBulk(items[i])
    {
      assert items[i] == lines[i + 1];
    }
    ReadItemsRunsOut(items, Strconv.Atoi(lines[0]).value);
  }

  /** An item line within the promised count that does not start with `$`,
      after bulk-string lines only: the read fails with an unknown-type
      error naming that line's first byte. */
  lemma NonBulkItemIsUnknownType(prior: seq<Bytes>, lines: seq<Bytes>, k: nat)
    requires CanRead(lines) && |lines| > 0 && Strconv.Atoi(lines[0]).Some?
    requires k < Strconv.Atoi(lines[0]).value && k + 1 < |lines|
    requires forall i :: 1 <= i <= k ==> StartsBulk(lines[i])
    requires |lines[k + 1]| > 0 && lines[k + 1][0] != ByteBulkString
    ensures ReadFrom(prior, lines).status == Failed(UnknownType(lines[k + 1][0]))
  {
    var items := lines[1..];
    forall i | 0 <= i < k
      ensures StartsBulk(items[i])
    {
      assert items[i] == lines[i + 1];
    }
    ReadItemsStopsAt(items, Strconv.Atoi(lines[0]).value, k);
  }

  /** A length line that starts with the array marker `*`, as a complete
      RESP array does, is not a decimal integer: the read fails with nothing
      counted and the receiver untouched. */
  lemma ArrayMarkerLineRejected(prior: seq<Bytes>, lines: seq<Bytes>)
    requires |lines| > 0 && |lines[0]| > 0 && lines[0][0] == Star
    ensures CanRead(lines)
    ensures ReadFrom(prior, lines) == ReadResult(prior, 0, Failed(ConvertLength))
  {
  }

  lemma {:induction false} IndexableIgnoresTrailing(items: seq<Bytes>, extra: seq<Bytes>, count: nat)
    requires ItemsIndexable(items, count)
    requires ReadItems(items, count).status != Failed(ReadItem)
    ensures ItemsIndexable(items + extra, count)
    decreases count
  {
    if count > 0 && |items| > 0 {
      var longer := items + extra;
      assert longer[0] == items[0];
      if items[0][0] == ByteBulkString {
        assert longer[1..] == items[1..] + extra;
        IndexableIgnoresTrailing(items[1..], extra, count - 1);
      }
    }
  }

  lemma {:induction false} ReadItemsIgnoresTrailing(items: seq<Bytes>, extra: seq<Bytes>, count: nat)
    requires ItemsIndexable(items, count) && ItemsIndexable(items + extra, count)
    requires ReadItems(items, count).status != Failed(ReadItem)
    ensures ReadItems(items + extra, count) == ReadItems(items, count)
    decreases count
  {
    if count > 0 && |items| > 0 {
      var longer := items + extra;
      assert longer[0] == items[0];
      if items[0][0] == ByteBulkString {
        assert longer[1..] == items[1..] + extra;
        ReadItemsIgnoresTrailing(items[1..], extra, count - 1);
      }
    }
  }

  /** The result of one `ReadFrom` call depends only on the lines it
      consumes: unless it ran out of input, appending further lines changes
      neither the elements, the count nor the error. (What happens to those
      later lines is another matter: the call's own buffered reader may have
      pulled them off the stream.) */
  lemma ReadFromIgnoresTrailingLines(prior: seq<Bytes>, lines: seq<Bytes>, extra: seq<Bytes>)
    requires CanRead(lines)
    requires !RanOutOfInput(ReadFrom(prior, lines).status)
    ensures CanRead(lines + extra)
    ensures ReadFrom(prior, lines + extra) == ReadFrom(prior, lines)
  {
    assert (lines + extra)[0] == lines[0];
    match Strconv.Atoi(lines[0])
    case None =>
    case Some(n) =>
      assert (lines + extra)[1..] == lines[1..] + extra;
      IndexableIgnoresTrailing(lines[1..], extra, n);
      ReadItemsIgnoresTrailing(lines[1..], extra, n);
  }

  // ---------------------------------------------------------------------
  // The line reader and the round trip

  /** Index of the first '\n' in `b`. */
  function LineEnd(b: Bytes): (k: nat)
    requires LF in b
    ensures k < |b| && b[k] == LF && LF !in b[..k]
  {
    if b[0] == LF then 0
    else
      var k := 1 + LineEnd(b[1..]);
      assert b[..k] == [b[0]] + b[1..][..k - 1];
      k
  }

  /** The lines `textproto.Reader.ReadLine` hands back, one call after
      another, for the bytes `b`: each runs up to the next '\n' and loses its
      "\r\n" or bare "\n"; a last fragment without '\n' comes back as it
      is, and once the bytes are used up every further call fails. The
      model ignores the reader's buffer size: the real reader drops an
      unterminated last fragment whose length is a positive multiple of its
      4096-byte buffer and reports end of stream instead. */
  function SplitLines(b: Bytes): (lines: seq<Bytes>)
    ensures forall i :: 0 <= i < |lines| ==> LF !in lines[i]
    ensures LF !in b ==> lines == (if |b| == 0 then [] else [b])
    decreases |b|
  {
    if |b| == 0 then []
    else if LF !in b then [b]
    else
      var k := LineEnd(b);
      var line := TrimLineEnding(b[..k + 1]);
      assert line <= b[..k];
      [line] + SplitLines(b[k + 1..])
  }

  /** A line reader splits at the first '\n' and starts afresh after it. */
  lemma SplitLinesCons(line: Bytes, rest: Bytes)
    requires LF !in line
    ensures SplitLines(line + [LF] + rest) == [TrimLineEnding(line + [LF])] + SplitLines(rest)
  {
    var b := line + [LF] + rest;
    assert b[|line|] == LF;
    var k := LineEnd(b);
    assert b[..|line|] == line;
    assert k == |line|;
    assert b[..k + 1] == line + [LF];
    assert b[k + 1..] == rest;
  }

  /** One line per bulk string `ts[i]`: its encoding with the line ending
      taken off. Each such line is a bulk-string line that decodes to its
      payload. */
  function EncodeItems(ts: seq<Bytes>): (lines: seq<Bytes>)
    ensures |lines| == |ts|
    ensures forall i :: 0 <= i < |ts| ==> StartsBulk(lines[i]) && UnmarshalBinary(lines[i]) == ts[i]
  {
    if |ts| == 0 then []
    else
      BulkStringRoundTrip(ts[0]);
      [TrimLineEnding(MarshalBinary(ts[0]))] + EncodeItems(ts[1..])
  }

  /** The bytes of bulk strings `ts` encoded back to back. */
  function MarshalAll(ts: seq<Bytes>): Bytes {
    if |ts| == 0 then [] else MarshalBinary(ts[0]) + MarshalAll(ts[1..])
  }

  /** No payload of `ts` contains '\n'. */
  predicate SingleLinePayloads(ts: seq<Bytes>) {
    forall i :: 0 <= i < |ts| ==> LF !in ts[i]
  }

  /** When no payload holds a '\n', a line reader splits encoded bulk
      strings sent back to back into exactly one line per bulk string. */
  lemma {:induction false} SplitMarshalled(ts: seq<Bytes>)
    requires SingleLinePayloads(ts)
    ensures SplitLines(MarshalAll(ts)) == EncodeItems(ts)
  {
    if |ts| > 0 {
      var line := [ByteBulkString] + ts[0] + [CR];
      assert LF !in line;
      assert MarshalAll(ts) == line + [LF] + MarshalAll(ts[1..]);
      assert MarshalBinary(ts[0]) == line + [LF];
      SplitLinesCons(line, MarshalAll(ts[1..]));
      SplitMarshalled(ts[1..]);
    }
  }

  lemma {:induction false} ReadItemsMarshalled(ts: seq<Bytes>)
    ensures ItemsIndexable(EncodeItems(ts), |ts|)
    ensures ReadItems(EncodeItems(ts), |ts|) == ReadResult(ts, |MarshalAll(ts)|, Done)
  {
    if |ts| > 0 {
      var items := EncodeItems(ts);
      BulkStringRoundTrip(ts[0]);
      ReadItemsMarshalled(ts[1..]);
      assert items[1..] == EncodeItems(ts[1..]);
      assert [ts[0]] + ts[1..] == ts;
    }
  }

  /** The bytes of an array of the bulk strings `ts`: the decimal length
      line, then the bulk strings back to back. */
  function ArrayFrame(ts: seq<Bytes>): Bytes {
    Strconv.Itoa(|ts|) + MsgDelimiter + MarshalAll(ts)
  }

  /** A line that ends in "\r\n" and holds no other '\n' comes back from
      the line reader without its delimiter. */
  lemma SplitDelimited(line: Bytes, rest: Bytes)
    requires LF !in line
    ensures SplitLines(line + MsgDelimiter + rest) == [line] + SplitLines(rest)
  {
    assert LF !in line + [CR];
    assert line + MsgDelimiter + rest == (line + [CR]) + [LF] + rest;
    SplitLinesCons(line + [CR], rest);
    assert (line + [CR]) + [LF] == line + MsgDelimiter;
  }

  /** The decimal length line comes back from the line reader as sent. */
  lemma SplitLengthLine(n: nat, rest: Bytes)
    ensures SplitLines(Strconv.Itoa(n) + MsgDelimiter + rest) == [Strconv.Itoa(n)] + SplitLines(rest)
  {
    var len := Strconv.Itoa(n);
    assert forall i :: 0 <= i < |len| ==> IsDigit(len[i]);
    assert LF !in len;
    SplitDelimited(len, rest);
  }

  /** The line reader's lines for an array frame: the length line, then one
      line per bulk string, provided no payload holds a '\n'. */
  lemma SplitFrame(ts: seq<Bytes>)
    requires SingleLinePayloads(ts)
    ensures SplitLines(ArrayFrame(ts)) == [Strconv.Itoa(|ts|)] + EncodeItems(ts)
  {
    SplitLengthLine(|ts|, MarshalAll(ts));
    SplitMarshalled(ts);
  }

  /** Round trip: the line reader's lines for an array of bulk strings
      without '\n' in their payloads read back as exactly those payloads,
      and `nRead` is the number of bytes the bulk strings occupy on the
      wire. */
  lemma ReadFromMarshalled(prior: seq<Bytes>, ts: seq<Bytes>)
    requires |ts| <= Strconv.MaxInt64
    requires SingleLinePayloads(ts)
    ensures CanRead(SplitLines(ArrayFrame(ts)))
    ensures ReadFrom(prior, SplitLines(ArrayFrame(ts))) == ReadResult(ts, |MarshalAll(ts)|, Done)
  {
    SplitFrame(ts);
    var lines := [Strconv.Itoa(|ts|)] + EncodeItems(ts);
    Strconv.AtoiItoa(|ts|);
    assert lines[0] == Strconv.Itoa(|ts|);
    assert lines[1..] == EncodeItems(ts);
    ReadItemsMarshalled(ts);
  }

  /** An array frame read back by the round trip still reads back the
      same with any further lines after it. */
  lemma MarshalledThenMore(prior: seq<Bytes>, ts: seq<Bytes>, extra: seq<Bytes>)
    requires |ts| <= Strconv.MaxInt64
    requires SingleLinePayloads(ts)
    ensures CanRead(SplitLines(ArrayFrame(ts)) + extra)
    ensures ReadFrom(prior, SplitLines(ArrayFrame(ts)) + extra) == ReadResult(ts, |MarshalAll(ts)|, Done)
  {
    ReadFromMarshalled(prior, ts);
    ReadFromIgnoresTrailingLines(prior, SplitLines(ArrayFrame(ts)), extra);
  }

  /** A bulk-string line for `a`, ended by a bare '\n', loses just that
      byte, unless `a` ends in '\r'. */
  lemma TrimBareLf(a: Bytes)
    requires |a| == 0 || a[|a| - 1] != CR
    ensures TrimLineEnding([ByteBulkString] + a + [LF]) == [ByteBulkString] + a
  {
    var l := [ByteBulkString] + a + [LF];
    if |a| == 0 {
      assert l[|l| - 2] == ByteBulkString;
    } else {
      assert l[|l| - 2] == a[|a| - 1];
    }
  }

  /** The line reader splits the encoding of a payload `a + "\n" + b` into
      a bulk-string line for `a` and a stray line `b`. */
  lemma SplitPayloadWithLf(a: Bytes, b: Bytes)
    requires LF !in a && LF !in b
    requires |a| == 0 || a[|a| - 1] != CR
    ensures SplitLines(MarshalBinary(a + [LF] + b)) == [[ByteBulkString] + a, b]
  {
    var first := [ByteBulkString] + a;
    assert LF !in first;
    assert MarshalBinary(a + [LF] + b) == first + [LF] + (b + MsgDelimiter + []);
    SplitLinesCons(first, b + MsgDelimiter + []);
    TrimBareLf(a);
    SplitDelimited(b, []);
  }

  /** An array of one bulk string. */
  lemma SingleFrame(t: Bytes)
    ensures ArrayFrame([t]) == Strconv.Itoa(1) + MsgDelimiter + MarshalBinary(t)
    ensures EncodeItems([t]) == [[ByteBulkString] + t]
    ensures |MarshalAll([t])| == MsgLen(|t|)
  {
    assert [t][1..] == [];
    assert MarshalAll([t]) == MarshalBinary(t);
    assert MarshalBinary(t) == ([ByteBulkString] + t) + MsgDelimiter;
  }

  /** The line reader's lines for an array of one bulk string whose
      payload holds no '\n'. */
  lemma SplitSingleFrame(a: Bytes)
    requires LF !in a
    ensures SplitLines(ArrayFrame([a])) == [Strconv.Itoa(1), [ByteBulkString] + a]
  {
    SingleFrame(a);
    SplitFrame([a]);
  }

  /** A one-element array frame whose payload is `a + "\n" + b` is split by
      the line reader into the length line, a line holding the type byte and
      `a`, and a stray line `b`. */
  lemma SplitCutShort(a: Bytes, b: Bytes)
    requires LF !in a && LF !in b
    requires |a| == 0 || a[|a| - 1] != CR
    ensures SplitLines(ArrayFrame([a + [LF] + b])) ==
            [Strconv.Itoa(1), [ByteBulkString] + a, b]
  {
    var t := a + [LF] + b;
    SingleFrame(t);
    SplitLengthLine(1, MarshalBinary(t));
    SplitPayloadWithLf(a, b);
  }

  /** So the reader sees the frame for `a` alone, followed by one stray line. */
  lemma CutShortFrame(a: Bytes, b: Bytes)
    requires LF !in a && LF !in b
    requires |a| == 0 || a[|a| - 1] != CR
    ensures SplitLines(ArrayFrame([a + [LF] + b])) == SplitLines(ArrayFrame([a])) + [b]
  {
    SplitCutShort(a, b);
    SplitSingleFrame(a);
    assert [Strconv.Itoa(1), [ByteBulkString] + a, b] == [Strconv.Itoa(1), [ByteBulkString] + a] + [b];
  }

  /** The round trip needs payloads without '\n': the format has no length
      header, so a payload `a + "\n" + b` comes back cut short as `a`, with
      no error, and `b` is left as a stray line. */
  lemma NewlineInPayloadCutsItShort(a: Bytes, b: Bytes)
    requires LF !in a && LF !in b
    requires |a| == 0 || a[|a| - 1] != CR
    ensures var lines := SplitLines(ArrayFrame([a + [LF] + b]));
            CanRead(lines) &&
            ReadFrom([], lines) == ReadResult([a], MsgLen(|a|), Done)
  {
    CutShortFrame(a, b);
    MarshalledThenMore([], [a], [b]);
    SingleFrame(a);
  }

}
