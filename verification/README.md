# A model of a minimal RESP-style PING server in Dafny

The Go program is a small server for a Redis-like protocol. It has three pieces with checkable behaviour, and this project models each as written:

- **The bulk-string codec and array line decoder** (`resp` package, `resp.dfy`).
  - `TypeBulkString.MarshalBinary` writes `$`, the payload, then `"\r\n"`. There is no `$<len>` header.
  - `UnmarshalBinary` drops the first byte.
  - `TypeArray.ReadFrom` reads a decimal length line, then that many item lines. Each item line must start with `$`, and each is stored without that byte.
  - `ReadFrom` reads through a line reader that strips line endings. It is therefore modelled as a pure function over the sequence of lines that reader would yield. Running off the end of the sequence is the reader's error.
  - `SplitLines` models how that reader cuts bytes into lines: at every `'\n'`, dropping a `"\r\n"` or bare `"\n"` ending. The round trip is stated over `SplitLines` of the encoded bytes.
  - Encoded bulk strings read back unchanged only when no payload contains `'\n'`. The format has no `$<len>` header, so a `'\n'` inside a payload ends the line early. The payload then comes back cut short, with no error (`Resp.NewlineInPayloadCutsItShort`).
  - The receiver's previous value is a parameter. This makes it visible that the length errors leave the array untouched, while later errors leave the items decoded so far.
  - Runtime panics become preconditions (`CanRead`, `UnmarshalBinary`): a negative length, an empty item line that gets indexed, and an empty input to `UnmarshalBinary`.
  - `strconv.Atoi` is modelled for a 64-bit `int` (`strconv.dfy`). It accepts an optional `+` or `-` and leading zeros, and rejects values outside the `int64` range.
- **The per-connection gate** (`qulifi` package, `server.dfy`).
  - The handler reads one `'\n'`-terminated message. It closes without replying on a read error other than end of stream, on a message shorter than 3 bytes, or on a message that does not end in `"\r\n"`. Otherwise it writes `"+PONG\r\n"` and closes.
  - The read is modelled by the buffered reader's contract: the error is nil exactly when the bytes returned end in `'\n'`.
  - The connection's bytes and how the stream ends are parameters.
- **The in-memory store** (`inmem` package, `inmem.dfy`).
  - `Get` and `Set` work over an immutable map. A miss gives `ErrNotFound`.
  - The mutex makes each call atomic, so a sequential model is exact.

`wire.dfy` holds the byte type and the ASCII constants shared by all three.

Two points where the code behaves in a way a reader might not expect, both kept as written:

- When an item line is missing, `ReadFrom`'s byte count still includes two delimiter bytes for the line that was never read (resp.go:79).
- The count never includes the length line.

## Model

| member | source | states |
|---|---|---|
| Strconv.Atoi | app/internal/resp/resp.go:69-72 | a length line converts only if it is an optional sign followed by at least one decimal digit, with a value inside the 64-bit `int` range; a negative value needs a leading `-`; a line whose first byte is neither a digit nor a sign never converts |
| Strconv.AtoiItoa | app/internal/resp/resp.go:69-72 | the length conversion reads back the decimal text of every number from 0 to the largest `int` |
| Strconv.AtoiSigned | app/internal/resp/resp.go:69-72 | conversely, an optional `+` or `-` followed by one or more decimal digits always converts: to the signed value of the digits if it lies in the 64-bit range, and to a range error otherwise |
| Strconv.AtoiNegative | app/internal/resp/resp.go:69-72 | a `-` before the decimal text of any magnitude up to 2^63 converts to its negation, so the smallest `int64` is accepted |
| Strconv.AtoiPlus | app/internal/resp/resp.go:69-72 | a `+` before the decimal text of any `int` converts to that same value |
| Strconv.AtoiOutOfRange | app/internal/resp/resp.go:69-72 | decimal text above the largest `int` fails to convert with or without `+`; with `-`, it fails above 2^63 |
| Strconv.AtoiLeadingZeros | app/internal/resp/resp.go:69-72 | leading zeros after an optional sign never change the result of the conversion, whether a value or a range error |
| Resp.MarshalBinary | app/internal/resp/resp.go:105-116 | the encoding is the `$` type byte, then exactly the payload, then `"\r\n"`; its length is `msgLen(len(t))`, i.e. the buffer capacity the code reserves is exact; no error case exists |
| Resp.UnmarshalBinary | app/internal/resp/resp.go:99-103 | requires a non-empty input (slicing an empty one panics); the input's first byte followed by the decoded value is the input, so any first byte is accepted and dropped; no error case exists |
| Resp.TrimLineEnding | app/internal/resp/resp.go:63-64 | the line the reader returns is a prefix of the raw line: the raw line is the returned line plus nothing, a bare `'\n'`, or `"\r\n"`; exactly `"\r\n"` is removed when the raw line ends in it, a raw line ending in `'\n'` always loses it, and nothing is removed otherwise |
| Resp.BulkStringRoundTrip | app/internal/resp/resp.go:99-116 | decoding the encoded bulk string, once the line reader has stripped its `"\r\n"`, gives the payload back; the line plus delimiter is `msgLen` bytes |
| Resp.ReadItems | app/internal/resp/resp.go:76-94 | the item loop only ever fails with a read-item or an unknown-type error |
| Resp.ReadItemsElements | app/internal/resp/resp.go:76-94 | on every path the loop keeps at most `count` elements, and element `i` is item line `i` (which starts with `$`) minus its first byte |
| Resp.ReadItemsDone | app/internal/resp/resp.go:76-96 | the loop completes iff at least `count` lines are present and the first `count` all start with `$`; it then holds exactly `count` elements, and the count is each of those lines plus 2 bytes |
| Resp.ReadItemsFailure | app/internal/resp/resp.go:76-92 | a missing line fails with a read-item error after every line present became an element, counting them plus 2 bytes for the line never read; a line not starting with `$` fails with an unknown-type error naming its first byte, after the elements before it, counting the lines up to and including it |
| Resp.ReadFrom | app/internal/resp/resp.go:62-97 | a missing length line or one that does not convert fails with count 0 and the receiver untouched; once the length converts, the only outcomes are success, a read-item error and an unknown-type error; success holds iff that many item lines follow and all start with `$`; then there are exactly `arrLen` elements, element `i` is item line `i` minus its first byte, and the count is the sum of each item line plus 2, without the length line; a read-item failure counts every item line plus 2; an unknown-type failure names the offending line's first byte and counts up to and including it; both keep the earlier elements |
| Resp.ReadItemsRunsOut | app/internal/resp/resp.go:76-91 | an item loop that runs out of lines before `count` items, all of them bulk strings, fails with a read-item error |
| Resp.ReadItemsStopsAt | app/internal/resp/resp.go:76-93 | an item loop that reaches a line within `count` not starting with `$`, after bulk-string lines only, fails with an unknown-type error naming that line's first byte |
| Resp.TooFewItemsIsReadItem | app/internal/resp/resp.go:62-97 | a converted length larger than the number of item lines that follow, all bulk strings, gives a read-item error |
| Resp.NonBulkItemIsUnknownType | app/internal/resp/resp.go:62-97 | the first item line within the declared length that does not start with `$` gives an unknown-type error naming its first byte |
| Resp.ArrayMarkerLineRejected | app/internal/resp/resp.go:64-72 | a first line beginning with the array marker `*`, as a full RESP frame has, fails length conversion with count 0 and the receiver untouched |
| Resp.IndexableIgnoresTrailing | app/internal/resp/resp.go:76-94 | unless the item loop ran out of lines, appending lines adds no empty line to those it indexes |
| Resp.ReadItemsIgnoresTrailing | app/internal/resp/resp.go:76-94 | unless the item loop ran out of lines, lines after the ones it read do not affect it |
| Resp.ReadFromIgnoresTrailingLines | app/internal/resp/resp.go:62-97 | unless the read ran out of input, appending more lines changes neither this call's elements, nor its count, nor its error |
| Resp.SplitLines | app/internal/resp/resp.go:63-64 | the lines a line reader returns for a byte stream never contain `'\n'`; bytes with no `'\n'` come back as one line, or as no line at all when there are none (ignoring the buffer-size case under "## Left out") |
| Resp.SplitLinesCons | app/internal/resp/resp.go:63-64 | the reader ends the first line at the first `'\n'`, strips its ending, and splits the rest of the stream independently |
| Resp.SplitDelimited | app/internal/resp/resp.go:63-64 | a line with no other `'\n'` that is sent with `"\r\n"` comes back exactly as sent |
| Resp.SplitLengthLine | app/internal/resp/resp.go:63-64 | the decimal length line, sent with `"\r\n"`, comes back from the reader as sent, and the rest of the stream is split independently |
| Resp.EncodeItems | app/internal/resp/resp.go:99-111 | there is one item line per bulk string; each starts with `$` and decodes to its payload |
| Resp.SplitMarshalled | app/internal/resp/resp.go:63-64 | bulk strings sent back to back, with no `'\n'` in any payload, are split by the reader into exactly their item lines, one per bulk string |
| Resp.SplitFrame | app/internal/resp/resp.go:63-77 | the reader's lines for a decimal length line followed by such bulk strings are the length line, then one item line per bulk string |
| Resp.SingleFrame | app/internal/resp/resp.go:105-116 | an array of one bulk string is the length line `1`, `"\r\n"` and that bulk string's encoding; its item line is `$` plus the payload, and it takes `msgLen` bytes |
| Resp.SplitSingleFrame | app/internal/resp/resp.go:63-77 | the reader's lines for an array of one LF-free bulk string are the length line `1` and the item line `$` plus the payload |
| Resp.ReadItemsMarshalled | app/internal/resp/resp.go:76-111 | item lines that are bulk-string encodings with their line endings removed are read back by the item loop as exactly those payloads; the count is their encoded byte size |
| Resp.ReadFromMarshalled | app/internal/resp/resp.go:62-111 | for payloads with no `'\n'`, the reader's lines for a decimal length line followed by the encoded bulk strings are read back as exactly those payloads, and the count is the bytes the bulk strings occupy on the wire |
| Resp.MarshalledThenMore | app/internal/resp/resp.go:62-97 | an array frame that reads back by the round trip reads back the same with any further lines after it |
| Resp.TrimBareLf | app/internal/resp/resp.go:63-64 | a bulk-string line ended by a bare `'\n'` loses only that byte, unless the payload ends in `'\r'` |
| Resp.SplitPayloadWithLf | app/internal/resp/resp.go:63-64 | the reader splits the encoding of a payload `a + "\n" + b` into a bulk-string line for `a` and a stray line `b` |
| Resp.SplitCutShort | app/internal/resp/resp.go:63-77 | a one-element array whose payload is `a + "\n" + b` is split into the length line, a bulk-string line for `a`, and a stray line `b` |
| Resp.CutShortFrame | app/internal/resp/resp.go:63-77 | the reader sees that frame as the frame for `a` alone, followed by one stray line `b` |
| Resp.NewlineInPayloadCutsItShort | app/internal/resp/resp.go:62-111 | such an array reads back without error as the single element `a`, and the count is the encoded size of `a`; the rest of the payload is lost |
| Qulifi.ReadBytes | app/internal/qulifi/server.go:78 | the read returns a prefix of the pending bytes; the error is nil iff a `'\n'` is pending, and then the bytes end at the first `'\n'`; otherwise it returns all pending bytes with the stream's end-of-stream or I/O error, so they never end in `'\n'` |
| Qulifi.ValidateEnding | app/internal/qulifi/server.go:110-114 | requires at least two bytes (the slice panics otherwise); true iff the last two bytes are `'\r','\n'` |
| Qulifi.DelimitedIsValid | app/internal/qulifi/server.go:110-114 | every body followed by `"\r\n"` passes the check |
| Qulifi.ValidIsDelimited | app/internal/qulifi/server.go:110-114 | every message that passes the check is its first `len-2` bytes followed by `"\r\n"` |
| Qulifi.Classify | app/internal/qulifi/server.go:77-107 | the only outcomes are closing without a reply or one write of `"+PONG\r\n"` and then closing; PONG iff the read error is not an I/O error and the message has at least 3 bytes and ends in `"\r\n"`, whatever else it contains |
| Qulifi.HandleConnection | app/internal/qulifi/server.go:77-107 | for a connection that sends a `'\n'` or ends (end of stream or an I/O error), there is one outcome and at most one PONG; a connection that ends or fails before its first `'\n'` is never answered |
| Qulifi.PongIffFirstLineEndsInCrlf | app/internal/qulifi/server.go:77-114 | PONG is written iff the connection's first `'\n'` is at an index of at least 2 and is preceded by `'\r'` |
| Qulifi.ReadBytesFirstLine | app/internal/qulifi/server.go:78 | a read on a stream that begins with a `'\n'`-terminated line returns exactly that line with no error |
| Qulifi.HandlesOneMessage | app/internal/qulifi/server.go:77-107 | what the handler does depends only on the first line: later bytes and the way the stream ends make no difference |
| Inmem.Get | app/internal/inmem/inmem.go:8-23 | `ErrNotFound` iff the key is absent, otherwise the stored value; the store is passed by value and not returned, so `Get` cannot change it |
| Inmem.Set | app/internal/inmem/inmem.go:25-30 | afterwards `Get` of the key returns the new value, `Get` of every other key is unchanged, and the key set grows by exactly that key; no error case exists |
| Inmem.SetOverwrites | app/internal/inmem/inmem.go:25-30 | setting a key twice leaves the same store as setting it once to the second value |
| Inmem.GetAfterWrites | app/internal/inmem/inmem.go:15-30 | after any serialised sequence of writes, `Get` returns the last value written to the key, or the earlier contents if the key was never written |
| Inmem.NeverSetIsNotFound | app/internal/inmem/inmem.go:8-23 | in a store that started empty, a key no write touched gives `ErrNotFound` |
| Inmem.NoWriteNoLast | app/internal/inmem/inmem.go:25-30 | a sequence of writes none of which names the key has no last write for it |

## Left out

- Networking and process setup are not modelled because they are I/O. This covers `Listen`, `ListenAndServe`, the accept loop, the goroutine per connection, `app/main.go` and `app/server.go`.
- The connection ID carried in the context is not modelled. This includes the handler's early return when that ID is missing (server.go:66-71).
- Logging is not modelled, including the log line of each accepted message.
- The store's mutex is not modelled. It only serialises calls, and the model's calls are sequential.
- Resp.SplitLines: ignores the reader's 4096-byte buffer. The source's reader (resp.go:63) drops an unterminated last fragment whose length is a positive multiple of 4096 and reports end of stream. `ReadFrom` then fails with a read-length or read-item error, where the model reads that fragment as a line. Lines ended by `'\n'` are not affected, so the round-trip lemmas are unaffected.
- Buffering in `bufio` and `textproto` is not modelled. `ReadFrom` works on the lines `SplitLines` cuts, and any reader error is treated like the end of the lines. Like the source, the count charges 2 delimiter bytes per line, even for a line that ended in a bare `'\n'` or in no delimiter.
- Read-ahead is not modelled. Each `ReadFrom` call wraps its reader in a fresh `bufio.Reader` (resp.go:63), which may pull bytes past the lines the call consumes. Those bytes are lost to the underlying reader when the call returns. `Resp.ReadFromIgnoresTrailingLines` is only about the result of one call, not about what is left on the stream.
- Resp.ReadFromMarshalled: the round trip holds only for payloads with no `'\n'`, because the format cannot carry one (see `Resp.NewlineInPayloadCutsItShort`).
- Resp.ReadFrom: treats every non-negative declared length as allocatable. It does not model the `makeslice` panic for capacities beyond the address-space limit, nor allocation failure for very large lengths.
- Resp.ReadFrom: models the receiver's elements as bulk-string payloads. That is the only type it stores, and its earlier contents are opaque to it.
- Resp.ReadFrom: uses an unbounded `int` for the count. The source's `int64` can only overflow past 2^63 bytes of input.
- The error branch after `UnmarshalBinary` (resp.go:87-89) has no error tag. It is unreachable, because `UnmarshalBinary` always returns nil.
- The unused RESP type tags and type aliases (resp.go:16-60) are not modelled, because no code reads or writes them. This includes the float, big-integer and map types and the `CmdEcho`/`CmdPing` constants.
- SET/GET/ECHO dispatch and standard `$<len>` bulk-string framing are not modelled, because neither exists in this code.
- Qulifi.HandleConnection: does not tell apart a PONG write that fails from one that succeeds. Both paths close the connection right after the write (server.go:102-106).
- Qulifi.HandleConnection: covers only connections that eventually deliver a `'\n'` or end. The read at server.go:78 has no deadline, so a peer that neither sends `'\n'` nor closes blocks the handler forever. The model has no outcome for that case.
- Inmem.Set: assumes the store's map is allocated. `inmem.New` is not part of this model, and on a zero `Store{}` with a nil map `Set` would panic.
- The repository's tests expect behaviour this code does not have, so they are not encoded as properties:
  - resp_test.go:18-36 sends a leading `*2` line, which fails length conversion (see `Resp.ArrayMarkerLineRejected`).
  - server_test.go:17-43 uses constructors and a `"$2\r\nOK\r\n"` reply that do not exist in server.go.
