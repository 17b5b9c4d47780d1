# tcp2quic relay and option parsing, in Dafny

tcp2quic tunnels TCP connections over QUIC. This project models the two
pieces of it that hold logic of their own:

- **The byte relay** (`relay.dfy`, module `Relay`, from `src/common.rs`).
  `copy_quic_to_tcp` and `copy_tcp_to_quic` each move one direction of a
  tunnelled connection. They read into a fixed 8 KiB buffer with a 1 ms
  timeout and write every non-empty read to the sink at once. They flush
  only when a read times out while the sink is dirty (`need_flush`), or
  when the source ends. After a clean end they shut the sink down (TCP) or
  finish it (QUIC).
  - The source is the sequence of outcomes its reads produce (`ReadEvent`):
    data, end (QUIC `None`), error, or timeout.
  - The sink is a `Sink` object whose `log` records every operation issued
    to it. It refuses the operation issued when its log has length `failAt`.
  - The two copy functions differ, apart from the read's result type and
    the error wrapping, only in their close operation, so both are the one
    method `Copy`, with the direction as a parameter.
  - `Copy` keeps the source's `need_flush` flag and `buf` array. It is
    proved to issue exactly the operations of the specification function
    `Run`, and to return exactly its status. The lemmas about `Run` state
    the flush policy.
- **The command line** (`options.dfy`, module `Options`, from
  `src/main.rs`). This covers the argument-count and mode checks of
  `Config::from_args`, and `parse_config` with its `get_opt!` and
  `has_opt!` lookups over the `;`-separated option string. `split`,
  `split_once`, `trim`, `starts_with` and `find` are written out as
  functions with the contracts that the lookups rely on.

Option keys are matched as the code matches them:
- An option key is matched with `starts_with`, so a segment `snix=bar`
  sets `sni`. It is not matched as the exact key `sni=`.
- Only the first segment that starts with a key is consulted.

## Model

| member | source | states |
|---|---|---|
| Relay.Copy | src/common.rs:58-128 | Both copy loops. The operations issued to the sink, and the status returned, are exactly those of `Run` on the read outcomes. A still-running status means that no outcome has ended the loop yet. |
| Relay.Pump | src/common.rs:66-84 | One pass of the loop: one read into the buffer and the action on its outcome. It leaves the loop exactly on a zero-length read or `None`, and then issues nothing. Otherwise the sink and the status are exactly those of `Step`. |
| Relay.FlushAndClose | src/common.rs:87-91 | After a clean exit, the sink gets one flush if it is still dirty, then its close. A refused flush stops before the close. |
| Relay.ReadInto | src/common.rs:66-68 | A read puts its bytes at the front of the 8 KiB buffer, so `buf[..n]` is exactly what was read. |
| Relay.Sink.WriteAll | src/common.rs:72 | `write_all` appends one write of the given bytes to the log. It fails exactly when it is the refused attempt. |
| Relay.Sink.Flush | src/common.rs:79 | `flush` appends one flush to the log. It fails exactly when it is the refused attempt. |
| Relay.Sink.Shutdown | src/common.rs:90 | `shutdown` appends the TCP close to the log. It fails exactly when it is the refused attempt. |
| Relay.Sink.Finish | src/common.rs:126 | `finish` appends the QUIC close to the log. It fails exactly when it is the refused attempt. |
| Relay.Step | src/common.rs:70-84 | One loop iteration only appends to the sink log and never rewrites what was already issued. It adds at most one operation while the loop goes on, and at most two (flush and close) when it ends. |
| Relay.EndOfStream | src/common.rs:87-91 | The code after the loop always ends the direction. It keeps what was issued and adds one or two operations, none of them a write, and a clean end has the direction's close as the last operation. |
| Relay.Drive | src/common.rs:65-85 | The loop fed a sequence of read outcomes only appends to the log, adds at most one operation per outcome plus one for the close, and never resumes once the direction has returned. |
| Relay.Run | src/common.rs:58-92 | A whole direction issues at most one operation per read outcome, plus one. |
| Relay.RunDisciplined | src/common.rs:71-91 | Every run meets these rules. A flush comes straight after a write, so the relay flushes only while dirty. Every write holds between 1 and BUFFER_SIZE = 8192 bytes. The close is the direction's own close (shutdown or finish), issued at most once, as the last operation, and right after a flush unless nothing else was issued. `need_flush` holds exactly when the last operation was a write. A read error leaves the sink unclosed. The sink refuses an operation exactly when the log has reached attempt `failAt`, and the refused operation is the last one issued. |
| Relay.FlushedBeforeClose | src/common.rs:87-91 | A clean run ends with the close as its only close operation, and that close follows a flush unless it is the only operation. So every write is flushed before the close. |
| Relay.RunDelivers | src/common.rs:71-73 | The bytes written are always a prefix of the bytes read before the source ended. Unless the sink refused an operation, they are exactly those bytes, in order, with nothing dropped or duplicated. |
| Relay.RunEnds | src/common.rs:70-76 | Unless the sink refuses an operation, the loop runs exactly while the source has not ended. It closes cleanly exactly when the source ended with a zero-length read or `None`. It fails with the read's error exactly when the source ended with a read error. |
| Relay.DataWritesOnce | src/common.rs:71-74 | A non-empty read adds exactly one write of its bytes and sets `need_flush`, with no flush. If that write is refused, it is the relay's error. |
| Relay.TimeoutFlushesIfDirty | src/common.rs:77-83 | A timeout while dirty adds exactly one flush and clears `need_flush`. A timeout while clean changes nothing. A timeout never ends the loop unless its flush is refused. |
| Relay.EmptyReadCloses | src/common.rs:75-91 | A zero-length read and `None` both end the loop cleanly. With a sink that refuses nothing, exactly a flush (only if dirty) and then the close are added, and the status is done. |
| Relay.ReadErrorAborts | src/common.rs:76 | A read error returns that error at once. The log is unchanged: no flush and no close. |
| Relay.EndedIsFinal | src/common.rs:75-76 | Once the direction has returned, later read outcomes change nothing. |
| Options.Split | src/main.rs:82 | `split(';')` gives at least one piece. No piece contains the separator, and joining the pieces with it gives back the input. |
| Options.SplitJoin | src/main.rs:82 | Splitting the join of pieces that do not contain the separator gives those pieces back. Split and join are inverse. |
| Options.SplitOnce | src/main.rs:77 | `split_once("=")` fails exactly when there is no `=`. Otherwise the input is the head, `=`, then the tail, and the head has no `=`. |
| Options.TrimBounds | src/main.rs:78 | `trim` keeps one slice. Everything outside it is whitespace, and the slice, unless empty, starts and ends with non-whitespace. |
| Options.TrimSound | src/main.rs:78 | Trimmed text starts and ends with non-whitespace, contains only characters of the input, and is unchanged by a second trim. |
| Options.TrimUnique | src/main.rs:78 | The bounds `trim` keeps are the only ones with whitespace outside them and non-whitespace at both ends of what is kept. |
| Options.FindFirst | src/main.rs:67-76 | `find` returns the first segment that satisfies the predicate, or nothing when no segment does. |
| Options.FindFirstIsFirst | src/main.rs:76 | `find` returns the position of the first segment that satisfies the predicate, whatever the later segments are. |
| Options.Segments | src/main.rs:82 | The segments are the pieces of `split(';')`, one for one, each trimmed. No segment contains `;`, and trimming a segment again changes nothing. |
| Options.OptValue | src/main.rs:77-79 | A segment with no `=` has no value. A value is never empty, has no surrounding whitespace, and holds only characters of its segment. |
| Options.GetOpt | src/main.rs:74-84 | A value found by `get_opt!` is never empty, has no surrounding whitespace and contains no `;`. |
| Options.GetOptFirstMatch | src/main.rs:76-79 | The first trimmed segment that starts with the key alone decides the lookup: its value or nothing. Later segments with the same key are not consulted. |
| Options.GetOptNothing | src/main.rs:76-79 | The lookup yields nothing exactly when no segment starts with the key or the first one that does has no value (`sni;sni=foo`, `sni=` and `sni= ` all give `sni` nothing). |
| Options.OptValueAfterFirstEquals | src/main.rs:77-79 | The value is the trimmed text after the first `=`, so later `=` characters stay in it. A blank value counts as absent. |
| Options.GetOptFirstSegment | src/main.rs:74-84 | When the first segment starts with the key, it decides the lookup whatever follows it. |
| Options.BareKeyHidesLaterValue | src/main.rs:76-79 | A bare key in the first segment makes the lookup yield nothing, even if a later segment gives the key a value (`sni;sni=foo` gives `sni` no value). |
| Options.GetOptKeyValue | src/main.rs:76-79 | A lone `key=value` segment gives any prefix of the key the trimmed value, whatever whitespace surrounds it (`snix=bar ` sets `sni` to `bar`). Everything after the first `=` is the value (`sni=a=b` gives `a=b`). A blank value counts as absent. |
| Options.HasOpt | src/main.rs:65-72 | `has_opt!` holds exactly when some trimmed segment equals the name. |
| Options.Hostname | src/main.rs:88-91 | The host name is never empty, has no surrounding whitespace and contains no `;`. |
| Options.HostnameFromSni | src/main.rs:88 | When the first segment starting with `sni` has a value, that value is the host name. |
| Options.HostnameFromServername | src/main.rs:89 | When `sni` yields nothing, the value of the first segment starting with `servername` is the host name. |
| Options.HostnameDefault | src/main.rs:88-90 | When neither `sni` nor `servername` yields a value, the host name is `localhost`. That is, for each key, no segment starts with it or the first that does has no value (`sni;sni=foo` gives `localhost`). |
| Options.ParseConfig | src/main.rs:87-96 | `parse_config` is total. Its host name is never empty and never padded with whitespace. `insecure` holds exactly when some trimmed segment is exactly `insecure`. |
| Options.ParseMode | src/main.rs:35-42 | `-s` and `-c` are the only accepted modes. Each maps to the mode whose flag it is (`-s` to server, `-c` to client). |
| Options.FromArgs | src/main.rs:29-61 | The arguments are accepted exactly when there are five of them and the mode is `-s` or `-c`. An accepted configuration has the mode of that flag, the two addresses as given, and the host name and `insecure` flag of `parse_config` on the fifth argument. |

## Left out

- Real time. The 1 ms timeout (`FLUSH_TIMEOUT_MS`) is the read outcome `Timeout`, and no clock is modelled.
- The race between the two directions (`tokio::select!` in `src/client.rs` and `src/server.rs`), and the cancellation of the losing direction. These are concurrency, and each `Copy` models one direction alone.
- Partial effects of a failed write. A refused `write_all` is logged as one write of the whole buffer prefix. How many of its bytes reached the peer is not modelled.
- Error values. A read error is an integer code in the model. The wrapping with `std::io::Error::other` in `copy_quic_to_tcp` is not modelled.
- The end of the source. A finite sequence of read outcomes with no end in it leaves `Copy` returning `Running`, where the source would wait for more reads.
- Relay.EmptyReadCloses: states the clean-end path only for a sink that refuses nothing. Refusals on that path are covered by `Relay.RunDisciplined`.
- Address resolution. `to_socket_addrs` is a DNS/OS call, so `Options.FromArgs` keeps both addresses as their argument text, and the panic on an invalid address is not modelled.
- Process side effects. Printing the usage text and `exit(1)` become the result `UsageError`, and the async `main` is not part of this model.
- `generate_certificate`, `create_transport_config` and `to_invalid_input_error` in `src/common.rs`. They are certificate generation, fixed transport settings, and error wrapping, with no logic to model.
- `src/client.rs` and `src/server.rs`. These are QUIC/TLS endpoint setup, 0-RTT negotiation and accept loops over network I/O. They are not part of this model.
