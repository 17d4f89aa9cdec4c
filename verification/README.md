# HTTP request framer of an ESP32-C6 LED server, in Dafny

This project models the network core of a small firmware (`src/main.rs`) that
joins a Wi-Fi network, answers HTTP on port 80 and switches an LED when it
receives `led=on` or `led=off` in a POST body. The model covers:

- **the request framer** (`TcpConnection::handler` and `reset`). Each connection
  owns a 1024-byte buffer and a cursor `buffer_index`. A call re-listens on a
  socket that is not open, which empties its queues. It then appends whatever can be received at the
  cursor and parses the head. It reads `Content-Length` and waits until the
  head and the declared body are in. Then it answers `/` with a 200 status
  line and the page, or any other path with a 404 status line. It passes the
  body to the POST handler only for a POST to `/`, then resets the cursor and
  closes the socket;
- **the POST handler** (the closure at lines 106-114), which matches the body
  byte for byte against `led=on` / `led=off`;
- **`dhcp_handler`**, which sets the interface's address list and default route
  from the DHCP client's event;
- **the main loop's link-loss step**, which resets the DHCP socket and every
  connection, together with one loop iteration that ties the parts together.

Modules, one per component:

| file | module | what |
|---|---|---|
| base.dfy | `Base` | `Option`, bytes, ASCII text as bytes |
| decimal.dfy | `Decimal` | `str::parse::<usize>()` on the 32-bit target, and decimal rendering |
| http.dfy | `Http` | the parsed request head, the parser's contract, `Content-Length` extraction |
| tcp.dfy | `Tcp` | the TCP socket as the framer sees it |
| framer.dfy | `Framer` | `TcpConnection`, `reset`, `handler` |
| framer_lemmas.dfy | `FramerLemmas` | stale bytes, reset, full buffer |
| fragmentation.dfy | `Fragmentation` | delivery in segments versus in one piece |
| command.dfy | `Command` | the POST handler and the LED pin |
| dhcp.dfy | `Dhcp` | `dhcp_handler` |
| firmware.dfy | `Firmware` | device state, link-loss reset, one loop iteration |

Collaborators the core calls but does not own are parameters of the model:

- The HTTP head parser (the `httparse` crate) is a function value
  `parse: seq<bv8> -> ParseStatus`. `Partial` and every error are told apart
  from `Complete`, which carries the head length, method, path and headers.
- The bundled page (`include_bytes!("index.html")`) is the byte sequence `page`.
- The network stack's `interface.poll` is a function value `poll` over the
  socket set.
- The DHCP socket's `poll()` result is the parameter `event`.

The handler itself needs nothing of the parser. Its completion test
`head_len + content_length <= buffer_index` already keeps the body slice inside
the received bytes. The fragmentation results assume two things of the parser
(`Http.ParserContract`): the head it reports lies inside the input, and once a
prefix parses as complete, every extension parses the same way.

Three behaviours of the code that are easy to misread:

- A parse error is treated exactly like an incomplete head (lines 187-191).
  The call returns with no reset and no response, and the same bytes are
  parsed again on later calls.
- When the buffer is full, `recv_slice` receives into an empty slice and takes
  nothing (lines 177-179). A request that does not fit therefore stalls the
  connection until the peer or the network stack closes it; no explicit reset
  happens (`FramerLemmas.FullBufferStalls`). The socket's 500 ms timeout does
  not help while the peer keeps acknowledging keep-alives.
- A `Content-Length` header whose value does not parse is skipped, so an
  earlier valid value survives (lines 195-201, `Http.ContentLengthIsLastDeclared`).

The socket is modelled in all eleven states of smoltcp's TCP state machine, as
far as the framer's calls depend on them: `is_open()` is false in CLOSED and
TIME-WAIT; `may_send()` holds only in ESTABLISHED and CLOSE-WAIT; `close()` on
an established socket leads to FIN-WAIT-1, where it is still open and still
receives; `listen()` resets the socket, emptying both queues; `abort()` only
closes it.

## Model

| member | source | states |
|---|---|---|
| Framer.Handler | src/main.rs:167-228 | The cursor stays within the 1024-byte buffer and the connection keeps its socket. A socket that is not open is re-listened on port 80, which empties its queues, so the call ends there with the cursor at 0. An open socket with nothing waiting is left alone. While the head is incomplete, the parser reports an error, or the body is short, nothing is sent and the POST handler is not called; only the received bytes and the cursor advance. A complete request to `/` queues the 200 line then the page, and calls the POST handler once with bytes `[head_len, head_len + content_length)` exactly when the method is POST. Any other path queues only the 404 line and never calls it. Afterwards the cursor is 0 and `close()` has been applied. The sends happen only on a socket that may send; the code as written halts instead (see Findings). |
| Framer.Reset | src/main.rs:163-166 | The socket is aborted (no longer open) and the cursor is 0; the buffer and the socket's queues are otherwise untouched. |
| Framer.Relisten | src/main.rs:168-172 | A socket that is not open is reset and set listening on port 80, with both queues empty, and the cursor goes to 0; an open socket and its connection are left as they are. |
| Framer.Receive | src/main.rs:177-179 | `min(waiting, 1024 - cursor)` bytes are taken from the socket and appended to the received bytes. The cursor advances by exactly that many. The buffer beyond the new cursor and the socket's other fields are unchanged. |
| FramerLemmas.StaleBytesIgnored | src/main.rs:186 | Two connections that received the same bytes behave the same on the same socket, whatever else their buffers hold, because only `buffer[..buffer_index]` is parsed. |
| FramerLemmas.ResetLeavesNoResidue | src/main.rs:163-172 | After `reset`, the next call re-listens on port 80 with both queues empty and the cursor at 0: it sends nothing and calls no POST handler, whatever the interrupted request had left in the socket or the buffer. |
| FramerLemmas.FullBufferStalls | src/main.rs:177-178 | With the buffer full and no complete request in it, a call changes nothing: it reads no bytes, sends nothing and calls no handler. |
| Fragmentation.FragmentationInvariant | src/main.rs:180-206 | However a single request of at most 1024 bytes is split into segments, one poll per segment ends in the same connection, socket and POST-handler calls as delivering it in one segment. Completion depends only on `buffer_index >= head_len + content_length`. |
| Fragmentation.DeliveredRequestAnswered | src/main.rs:186-227 | A non-empty request delivered in any split is answered once: 200 line and page for `/`, and one POST-handler call with the body for a POST there; otherwise the 404 line and no call. The cursor ends at 0 and the socket in FIN-WAIT-1. |
| Fragmentation.PrefixIncomplete | src/main.rs:203-206 | No proper prefix of a single request counts as complete, so no partial delivery triggers a response. |
| Http.ContentLengthIsLastDeclared | src/main.rs:193-202 | The body length is the value of the last header named exactly `Content-Length` whose value parses as a `usize`. Headers that do not parse are skipped. With none, the length is 0. It never exceeds `usize::MAX`. |
| Http.ContentLengthAppend | src/main.rs:195-201 | One more header replaces the length so far when it declares a valid one, and leaves it unchanged otherwise. |
| Decimal.ParseUsize | src/main.rs:197-198 | Every accepted header value is an optional `+`, then leading zeros, then the canonical decimal rendering of the value returned, which is at most `usize::MAX` (2^32 - 1 on this target). With `ParseRender` and `ParseSignedRender` this is exactly the language accepted. |
| Decimal.ParseRender | src/main.rs:198 | Round trip: every `usize` value written in decimal, with any number of leading zeros, parses back to itself. |
| Decimal.ParseSignedRender | src/main.rs:198 | The same with a leading `+`, which is accepted and ignored. |
| Decimal.ParseRejectsOverflow | src/main.rs:198 | A decimal value above `usize::MAX`, with or without sign and leading zeros, is rejected, so such a header is skipped rather than wrapped. |
| Command.Classify | src/main.rs:106-114 | A body is `SetHigh` exactly when it is `led=on` and `SetLow` exactly when it is `led=off`; everything else is unrecognised. |
| Command.OnPost | src/main.rs:106-114 | One POST-handler call: `led=on` leaves the pin high, `led=off` low, any other body leaves the pin as it was. |
| Command.OnPostsIsLastCommand | src/main.rs:105-115 | After several POST bodies the pin is set by the last recognised command; with none it keeps its level. |
| Dhcp.Handle | src/main.rs:119-143 | No event leaves the interface unchanged. `Configured(a, Some r)` yields address list exactly `[a]` and default route `r`. `Configured(a, None)` yields `[a]` and no default route. `Deconfigured` yields no addresses and no default route. |
| Dhcp.HandleIdempotent | src/main.rs:119-143 | Handling the same event twice is the same as handling it once. |
| Dhcp.HandleForgetsHistory | src/main.rs:125-141 | Each event fixes the addressing completely (clear, then set), so the prior interface state does not matter. |
| Firmware.ResetAll | src/main.rs:80-82 | Every connection, in slot order, is reset with `reset`, and the slot count is unchanged. |
| Firmware.LinkLoss | src/main.rs:78-82 | On link loss the DHCP socket restarts discovery. Every connection's socket is aborted and its cursor is 0, with handles kept. The addresses and the LED are untouched, and the device invariant is kept. |
| Firmware.LinkLossLeavesNoResidue | src/main.rs:78-115 | In an iteration that starts with the link down, provided the stack's tick does not revive closed sockets, every connection ends listening on port 80 with both queues empty and its cursor at 0. Nothing is sent, no POST handler runs and the LED keeps its level. |
| Framer.HandlerAsWritten | src/main.rs:215-227 | The code as written halts exactly when a complete request reaches the sends on a socket that may not send. In every other case it returns what `Framer.Handler` returns. |
| FramerLemmas.PipelinedRequestHalts | src/main.rs:215-227 | A `GET /` answered on an established socket leaves it open in FIN-WAIT-1. A second `GET /` arriving in a later segment then halts the code as written. The corrected handler answers it without sending. |
| Firmware.ServeAll | src/main.rs:105-115 | Each slot ends exactly as its own `handler` call leaves it, so connections do not interfere. The LED ends as the POST handler leaves it after this pass's bodies, taken in slot order. |
| Firmware.Iteration | src/main.rs:76-116 | One loop iteration keeps the device invariant: three slots, each cursor within its buffer, each slot bound to its socket handle. The interface's addressing reflects the DHCP event, if there was one. |

## Left out

- Hardware and platform bring-up (lines 16-45): clock, heap, GPIO and timer set-up, RTOS start, radio initialisation and the Wi-Fi credentials. These are driver calls.
- The reconnect busy-wait (lines 83-88) runs until the radio reports a connection and does not terminate by design. `Firmware.Iteration` models only the resets before it and then continues as if the link were up.
- The network stack's tick (lines 92-100) and everything inside smoltcp beyond the calls the framer makes are not modelled. This covers segment processing and state transitions, draining of the transmit queue, the 500 ms timeout and 100 ms keep-alive (lines 70-71), and the DHCP client's own state machine. The tick is the parameter `poll`.
- The socket set's construction (lines 57-73) appears only as the device invariant: three TCP slots bound to handles 1-3 after the DHCP socket.
- The `httparse` parser's internals, including its limit of 64 headers, sit inside the parser parameter. An overfull header list is one of its errors.
- The bundled `index.html` page is the parameter `page`.
- Logging (`print!`/`println!`), including the UTF-8 rendering of the body at lines 209-214, has no effect on state.
- `core::str::from_utf8` on a header value is not modelled separately. Every text `usize` parsing accepts is ASCII, so it never changes the outcome.
- `recv_slice`'s error result is not modelled. It cannot occur when `can_recv()` holds, which the code checks first.
- The `unwrap()` on `listen` (line 171) cannot fail, since the socket is not open and the port is not 0. The DHCP address push is not modelled as failing.
- Framer.Handler: `send_slice` is modelled as accepting the whole slice. In the code it may accept fewer bytes when the 1024-byte transmit buffer is full, and the count it returns is ignored.
- Framer.Handler: `head_len + content_length` is unbounded here. In the code it is a 32-bit `usize` sum, which can overflow for a declared length near `usize::MAX` (the length itself never exceeds it, `Http.ScanBounded`).

## Findings

| source | as written | input that shows it | evidently intended | confidence | as-written member | corrected member |
|---|---|---|---|---|---|---|
| src/main.rs:215-227 | `send_slice(..).unwrap()` is called on any open socket holding a complete request. `send_slice` fails unless the socket is in ESTABLISHED or CLOSE-WAIT, so the `unwrap()` halts the device. | A `GET /` is answered and `close()` moves the socket to FIN-WAIT-1. The client then sends a second `GET /` in a later segment; the next call finds it complete and the first send fails. | The handler never halts: a refused send is skipped, and the request is otherwise handled as usual (cursor back to 0, POST handler called for a POST to `/`, `close()` applied) with no response queued. | not executed; medium (needs a client that sends after the server's FIN) | Framer.HandlerAsWritten, FramerLemmas.PipelinedRequestHalts | Framer.Handler |
