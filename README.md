# UART-to-MQTT gateway firmware, modelled in Dafny

The firmware (`src/main.c`, a Zephyr application for the nRF91) sits between a
co-processor on a serial link and an MQTT broker. Records of the form
`{...}` followed by CR LF arrive over the UART, are collected in a 128-byte
receive buffer by the interrupt callback `uart_cb`, are copied into the
single pending-message slot `data_uart` (guarded by the flag `unsent_data`)
and are published at QoS 1 by a work-queue handler. Messages that arrive on
the subscribed topic are read by `publish_get_payload` and echoed back by the
MQTT event handler. `main` connects with a bounded number of attempts, polls
the MQTT socket in a supervised loop, and disconnects when the loop breaks,
then reboots when rebooting is compiled in.

The model has one module per piece of logic:

- `Bytes` — bytes, `strlen`, the C string view of a buffer, `memset`.
- `Mqtt` — the publish and subscribe parameter records (`data_publish`, `subscribe`).
- `UartFrame` — the receive half of `uart_cb` as a function on values
  (`Receive`), with the framing rule, the multi-callback behaviour and the
  finding about unguarded writes.
- `PendingSlot` — `data_uart` and `unsent_data` as a class (`Slot`): the
  writer's `strncpy` (`Fill`) and the relay work handler (`Relay`).
- `FrameReader` — `uart_cb`'s receive half in place on `uart_rxbuf` (class
  `Reader`), proved to agree with `UartFrame.Receive`.
- `Payload` — `publish_get_payload`, a read-until-full loop over the library's
  answers, as a function (`FetchPayload`) and in place (`GetPayload`).
- `Events` — `mqtt_evt_handler` as a function (`Dispatch`) and as a class
  over the globals `connected`, `nRun` and `numPublished` (`Handler.OnEvent`).
- `Supervisor` — `main`: the connect loop, the session loop's exit test and
  counter, and the order of the calls around them.

Library, socket and kernel calls are not modelled; their results are inputs:
`mqtt_connect` is a function from the attempt number to its result, the
answers of `mqtt_read_publish_payload` (with the poll that follows a
would-block answer) are a finite list `replies`, and each pass of the
session loop is a `Tick` holding what `poll`, `mqtt_live` and `mqtt_input`
return and which `revents` bits are set. The build switch that compiles in
`sys_reboot` (`CONFIG_REBOOT` without `CONFIG_DEBUG`) is the parameter
`reboot`. Message ids drawn with `sys_rand32_get` are parameters.

Where the gateway's design description and the code disagree, the model
follows the code:

- A buffer is examined only when it holds more than 35 bytes, not 100.
- A record is any buffer that starts with `{`, has `}` three bytes from its
  end and ends with CR LF; there is no preamble, no count of braces and no
  handshake sub-mode.
- A well-formed record that arrives while the slot is busy is not dropped: it
  stays in the receive buffer, which keeps accumulating
  (`UartFrame.BusySlotKeepsRecord`, `UartFrame.BusySlotHoldsRecords`). Once
  the slot is free, the first callback that leaves the buffer ending in CR LF,
  below 128 bytes, takes everything buffered as one record; a callback with no
  new bytes does (`UartFrame.FreedSlotMergesRecords`), while one whose bytes
  leave the buffer without a final CR LF takes nothing, and a buffer that
  reaches 128 bytes is discarded.
- The buffer is judged once per callback, after the whole burst is appended,
  not once per byte, so how the serial driver splits the bytes decides
  whether a record is taken (`UartFrame.ChunkingDecidesTaking`).
- There is one bounded connect loop of 10 attempts and no further reconnect:
  a session that breaks ends in disconnect, then reboot when rebooting is
  enabled; otherwise `main` returns.
- The event handler sends no acknowledgement of its own for an inbound QoS 1
  message before echoing it; it only echoes.

## Model

| member | source | states |
|---|---|---|
| Bytes.CStrLen | src/main.c:678 | `strlen`: every byte before the result is non-NUL, and the byte at the result is NUL unless the whole sequence was scanned |
| Bytes.CStringOfPadded | src/main.c:578-579 | zero-padding a string (what `memset` then `strncpy` leave) does not change what `strlen` sees |
| Bytes.Memset | src/main.c:564 | `memset(.., '\0', sizeof ..)` leaves every byte of the array zero |
| Mqtt.PublishParams | src/main.c:146-166 | `data_publish` asks for exactly the first `len` bytes of the data, on the publish topic, at the given QoS, with DUP and RETAIN clear |
| Mqtt.SubscribeParams | src/main.c:170-190 | `subscribe` asks for one filter, the subscribe topic at QoS 1, with message id 1234 |
| UartFrame.Classify | src/main.c:561-575 | the verdict on the whole buffer: overflow exactly at 128 bytes, incomplete below 128 when 35 bytes or fewer or not ending in CR LF, framed exactly when over 35 and below 128 bytes, ending in CR LF, with `{` first and `}` before the CR LF; garbage otherwise |
| UartFrame.Extracted | src/main.c:578-579 | the slot a record leaves holds, zero-padded to 128 bytes, the C string of the buffer without its last two bytes |
| UartFrame.Settle | src/main.c:561-596 | after the judgement the buffer is below 128 bytes and either empty or unchanged; a busy slot is never overwritten; the slot or flag change only when a record is taken |
| UartFrame.Receive | src/main.c:555-596 | one callback: the buffer ends below 128 bytes, either empty or old contents plus the burst; a busy slot and its flag are untouched; the slot changes only when the callback takes a record |
| UartFrame.OverflowResets | src/main.c:561-567 | reaching exactly 128 bytes empties the buffer and leaves slot and flag as they were |
| UartFrame.ShortOrUnterminatedOnlyAppends | src/main.c:568-571 | at 35 bytes or fewer, or without a final CR LF, a callback only appends; the old prefix, slot and flag are unchanged |
| UartFrame.RecordTaken | src/main.c:573-588 | a record at a free slot is taken: the slot becomes the buffer minus CR LF, cut at the first NUL and zero-padded, the flag is set and the buffer emptied |
| UartFrame.GarbageDiscarded | src/main.c:590-594 | a CR LF-terminated buffer over 35 bytes without `{` first or `}` before the CR LF is emptied; nothing is taken and slot and flag are untouched |
| UartFrame.BusySlotKeepsRecord | src/main.c:576-588 | while the flag is set a record-shaped buffer is neither copied nor discarded |
| UartFrame.PrefixUnterminated | src/main.c:570-571 | no proper prefix of a record followed by CR LF ends in CR LF, so no earlier callback judges it |
| UartFrame.FeedNothing | src/main.c:555-559 | callbacks that bring no bytes leave an empty buffer and the slot as they are |
| UartFrame.FeedFromPrefix | src/main.c:555-596 | from any prefix of a record plus CR LF, the remaining bursts end with the record taken |
| UartFrame.RecordSurvivesChunking | src/main.c:555-596 | however a record and its CR LF are split into bursts, an empty buffer with a free slot ends with exactly the record in the slot, the flag set and the buffer empty |
| UartFrame.ChunkingDecidesTaking | src/main.c:568-575 | a record whose CR LF shares a burst with the next record's first byte is not taken; the same bytes in two bursts are |
| UartFrame.BusySlotHoldsRecords | src/main.c:576-588 | two records arriving while the slot is busy both stay in the buffer, CR LF included |
| UartFrame.FreedSlotMergesRecords | src/main.c:570-588 | once the slot is free, two buffered records are taken as one, joined by their CR LF |
| UartFrame.ReceiveWrites | src/main.c:551-559 | the array writes of the receive path as written: first `temp_rx[n]`, then `uart_rxbuf[len + i]` for each byte read, in order |
| UartFrame.FullReadOverrunsTemp | src/main.c:551-552 | as written, a full 128-byte read writes its terminator at `temp_rx[128]` |
| UartFrame.LongBurstOverrunsRxBuf | src/main.c:555-559 | as written, a 30-byte read into a buffer already holding 100 bytes writes `uart_rxbuf[128]` |
| UartFrame.ReadLimit | src/main.c:551 | the corrected read size: below 128, never more than the buffer can still take, and as large as both allow |
| UartFrame.ReadLimitKeepsWritesInBounds | src/main.c:551-559 | with reads bounded by `ReadLimit`, every write of the receive path stays inside its array |
| PendingSlot.Slot.constructor | src/main.c:65-67 | at start-up the slot is all zero and not busy |
| PendingSlot.Slot.Fill | src/main.c:578-580 | clears the slot, copies the first `n` bytes of the buffer up to the first NUL, zero-pads, sets the flag; the slot keeps a final NUL |
| PendingSlot.Slot.Relay | src/main.c:676-691 | publishes exactly `strlen(data_uart)` bytes of the slot at QoS 1 on the publish topic and clears the flag whatever the publish returns |
| PendingSlot.RelayRequest | src/main.c:678 | the request `sendCloudMsg` makes: the C string of `data_uart`, `strlen` bytes long, on the publish topic at QoS 1 with the given id, DUP and RETAIN clear |
| PendingSlot.RecordIsRelayed | src/main.c:555-596 | a record delivered in any split to a free slot is taken, and the relay then publishes exactly its bytes, without CR LF, at QoS 1 |
| FrameReader.Reader.constructor | src/main.c:58-59 | at start-up the receive buffer is empty and zero |
| FrameReader.Reader.Discard | src/main.c:564-565 | zeroes `uart_rxbuf` and resets `uart_rx_leng` to 0 |
| FrameReader.Reader.Append | src/main.c:555-559 | the copy loop: the buffer contents become the old contents followed by the burst, the rest of the array stays zero |
| FrameReader.Reader.Judge | src/main.c:561-596 | the nested tests on the whole buffer do what `UartFrame.Settle` says, and submit the relay work exactly when a record is taken |
| FrameReader.Reader.Callback | src/main.c:543-596 | one callback in place does what `UartFrame.Receive` says, the buffer stays below 128 bytes, and the relay work is submitted exactly when the callback takes a record |
| Payload.ReadLoop | src/main.c:204-238 | the read loop from a partial read: the bytes it ends with extend what it had and are a prefix of that plus everything handed over, never more than `length` |
| Payload.FetchPayload | src/main.c:194-239 | `publish_get_payload` on values: an oversized payload gives `-EMSGSIZE` with nothing read; otherwise the bytes read are a prefix of those handed over, at most `length` |
| Payload.OversizedRefused | src/main.c:199-202 | a payload longer than `payload_buf` is refused with `-EMSGSIZE` before any read |
| Payload.EmptyReadFails | src/main.c:230-233 | a zero-byte read before the payload is complete gives `-EIO` |
| Payload.StalledPollFails | src/main.c:212-227 | a would-block answer followed by a poll that fails or lacks POLLIN gives `-EIO` |
| Payload.ReadLoopOk | src/main.c:204-238 | when the loop succeeds it holds what it had plus every byte handed over, in order, exactly `length` bytes |
| Payload.FetchOk | src/main.c:194-239 | success means the payload fits `payload_buf` and exactly its `length` bytes were read, in order |
| Payload.CleanReadLoop | src/main.c:204-238 | answers that all hand over bytes or would block with POLLIN, adding up to the length, make the loop succeed with all of them |
| Payload.CleanDeliveryRead | src/main.c:194-239 | a payload that fits and is delivered cleanly, however it is split, is read whole |
| Payload.GetPayload | src/main.c:194-239 | the loop in place returns what `FetchPayload` says, leaves the bytes read at the start of `payload_buf`, and leaves the rest untouched |
| Events.Dispatch | src/main.c:243-326 | the handler on values keeps `nRun` within 16 bits and `numPublished` within 32 bits, and makes at most one request per event |
| Events.ConnAckConnects | src/main.c:250-260 | CONNACK 0 sets `connected` and subscribes; a failed CONNACK changes nothing |
| Events.DisconnectClears | src/main.c:262-267 | DISCONNECT clears `connected` and requests nothing |
| Events.PubAckCounts | src/main.c:296-308 | PUBACK 0 zeroes `nRun` and adds exactly one to `numPublished` (modulo 2^32); a failed PUBACK changes neither |
| Events.OnlyAcksChangeFlags | src/main.c:248-325 | only CONNACK 0, DISCONNECT and PUBACK 0 change the flags |
| Events.ReadFailureDisconnects | src/main.c:283-293 | when the payload read fails the handler asks for a disconnect and echoes nothing |
| Events.EchoIsIdentical | src/main.c:269-282 | a payload delivered cleanly is read and echoed once, with the identical bytes and length, at QoS 1 on the publish topic |
| Events.Handler.constructor | src/main.c:46-70 | at start-up `connected`, `nRun` and `numPublished` are all zero |
| Events.Handler.OnEvent | src/main.c:243-326 | one event in place changes the globals and makes the requests `Dispatch` says, with the payload read into `payload_buf` as `FetchPayload` says |
| Supervisor.AttemptsFrom | src/main.c:721-741 | the number of connect attempts is the first success, counted from 1, or 10 |
| Supervisor.Attempts | src/main.c:718-741 | between 1 and 10 attempts are made |
| Supervisor.ConnectWithRetry | src/main.c:718-741 | `mqtt_connect` is called at least once and at most 10 times, with a 5 s sleep before every attempt but the first; every attempt but the last failed, the loop stops at the first success, and a failing last attempt is the tenth |
| Supervisor.TickFault | src/main.c:805-839 | a pass breaks the loop exactly when it is not healthy, and the reason is the first failing test in the loop's order (poll, mqtt_live other than 0 and -EAGAIN, mqtt_input under POLLIN, POLLERR, POLLNVAL) |
| Supervisor.FirstFault | src/main.c:788-873 | the index of the first pass that breaks the loop: all earlier passes are healthy |
| Supervisor.FirstFaultAt | src/main.c:788-873 | a scan that stops at the first unhealthy pass stops where `FirstFault` says |
| Supervisor.SessionOutcome | src/main.c:786-873 | the session ends at the cap only with rebooting enabled and after exactly 300000 healthy passes; otherwise at the first unhealthy pass, with the reason; every earlier pass was healthy |
| Supervisor.RunSession | src/main.c:786-873 | the counted loop ends as `SessionOutcome` says |
| Supervisor.AfterConnect | src/main.c:744-873 | without a connection no session starts and the device reboots (if enabled) or returns; a failing `fds_init` likewise; a missing UART reboots only when enabled; a broken session disconnects then reboots; reboot is the last call and happens at most once |
| Supervisor.Boot | src/main.c:711-874 | `main` as a whole: a session starts exactly when the connect loop and `fds_init` succeed and the UART is found or rebooting is disabled; disconnect follows exactly a broken session; reboot is last, at most once, and only when enabled |

## Left out

- The transmit half of `uart_cb` (src/main.c:630-658): hardware FIFO filling, a busy-wait and kernel FIFO bookkeeping, with no state logic of its own.
- `certificate_init`, `modem_configure`, `client_init` and `broker_init` (DNS resolution): foreign calls into the modem, TLS and socket libraries; each connect attempt runs them, and only the result of `mqtt_connect` is modelled.
- `fds_init` and `init_uart` are reduced to their outcome (`fdsErr`, `uartFound`).
- The MQTT library itself (`mqtt_connect`, `mqtt_publish`, `mqtt_subscribe`, `mqtt_input`, `mqtt_live`, `mqtt_disconnect`, `mqtt_read_publish_payload`), the wire encoding and `poll`: their results are inputs.
- The `mqtt_disconnect` result and the `data_publish` result, which the firmware only logs.
- Sleep durations other than the 5 s between connect attempts (the start-up 6 s, the loop's `K_SECONDS(0.001)`, a floating-point argument), keepalive timeouts, and the randomness of message ids.
- Concurrency: `uart_cb` runs in interrupt context and the relay in a work queue, sharing the `volatile` flag; each is modelled as one atomic step.
- The timer-driven relay path (`APP_USE_TIMERS_FOR_WORKQUEUE`), which is compiled out, and the commented-out code.
- Logging (`printk`, `data_print`, `sprintf` into `debug_print`), the credentials and the LWM2M carrier event handler.
- Topic names and `CONFIG_MQTT_PAYLOAD_BUFFER_SIZE` are build settings: topics are the two symbols `PubTopic` and `SubTopic`, and the payload buffer size is the array length.
- Error numbers are symbolic (`EIO`, `EMSGSIZE`, other codes carried as they are); -EAGAIN from `mqtt_read_publish_payload` and `mqtt_live` is a separate case of each answer type.
- Payload.GetPayload, Events.Handler.OnEvent: the answers of the library are a finite list; if it runs out before the payload is complete the model returns `Waiting` and publishes nothing, a state the firmware never reports.
- Supervisor.RunSession: the passes of the session are a finite list; when it runs out the model returns `Running`, which stands for a session that is still going.
- FrameReader.Reader.Callback: it requires the burst to be no longer than `ReadLimit`, the corrected read size; the code as written reads up to 128 bytes whatever the buffer holds, which the finding below covers.
- `uart_rx_leng` is an 8-bit counter; with reads bounded as above it never exceeds 128, so its wrap-around is not modelled.
- A negative return of `uart_fifo_read` is not modelled: a burst is a byte sequence.

## Findings

| source | as written | input that shows it | evidently intended | confidence | as-written member | corrected member |
|---|---|---|---|---|---|---|
| src/main.c:551-552 | the FIFO read asks for up to `sizeof(temp_rx)` = 128 bytes and then writes `temp_rx[data_length] = 0` | a read that returns 128 bytes writes `temp_rx[128]`, one past the array | read at most 127 bytes, leaving room for the terminator | not executed | UartFrame.FullReadOverrunsTemp | UartFrame.ReadLimitKeepsWritesInBounds |
| src/main.c:555-559 | the copy loop appends every byte read without checking `uart_rx_leng` against 128 | a 30-byte read while the buffer holds 100 bytes writes `uart_rxbuf[128]` (and on past it) | read no more than `128 - uart_rx_leng` bytes, so the buffer fills to exactly 128 and is discarded | not executed | UartFrame.LongBurstOverrunsRxBuf | FrameReader.Reader.Callback |
