# A Dafny model of the PIE button-panel driver core

This project models the core of a driver for a programmable button panel
(a matrix of backlit buttons plus one status button, reached through a
character device). It covers three parts:

- **The wire codec.** This is `pie/types.cpp` and `pie/types.hpp`. The eight
  outbound commands are fixed 36-byte frames: byte 0 is zero, byte 1 is the
  opcode, bytes 2 and 3 hold the payload, and the rest is zero. There are two
  inbound layouts: the 18-byte `general_data` telemetry frame and the 13-byte
  `descriptor_data` reply. Packed bit-fields are read by explicit division and
  remainder, with least-significant-bit-first allocation assumed.
- **The device.** This is `pie/device.cpp` and `pie/device.hpp`. It covers the
  handshake the constructor writes, the descriptor length check, and the read
  handler `read_data`. The read handler is modelled as a pure step. It takes
  the button state (`locked_`, `pending_`, `pressed_`), the configuration and
  the receive buffer. It returns the next state and the commands written, or a
  short-read error. The step covers the status button, `toggle_locked`,
  `decode_buttons` and the press and release loops. It also covers the
  configuration mutators of `device.hpp`.
- **The configuration-file reader.** This is `remote::conf_from` in
  `src/remote.cpp`. Each line is read through a model of a `std::stringstream`
  with its `failbit` and `eofbit`. `parse_word`, `parse_num` and
  `parse_equal_sign` follow the standard formatted-extraction rules. The calls
  the file makes on the store (`set_double_press`, `set_toggle`, `set_group`)
  are returned as a list of `Call` values. The store's `buttons()` is a
  parameter.

Modules: `Wrappers` (Option/Result), `Types` (constants and inbound layouts),
`Commands` (outbound frames), `Settings` (configuration mutators), `Device`
(handshake and read step), `DeviceLemmas` (properties of the step), `Remote`
(stream model and parser), and `RemoteLemmas` (the grammar stated over a line's
words, numbering of lines, and a render/parse round trip).

Notes on the code as written:

- `device.cpp` detects edges against the logical `pressed_` set, not against
  a stored previous frame.
- It has no toggle buttons, no exclusive groups and no press/release
  callbacks in the read handler. A status press does not cancel a pending
  button.
- Its minimum frame sizes are `sizeof(descriptor_data)` = 13 and
  `sizeof(general_data)` = 18.
- Its mutators do no range check. Only the file reader checks indices.

## Model

| member | source | states |
|---|---|---|
| Types.SentinelsDistinct | pie/types.hpp:25-27 | `ps` and `none` are distinct and negative, so neither is a matrix index |
| Types.LedsMasks | pie/types.hpp:30-38 | `leds::all` is green OR red, `leds::none` is 0, and the LED masks are the bits named by `led::green`/`led::red` |
| Types.RowMasks | pie/types.hpp:51-57 | each `row_k` is `1 << (k-1)`, rows share no bit, `all_rows` is their union and `no_rows` is 0 |
| Types.EnumValues | pie/types.hpp:41-65 | off/on/flash are distinct, bank_1 is 0 and bank_2 is 1, and the 42-byte default buffer holds either inbound struct |
| Types.DecodeGeneral | pie/types.hpp:77-86 | uid is byte 0, `ps` and `reset` are bits 0 and 1 of byte 1, and column c's row bits are byte 2+c |
| Types.EncodeGeneral | pie/types.hpp:77-86 | writes an 18-byte telemetry frame with the padding bits clear |
| Types.GeneralRoundTrip | pie/types.hpp:77-86 | decoding an encoded telemetry frame gives back every field |
| Types.GeneralReencode | pie/types.hpp:77-86 | re-encoding a decoded frame reproduces its 18 bytes exactly when the padding bits are clear |
| Types.DecodeDescriptor | pie/types.hpp:88-105 | uid/cmd/mode are bytes 0-2, columns and rows are bytes 7-8, the LED flags are bits 6-7 of byte 9, ver is byte 10, and pid is little-endian in bytes 11-12 |
| Types.EncodeDescriptor | pie/types.hpp:88-105 | writes a 13-byte descriptor with all padding clear |
| Types.DescriptorRoundTrip | pie/types.hpp:88-105 | decoding an encoded descriptor gives back every field |
| Types.DescriptorReencode | pie/types.hpp:88-105 | re-encoding a decoded descriptor reproduces its 13 bytes exactly when every padding byte and bit is clear |
| Commands.RequestDataFrame | pie/types.cpp:18-23 | 36 bytes, opcode 177, and every other byte zero |
| Commands.LedStateFrame | pie/types.cpp:26-33 | opcode 179 with the colour in byte 2 and the state in byte 3 |
| Commands.PeriodFrame | pie/types.cpp:36-42 | opcode 180 with the period in byte 2 |
| Commands.LightStateFrame | pie/types.cpp:45-52 | opcode 181 with `(b + bank*columns*8) mod 256` in byte 2 and the state in byte 3 |
| Commands.LightOnFrame | pie/types.cpp:55-62 | opcode 182 with the bank in byte 2 and the row mask in byte 3 |
| Commands.LedsOnFrame | pie/types.cpp:65-71 | opcode 186 with the colour mask in byte 2 |
| Commands.LevelFrame | pie/types.cpp:74-81 | opcode 187 with the two bank levels in bytes 2 and 3 |
| Commands.RequestDescriptorFrame | pie/types.cpp:84-89 | 36 bytes, opcode 214, and every other byte zero |
| Commands.Encode | pie/types.cpp:15-89 | every command is a 36-byte frame with byte 0 zero and bytes 4-35 zero |
| Commands.OverloadsEncode | pie/types.hpp:112-119 | each `set`/`set_on` overload device.cpp calls writes the frame of the matching types.cpp encoder (`led_state`, `light_state`, `light_on`, `leds_on`) |
| Commands.OpcodesDistinct | pie/types.cpp:18-89 | two commands share an opcode exactly when they are the same kind of command |
| Commands.DecodeEncode | pie/types.cpp:15-89 | decoding an encoded command gives it back |
| Commands.EncodeDecode | pie/types.cpp:15-89 | a frame that decodes is exactly the encoding of what it decodes to |
| Commands.EncodeInjective | pie/types.cpp:15-89 | distinct commands have distinct frames |
| Commands.EncodeAll | pie/types.cpp:15-89 | a command list becomes one frame per command, in order, each decoding to its command |
| Commands.EncodeAllInjective | pie/types.cpp:15-89 | the frames written determine the command list |
| Commands.PayloadRoundTrip | pie/types.cpp:26-81 | bytes 2-3 of led_state, period, light_on, leds_on and level frames give back the arguments |
| Commands.LightIndexNoWrap | pie/types.cpp:45-52 | with at most 16 columns, the bank-1 index of a matrix button is `b` and its bank-2 index is `b + columns*8`, and the two differ |
| Commands.LightIndexInjective | pie/types.cpp:45-52 | with at most 16 columns, distinct (button, bank) pairs light distinct cells |
| Settings.DoublePress | pie/device.hpp:40 | inserts the button into the double-press set and touches nothing else |
| Settings.DoublePressList | pie/device.hpp:41 | adds every listed button and touches nothing else |
| Settings.DoublePressIdempotent | pie/device.hpp:40 | marking a button twice is marking it once |
| Settings.DoublePressCommutes | pie/device.hpp:40 | the order in which two buttons are marked does not matter |
| Settings.DoublePressListOrderInsensitive | pie/device.hpp:40-41 | the list form depends only on the set of buttons listed |
| Settings.DoublePressListAppend | pie/device.hpp:41 | listing `l + m` is listing `l`, then `m` |
| Settings.Group | pie/device.hpp:44 | sets the button's group id, keeps other buttons' ids, and touches no other table |
| Settings.GroupList | pie/device.hpp:45 | gives every listed button the same id and keeps the others |
| Settings.GroupLastWins | pie/device.hpp:44 | the last id assigned to a button wins |
| Settings.GroupCommutes | pie/device.hpp:44 | assignments to different buttons commute |
| Settings.GroupListSnoc | pie/device.hpp:45 | the list form equals assigning each element in turn |
| Settings.PressedCallback | pie/device.hpp:47 | stores the press callback and leaves the other tables alone |
| Settings.ReleasedCallback | pie/device.hpp:48 | stores the release callback and leaves the other tables alone |
| Settings.CallbacksReplace | pie/device.hpp:47-48 | registering a callback replaces the previous one and does not chain |
| Device.FreshState | pie/device.hpp:64-73 | a new device is unlocked, with nothing pending or pressed, and meets the pending invariant |
| Device.ReadDescriptor | pie/device.cpp:48-60 | a reply shorter than 13 bytes is a short-read error, and otherwise uid, columns and rows come from bytes 0, 7 and 8 |
| Device.Open | pie/device.cpp:32-43 | the descriptor request is written first, a short reply aborts after it, and otherwise the six setup commands follow |
| Device.HandshakeOpcodes | pie/device.cpp:32-43 | the handshake writes request_descriptor, leds none, bank_1 all rows, bank_2 no rows, level 255/255, period 10, request_data, in that order |
| Device.DecodeButtons | pie/device.cpp:148-173 | the scan returns exactly the press and release edge sets defined over (column, row) positions |
| Device.AscendingSorted | pie/device.cpp:97-133 | the press and release loops visit each index once, in ascending `std::set` order |
| Device.ToggleLocked | pie/device.cpp:140-145 | flips the lock and writes a bank_1/bank_2 pair where one is all rows and the other no rows, with bank 2 lit exactly when locked |
| Device.ToggleTwice | pie/device.cpp:140-145 | toggling twice restores the lock flag, and the second repaint gives each bank the opposite mask of the first, leaving bank 2 lit exactly when locked |
| Device.StatusTwoCycles | pie/device.cpp:79-93 | pressing and releasing the status button twice from released restores the state exactly, with red LED on/off and one bank repaint per release |
| Device.StatusEdge | pie/device.cpp:79-93 | a set status bit inserts `ps` and lights the red LED once, and a clear bit with `ps` pressed erases it, turns the LED off and flips the lock exactly then |
| Device.PressOne | pie/device.cpp:97-121 | a different press while one is pending restores it first, a plain or pending button is pressed (bank 1 off, bank 2 on), and any other becomes pending with bank 2 flashing |
| Device.PressAll | pie/device.cpp:97-121 | the press loop only adds pressed buttons among the edges and keeps the pending invariant |
| Device.ReleaseAll | pie/device.cpp:123-133 | every released button leaves `pressed_`, and its lights are restored only when unlocked |
| Device.EdgeSetsShape | pie/device.cpp:152-170 | the edge sets are disjoint, presses are outside `pressed_`, releases inside it, no press while locked, and each index is `8*col + row` |
| Device.MatrixStep | pie/device.cpp:95-133 | only press edges enter `pressed_`, release edges leave it, `ps` is untouched, and nothing is pressed or pended while locked |
| Device.ReadData | pie/device.cpp:70-137 | an error code changes nothing and schedules no read, a read under 18 bytes fails, and any other read reschedules |
| DeviceLemmas.EdgesAreMatrixCells | pie/device.cpp:152-170 | with at most 8 rows, every decoded index is `col*8 + row` with `col < columns` and `row < rows` |
| DeviceLemmas.PressEdgesExactly | pie/device.cpp:153-168 | an index is a press edge exactly when it is a held matrix cell, unlocked and not pressed |
| DeviceLemmas.ReleaseEdgesExactly | pie/device.cpp:153-168 | with at most 8 rows, an index is a release edge exactly when its matrix bit is clear and it is pressed |
| DeviceLemmas.StatusButton | pie/device.cpp:79-95 | `ps` ends pressed exactly when its bit is set, the lock flips exactly on a release, and the red-LED command comes first |
| DeviceLemmas.ReadErrors | pie/device.cpp:72-76 | a read with an error code changes nothing, writes nothing and schedules nothing, and a short read is an error |
| DeviceLemmas.PendingPreserved | pie/device.cpp:97-121 | every step keeps `pending_` either `none` or a double-press button that is not pressed |
| DeviceLemmas.ClearCellReleased | pie/device.cpp:153-168 | for any row count, a pressed matrix cell whose bit is clear is a release edge |
| DeviceLemmas.NoStalePress | pie/device.cpp:95-133 | for any row count, after a step no matrix button whose bit is clear is pressed |
| DeviceLemmas.HeldStaysPressed | pie/device.cpp:95-133 | with at most 8 rows, a held matrix button that was pressed stays pressed |
| DeviceLemmas.OnlyPress | pie/device.cpp:95-133 | with at most 8 rows and the status button idle, with one new press while unlocked, the button ends pressed, or pending when it is a double-press button not already pending |
| DeviceLemmas.DoublePressHeldTwoFrames | pie/device.cpp:107-113 | with at most 8 rows and the status button idle, a double-press button that is the only new press, held across two unlocked frames, is pending after the first and pressed after the second |
| Remote.ParseWord | src/remote.cpp:27-32 | the word read contains no whitespace |
| Remote.ParseNum | src/remote.cpp:34-39 | a failed stream gives -1, a good one is consumed, and the value fits an `int` |
| Remote.ParseEqualSign | src/remote.cpp:41-46 | a failed stream never reads `=` |
| Remote.ParseWordToken | src/remote.cpp:27-32 | on a settled stream, `parse_word` reads the next word, or fails with an empty word when none is left |
| Remote.ParseNumToken | src/remote.cpp:34-39 | on a numeral word, `parse_num` reads its value clamped to `int` and moves past it |
| Remote.ParseEqualSignToken | src/remote.cpp:41-46 | the check looks only at the first character of the next word |
| Remote.ParseIndices | src/remote.cpp:92-97 | the index loop fails only with "Invalid button index" |
| Remote.ParseLine | src/remote.cpp:67-97 | a line fails only with one of the four messages, and only an index error can follow calls |
| Remote.ConfLines | src/remote.cpp:65-98 | an error names the number of a line in the range read |
| Remote.ConfFrom | src/remote.cpp:59-99 | an unopenable file fails before any call, and an error names a line between 1 and the number of lines |
| Remote.LineCalls | src/remote.cpp:73-97 | every call a line makes is on an index in `[0, buttons)`, and every group id it passes is in `[0, INT_MAX]` |
| Remote.ConfFromCalls | src/remote.cpp:59-99 | every call the file makes is on a valid index |
| RemoteLemmas.AssignAllValid | src/remote.cpp:92-97 | with all indices in range, each is called in order and the line is accepted |
| RemoteLemmas.AssignFirstInvalid | src/remote.cpp:92-97 | the first out-of-range index rejects the line after calling the indices before it |
| RemoteLemmas.ParseIndicesTokens | src/remote.cpp:92-97 | the index loop over numeral words means `Assign` of their values |
| RemoteLemmas.LineSkipped | src/remote.cpp:68-71 | blank lines and lines whose first word starts with `#` make no call and no error |
| RemoteLemmas.LineInvalidCommand | src/remote.cpp:75-88 | "Invalid command" is reported exactly when the first word is none of the three commands and not a comment |
| RemoteLemmas.LineMissingEqualSign | src/remote.cpp:90 | after `double-press` or `toggle`, "Missing '=' sign" is reported exactly when the next word does not start with `=` |
| RemoteLemmas.LineAccepted | src/remote.cpp:75-97 | `double-press = ...` and `toggle = ...` with numeric indices call `Assign` of those indices |
| RemoteLemmas.LineCallKinds | src/remote.cpp:73-97 | a line calls only the command its first word names: `double-press` only `set_double_press`, `toggle` only `set_toggle`, `group` only `set_group` with one id (the value of a numeric second word), and any other line nothing |
| RemoteLemmas.LineEmptyAssignment | src/remote.cpp:92 | `cmd =` with nothing after it is accepted and makes no call |
| RemoteLemmas.LineGroupAccepted | src/remote.cpp:81-97 | `group n = ...` with `n` in `[0, INT_MAX]` assigns the indices to group `n` |
| RemoteLemmas.LineGroupInvalidId | src/remote.cpp:83-84 | `group` with no id or a negative id is "Invalid group id" |
| RemoteLemmas.LineGroupNotANumber | src/remote.cpp:83-90 | `group` followed by a non-number stores id 0 and fails the stream, so the line reports "Missing '=' sign" |
| RemoteLemmas.ConfLinesOutcome | src/remote.cpp:65-98 | the line loop is the fold over the lines' individual results |
| RemoteLemmas.ConfLinesClean | src/remote.cpp:65-98 | a file whose lines are all accepted makes every line's calls, in order, with no error |
| RemoteLemmas.ConfLinesFirstError | src/remote.cpp:65-98 | the first rejected line stops the file, and calls made on earlier lines and earlier on that line stay made |
| RemoteLemmas.ConfFromErrorLine | src/remote.cpp:65 | lines are numbered from 1, and the error names the rejected line |
| RemoteLemmas.GetLinesUnlines | src/remote.cpp:65 | reading back lines written one per line gives the same lines |
| RemoteLemmas.UnlinesGetLines | src/remote.cpp:65 | writing back the lines read gives the text, with a final newline added when it was missing |
| RemoteLemmas.RenderRoundTrip | src/remote.cpp:67-97 | parsing a rendered `cmd [id] = i j ...` line gives `Assign` of the rendered indices |
| RemoteLemmas.RenderedFile | src/remote.cpp:59-99 | a file rendered from directives with in-range indices makes all their calls in order, with no error |
| RemoteLemmas.CantOpenFirst | src/remote.cpp:61-62 | a file that cannot be opened makes no call and reports that error |

## Left out

- Opening the device file (`::open` and its `system_error`, pie/device.cpp:26-30) is left out. The model starts after a successful open.
- I/O errors thrown by `read_some` (pie/device.cpp:51) and by the `asio::write` inside every encoder are not modelled. Device.Open fails only on the length check, and Device.ReadData never fails between writes. In the code, a write that throws partway through `read_data` leaves `pressed_`, `pending_` and `locked_` partly updated. The model does not represent that partial state.
- The asynchronous read loop is left out: `sched_read`, `async_read_some` and the blocking `asio::write` calls. One invocation of the read handler is one step. Commands written are returned as a list, and `rescheduled` says whether the next read would be issued.
- The short-read exceptions are modelled as `Failure(ShortRead(...))` values rather than thrown exceptions.
- The `recv` type of the receive buffer is not part of this model. The buffer is taken to be the 42-byte `data` vector.
- Device.ReadData: requires at most 40 columns. `decode_buttons` reads column c at byte 2 + c of the receive buffer, and past 40 columns that read leaves the 42-byte buffer, which is undefined behaviour. Columns 16 to 39 are read from the buffer beyond `general_data`, as the code does.
- Device.ReadData: bytes past the count read are whatever the buffer already held. The model takes the whole buffer as input.
- Commands.LightIndexNoWrap: the no-wrap property is proved only for at most 16 columns. Beyond that the index wraps modulo 256, as modelled by `LightIndex`.
- DeviceLemmas.ReleaseEdgesExactly: with more than 8 rows, `b += CHAR_BIT - rows` moves indices into the next column's range. The step models this, but the exact characterisation is proved only for at most 8 rows.
- DeviceLemmas.DoublePressHeldTwoFrames: holds only when the button is the only new press in the first frame. A later press in the same frame resets the pending button.
- DeviceLemmas.DoublePressHeldTwoFrames: proved only for at most 8 rows, because it rests on OnlyPress.
- DeviceLemmas.DoublePressHeldTwoFrames: assumes the status bit is clear and `ps` is not pressed in both frames. A status press in either frame toggles the lock, which changes what the matrix loop does.
- DeviceLemmas.HeldStaysPressed: proved only for at most 8 rows. With more rows, a bit position at or above 8 in one column has the same index as a low row of the next column. That bit is always clear, so a held button there can be released by the overlapping position.
- DeviceLemmas.OnlyPress: proved only for at most 8 rows, for the same reason as HeldStaysPressed. It also assumes the status bit is clear and `ps` is not pressed.
- Native bit-field and integer layout is not derived. Bit-fields are assumed to be allocated least-significant bit first, and the two-byte `pid` of `descriptor_data` is read as little-endian (`b[11] + 256*b[12]`), as on a little-endian host.
- `group_`, `active_`, `pcall_` and `rcall_` are stored but never read by the read handler, so group exclusivity, toggles and callback invocation are not modelled. `pend`, `un_pend`, `press` and `release` are declared but have no definition.
- Callbacks are modelled by identity only (`Settings.Callback`). Their invocation is not modelled.
- `set_uid` and the set-uid command are left out.
- The store sinks `set_double_press`, `set_toggle`, `set_group` and `buttons()` are outside the core. Calls on them are returned as `Call` values, and `buttons()` is a parameter.
- Remote.ParseNum: values are read as unbounded integers and then clamped to the `int` range with `failbit` set, which is what the C++11 standard library does. Locale-dependent digit grouping and other bases are not modelled.
- Remote.Ws: on a stream that has already failed, `std::ws` does nothing but set `failbit`, as in C++11 and later (the sentry fails). Older libstdc++ versions skipped the whitespace anyway and could set `eofbit`. That changes the result of lines such as `double-press = 1 - `, and it is not modelled.
- `remote::sched_check` (timer, file-existence polling and `SIGTERM`), `src/main.cpp`, `src/set-uid.cpp` and `src/util.cpp` are left out. They are command-line, signal and socket glue outside the core.
