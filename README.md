# USB-UIRT protocol core, in Dafny

This project models the protocol core of ribsu, a driver for the USB-UIRT
infrared transceiver, and proves properties of that model. The core turns
bytes from the device into pulse/space records and records back into
device commands. It has four parts:

- **Session state machine** (`usm_*`, module `Session`, class `Session.Session`). It tracks the receive
  mode (echo, UIR, RAW, RAW2) and what the device is expected to send next
  (status, codes, version). It gathers device bytes in a 4096-byte
  aggregation buffer, cuts off six-byte UIR codes, and hands RAW and RAW2
  codes to their codecs, then compacts the buffer. It also passes user
  commands to the device with a checksum byte, transcoding a Pronto code
  to TX_RAW first.
- **Three codecs.**
  - RAW (`rr_*`, module `RawCodec`): one-byte times in 50 us units.
  - RAW2 (`rr2_*`, module `Raw2Codec`): 16-bit times in 400 ns units, with carrier cycle counts averaged into a frequency.
  - Pronto (`rp_*`, module `ProntoCodec`).

  Each codec has a context class whose parse loop is proved against a pure
  step/run specification. The three share one TX_RAW encoder (module `TxRaw`):
  - a 7-byte header;
  - values of 0x80 and above escaped as `0x80|hi, lo`;
  - the escape count added, modulo 256, to the length bytes at offsets 1 and 6.

  A reference decoder for TX_RAW is the encoder's partner in round-trip lemmas.
- **Buffers and hex text** (`buf_*`, `u_*`, modules `Buffers` and `Hex`).
  A `Buffer` is a fixed byte store (`array`) with a length. Hex encoding and
  decoding are proved inverse. The decoder follows `u_hex2buf` also on an odd
  digit, which it pairs with the NUL after it before reading on.
- **USB transport arithmetic** (module `Usb`):
  - the FT232BM baud divisor, in 32-bit unsigned arithmetic;
  - the split of a write into 64-byte packets;
  - the removal of the two status bytes from each incoming packet.

Some C behaviour is undefined: a read past the data, a 129th pulse or space in a 128-entry
array, a division by zero, or a code written past the end of the output
buffer (the session's handlers write without checking its capacity). The specification functions return `None`
for it, and the methods require `Some`. Integer widths are written out where
they matter:
- 8-bit length bytes wrap;
- the escape keeps 15 bits;
- a short read in RAW2 returns `-len` as a `UInt32`;
- the baud divisor uses `bv32`.

## Model

| member | source | states |
|---|---|---|
| Buffers.Buffer.Attach | trunk/ribsu/ribsu-util.c:95-102 | The store becomes the buffer's bytes with capacity its length, and the buffer is empty. |
| Buffers.Buffer.Copy | trunk/ribsu/ribsu-util.c:105-122 | `len` takes the source length first. The copy succeeds exactly when that fits the capacity, and then the contents are the source and the rest of the store is untouched. On failure the buffer is left with `len > max` and its store unchanged. |
| Buffers.Buffer.Append | trunk/ribsu/ribsu-util.c:125-141 | Succeeds exactly when the result fits. Then the contents are the old contents followed by the source, and the store beyond them is unchanged. On refusal nothing changes. |
| Buffers.Buffer.Slide | trunk/ribsu/ribsu-util.c:144-159 | Sliding by at least the length empties the buffer and leaves the store alone. Otherwise the contents lose their first `k` bytes, in order, and the rest of the store is what bcopy leaves. |
| Buffers.Buffer.Overwrite | trunk/ribsu/uirt-sm.c:237 | The bcopy of the put-back bytes: the front of the store becomes `src`, and the rest is unchanged. |
| Hex.Hex2Val | trunk/ribsu/ribsu-util.c:216-231 | '0'-'9' map to 0-9, 'A'-'F' and 'a'-'f' to 10-15, and any other byte to 0. The result is a nibble. |
| Hex.HexDigit | trunk/ribsu/ribsu-util.c:183 | The `%02X` digit of a nibble is a hex digit (never NUL or a space) that `u_hex2val` reads back as that nibble. |
| Hex.HexEncode | trunk/ribsu/ribsu-util.c:181-185 | Two characters per byte. |
| Hex.Decode | trunk/ribsu/ribsu-util.c:191-213 | A decoded text yields fewer than half as many bytes as the store has from the start position. It is undefined (None) exactly when reading runs off the end of the store. |
| Hex.DecodeShift | trunk/ribsu/ribsu-util.c:191-213 | Decoding after a prefix is decoding the rest on its own. |
| Hex.OddDigitReadsOn | trunk/ribsu/ribsu-util.c:198-210 | An odd digit is paired with the NUL after it and decoding goes on past that NUL: `A`, NUL, `51`, NUL gives A0 51. `A`, NUL at the end of the store runs off it. |
| Hex.HexRoundTrip | trunk/ribsu/ribsu-util.c:174-213 | The text `u_buf2hex` writes, NUL-terminated, decodes to the original bytes. |
| Hex.Buf2Hex | trunk/ribsu/ribsu-util.c:174-188 | The hex store starts with the upper-case hex text, high nibble first, then a NUL. The rest of the store and the length field are untouched. |
| Hex.Hex2Buf | trunk/ribsu/ribsu-util.c:191-213 | The decoder over the hex buffer's store, on every path of `u_hex2buf`: spaces are skipped, each pair becomes `(hi<<4)\|lo`, and `len` is the number of pairs. The store beyond `len` is untouched. It needs only room for the decoded bytes. |
| TxRaw.Scaled | ribsu/uirt-raw.c:137-153 | Each time becomes `mul * x / div`, with the division truncating. |
| TxRaw.UnscaledIsIdentity | trunk/ribsu/uirt-pronto.c:104-119 | Scaling by 1/1, as `rp_output` does, leaves the times unchanged. |
| TxRaw.Escape | ribsu/uirt-raw.c:138-146 | A value below 0x80 is one byte. A value up to 0x7FFF is the two bytes `0x80 + hi`, `lo`. Every escaped value starts with a byte whose top bit is set. |
| TxRaw.EscapeCollision | ribsu/uirt-raw.c:140-141 | 0x8180 and 0x0180 are sent the same way: the escape keeps only 15 bits. |
| TxRaw.Fudge | ribsu/uirt-raw.c:142-159 | The escape count is at most the number of values. |
| TxRaw.Escaped | ribsu/uirt-raw.c:133-167 | The data is as long as the values plus the escape count. |
| TxRaw.EscapedAppend | ribsu/uirt-raw.c:133-167 | Escaping and counting escapes distribute over concatenation. |
| TxRaw.Interleave | ribsu/uirt-raw.c:133-167 | The interleaving holds every pulse and every space. |
| TxRaw.InterleaveAt | ribsu/uirt-raw.c:133-167 | While both last, position 2i holds pulse i and position 2i+1 holds space i. |
| TxRaw.InterleaveTail | ribsu/uirt-raw.c:133-167 | After the paired part, the remaining pulses or spaces follow in order. |
| TxRaw.RoundsInterleave | ribsu/uirt-raw.c:133-167 | The encoders' loop, a pulse then a space per round, produces exactly the interleaving once both are used up. |
| TxRaw.Header | ribsu/uirt-raw.c:116-127 | The header is 7 bytes. |
| TxRaw.TxRawFrame | ribsu/uirt-raw.c:116-172 | Opcode 0x36. Byte 1 is the frame length minus 1 and byte 6 the data length, both modulo 256. The data is the escaped values. |
| TxRaw.UnescapeEscaped | ribsu/uirt-raw.c:138-146 | Reading escaped values back gives the values when each is below 0x8000. |
| TxRaw.TxRawRoundTrip | ribsu/uirt-raw.c:98-175 | A frame decodes back to its frequency byte (mod 256), repeat count, interspace and values, when each value is below 0x8000. |
| TxRaw.WriteHeader | ribsu/uirt-raw.c:116-127 | Writes the 7-byte header with `6 + count` and `count` in the length bytes. Nothing else changes. |
| TxRaw.EmitValue | ribsu/uirt-raw.c:137-149 | Writes one escaped value and counts the escape. |
| TxRaw.EmitRound | ribsu/uirt-raw.c:133-167 | One loop round writes the next pulse and then the next space, where they remain, and counts their escapes. |
| TxRaw.WriteValues | ribsu/uirt-raw.c:129-167 | The data loop writes the escaped interleaving of the scaled pulses and spaces, and returns the escape count. It needs room only for the values and their escapes. |
| TxRaw.AddFudge | ribsu/uirt-raw.c:171-172 | Adds the escape count to bytes 1 and 6, modulo 256. |
| TxRaw.WriteTxRaw | ribsu/uirt-raw.c:98-175 | The encoder shared by `rr_output`, `rr2_output` and `rp_output`. The bytes written are exactly the TX_RAW frame of the scaled times, and bytes after it are untouched. It needs only room for that frame. |
| RawCodec.Step | ribsu/uirt-raw.c:47-73 | Every helper call but init advances the offset. Init moves on to the interspace. |
| RawCodec.Run | ribsu/uirt-raw.c:45-74 | The loop never moves backwards. |
| RawCodec.ParseFrame | ribsu/uirt-raw.c:32-87 | A code of k pulses whose first space slot above 0x80 follows pulse k consumes `2k+2` bytes. It drops all of them after 0xFF. After a long space it drops all but the last two, the k-th pulse and the terminator, whose place two zero bytes take. It records the interspace, the k pulses and the k-1 spaces. |
| RawCodec.ParseIncomplete | ribsu/uirt-raw.c:76-84 | Without a terminator, the parse reports nothing found (`n` is 0). |
| RawCodec.RunDone | ribsu/uirt-raw.c:45-74 | A code can only finish at least four bytes in, within the input, with at most 128 times of each kind recorded. |
| RawCodec.ParsedFound | ribsu/uirt-raw.c:76-80 | Once a code is reported from a zeroed context, `m <= n <= len` and `n - m <= 2`. The put-back bytes are two zeros, and the context holds the default frequency. |
| RawCodec.OutputDecodes | ribsu/uirt-raw.c:98-175 | With a valid frequency byte, the command decodes to `2500000/freq`, the repeat count, the interspace, and the pulses times 78000/freq and spaces times 80000/freq, interleaved. |
| RawCodec.FreqBound | ribsu/uirt-raw.c:107-114 | A frequency byte below 0x80 means a carrier above 19531 Hz. |
| RawCodec.DefaultFreqByte | ribsu/uirt-raw.c:182 | The default 38461 Hz gives frequency byte 0x41. |
| RawCodec.RawCtx.Zeroed | trunk/ribsu/uirt-sm.c:207 | The context `usm_process_raw` hands to `rr_parse` starts all zero. |
| RawCodec.RawCtx.Init | ribsu/uirt-raw.c:178-186 | Zeroes the context, sets frequency 38461 and repeat 1, and consumes nothing. |
| RawCodec.RawCtx.ReadInterspace | ribsu/uirt-raw.c:189-201 | Two bytes big-endian, unscaled, consumed. |
| RawCodec.RawCtx.ReadPulse | ribsu/uirt-raw.c:204-217 | One byte, appended to the pulses. |
| RawCodec.RawCtx.ReadSpace | ribsu/uirt-raw.c:220-250 | 0xFF sets done 2. Any other value above 0x80 sets done 1. Anything else, 0x80 included, is appended. One byte is consumed. |
| RawCodec.RawCtx.Parse | ribsu/uirt-raw.c:32-87 | The loop's result and final context are those of the specification. |
| RawCodec.RawCtx.SetFrequency | ribsu/uirt-raw.c:90-93 | Overwrites the frequency and nothing else. |
| RawCodec.RawCtx.Output | ribsu/uirt-raw.c:98-175 | Writes the TX_RAW frame of the context and leaves the rest of the output store alone. It needs only room for that frame. |
| Raw2Codec.ShortStops | ribsu/uirt-raw2.c:73-76 | A helper's `-len` return exceeds what is left, so the loop stops without advancing. |
| Raw2Codec.Helper | ribsu/uirt-raw2.c:47-73 | Every helper but init consumes bytes when it succeeds. |
| Raw2Codec.Run2 | ribsu/uirt-raw2.c:43-80 | The loop's offset stays between its start and the input length. |
| Raw2Codec.RunFits | ribsu/uirt-raw2.c:300-332 | The loop never records more times than the 128-entry arrays hold. |
| Raw2Codec.ParsedBounds | ribsu/uirt-raw2.c:84-105 | From a zeroed context, `m <= n <= len`. `n - m` is covered by the put-back bytes, which are two zeros once a code is done. |
| Raw2Codec.StepMark | ribsu/uirt-raw2.c:269-303 | A pulse of 3 or 4 bytes (15-bit cycle count when the top bit is set) is recorded. It adds a carrier sample when its count is not 0. |
| Raw2Codec.StepSpace | ribsu/uirt-raw2.c:306-335 | A 16-bit space up to 0x3E80 is recorded and 2 bytes are consumed. |
| Raw2Codec.StepEnd | ribsu/uirt-raw2.c:312-329 | 0xFF (1 byte) or a space above 0x3E80 (2 bytes) ends the code with done 2 or 1. |
| Raw2Codec.ParseFrame2 | ribsu/uirt-raw2.c:32-108 | A well-formed code parses completely. It records the rescaled interspace, the pulse times, the spaces and the averaged frequency, keeps two bytes after a long-space ending, and does not read what follows. |
| Raw2Codec.FinishDone | ribsu/uirt-raw2.c:84-100 | On done, `m` is `n - 2` after a long space, else `n`. The put-back bytes are zeros, and the context returns to INIT with done 0. |
| Raw2Codec.IncompleteReportsBytes | ribsu/uirt-raw2.c:84-105 | With only an interspace read, `done` is false yet `n` is 2, and the frequency is still 0. |
| Raw2Codec.InterspaceRescale | ribsu/uirt-raw2.c:258-260 | An interspace of 512 becomes 500. |
| Raw2Codec.PulseCutShort | ribsu/uirt-raw2.c:283-286 | A pulse whose 15-bit count is cut off consumes nothing and changes nothing. |
| Raw2Codec.Output2Decodes | ribsu/uirt-raw2.c:159-237 | The command decodes to `2500000/calc_freq`, the repeat count, the interspace, and every time times `560/calc_freq`, interleaved, when each value is below 0x8000. |
| Raw2Codec.ProntoFrameWords | ribsu/uirt-raw2.c:112-154 | Word j after the 8-byte header is value j (mod 2^16), and the last word is `calc_freq/100`. |
| Raw2Codec.WriteWords | ribsu/uirt-raw2.c:127-146 | The loop writes every scaled pulse and space as a big-endian word, interleaved pulse-first. |
| Raw2Codec.Raw2Ctx.Zeroed | trunk/ribsu/uirt-sm.c:251 | The context `usm_process_raw2` hands to `rr2_parse` starts all zero, in the INIT phase. |
| Raw2Codec.Raw2Ctx.Init | ribsu/uirt-raw2.c:240-247 | Zeroes the context, sets repeat 1, and consumes nothing. |
| Raw2Codec.Raw2Ctx.ReadInterspace | ribsu/uirt-raw2.c:250-265 | Equal to the interspace helper's specification: 2 bytes rescaled by 500/512, or a short return with the context untouched. |
| Raw2Codec.Raw2Ctx.ReadPulse | ribsu/uirt-raw2.c:269-303 | Equal to the pulse helper's specification. |
| Raw2Codec.Raw2Ctx.ReadSpace | ribsu/uirt-raw2.c:306-335 | Equal to the space helper's specification. |
| Raw2Codec.Raw2Ctx.Finalize | ribsu/uirt-raw2.c:338-351 | The average sample, or 1 when there is none. |
| Raw2Codec.Raw2Ctx.Turn | ribsu/uirt-raw2.c:47-73 | Calls the helper for the context's phase. |
| Raw2Codec.Raw2Ctx.Conclude | ribsu/uirt-raw2.c:84-105 | Builds `rr2_ret` and finalises and resets a finished context. |
| Raw2Codec.Raw2Ctx.Parse | ribsu/uirt-raw2.c:32-108 | The loop's result and final context are those of the specification. |
| Raw2Codec.Raw2Ctx.Output | ribsu/uirt-raw2.c:159-237 | Writes the TX_RAW frame of the times scaled by 560/calc_freq. It needs only room for that frame. |
| Raw2Codec.Raw2Ctx.OutputPronto | ribsu/uirt-raw2.c:112-154 | Writes the 8-byte header, the scaled words, and the 10 ms trailer. |
| ProntoCodec.Initial | trunk/ribsu/uirt-pronto.c:142-168 | The frequency is `4145146 / divisor`, truncated. Repeat 1, interspace 0, nothing recorded. |
| ProntoCodec.Step | trunk/ribsu/uirt-pronto.c:36-57 | Every helper call advances, and pulse and space alternate after init. |
| ProntoCodec.Run | trunk/ribsu/uirt-pronto.c:36-57 | The loop stops only at or past `len`. |
| ProntoCodec.ParseFrame | trunk/ribsu/uirt-pronto.c:26-60 | `8 + 4k` bytes give the words at 8, 12, … as k pulses and those at 10, 14, … as k spaces. |
| ProntoCodec.ParseTrailingPulse | trunk/ribsu/uirt-pronto.c:26-60 | `8 + 4k + 2` bytes give one pulse more than spaces. |
| ProntoCodec.ParseShort | trunk/ribsu/uirt-pronto.c:26-60 | A code cut inside its preamble records only the preamble's context. |
| ProntoCodec.Divisor118 | trunk/ribsu/uirt-pronto.c:156-159 | Divisor 118 means 35128 Hz, which is frequency byte 71. |
| ProntoCodec.RunSane | trunk/ribsu/uirt-pronto.c:36-57 | The loop keeps a non-zero carrier and at most 128 times of each kind. |
| ProntoCodec.ParsedSane | trunk/ribsu/uirt-pronto.c:26-60 | A non-empty parse leaves a context `rp_output` can encode. |
| ProntoCodec.OutputDecodes | trunk/ribsu/uirt-pronto.c:65-139 | The command decodes to the frequency byte (mod 256), repeat, interspace and the unscaled times, interleaved. |
| ProntoCodec.Transcode | trunk/ribsu/uirt-sm.c:148-153 | A whole Pronto code with times below 0x8000, parsed and output, decodes to repeat 1, interspace 0, the frequency byte of `4145146/divisor`, and the words in their original order. |
| ProntoCodec.ProntoCtx.Zeroed | trunk/ribsu/uirt-sm.c:108 | The context `usm_process_user` hands to `rp_parse` starts all zero. |
| ProntoCodec.ProntoCtx.Init | trunk/ribsu/uirt-pronto.c:142-168 | Consumes 8 bytes and reads the divisor at offset 2. |
| ProntoCodec.ProntoCtx.ReadPulse | trunk/ribsu/uirt-pronto.c:172-188 | Two bytes big-endian, appended to the pulses. |
| ProntoCodec.ProntoCtx.ReadSpace | trunk/ribsu/uirt-pronto.c:192-208 | Two bytes big-endian, appended to the spaces. |
| ProntoCodec.ProntoCtx.Parse | trunk/ribsu/uirt-pronto.c:26-60 | Returns 0, and the final context is the specification's. |
| ProntoCodec.ProntoCtx.Output | trunk/ribsu/uirt-pronto.c:65-139 | Writes the TX_RAW frame of the unscaled times. It needs only room for that frame. |
| Session.Accept | trunk/ribsu/uirt-sm.c:210-219 | A chunk that fits the 4096 bytes is appended, and one that does not is dropped with the buffer unchanged. |
| Session.AcceptNothing | trunk/ribsu/uirt-sm.c:210 | No input changes nothing. |
| Session.Slid | trunk/ribsu/uirt-sm.c:236 | Sliding drops the first `k` bytes. |
| Session.Refill | trunk/ribsu/uirt-sm.c:234-241 | The fix-up keeps the mode, wait state and default frequency. |
| Session.RefillContents | trunk/ribsu/uirt-sm.c:234-241 | After a code with `m != n`, the buffer is the `n - m` put-back bytes followed by the bytes after `n`. With `m == n` it is empty. |
| Session.UirSplits | trunk/ribsu/uirt-sm.c:182-202 | The output and the remaining buffer are, in this order, exactly the bytes gathered. The output is one six-byte code, or nothing while fewer than six are there. |
| Session.RawCodeConsumed | trunk/ribsu/uirt-sm.c:205-246 | A complete RAW code at the front yields its TX_RAW command, and the step is defined exactly when that command fits the output buffer. Two zero bytes and what followed remain after a long space, and nothing after 0xFF. |
| Session.RawFoundCode | trunk/ribsu/uirt-sm.c:221-245 | A RAW step without input that finds a code outputs the code's command when it fits the output buffer, and fixes the aggregation buffer up. A longer command is undefined. |
| Session.Raw2PartialCode | trunk/ribsu/uirt-sm.c:265-269 | On a lone interspace, the test as written divides by zero, while the corrected step emits nothing and keeps both bytes. |
| Session.Raw2StepAsWritten | trunk/ribsu/uirt-sm.c:249-284 | The `ret.n` test as written: undefined where the parse is, and equal to the corrected step wherever the parser reads bytes exactly when it finishes a code. |
| Session.Raw2KeepsPartial | trunk/ribsu/uirt-sm.c:249-284 | With the corrected test an unfinished code is never lost: nothing is emitted and every gathered byte stays. |
| Session.EmptyChunkIdle | trunk/ribsu/uirt-sm.c:59-61 | An empty chunk changes nothing and outputs nothing, and so does a "more" call in RAW2 or echo mode. |
| Session.Transition | trunk/ribsu/uirt-sm.c:110-144 | The mode commands set their mode and wait for status. Get-version waits for the version and leaves the mode alone. The other listed commands and 0x00 wait for status and leave the mode alone. Any other byte forces echo mode. |
| Session.ChecksumZero | trunk/ribsu/uirt-sm.c:307-313 | With the checksum byte appended, all bytes sum to 0 modulo 256. |
| Session.ChecksumExample | trunk/ribsu/uirt-sm.c:307-313 | `36 06 41 01 00 00 00` gets checksum 0x82. |
| Session.UserStep | trunk/ribsu/uirt-sm.c:106-173 | Defined exactly when the bytes to send are. Of the session, only the mode and wait state, set by the command byte, and the buffer, emptied, change; the default frequency and the store stay. |
| Session.UserOutput | trunk/ribsu/uirt-sm.c:106-173 | A user command empties the buffer and sets mode and wait state by its first byte. A non-Pronto command goes out unchanged. The bytes sent are the command (or the Pronto code's TX_RAW command) followed by the byte that makes their sum 0 mod 256, unless the command alone fills the output buffer; then it goes out without one. |
| Session.UserDefined | trunk/ribsu/uirt-sm.c:148-172 | A user step is defined exactly when a non-Pronto command fits the output buffer, or when a Pronto code parses and its TX_RAW command fits. |
| Session.Checksum | trunk/ribsu/uirt-sm.c:296-317 | A full buffer returns -1 and is unchanged. Otherwise the checksum byte is appended and 0 is returned. |
| Session.Send | trunk/ribsu/uirt-sm.c:148-172 | The output is the Pronto code transcoded, or the command copied, then the checksum. It needs the user step to be defined for the output buffer's capacity. |
| Session.TranscodePronto | trunk/ribsu/uirt-sm.c:148-153 | `rp_parse` then `rp_output` into the output buffer. It needs only room for the transcoded command. |
| Session.Session.Init | trunk/ribsu/uirt-sm.c:45-54 | UIR mode, waiting for codes, no default frequency, an empty 4096-byte aggregation buffer. |
| Session.Session.SetDefaultFrequency | trunk/ribsu/uirt-sm.c:176-179 | Sets the default frequency and nothing else. |
| Session.Session.Gather | trunk/ribsu/uirt-sm.c:210-219 | Appends the chunk when it fits. |
| Session.Session.ProcessUir | trunk/ribsu/uirt-sm.c:182-202 | Equal to the UIR step, which is defined when a six-byte code it outputs fits the output buffer. |
| Session.Session.Fixup | trunk/ribsu/uirt-sm.c:234-241 | Equal to Refill. |
| Session.Session.ProcessRaw | trunk/ribsu/uirt-sm.c:205-246 | Equal to the RAW step. |
| Session.Session.EmitRaw | trunk/ribsu/uirt-sm.c:221-245 | Parse, output at the default frequency when one is set, and fix up. |
| Session.Session.ProcessRaw2 | trunk/ribsu/uirt-sm.c:249-284 | Equal to the corrected RAW2 step. |
| Session.Session.EmitRaw2 | trunk/ribsu/uirt-sm.c:265-283 | Parse, output on a finished code, and fix up. |
| Session.Session.ProcessThru | trunk/ribsu/uirt-sm.c:287-293 | Copies the chunk and waits for codes again. |
| Session.Session.ProcessUirt | trunk/ribsu/uirt-sm.c:57-87 | Equal to the dispatch on wait state and mode. |
| Session.Session.ProcessUirtMore | trunk/ribsu/uirt-sm.c:90-103 | The UIR or RAW handler without input, and nothing in other modes. |
| Session.Session.ProcessUser | trunk/ribsu/uirt-sm.c:106-173 | Equal to the user step. |
| Usb.FractionCodes | ribsu/usb.c:429 | The fraction codes and the eighths they stand for are inverse tables. |
| Usb.BaudDivisor | ribsu/usb.c:426-438 | `base/2/baud` eighths in unsigned 32-bit arithmetic, encoded; whenever that divisor is between 1 and 2^14 and not 1.0 or 1.5, the device reads the result back as exactly that many eighths. |
| Usb.Encode | ribsu/usb.c:431-437 | For a divisor whose integer part fits 14 bits, the encoding fits 17 bits, is 0 exactly for 0 and 1.0, and 1 exactly for 1.5. |
| Usb.EncodeRoundTrip | ribsu/usb.c:431-437 | Except for the two special cases, reading the divisor back gives `base/2/baud` in eighths, while its integer part is below 2^14. |
| Usb.EncodeSpecialCases | ribsu/usb.c:435-436 | Exactly 1.0 is sent as 0, and 1.5 as 1. |
| Usb.UirtBaud | ribsu/usb.c:507-515 | 312500 baud from 48 MHz is 0x4009, sent as wValue 0x4009 and wIndex 0. |
| Usb.Chunk | ribsu/usb.c:241-247 | Each packet is 1 to 64 bytes long. |
| Usb.ChunksCover | ribsu/usb.c:239-249 | The packets, in order, are the buffer, and every packet but the last is 64 bytes. |
| Usb.Write | ribsu/usb.c:229-258 | Hands the packets to the pipe in order and stops after the first refused one. Returns -1 exactly when a packet was refused, and 0 otherwise. |
| Usb.Payload | ribsu/usb.c:597-601 | A packet longer than two bytes delivers the rest, and its status bytes followed by what it delivers are the packet. |
| Usb.StripStatus | ribsu/usb.c:597-608 | More than two bytes are shifted down over the status bytes and delivered with `len = size - 2`, the store from `size - 2` on untouched. A shorter packet is not delivered and nothing changes. |

## Left out

- I/O:
  - IOKit (device discovery, pipes, control requests, asynchronous reads, the run loop);
  - the serial transport;
  - the glue in ribsu.c;
  - the command-line program.

  The pipe's answer to each packet of `usb_write` is a parameter (`accepted`). `usb_read_callback` reports delivery as a result instead of calling the callback.
- Logging and debugging code: the hex dump of the transcoded Pronto code, the `max_s` statistic in `rr_space`, and the ERR messages.
- `buf_alloc`, `buf_init`, `buf_free`: memory allocation.
- RawCodec.RawCtx.Zeroed, Raw2Codec.Raw2Ctx.Zeroed, ProntoCodec.ProntoCtx.Zeroed: the codec contexts are uninitialised stack variables in `usm_process_raw`, `usm_process_raw2` and `usm_process_user`. `rr_parse` tests `done` before `rr_init` clears it. The model starts each from an all-zero context.
- Session.UserStep: an empty user command is excluded (`0 < len`). `usm_process_user` still reads its first byte.
- TxRaw.Escape: values of 0x8000 and above are escaped as C does, keeping 15 bits. Round trips are stated only below 0x8000 (see TxRaw.EscapeCollision).
- Usb.BaudDivisor: `base` is taken as a non-negative `int`. Its only caller passes 48000000.
- Usb.Write: the `UInt32` offset `i + 64` is not wrapped; buffers are far below 2^32 bytes.
- The older copy of the RAW2 codec under trunk/ribsu is not modelled; the session is modelled with the length-checked one.

## Findings

| source | as written | input that shows it | evidently intended | confidence | as-written member | corrected member |
|---|---|---|---|---|---|---|
| trunk/ribsu/uirt-sm.c:266 | `usm_process_raw2` takes `ret.n != 0` as "a code was found". The length-checked `rr2_parse` returns `n` bytes read even when no code is finished (ribsu/uirt-raw2.c:84, 101-105), and `rr2_final`, which sets `calc_freq`, runs only on a finished code. | RAW2 mode, empty aggregation buffer, device chunk `00 10`. `n` is 2, `done` is 0, and `rr2_output` divides by `calc_freq` = 0. | Test the parser's flag `ret.done`: emit nothing and keep the bytes until the code is complete. | high; not executed | Session.Raw2StepAsWritten, Session.Raw2PartialCode | Session.Raw2Step, Session.Raw2KeepsPartial, Session.Session.ProcessRaw2 |
