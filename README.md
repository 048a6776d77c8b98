# RK3399 I2C4 polled master: the write transaction

This project models the write path of the polled I2C master driver for I2C4 on the RK3399 (ROCKPro64) in `rk3399-i2c.c`, and proves properties of it. It covers:

- `rk_i2c_send_start_bit` and `rk_i2c_send_stop_bit`. Each one clears IPD, requests the condition, and counts down a wait on one pending bit.
- `rk_i2c_disable`.
- `rk_i2c_write`. It splits the stream into chunks of at most 32 bytes. Each chunk is packed byte by byte into the eight TXDATA words and launched. Then completion is polled, with NACK counted on the way. The exit path sends STOP and then disables the controller.
- `rk_i2c_send_data`.
- The bus scan `rk_i2c_detect`.

The model has two layers.

- **Pure layer.** These modules say what each routine does, as functions of the inputs and of a scripted device:
  - `Registers`: masks, accesses, register values.
  - `Polling`: the countdown waits, START and STOP.
  - `Packing`: chunk sizes and the byte-to-word packer.
  - `Engine`: the chunk loop, the error rules and the exit path.
  - `Scan`: `send_data` and `detect`.

  The device is a sequence of status words. Each one is returned by the next volatile read of `I2C4_IPD`, and once the sequence runs out a read returns 0. A routine's result is an `Outcome` with three parts:
  - the return code;
  - the log of every register access and `udelay` call, in order;
  - the position of the next unread status.
- **Imperative layer.** `Controller.I2c` is the register bank as an object. Its fields hold CON, IEN and MTXCNT, and TXDATA0..7 is an array. It keeps the access log and the read counter. Each driver routine is a method with the source's own loops:
  - the `TimeOut--` countdowns;
  - the `bytes_remain_len` loop;
  - the `i`/`j` packing loops with the `pbuf` cursor;
  - the scan loop.

  Each method is proved to make exactly the accesses, and return exactly the result, of its pure counterpart. `Valid()` ties the fields to the values the log leaves in the registers.

The quirks of the code are modelled as written:

- **Header in every chunk.** The address byte and the register bytes are packed into word 0 of every chunk, not only the first. A write of more than 32 bytes therefore sends fewer than `b_len` payload bytes (`Engine.MultiChunkShort`).
- **Last-check hit is a timeout.** A pending bit seen on the last check of a wait still counts as a timeout. The post-decrement leaves `TimeOut` at 0, and the test is `TimeOut <= 0`.
- **NACK does not stop the loop.** A NACK sets `I2C_ERROR_NOACK`, but the wait and the loop go on.
- **Transmit timeout.** It aborts the remaining chunks and takes the exit path.
- **Failed START.** It returns at once, with no STOP and no disable.
- **STOP result.** The exit path drops it.
- **STOP enables an interrupt by the CON bit.** The stop routine writes `I2C_CON_STOP` into IEN.

The driver's header `rk3399_i2c.h` is not part of this model. Its values are taken as follows:

- The bit masks follow the RK3399 I2C register layout. `Registers` lists the values.
- `RK_I2C_FIFO_SIZE` is 32, which matches the literal 32 at line 145.
- `I2C_TIMEOUT_US` is the `budget` parameter of the device, so every property holds for any budget. Where the source's behaviour needs the budget to be at least 1, the lemmas say so.
- `I2C4_TXDATA_BASE` is taken to point to 32-bit registers, so the write to `I2C4_TXDATA_BASE + i` at line 165 is a write to TXDATA[i].

The first byte of each chunk is the 7-bit slave address followed by R/W = 0. This is the layout of section 3.1.10 of the I2C-bus specification (NXP UM10204).

## Model

| member | source | states |
|---|---|---|
| Registers.Step | rk3399-i2c.c:165-171 | A write to CON or to a TXDATA register sets exactly that register. Every other access leaves CON and TXDATA alone. |
| Registers.Replay | rk3399-i2c.c:165-171 | Replaying a log of accesses keeps the eight TXDATA registers. |
| Registers.ReplayAppend | rk3399-i2c.c:143-192 | Replaying two logs one after the other is the same as replaying their concatenation, so it is safe to reason chunk by chunk. |
| Registers.EndsDisabled | rk3399-i2c.c:122-125 | Any access log that ends with the CON := 0 write leaves CON at 0. |
| Registers.CountAppend | rk3399-i2c.c:194-196 | The number of times an access occurs in concatenated logs is the sum of its counts in each. |
| Polling.PollReplay | rk3399-i2c.c:86-92 | A wait touches only IPD and the delay, so the control registers are the same after it as before. |
| Polling.WaitBit | rk3399-i2c.c:86-92 | A countdown from t reads at most t statuses, makes two accesses per read, and leaves TimeOut between -1 and t - 1. |
| Polling.Misses | rk3399-i2c.c:86-92 | k missed checks make 2k accesses. |
| Polling.WaitBitResume | rk3399-i2c.c:86-92 | After k misses, the wait is those misses followed by the same wait with k fewer checks. |
| Polling.WaitBitResumeStep | rk3399-i2c.c:86-92 | One more miss advances a resumed wait by one check. |
| Polling.WaitBitAfter | rk3399-i2c.c:86-95 | A wait whose first hit is at check k, or that has no hit, ends with the state BitAfter gives for k. |
| Polling.WaitBitSucceeds | rk3399-i2c.c:86-95 | A wait succeeds exactly when the bit is seen at some check below t - 1. A hit on the last check counts as a timeout. |
| Polling.WaitBitFirstHit | rk3399-i2c.c:86-90 | The first hit, at check k, leaves TimeOut at t - 1 - k, consumes k + 1 reads, and ends by clearing the bit through IPD. |
| Polling.WaitBitNoHit | rk3399-i2c.c:86-95 | With no hit, the wait consumes t reads, leaves TimeOut at -1, and never writes IPD. |
| Polling.WaitBitClears | rk3399-i2c.c:86-90 | A wait that ends with TimeOut above 0 ends by writing the bit to IPD, after at least one read. |
| Polling.StartPreambleEffect | rk3399-i2c.c:82-84 | The START preamble leaves CON at EN together with START, and IEN at STARTIEN. MTXCNT and TXDATA are unchanged. |
| Polling.StopPreambleEffect | rk3399-i2c.c:104-106 | The STOP preamble leaves CON at EN together with STOP, and IEN holding the CON stop bit. MTXCNT and TXDATA are unchanged. |
| Polling.SendStartBit | rk3399-i2c.c:78-98 | START returns I2C_OK or I2C_ERROR_TIMEOUT and reads at most budget statuses. After its three preamble writes it only polls. On success its last access clears STARTIPD. |
| Polling.SendStopBit | rk3399-i2c.c:100-120 | STOP returns I2C_OK or I2C_ERROR_TIMEOUT and reads at most budget statuses. After its three preamble writes it only polls. On success its last access clears STOPIPD. |
| Polling.StartBitResult | rk3399-i2c.c:78-98 | START returns I2C_OK exactly when STARTIPD is seen before the last check, and I2C_ERROR_TIMEOUT otherwise. It reads at most budget statuses. After the IPD-clear, CON and IEN writes it only polls, and on success it has cleared STARTIPD. |
| Polling.StopBitResult | rk3399-i2c.c:100-120 | STOP returns I2C_OK exactly when STOPIPD is seen before the last check, and I2C_ERROR_TIMEOUT otherwise. Its preamble writes I2C_CON_STOP into IEN, after the preamble it only polls, and on success it has cleared STOPIPD. |
| Polling.WaitTx | rk3399-i2c.c:174-184 | A transmit wait from t makes at most t iterations of two IPD reads each, leaves TimeOut between -1 and t - 1, and only polls. |
| Polling.NakOpsShape | rk3399-i2c.c:175-178 | The NACK check reads IPD once, then clears NAKRCVIPD exactly when that read shows it, and does nothing else. |
| Polling.TxPassShape | rk3399-i2c.c:175-183 | An iteration without MBTF only polls and ends with its second IPD read and udelay(1). It never clears MBTF, and it clears NAKRCV exactly when its first read shows it. |
| Polling.TxHitShape | rk3399-i2c.c:175-181 | An iteration with MBTF only polls and ends with its second IPD read and the MBTF clear, with no udelay. It clears NAKRCV exactly when its first read shows it. |
| Polling.TxShift | rk3399-i2c.c:175-179 | Iteration k + 1 of a wait is iteration k of the wait that starts two reads later. |
| Polling.WaitTxMissAt | rk3399-i2c.c:174-184 | The same miss step, for iteration k of a wait. |
| Polling.WaitTxResume | rk3399-i2c.c:174-184 | After k iterations without MBTF, the wait is those iterations, with their NACKs ORed in, followed by the wait with k fewer checks. |
| Polling.WaitTxResumeStep | rk3399-i2c.c:174-184 | One more iteration without MBTF advances a resumed transmit wait by one iteration. |
| Polling.WaitTxMissNext | rk3399-i2c.c:174-184 | The wait at iteration j is iteration j joined to the wait at iteration j + 1. |
| Polling.WaitTxFound | rk3399-i2c.c:174-184 | The first MBTF at iteration k leaves TimeOut at t - k - 1 and records the NACKs of iterations 0..k. |
| Polling.WaitTxExhausted | rk3399-i2c.c:174-189 | With no MBTF, the wait runs all t iterations and leaves TimeOut at -1. |
| Polling.WaitTxAfter | rk3399-i2c.c:174-189 | A wait whose first MBTF is at k, or that has none, ends with the state TxAfter gives for k. |
| Polling.WaitTxSucceeds | rk3399-i2c.c:174-189 | A transmit wait succeeds exactly when MBTF is seen at an iteration below t - 1. |
| Polling.WaitTxNack | rk3399-i2c.c:175-178 | A transmit wait reports a NACK exactly when NAKRCV is seen in one of the iterations it runs. |
| Polling.WaitTxClears | rk3399-i2c.c:179-181 | A transmit wait that succeeds ends by clearing MBTF through IPD. |
| Polling.WaitBitAgree | rk3399-i2c.c:86-92 | A START or STOP wait depends only on the statuses it reads. |
| Polling.WaitTxAgree | rk3399-i2c.c:174-184 | A transmit wait depends only on the statuses it reads. |
| Packing.ChunkSize | rk3399-i2c.c:144-148 | A chunk is at most 32 bytes and at most the bytes left. It is positive while bytes remain, and it is all the bytes left when at most 32 remain. |
| Packing.Words | rk3399-i2c.c:149 | A chunk uses ceil(size / 4) words, so at most eight. |
| Packing.ShiftByAsWritten | rk3399-i2c.c:161-163 | The per-case shifts equal the source's shifts by (j - 1) * 8 and j * 8 bits. |
| Packing.Contribution | rk3399-i2c.c:158-164 | The term ORed in at position 4i + j is chunk byte 4i + j placed at byte j of the word. For an 8-bit `chip`, the term at position 0 also carries the top bit of `chip` into bit 8. |
| Packing.AddressBytes | rk3399-i2c.c:159 | `chip << 1` computed in `int` is the byte `chip << 1`, with bit 8 set exactly when `chip` >= 0x80. |
| Packing.Contributions | rk3399-i2c.c:153-164 | The first j passes of the inner loop give j terms. |
| Packing.PartialWordStep | rk3399-i2c.c:152-164 | Each inner-loop pass ORs its term into the word built so far. |
| Packing.PartialWord | rk3399-i2c.c:152-164 | After j passes, the local txdata of word i is the little-endian packing of chunk bytes 4i .. 4i + j - 1. In word 0 it also holds the carried address bit. |
| Packing.ContributionsPlaced | rk3399-i2c.c:152-164 | The OR of the first j terms of word i is the packing of its chunk bytes, plus the address carry in word 0. |
| Packing.OrFoldMarked | rk3399-i2c.c:152-164 | ORing a mask into the first of several words ORs it into their OR. |
| Packing.WordEnd | rk3399-i2c.c:153-156 | The inner loop of word i runs 1 to 4 passes and stops at the chunk size. |
| Packing.PartialWords | rk3399-i2c.c:152-165 | There is one stored value per inner-loop pass of a word. |
| Packing.WriteAll | rk3399-i2c.c:165 | There is one TXDATA write per inner-loop pass. |
| Packing.WriteAllReplay | rk3399-i2c.c:165 | The repeated writes to TXDATA[i] leave the last value in TXDATA[i] and change nothing else. |
| Packing.WriteAllSnoc | rk3399-i2c.c:165 | One more pass adds exactly one TXDATA[i] write. |
| Packing.PartialWordsAccumulated | rk3399-i2c.c:152-165 | The stored sequence of a word grows pass by pass from 0. |
| Packing.PartialWordGrows | rk3399-i2c.c:152-165 | Every pass of a word satisfies that growth step. |
| Packing.Header | rk3399-i2c.c:158-161 | The header is r_len + 1 bytes: the address byte, then the register bytes. |
| Packing.ChunkBytes | rk3399-i2c.c:151-164 | The byte view of a chunk has exactly size bytes. For a 7-bit address these are the bytes the packer places in TXDATA. |
| Packing.ChunkLayout | rk3399-i2c.c:158-163 | Every chunk is the header followed by the payload at the cursor, in order, cut to the chunk size. Its first byte has R/W = 0. |
| Packing.Placed | rk3399-i2c.c:159-163 | Each byte is placed at its own position in the word. |
| Packing.ByteOfShifted | rk3399-i2c.c:159-163 | A byte shifted to position m shows at byte m and nowhere else. |
| Packing.ByteOfOr | rk3399-i2c.c:159-163 | Each byte of an OR of words is the OR of those bytes. |
| Packing.LittleEndianBytes | rk3399-i2c.c:159-165 | Byte k of the little-endian packing of up to four bytes is byte k, or 0 beyond the end. |
| Packing.RegShift1 | rk3399-i2c.c:161 | With j = 1, the register term is reg byte 0, placed at byte 1. |
| Packing.RegShift2 | rk3399-i2c.c:161 | With j = 2, the register term is reg byte 1, placed at byte 2. |
| Packing.RegShift3 | rk3399-i2c.c:161 | With j = 3, the register term is reg byte 2, placed at byte 3. |
| Packing.ByteShift0 | rk3399-i2c.c:163 | A payload byte at j = 0 lands at byte 0. |
| Packing.ByteShift1 | rk3399-i2c.c:163 | A payload byte at j = 1 lands at byte 1. |
| Packing.ByteShift2 | rk3399-i2c.c:163 | A payload byte at j = 2 lands at byte 2. |
| Packing.ByteShift3 | rk3399-i2c.c:163 | A payload byte at j = 3 lands at byte 3. |
| Packing.RegPartIsByte | rk3399-i2c.c:161 | Header byte j is register byte j - 1, placed at byte j. |
| Packing.BytePartIsByte | rk3399-i2c.c:163 | A payload term is the byte placed at position j. |
| Packing.PartialWordPacks | rk3399-i2c.c:151-166 | After j passes, word i is the little-endian packing of chunk bytes 4i .. 4i + j - 1. |
| Packing.Stamp | rk3399-i2c.c:165 | The stamped TXDATA has eight words. |
| Packing.StampAt | rk3399-i2c.c:151-167 | After the writes of words 0..n-1, word i < n holds the last value written to it, and every other word keeps its value. |
| Packing.RowWritesReplay | rk3399-i2c.c:151-167 | The writes of the first n words leave TXDATA stamped with each word's last value. |
| Packing.RowWritesTargets | rk3399-i2c.c:151-167 | Packing the first n words writes only TXDATA[0..n-1]. |
| Packing.FillOps | rk3399-i2c.c:151-167 | Packing the first n words of a chunk writes only TXDATA registers, and only TXDATA[0 .. n - 1]. |
| Packing.ChunkRows | rk3399-i2c.c:151-167 | A chunk has one row of stored values per word. |
| Packing.ChunkRowAccumulated | rk3399-i2c.c:151-167 | Each row of a chunk has the right number of passes and grows from 0. |
| Packing.ChunkRowsAccumulated | rk3399-i2c.c:151-167 | Every row of a chunk grows from 0 pass by pass. |
| Packing.ChunkRowLast | rk3399-i2c.c:151-167 | The last value stored in word i is the word after all of its passes. |
| Packing.FillOpsReplay | rk3399-i2c.c:151-167 | Packing leaves TXDATA stamped with the last value of each word. |
| Packing.PackedWords | rk3399-i2c.c:149-167 | For a 7-bit address, packing a chunk sets byte k of TXDATA[i] to chunk byte 4i + k, or to 0 past the chunk end. It leaves the words past ceil(size / 4), CON, IEN and MTXCNT unchanged. |
| Packing.WriteAllTargets | rk3399-i2c.c:165 | Each write of word i carries the value stored at that pass. |
| Engine.ChunkSizes | rk3399-i2c.c:143-148 | Every chunk of the loop is 1..32 bytes. |
| Engine.Chunking | rk3399-i2c.c:143-191 | The chunks sum to the total. There are ceil(total / 32) of them, and chunk k is the capped size of what remains after k full chunks. |
| Engine.Need | rk3399-i2c.c:162-163 | The payload bytes read never exceed the non-header positions. |
| Engine.SingleChunkPayload | rk3399-i2c.c:131-166 | A write of at most 32 bytes reads exactly b_len payload bytes, and its chunk is the header followed by buf[0 .. b_len - 1]. For a 7-bit address these are the bytes it sends. |
| Engine.MultiChunkShort | rk3399-i2c.c:158-163 | A write of more than 32 bytes reads fewer than b_len payload bytes, because the header repeats in every chunk. |
| Engine.Bursts | rk3399-i2c.c:143-192 | Every pass of the loop sends 1..32 bytes. |
| Engine.BurstSize | rk3399-i2c.c:144-148 | Pass k sends the capped size of what remains after k full chunks. Every pass except the last had a successful wait. |
| Engine.BurstsCount | rk3399-i2c.c:143-191 | The loop makes a pass exactly when bytes remain. If its last wait succeeds, it has sent all the bytes. |
| Engine.PassSizes | rk3399-i2c.c:143-191 | The sizes sent are a prefix of the chunk sizes, and all of them when no wait timed out. |
| Engine.Passes | rk3399-i2c.c:143-191 | A write makes at least one pass. The sizes of its passes are a prefix of the chunk sizes, and all of them when no wait timed out. |
| Engine.BurstBound | rk3399-i2c.c:162-163 | Every pass reads payload only between the start cursor and the bytes the whole write needs. |
| Engine.BurstLink | rk3399-i2c.c:143-191 | Each pass starts where the previous pass's cursor and status reads ended. |
| Engine.PassesFit | rk3399-i2c.c:143-192 | No pass reads beyond buf[b_len - 1], and every wait only polls. |
| Engine.SnocFits | rk3399-i2c.c:143-192 | Adding one pass to the loop adds that pass's accesses, in order. |
| Engine.SnocFlags | rk3399-i2c.c:174-189 | Adding one pass adds its timeout and its NACK to the flags. |
| Engine.PassStep | rk3399-i2c.c:143-192 | The next pass either times out and ends the loop, or is followed by the rest of the passes. |
| Engine.PassNext | rk3399-i2c.c:143-192 | After a successful pass, the rest of the loop starts at the new cursor and read position. |
| Engine.LoopFits | rk3399-i2c.c:151-164 | The next chunk's payload lies within buf[0 .. b_len - 1]. |
| Engine.LoopAdvance | rk3399-i2c.c:143-191 | A successful pass keeps the loop state exact: the passes so far, the NACK flag in err, and the accesses. |
| Engine.AdvancePasses | rk3399-i2c.c:143-191 | A successful pass extends the passes so far, with no timeout among them. |
| Engine.AdvanceLog | rk3399-i2c.c:174-191 | After a successful pass, err is I2C_ERROR_NOACK exactly when some pass saw NACK, and the log is all the passes' accesses. |
| Engine.LoopTimeout | rk3399-i2c.c:186-189 | A pass whose wait times out ends the loop with I2C_ERROR_TIMEOUT and the full log. |
| Engine.LoopExit | rk3399-i2c.c:143-192 | When no bytes remain, the loop has made every pass, with the right error and log. |
| Engine.BurstsSnoc | rk3399-i2c.c:143-192 | The passes so far, followed by one pass and the rest, are the whole loop. |
| Engine.FitsPrefix | rk3399-i2c.c:143-192 | A prefix of the passes also stays within buf. |
| Engine.AnyCons | rk3399-i2c.c:174-189 | The flags of the passes are the first pass's flags ORed with those of the rest. |
| Engine.ErrAfter | rk3399-i2c.c:174-189 | Entered without a timeout, the loop ends with I2C_ERROR_TIMEOUT iff some wait timed out. Otherwise it ends with I2C_ERROR_NOACK iff a NACK was seen in some pass or before the loop, and with I2C_OK only when neither happened. |
| Engine.MtxcntsAppend | rk3399-i2c.c:170 | The MTXCNT writes of concatenated logs are the concatenated writes. |
| Engine.MtxcntsSingle | rk3399-i2c.c:170 | MTXCNT writes are picked out one by one. |
| Engine.MtxcntsNone | rk3399-i2c.c:170 | A log with no MTXCNT write has none to pick out. |
| Engine.ConOnlyAppend | rk3399-i2c.c:169 | Logs whose only CON write is the transmit value stay that way when concatenated. |
| Engine.LaunchEffect | rk3399-i2c.c:169-171 | The launch sets CON to EN with transmit mode, MTXCNT to the chunk size and IEN to MBTFIEN and NAKRCVIEN. TXDATA is unchanged. |
| Engine.BurstEffect | rk3399-i2c.c:151-184 | After one pass, TXDATA holds what the fill left, and CON, MTXCNT and IEN hold the launch values. The wait changes none of them. |
| Engine.LaunchAccesses | rk3399-i2c.c:165-184 | A pass writes MTXCNT exactly once, with its size, and writes CON only with EN and transmit mode. |
| Engine.LaunchOneMtxcnt | rk3399-i2c.c:169-171 | Launching writes MTXCNT once, with the chunk size. |
| Engine.LaunchMtxcnts | rk3399-i2c.c:165-184 | The packing, launch and wait of a pass write MTXCNT only at launch. |
| Engine.LaunchCon | rk3399-i2c.c:165-184 | The packing, launch and wait of a pass write CON only with the transmit value. |
| Engine.BurstAccesses | rk3399-i2c.c:151-184 | One pass writes MTXCNT once with its size and CON only with the transmit value. |
| Engine.Sizes | rk3399-i2c.c:170 | Gives the sizes of the passes, one per pass. |
| Engine.MtxcntsSnoc | rk3399-i2c.c:170 | The MTXCNT writes stay in step with the passes as the loop adds one. |
| Engine.LoopAccesses | rk3399-i2c.c:143-192 | The loop writes MTXCNT once per pass, with that pass's size, and writes CON only with the transmit value. |
| Engine.PassCursor | rk3399-i2c.c:131-163 | Pass k starts its payload at byte k * (31 - r_len) of buf. |
| Engine.PollConOnly | rk3399-i2c.c:174-184 | A wait writes no CON. |
| Engine.ConOnlyCount | rk3399-i2c.c:169 | A log that writes CON only with one value never writes any other value to CON. |
| Engine.ReplayLastCon | rk3399-i2c.c:124 | CON holds the last value written to it. |
| Engine.RoutineAccesses | rk3399-i2c.c:82-92 | The START or STOP routine writes CON exactly once, writes no MTXCNT, and leaves CON at its requested value. |
| Engine.RoutineShape | rk3399-i2c.c:82-92 | After its single CON write, a START or STOP routine writes neither CON nor MTXCNT. |
| Engine.ExitAccesses | rk3399-i2c.c:138-198 | A write that passed START begins with the START preamble and ends with CON := 0. It sends STOP once, disables once, and writes MTXCNT only in the loop. |
| Engine.ExitEnds | rk3399-i2c.c:194-198 | The exit keeps the START preamble first and the disable last. |
| Engine.ExitMtxcnts | rk3399-i2c.c:194-196 | STOP and disable write no MTXCNT. |
| Engine.ExitCount | rk3399-i2c.c:194-196 | The exit adds exactly one CON := 0. |
| Engine.WriteStartFails | rk3399-i2c.c:138-141 | If START fails, the write returns I2C_ERROR_TIMEOUT without STOP, without disable and without any MTXCNT or TXDATA write, and CON is left with EN and START set. |
| Engine.WriteCompletes | rk3399-i2c.c:138-198 | After START, stop and disable run exactly once, so CON is 0 on return. MTXCNT receives a prefix of the chunk sizes, and all of them when no wait timed out. |
| Engine.WriteRun | rk3399-i2c.c:127-199 | rk_i2c_write returns I2C_ERROR_TIMEOUT iff START or some pass timed out. Otherwise it returns I2C_ERROR_NOACK iff some wait saw NAKRCV, and I2C_OK only when every wait saw MBTF without a NACK. Each direction is an iff. Every run begins with the START preamble. |
| Engine.WaiterForward | rk3399-i2c.c:173-184 | A transmit wait never reads before where it starts. |
| Engine.EndNext | rk3399-i2c.c:143-192 | The loop's last status read follows from the first pass's wait. |
| Engine.EndCons | rk3399-i2c.c:143-192 | Where the passes end reading does not depend on where they start once one pass is made. |
| Engine.EndStep | rk3399-i2c.c:143-192 | The loop ends reading at or after its start, and after its first wait. |
| Engine.BurstsAgree | rk3399-i2c.c:143-192 | The loop depends only on the statuses it reads. |
| Engine.WriteIgnoresStop | rk3399-i2c.c:194-198 | The result of rk_i2c_write does not depend on anything STOP reads, so a STOP timeout never changes it. |
| Scan.DataRequest | rk3399-i2c.c:202-212 | rk_i2c_send_data is a write with r_len = 1. It is well formed exactly when the data holds len bytes. |
| Scan.DataChunks | rk3399-i2c.c:202-212 | Every chunk of rk_i2c_send_data is the address byte, the low byte of reg, and the data at the chunk's cursor. For a 7-bit address these are the bytes it sends. |
| Scan.Probe | rk3399-i2c.c:224 | A probe is a well-formed 2-byte write. |
| Scan.ScanFrom | rk3399-i2c.c:222-230 | A scan of addr .. 0x77 holds one probe result per address, in order. It reports exactly the addresses whose probe returned I2C_OK, in ascending order. |
| Scan.Detect | rk3399-i2c.c:215-233 | rk_i2c_detect makes 117 probes, 0x03 .. 0x77 in order. An address is reported iff its probe returned I2C_OK, and the reported addresses are strictly ascending. |
| Scan.ScanCons | rk3399-i2c.c:222-230 | Recording one probe keeps the found list and log consistent with the whole scan. |
| Scan.ScanStep | rk3399-i2c.c:224-229 | One probe advances the scan state to the next address. |
| Scan.ScanExit | rk3399-i2c.c:222-232 | Past 0x77, the found list, the log and the read position are the whole scan's. |
| Scan.ReportsCons | rk3399-i2c.c:225-227 | Prepending one probe keeps the report: found exactly when I2C_OK, in ascending order. |
| Scan.ProbeChunk | rk3399-i2c.c:224 | A probe is a single 2-byte chunk, [addr << 1, 0x00], that reads no payload. The NULL buffer is never dereferenced. |
| Controller.I2c.SetCon | rk3399-i2c.c:83 | A CON write sets CON and logs the access. |
| Controller.I2c.SetIen | rk3399-i2c.c:84 | An IEN write sets IEN and logs the access. |
| Controller.I2c.SetMtxcnt | rk3399-i2c.c:170 | An MTXCNT write sets MTXCNT and logs the access. |
| Controller.I2c.SetTxdata | rk3399-i2c.c:165 | A TXDATA[i] write sets only TXDATA[i] and logs the access. |
| Controller.I2c.SetIpd | rk3399-i2c.c:82 | An IPD write is logged. |
| Controller.I2c.GetIpd | rk3399-i2c.c:87 | An IPD read returns the device's next status and advances the read count. |
| Controller.I2c.Delay | rk3399-i2c.c:91 | udelay is logged. |
| Controller.I2c.CheckBit | rk3399-i2c.c:87-91 | One check reads IPD. On the bit it clears it, otherwise it delays 1 us. |
| Controller.I2c.BitLoop | rk3399-i2c.c:86-92 | The countdown loop stops at the first hit k, after k misses, or after the whole budget. |
| Controller.I2c.WaitFor | rk3399-i2c.c:86-95 | The countdown makes exactly WaitBit's accesses and leaves the same TimeOut. |
| Controller.I2c.Request | rk3399-i2c.c:80-95 | The shared START/STOP routine clears IPD, writes CON and IEN, waits, and times out exactly when WaitBit does. |
| Controller.I2c.SendStartBit | rk3399-i2c.c:78-98 | rk_i2c_send_start_bit returns the result, and makes the accesses, of Polling.SendStartBit. |
| Controller.I2c.SendStopBit | rk3399-i2c.c:100-120 | rk_i2c_send_stop_bit returns the result, and makes the accesses, of Polling.SendStopBit. |
| Controller.I2c.Disable | rk3399-i2c.c:122-125 | rk_i2c_disable sets CON to 0. |
| Controller.I2c.PackByte | rk3399-i2c.c:153-164 | One inner-loop pass ORs this position's term into txdata and moves pbuf past a payload byte when one is read. |
| Controller.I2c.FillWord | rk3399-i2c.c:152-166 | Packing word i writes TXDATA[i] once per pass. TXDATA[i] ends with the full word and no other word changes. |
| Controller.I2c.FillChunk | rk3399-i2c.c:151-167 | The packing loops write each word's passes and move pbuf past the chunk's payload. |
| Controller.I2c.LoadChunk | rk3399-i2c.c:149-167 | Packing a chunk makes exactly the packer's accesses. |
| Controller.I2c.StartBurst | rk3399-i2c.c:143-171 | A pass sizes the chunk, packs it and launches it with CON, MTXCNT and IEN. |
| Controller.I2c.TxCheck | rk3399-i2c.c:175-182 | One transmit-wait iteration reads IPD for NAKRCV, clearing it when set, and reads IPD again for MBTF. |
| Controller.I2c.TxLoop | rk3399-i2c.c:174-184 | The transmit countdown stops at the first MBTF, k, or after the whole budget, with the NACKs seen so far. |
| Controller.I2c.TransmitWait | rk3399-i2c.c:173-189 | The transmit wait makes exactly WaitTx's accesses, TimeOut and NACK flag. |
| Controller.I2c.Pass | rk3399-i2c.c:143-184 | One iteration of the chunk loop packs, launches and waits, exactly as one Burst. |
| Controller.I2c.LoopPass | rk3399-i2c.c:143-191 | One loop iteration either keeps the loop invariant or ends the loop with the whole loop's error and log on a timeout. |
| Controller.I2c.RunPasses | rk3399-i2c.c:143-192 | The chunk loop makes every pass of the model, in order, with its error and log. |
| Controller.I2c.ChunkLoop | rk3399-i2c.c:143-192 | The chunk loop returns ErrAfter of the passes and makes their accesses. |
| Controller.I2c.Write | rk3399-i2c.c:127-199 | rk_i2c_write returns the result, and makes exactly the accesses, of Engine.WriteRun: START, the chunk loop, STOP with its result dropped, then disable. |
| Controller.I2c.SendData | rk3399-i2c.c:202-212 | rk_i2c_send_data is rk_i2c_write with r_len = 1 and returns its result. |
| Controller.I2c.ScanAll | rk3399-i2c.c:222-230 | The scan loop finds exactly the addresses of Scan.Detect and makes its accesses. |
| Controller.I2c.ProbeAddress | rk3399-i2c.c:224-229 | One probe advances the scan invariant by one address. |
| Controller.I2c.Detect | rk3399-i2c.c:215-233 | rk_i2c_detect probes as Scan.Detect does and returns the addresses whose probe returned I2C_OK. |

## Left out

- **Raw register access.** The MMIO pointers are replaced by the register-bank object and the scripted device. The model does not cover volatile access, or the write-1-to-clear effect of IPD writes on the hardware. IPD is not kept as register state, because its read values come from the device script.
- **`udelay`.** It is not executed. Each call is recorded in the access log with its argument. The commented-out timer-based `udelay` at lines 35-57 is not modelled.
- **`timer_initx` and `rk3399_i2c_set_clk`.** They write constants unconditionally, and `scl_rate` is ignored, so there is no logic to model.
- **`test_i2c`.** It is a pin-mux write and a scan loop that never ends.
- **Debug output.** `rk_i2c_send_data` returns the write's result without logging. Instead of printing the addresses it finds, `Controller.I2c.Detect` returns them.
- **`rk3399_i2c.h`.** It is not part of this model. The bit-mask values in `Registers` are assumed from the RK3399 register layout. `I2C_TIMEOUT_US` is the `budget` parameter and has no fixed value.
- **Edge cases left undefined.** The model requires `r_len <= 3`: with more register bytes, the source never emits the bytes beyond word 0 and over-reads the payload. It also requires `b_len` to be at most the buffer length, because the source does not check that. Negative `r_len` or `b_len`, and `int` overflow of `b_len + r_len + 1`, are not modelled: the lengths are natural numbers.
- **Byte signedness.** Payload bytes are unsigned (`bv8`), as `char` is on aarch64. C sign extension of a negative `char` is not modelled.
- Packing.PackedWords: stated only for 7-bit addresses (`chip < 0x80`). For a larger `chip`, `chip << 1` overflows into byte 1 of word 0, so byte 1 of TXDATA[0] is the first register byte ORed with 1. `Packing.Contribution` and `Packing.PartialWord` state that carry for every `chip`, and `Controller.I2c.PackByte` packs every `chip`.
- Packing.PartialWordPacks: stated only for 7-bit addresses, for the same reason.
- Packing.ChunkBytes: the byte view is what reaches TXDATA only for 7-bit addresses, for the same reason.
- Engine.SingleChunkPayload: the chunk bytes it states are the bytes sent only for 7-bit addresses, for the same reason.
- Scan.DataChunks: the chunk bytes it states are the bytes sent only for 7-bit addresses, for the same reason.
- Polling.WaitBitAgree: stated only for the START and STOP bits, the two bits the source waits on.
