/** The driver as the program runs it: the I2C4 register bank as an object
    whose fields hold the values last written to the control registers, a
    log of every access, and the number of IPD reads the scripted device has
    answered so far. Each routine of rk3399-i2c.c is a method with the
    source's loops, proved to make exactly the accesses and return exactly
    the result of its pure counterpart in Polling, Engine and Scan. */
module Controller {
  import opened Registers
  import opened Polling
  import opened Packing
  import opened Engine
  import Scan

  class I2c {
    var con: bv32
    var ien: bv32
    var mtxcnt: nat
    /** TXDATA0 .. TXDATA7. */
    const txdata: array<bv32>
    /** Every access made so far, oldest first. */
    var log: seq<Op>
    /** What the device presents at successive reads of IPD. */
    const script: seq<bv32>
    /** Number of IPD reads so far. */
    var polls: nat
    /** I2C_TIMEOUT_US, the budget of every wait. */
    const budget: nat
    /** The register values before the first access. */
    ghost const init: Regs

    /** The registers hold what the log of accesses leaves in them. */
    ghost predicate Valid()
      reads this, txdata
    {
      && txdata.Length == TxWords
      && Regs(con, ien, mtxcnt, txdata[..]) == Replay(init, log)
    }

    /** A controller with every register zero, facing the device script. */
    constructor (script: seq<bv32>, budget: nat)
      ensures Valid() && log == [] && polls == 0
      ensures this.script == script && this.budget == budget
      ensures con == 0 && ien == 0 && mtxcnt == 0 && txdata[..] == seq(TxWords, _ => 0)
    {
      var a := new bv32[TxWords](_ => 0);
      this.script := script;
      this.budget := budget;
      con, ien, mtxcnt := 0, 0, 0;
      txdata := a;
      log, polls := [], 0;
      init := Regs(0, 0, 0, a[..]);
    }

    // -------------------------------------------------------------------
    // Register accesses. The writes of CON, IEN and MTXCNT keep Valid;
    // the TXDATA writes and the IPD accesses state only what they change,
    // and the routines that use them restore Valid when they are done.
    // -------------------------------------------------------------------

    method SetCon(v: bv32)
      requires Valid()
      modifies this`con, this`log
      ensures Valid() && con == v && log == old(log) + [WriteCon(v)]
    {
      assert (log + [WriteCon(v)])[..|log|] == log;
      con := v;
      log := log + [WriteCon(v)];
    }

    method SetIen(v: bv32)
      requires Valid()
      modifies this`ien, this`log
      ensures Valid() && ien == v && log == old(log) + [WriteIen(v)]
    {
      assert (log + [WriteIen(v)])[..|log|] == log;
      ien := v;
      log := log + [WriteIen(v)];
    }

    method SetMtxcnt(v: nat)
      requires Valid()
      modifies this`mtxcnt, this`log
      ensures Valid() && mtxcnt == v && log == old(log) + [WriteMtxcnt(v)]
    {
      assert (log + [WriteMtxcnt(v)])[..|log|] == log;
      mtxcnt := v;
      log := log + [WriteMtxcnt(v)];
    }

    method SetTxdata(i: nat, v: bv32)
      requires i < txdata.Length
      modifies txdata, this`log
      ensures txdata[..] == old(txdata[..])[i := v] && log == old(log) + [WriteTxdata(i, v)]
    {
      txdata[i] := v;
      log := log + [WriteTxdata(i, v)];
    }

    /** A write of IPD, which clears the pending bits set in v. */
    method SetIpd(v: bv32)
      modifies this`log
      ensures log == old(log) + [WriteIpd(v)]
    {
      log := log + [WriteIpd(v)];
    }

    /** A read of IPD: the next status of the script. */
    method GetIpd() returns (status: bv32)
      modifies this`log, this`polls
      ensures status == StatusAt(script, old(polls))
      ensures log == old(log) + [ReadIpd(status)] && polls == old(polls) + 1
    {
      status := StatusAt(script, polls);
      polls := polls + 1;
      log := log + [ReadIpd(status)];
    }

    /** udelay, which is only recorded. */
    method Delay(us: nat)
      modifies this`log
      ensures log == old(log) + [Udelay(us)]
    {
      log := log + [Udelay(us)];
    }

    // -------------------------------------------------------------------
    // START, STOP and disable.
    // -------------------------------------------------------------------

    /** One check of a status wait: read IPD; on the bit clear it and
        report a hit, otherwise delay 1 us. */
    method CheckBit(bit: bv32) returns (hit: bool)
      modifies this`log, this`polls
      ensures polls == old(polls) + 1
      ensures var s := StatusAt(script, old(polls));
        && hit == Pending(s, bit)
        && log == old(log) + [ReadIpd(s), if hit then WriteIpd(bit) else Udelay(1)]
    {
      var status := GetIpd();
      hit := Pending(status, bit);
      if hit {
        SetIpd(bit);
      } else {
        Delay(1);
      }
    }

    /** The `while (TimeOut--)` wait of the START and STOP routines on one
        IPD bit; returns TimeOut as the loop leaves it. */
    method WaitFor(bit: bv32) returns (timeOut: int)
      modifies this`log, this`polls
      ensures var w := WaitBit(script, old(polls), budget, bit);
        timeOut == w.timeOut && log == old(log) + w.ops && polls == w.next
    {
      ghost var pos0 := polls;
      ghost var k;
      timeOut, k := BitLoop(bit);
      WaitBitAfter(script, pos0, budget, bit, k);
    }

    /** The loop of WaitFor; k is the number of checks that missed. */
    method BitLoop(bit: bv32) returns (timeOut: int, ghost k: nat)
      modifies this`log, this`polls
      ensures k <= budget && (k < budget ==> HitAt(script, old(polls), bit, k))
      ensures forall i :: 0 <= i < k ==> !HitAt(script, old(polls), bit, i)
      ensures var w := BitAfter(script, old(polls), budget, bit, k);
        timeOut == w.timeOut && log == old(log) + w.ops && polls == w.next
    {
      ghost var pos0, log0 := polls, log;
      ghost var n := 0;
      timeOut := budget;
      while true
        invariant 0 <= n <= budget && timeOut == budget - n && polls == pos0 + n
        invariant forall i :: 0 <= i < n ==> !HitAt(script, pos0, bit, i)
        invariant log == log0 + Misses(script, pos0, n)
        decreases timeOut
      {
        var test := timeOut;
        timeOut := timeOut - 1;
        if test == 0 {
          k := n;
          return;
        }
        var hit := CheckBit(bit);
        if hit {
          k := n;
          Regroup(log0, Misses(script, pos0, n), [ReadIpd(StatusAt(script, pos0 + n)), WriteIpd(bit)]);
          return;
        }
        n := n + 1;
      }
    }

    /** The three writes and the wait of the START and STOP routines. */
    method Request(clear: bv32, c: bv32, e: bv32, bit: bv32) returns (err: Err)
      requires Valid()
      modifies this`con, this`ien, this`log, this`polls
      ensures Valid()
      ensures var w := WaitBit(script, old(polls), budget, bit);
        && err == (if w.timeOut <= 0 then ErrorTimeout else Ok)
        && log == old(log) + [WriteIpd(clear), WriteCon(c), WriteIen(e)] + w.ops
        && polls == w.next
    {
      ghost var log0, pos0 := log, polls;
      ghost var w := WaitBit(script, polls, budget, bit);
      SetIpd(clear);
      PollReplay(init, log0, [WriteIpd(clear)]);
      SetCon(c);
      SetIen(e);
      assert log == log0 + [WriteIpd(clear), WriteCon(c), WriteIen(e)];
      ghost var log1 := log;
      assert polls == pos0;
      var timeOut := WaitFor(bit);
      assert log == log1 + w.ops;
      PollReplay(init, log1, w.ops);
      if timeOut <= 0 {
        return ErrorTimeout;
      }
      return Ok;
    }

    /** rk_i2c_send_start_bit. */
    method SendStartBit() returns (err: Err)
      requires Valid()
      modifies this`con, this`ien, this`log, this`polls
      ensures Valid()
      ensures var o := Polling.SendStartBit(script, old(polls), budget);
        err == o.err && log == old(log) + o.ops && polls == o.next
    {
      err := Request(IpdAllClean, ConEnable | ConStart, IenStart, IpdStart);
    }

    /** rk_i2c_send_stop_bit, with IEN written with the CON stop bit. */
    method SendStopBit() returns (err: Err)
      requires Valid()
      modifies this`con, this`ien, this`log, this`polls
      ensures Valid()
      ensures var o := Polling.SendStopBit(script, old(polls), budget);
        err == o.err && log == old(log) + o.ops && polls == o.next
    {
      err := Request(IpdAllClean, ConEnable | ConStop, ConStop, IpdStop);
    }

    /** rk_i2c_disable. */
    method Disable()
      requires Valid()
      modifies this`con, this`log
      ensures Valid() && con == 0 && log == old(log) + [WriteCon(0)]
    {
      SetCon(0);
    }

    // -------------------------------------------------------------------
    // rk_i2c_write.
    // -------------------------------------------------------------------

    /** One pass of the inner packing loop at position 4i + j of the chunk:
        the address shifted into bits 7..1, a register byte, or the payload
        byte at the cursor pb, which then advances, is ORed into the local
        word t: the term Contribution gives for that position. */
    method PackByte(q: TransferRequest, cur: nat, i: nat, j: nat, t: bv32, pb: nat) returns (t': bv32, pb': nat)
      requires ValidRequest(q) && j < 4 && 4 * i + j < FifoSize
      requires cur + PayloadBefore(q.rLen, 4 * i + j + 1) <= q.bLen
      requires pb == cur + PayloadBefore(q.rLen, 4 * i + j)
      ensures t' == t | Contribution(q, cur, i, j) && pb' == cur + PayloadBefore(q.rLen, 4 * i + j + 1)
    {
      ContributionCases(q, cur, i, j);
      pb' := pb;
      if i == 0 && j == 0 {
        t' := t | ((q.chip as bv32) << 1);
      } else if i == 0 && j <= q.rLen {
        t' := t | RegPart(q.reg, j);
      } else {
        t' := t | BytePart(q.buf[pb], j);
        pb' := pb + 1;
      }
    }

    /** The inner packing loop for word i of a chunk of size bytes whose
        payload starts at cur, entered with the payload cursor pb0: each
        byte is ORed into the local word, which is written to TXDATA[i]
        after every byte, until position 4i + j reaches the chunk size. The
        values written are row, the accumulated partial words. */
    method FillWord(q: TransferRequest, cur: nat, size: nat, i: nat, pb0: nat, ghost row: seq<bv32>) returns (pb: nat)
      requires ChunkFits(q, cur, size) && 4 * i < size
      requires |row| == WordEnd(size, i) && Accumulated(q, cur, i, row)
      requires txdata.Length == TxWords && pb0 == cur + PayloadBefore(q.rLen, 4 * i)
      modifies txdata, this`log
      ensures pb == cur + PayloadBefore(q.rLen, 4 * i + |row|)
      ensures log == old(log) + WriteAll(i, row)
      ensures txdata[..] == old(txdata[..])[i := row[|row| - 1]]
    {
      ghost var log0, tx0 := log, txdata[..];
      pb := pb0;
      var t: bv32 := 0;
      var j := 0;
      while j < 4
        invariant 0 <= j <= |row|
        invariant pb == cur + PayloadBefore(q.rLen, 4 * i + j)
        invariant t == if j == 0 then 0 else row[j - 1]
        invariant log == log0 + WriteAll(i, row[..j])
        invariant txdata[..] == if j == 0 then tx0 else tx0[i := t]
      {
        if i * 4 + j == size {
          break;
        }
        assert Grows(q, cur, i, row, j);
        GrowsStep(q, cur, i, row, j, t);
        t, pb := PackByte(q, cur, i, j, t, pb);
        WriteAllSnoc(i, row, j);
        SetTxdata(i, t);
        j := j + 1;
      }
      assert row[..j] == row;
    }

    /** The outer packing loop of one pass: the size bytes of the chunk
        whose payload starts at cur go into TXDATA, word by word; returns
        the payload cursor after the chunk. */
    method FillChunk(q: TransferRequest, cur: nat, size: nat, ghost rows: seq<seq<bv32>>) returns (pb: nat)
      requires ChunkFits(q, cur, size) && AccumulatedRows(q, cur, size, rows)
      requires txdata.Length == TxWords
      modifies txdata, this`log
      ensures log == old(log) + RowWrites(rows, |rows|)
      ensures txdata[..] == Stamp(old(txdata[..]), rows, |rows|)
      ensures pb == cur + PayloadBefore(q.rLen, size)
    {
      ghost var log0, tx0 := log, txdata[..];
      var words := (size + 3) / 4;
      pb := cur;
      var i := 0;
      while i < words
        invariant 0 <= i <= words && words == |rows| && words <= TxWords
        invariant log == log0 + RowWrites(rows, i)
        invariant pb == cur + PayloadBefore(q.rLen, if 4 * i < size then 4 * i else size)
        invariant txdata[..] == Stamp(tx0, rows, i)
      {
        assert RowAccumulated(q, cur, size, rows, i);
        pb := FillWord(q, cur, size, i, pb, rows[i]);
        Regroup(log0, RowWrites(rows, i), WriteAll(i, rows[i]));
        i := i + 1;
      }
    }

    /** The packing of one pass, with the register state it leaves. */
    method LoadChunk(q: TransferRequest, cur: nat, size: nat) returns (pb: nat)
      requires Valid() && ChunkFits(q, cur, size)
      modifies txdata, this`log
      ensures Valid() && log == old(log) + FillOps(q, cur, size, Words(size))
      ensures pb == cur + PayloadBefore(q.rLen, size)
    {
      ghost var log0 := log;
      ChunkRowsAccumulated(q, cur, size);
      pb := FillChunk(q, cur, size, ChunkRows(q, cur, size));
      FillOpsReplay(q, cur, size, Words(size), Replay(init, log0));
      ReplayAppend(init, log0, FillOps(q, cur, size, Words(size)));
    }

    /** One pass of the chunk loop of rk_i2c_write with remain bytes left
        and the payload cursor at pb: the chunk size, the TXDATA fill, the
        three writes that launch the burst, and the transmit wait; returns
        the chunk size, the cursor after the chunk, and the wait's TimeOut
        and NACK flag. */
    method StartBurst(q: TransferRequest, pb: nat, remain: nat) returns (size: nat, next: nat)
      requires Valid() && ValidRequest(q) && remain > 0
      requires pb + PayloadBefore(q.rLen, ChunkSize(remain)) <= q.bLen
      modifies this`con, this`ien, this`mtxcnt, this`log, txdata
      ensures Valid() && size == ChunkSize(remain) && next == pb + PayloadBefore(q.rLen, size)
      ensures log == old(log) + (FillOps(q, pb, size, Words(size)) + Launch(size))
    {
      ghost var log0 := log;
      if remain > FifoSize {
        size := 32;
      } else {
        size := remain;
      }
      next := LoadChunk(q, pb, size);
      ghost var log1 := log;
      SetCon(ConTransmit);
      SetMtxcnt(size);
      SetIen(IenMbtf | IenNakrcv);
      assert log == log1 + Launch(size);
      Regroup(log0, FillOps(q, pb, size, Words(size)), Launch(size));
    }

    method Pass(q: TransferRequest, pb: nat, remain: nat) returns (size: nat, next: nat, timeOut: int, nack: bool)
      requires Valid() && ValidRequest(q) && remain > 0
      requires pb + PayloadBefore(q.rLen, ChunkSize(remain)) <= q.bLen
      modifies this`con, this`ien, this`mtxcnt, this`log, this`polls, txdata
      ensures Valid() && size == ChunkSize(remain) && next == pb + PayloadBefore(q.rLen, size)
      ensures var w := WaitTx(script, old(polls), budget);
        && timeOut == w.timeOut && nack == w.nack && polls == w.next
        && log == old(log) + BurstOps(q, Burst(pb, size, w))
    {
      ghost var w := WaitTx(script, polls, budget);
      ghost var log0 := log;
      size, next := StartBurst(q, pb, remain);
      ghost var log1 := log;
      timeOut, nack := TransmitWait();
      PollReplay(init, log1, w.ops);
      Regroup(log0, FillOps(q, pb, size, Words(size)) + Launch(size), w.ops);
    }

    /** One pass of the chunk loop seen from the loop's state: either the
        loop goes on with one more pass done and err updated, or the pass
        timed out and the loop is over with I2C_ERROR_TIMEOUT. */
    method LoopPass(q: TransferRequest, ghost wait: nat -> TxWait, ghost full: seq<Burst>, ghost done: seq<Burst>,
                    ghost pos0: nat, ghost log0: seq<Op>, pb: nat, remain: nat, err: Err)
      returns (remain': nat, next: nat, timeOut: int, err': Err, ghost done': seq<Burst>)
      requires Valid() && wait == Waiter(script, budget) && remain > 0
      requires Looping(q, wait, full, done, pos0, log0, polls, pb, remain, err, log)
      modifies this`con, this`ien, this`mtxcnt, this`log, this`polls, txdata
      ensures Valid() && remain' == remain - ChunkSize(remain) && remain' < remain
      ensures done' == done + [Burst(pb, ChunkSize(remain), wait(old(polls)))]
      ensures timeOut > 0 ==> Looping(q, wait, full, done', pos0, log0, polls, next, remain', err', log)
      ensures timeOut <= 0 ==>
        err' == ErrAfter(full, Ok) && log == log0 + LoopOps(q, full) && polls == End(full, pos0)
    {
      ghost var p0, log1 := polls, log;
      ghost var b := Burst(pb, ChunkSize(remain), WaitTx(script, polls, budget));
      assert wait(polls) == b.wait;
      LoopFits(q, wait, full, done, pos0, log0, polls, pb, remain, err, log);
      var nack, size;
      size, next, timeOut, nack := Pass(q, pb, remain);
      assert b.size == size;
      remain' := remain - size;
      done' := done + [b];
      err' := if nack then ErrorNoAck else err;
      if timeOut <= 0 {
        err' := ErrorTimeout;
        LoopTimeout(q, wait, full, done, pos0, log0, p0, pb, remain, err, log1, b, polls, log);
      } else {
        LoopAdvance(q, wait, full, done, pos0, log0, p0, pb, remain, err, log1, b, done', polls, next, remain', err', log);
      }
    }

    /** The chunk loop `while (bytes_remain_len)` of rk_i2c_write, entered
        after a successful START: every pass of Passes, in order, until one
        times out; returns the error it leaves in err. */
    method ChunkLoop(q: TransferRequest) returns (err: Err)
      requires Valid() && ValidRequest(q)
      modifies this`con, this`ien, this`mtxcnt, this`log, this`polls, txdata
      ensures Valid()
      ensures var bs := Passes(q, script, budget, old(polls));
        && Fits(q, bs)
        && err == ErrAfter(bs, Ok) && log == old(log) + LoopOps(q, bs) && polls == End(bs, old(polls))
    {
      ghost var wait := Waiter(script, budget);
      ghost var full := Passes(q, script, budget, polls);
      PassesFit(q, script, budget, polls);
      LoopEnter(q, wait, full, polls, log);
      err := RunPasses(q, wait, full);
    }

    /** The chunk loop over the passes full it is bound to make. */
    method RunPasses(q: TransferRequest, ghost wait: nat -> TxWait, ghost full: seq<Burst>) returns (err: Err)
      requires Valid() && wait == Waiter(script, budget)
      requires Looping(q, wait, full, [], polls, log, polls, 0, Total(q), Ok, log)
      modifies this`con, this`ien, this`mtxcnt, this`log, this`polls, txdata
      ensures Valid()
      ensures err == ErrAfter(full, Ok) && log == old(log) + LoopOps(q, full) && polls == End(full, old(polls))
    {
      ghost var pos0, log0 := polls, log;
      err := Ok;
      var remain: nat := q.bLen + q.rLen + 1;
      var pb: nat := 0;
      ghost var done: seq<Burst> := [];
      while remain != 0
        invariant Valid()
        invariant Looping(q, wait, full, done, pos0, log0, polls, pb, remain, err, log)
        decreases remain
      {
        var remain', next, timeOut;
        remain', next, timeOut, err, done := LoopPass(q, wait, full, done, pos0, log0, pb, remain, err);
        if timeOut <= 0 {
          return;
        }
        remain := remain';
        pb := next;
      }
      LoopExit(q, wait, full, done, pos0, log0, polls, pb, err, log);
    }

    /** rk_i2c_write: START, on success the chunk loop, then STOP, whose
        result is dropped, and rk_i2c_disable. */
    method Write(chip: bv8, reg: bv32, rLen: nat, buf: seq<bv8>, bLen: nat) returns (err: Err)
      requires Valid() && rLen <= 3 && bLen <= |buf|
      modifies this`con, this`ien, this`mtxcnt, this`log, this`polls, txdata
      ensures Valid()
      ensures var o := WriteRun(TransferRequest(chip, reg, rLen, buf, bLen), script, budget, old(polls));
        err == o.err && log == old(log) + o.ops && polls == o.next
    {
      var q := TransferRequest(chip, reg, rLen, buf, bLen);
      ghost var log0 := log;
      ghost var s := Polling.SendStartBit(script, polls, budget);
      err := SendStartBit();
      if err != Ok {
        return;
      }
      ghost var bs := Passes(q, script, budget, polls);
      err := ChunkLoop(q);
      ghost var t := Polling.SendStopBit(script, polls, budget);
      var _ := SendStopBit();
      Disable();
      assert log == log0 + s.ops + LoopOps(q, bs) + t.ops + [WriteCon(0)];
      Regroup4(log0, s.ops, LoopOps(q, bs), t.ops, [WriteCon(0)]);
    }

    /** rk_i2c_send_data: a write with a one-byte register address. */
    method SendData(chip: bv8, reg: bv32, data: seq<bv8>, len: nat) returns (err: Err)
      requires Valid() && len <= |data|
      modifies this`con, this`ien, this`mtxcnt, this`log, this`polls, txdata
      ensures Valid()
      ensures var o := WriteRun(Scan.DataRequest(chip, reg, data, len), script, budget, old(polls));
        err == o.err && log == old(log) + o.ops && polls == o.next
    {
      err := Write(chip, reg, 1, data, len);
    }

    /** rk_i2c_detect: a probe of every address 0x03 .. 0x77, each followed
        by udelay(10); returns the addresses whose probe returned I2C_OK,
        which the source reports on the debug console. */
    method Detect() returns (found: seq<nat>)
      requires Valid()
      modifies this`con, this`ien, this`mtxcnt, this`log, this`polls, txdata
      ensures Valid()
      ensures var s := Scan.Detect(script, budget, old(polls));
        found == s.found && log == old(log) + s.ops && polls == s.next
    {
      ghost var total := Scan.Detect(script, budget, polls);
      Scan.ScanEnter(script, budget, polls, log);
      found := ScanAll(total);
    }

    /** The loop of rk_i2c_detect over the addresses 0x03 .. 0x77, bound to
        make the scan total. */
    method ScanAll(ghost total: Scan.ScanResult) returns (found: seq<nat>)
      requires Valid() && Scan.Scanning(script, budget, total, log, [], log, polls, Scan.FirstAddr)
      modifies this`con, this`ien, this`mtxcnt, this`log, this`polls, txdata
      ensures Valid()
      ensures found == total.found && log == old(log) + total.ops && polls == total.next
    {
      ghost var log0 := log;
      found := [];
      var addr := 0x03;
      while addr <= 0x77
        invariant Valid() && Scan.Scanning(script, budget, total, log0, found, log, polls, addr)
        decreases 0x78 - addr
      {
        found := ProbeAddress(total, log0, found, addr);
        addr := addr + 1;
      }
      Scan.ScanExit(script, budget, total, log0, found, log, polls);
    }

    /** One iteration of the scan loop: the probe of addr, which adds addr
        to found when it returns I2C_OK, and udelay(10). */
    method ProbeAddress(ghost total: Scan.ScanResult, ghost log0: seq<Op>, found: seq<nat>, addr: nat)
      returns (found': seq<nat>)
      requires Valid() && Scan.Scanning(script, budget, total, log0, found, log, polls, addr)
      requires addr <= Scan.LastAddr
      modifies this`con, this`ien, this`mtxcnt, this`log, this`polls, txdata
      ensures Valid() && Scan.Scanning(script, budget, total, log0, found', log, polls, addr + 1)
    {
      ghost var pos, log1 := polls, log;
      ghost var o := WriteRun(Scan.Probe(addr), script, budget, polls);
      var err := Write(addr as bv8, 0x00, 1, [], 0);
      found' := if err == Ok then found + [addr] else found;
      ghost var log2 := log;
      Delay(10);
      PollReplay(init, log2, [Udelay(10)]);
      Regroup(log1, o.ops, [Udelay(10)]);
      Scan.ScanStep(script, budget, total, log0, found, log1, pos, addr, o, found', log);
    }

    /** One iteration of the transmit wait after its TimeOut test: a read
        of IPD for NAKRCV, cleared when set, and a read for MBTF, cleared
        when set and otherwise followed by udelay(1). */
    method TxCheck() returns (nak: bool, hit: bool)
      modifies this`log, this`polls
      ensures polls == old(polls) + 2
      ensures nak == NakAt(script, old(polls), 0) && hit == MbtfAt(script, old(polls), 0)
      ensures log == old(log) + if hit then TxHit(script, old(polls)) else TxPass(script, old(polls))
    {
      ghost var p, log0 := polls, log;
      var s1 := GetIpd();
      nak := Pending(s1, IpdNakrcv);
      if nak {
        SetIpd(IpdNakrcv);
      }
      assert log == log0 + NakOps(script, p);
      var s2 := GetIpd();
      hit := Pending(s2, IpdMbtf);
      if hit {
        SetIpd(IpdMbtf);
      } else {
        Delay(1);
      }
    }

    /** The transmit wait of one pass: NAKRCV is noted and cleared, MBTF
        ends the wait; returns TimeOut as the loop leaves it and whether a
        NACK was seen. */
    method TransmitWait() returns (timeOut: int, nack: bool)
      modifies this`log, this`polls
      ensures var w := WaitTx(script, old(polls), budget);
        timeOut == w.timeOut && nack == w.nack && log == old(log) + w.ops && polls == w.next
    {
      ghost var pos0 := polls;
      ghost var k;
      timeOut, nack, k := TxLoop();
      WaitTxAfter(script, pos0, budget, k);
    }

    /** The loop of TransmitWait; k is the number of iterations that saw no
        MBTF. */
    method TxLoop() returns (timeOut: int, nack: bool, ghost k: nat)
      modifies this`log, this`polls
      ensures k <= budget && (k < budget ==> MbtfAt(script, old(polls), k))
      ensures forall i :: 0 <= i < k ==> !MbtfAt(script, old(polls), i)
      ensures var w := TxAfter(script, old(polls), budget, k);
        timeOut == w.timeOut && nack == w.nack && log == old(log) + w.ops && polls == w.next
    {
      ghost var pos0, log0 := polls, log;
      ghost var n := 0;
      timeOut := budget;
      nack := false;
      while true
        invariant 0 <= n <= budget && timeOut == budget - n && polls == pos0 + 2 * n
        invariant forall i :: 0 <= i < n ==> !MbtfAt(script, pos0, i)
        invariant log == log0 + TxMisses(script, pos0, n)
        invariant nack == Nacks(script, pos0, n)
        decreases timeOut
      {
        var test := timeOut;
        timeOut := timeOut - 1;
        if test == 0 {
          k := n;
          return;
        }
        ghost var p := polls;
        var nak, hit := TxCheck();
        assert p == pos0 + 2 * n && p + 1 == pos0 + 2 * n + 1;
        assert NakAt(script, p, 0) == NakAt(script, pos0, n);
        assert MbtfAt(script, p, 0) == MbtfAt(script, pos0, n);
        if nak {
          nack := true;
        }
        if hit {
          k := n;
          assert nack == Nacks(script, pos0, n + 1);
          Regroup(log0, TxMisses(script, pos0, n), TxHit(script, p));
          return;
        }
        Regroup(log0, TxMisses(script, pos0, n), TxPass(script, p));
        n := n + 1;
      }
    }
  }
}
