/** The write transaction of rk_i2c_write as a pure function of the request,
    the status script and the read position it starts at: START, the chunk
    loop (fill TXDATA, launch the burst, wait for MBTF or NAKRCV), then STOP
    and disable, with the error rules of the source. */
module Engine {
  import opened Registers
  import opened Polling
  import opened Packing

  // ---------------------------------------------------------------------
  // Chunking of bytes_remain_len.
  // ---------------------------------------------------------------------

  /** The sizes of the chunks a transfer of remain bytes is cut into. */
  function ChunkSizes(remain: nat): (cs: seq<nat>)
    ensures forall k :: 0 <= k < |cs| ==> 0 < cs[k] <= FifoSize
    decreases remain
  {
    if remain == 0 then [] else [ChunkSize(remain)] + ChunkSizes(remain - ChunkSize(remain))
  }

  function Sum(s: seq<nat>): nat
  {
    if s == [] then 0 else s[0] + Sum(s[1..])
  }

  /** Chunk k holds min(remain - 32k, 32) bytes: the chunks sum to remain,
      there are ceil(remain / 32) of them, and all but the last are full. */
  lemma {:induction false} Chunking(remain: nat)
    ensures var cs := ChunkSizes(remain);
      && Sum(cs) == remain
      && |cs| == (remain + FifoSize - 1) / FifoSize
      && forall k :: 0 <= k < |cs| ==> remain > FifoSize * k && cs[k] == ChunkSize(remain - FifoSize * k)
    decreases remain
  {
    if remain > 0 {
      var size := ChunkSize(remain);
      Chunking(remain - size);
      var cs := ChunkSizes(remain);
      var rest := ChunkSizes(remain - size);
      assert cs[1..] == rest;
      forall k | 0 <= k < |cs| ensures remain > FifoSize * k && cs[k] == ChunkSize(remain - FifoSize * k) {
        if k > 0 {
          assert cs[k] == rest[k - 1];
          assert remain - size - FifoSize * (k - 1) == remain - FifoSize * k;
        }
      }
    }
  }

  /** The payload bytes the chunks of the last remain bytes read, each chunk
      spending its first slots on the header. */
  function Need(rLen: nat, remain: nat): (n: nat)
    ensures n <= PayloadBefore(rLen, remain)
    decreases remain
  {
    if remain == 0 then 0
    else PayloadBefore(rLen, ChunkSize(remain)) + Need(rLen, remain - ChunkSize(remain))
  }

  /** A transfer that fits in one chunk reads exactly its b_len payload
      bytes, in order after the header ... */
  lemma SingleChunkPayload(q: TransferRequest)
    requires ValidRequest(q) && Total(q) <= FifoSize
    ensures Need(q.rLen, Total(q)) == q.bLen
    ensures ChunkBytes(q, 0, Total(q)) == Header(q) + q.buf[..q.bLen]
  {
    ChunkLayout(q, 0, Total(q));
  }

  /** ... but a transfer of more than one chunk never reads its last payload
      byte: every later chunk repeats the header, which takes payload slots. */
  lemma MultiChunkShort(rLen: nat, bLen: nat)
    requires rLen <= 3 && bLen + rLen + 1 > FifoSize
    ensures Need(rLen, bLen + rLen + 1) < bLen
  {
    var m := bLen + rLen + 1;
    assert Need(rLen, m) == PayloadBefore(rLen, FifoSize) + Need(rLen, m - FifoSize);
  }

  // ---------------------------------------------------------------------
  // The passes of the chunk loop.
  // ---------------------------------------------------------------------

  /** One pass of `while (bytes_remain_len)`: the payload cursor at its
      start, the chunk size, and the transmit wait that followed. */
  datatype Burst = Burst(cur: nat, size: nat, wait: TxWait)

  /** The transmit wait of the source, as a function of the read position
      it starts at. */
  function Waiter(script: seq<bv32>, budget: nat): nat -> TxWait
  {
    (p: nat) => WaitTx(script, p, budget)
  }

  /** The passes of the loop entered with remain bytes left, the payload
      cursor at cur and the next status read at pos, where wait(p) is the
      transmit wait that starts reading at p; a pass whose wait times out is
      the last one. */
  function Bursts(wait: nat -> TxWait, rLen: nat, pos: nat, cur: nat, remain: nat): (bs: seq<Burst>)
    ensures forall k :: 0 <= k < |bs| ==> 0 < bs[k].size <= FifoSize
    decreases remain
  {
    if remain == 0 then []
    else
      var size := ChunkSize(remain);
      var w := wait(pos);
      [Burst(cur, size, w)]
        + (if w.timeOut <= 0 then [] else Bursts(wait, rLen, w.next, cur + PayloadBefore(rLen, size), remain - size))
  }

  /** The status read that follows the passes bs, starting from pos. */
  function End(bs: seq<Burst>, pos: nat): nat
  {
    if bs == [] then pos else bs[|bs| - 1].wait.next
  }

  /** Every pass of bs reads its payload bytes from buf[.. b_len]. */
  predicate Fits(q: TransferRequest, bs: seq<Burst>)
  {
    forall k :: 0 <= k < |bs| ==>
      bs[k].size <= FifoSize && bs[k].cur + PayloadBefore(q.rLen, bs[k].size) <= q.bLen
  }

  /** Every wait of bs only polls IPD and delays. */
  predicate Polled(bs: seq<Burst>)
  {
    forall k :: 0 <= k < |bs| ==> PollOnly(bs[k].wait.ops)
  }

  /** The three writes that launch a burst of size bytes. */
  function Launch(size: nat): seq<Op>
  {
    [WriteCon(ConTransmit), WriteMtxcnt(size), WriteIen(IenMbtf | IenNakrcv)]
  }

  /** The accesses of one pass: fill TXDATA, launch, wait. */
  function BurstOps(q: TransferRequest, b: Burst): seq<Op>
    requires ValidRequest(q) && b.size <= FifoSize
    requires b.cur + PayloadBefore(q.rLen, b.size) <= q.bLen
  {
    FillOps(q, b.cur, b.size, Words(b.size)) + Launch(b.size) + b.wait.ops
  }

  /** The accesses of the passes bs, in order. */
  function LoopOps(q: TransferRequest, bs: seq<Burst>): seq<Op>
    requires ValidRequest(q) && Fits(q, bs)
    decreases |bs|
  {
    if bs == [] then [] else LoopOps(q, bs[..|bs| - 1]) + BurstOps(q, bs[|bs| - 1])
  }

  /** The error after the passes bs, entered with err: a NACK records
      I2C_ERROR_NOACK and the loop goes on; a timeout records
      I2C_ERROR_TIMEOUT and ends it. */
  function ErrAfter(bs: seq<Burst>, err: Err): (e: Err)
    ensures err != ErrorTimeout ==> (e == ErrorTimeout <==> AnyTimeout(bs))
    ensures err != ErrorTimeout ==> (e == ErrorNoAck <==> !AnyTimeout(bs) && (err == ErrorNoAck || AnyNack(bs)))
    ensures err != ErrorTimeout ==> (e == Ok <==> !AnyTimeout(bs) && err == Ok && !AnyNack(bs))
    decreases |bs|
  {
    if bs == [] then err
    else
      AnyCons(bs);
      if bs[0].wait.timeOut <= 0 then ErrorTimeout
      else ErrAfter(bs[1..], if bs[0].wait.nack then ErrorNoAck else err)
  }

  /** The passes of a whole rk_i2c_write whose START took reads up to pos:
      at least one, sending the chunks of ChunkSizes in order, all of them
      unless a wait timed out. */
  function Passes(q: TransferRequest, script: seq<bv32>, budget: nat, pos: nat): (bs: seq<Burst>)
    ensures bs != []
    ensures |bs| <= |ChunkSizes(Total(q))| && Sizes(bs) == ChunkSizes(Total(q))[..|bs|]
    ensures !AnyTimeout(bs) ==> Sizes(bs) == ChunkSizes(Total(q))
  {
    var bs := Bursts(Waiter(script, budget), q.rLen, pos, 0, Total(q));
    PassSizes(Waiter(script, budget), q.rLen, pos, 0, Total(q));
    BurstsCount(Waiter(script, budget), q.rLen, pos, 0, Total(q));
    assert !AnyTimeout(bs) ==> bs[|bs| - 1].wait.timeOut > 0;
    bs
  }

  /** rk_i2c_write: a failed START returns at once; otherwise the chunk
      loop runs, then STOP (its result dropped) and the CON reset. The
      result is I2C_ERROR_TIMEOUT iff START or some transmit wait timed
      out; otherwise I2C_ERROR_NOACK iff NAKRCV was seen in some wait, even
      when later chunks went through; I2C_OK only when every wait saw MBTF
      without a NACK. Every run begins with the START preamble. */
  function WriteRun(q: TransferRequest, script: seq<bv32>, budget: nat, pos: nat): (o: Outcome)
    requires ValidRequest(q)
    ensures var s := SendStartBit(script, pos, budget);
      var bs := Passes(q, script, budget, s.next);
      && (o.err == ErrorTimeout <==> s.err != Ok || AnyTimeout(bs))
      && (o.err == ErrorNoAck <==> s.err == Ok && !AnyTimeout(bs) && AnyNack(bs))
      && (o.err == Ok <==> s.err == Ok && !AnyTimeout(bs) && !AnyNack(bs))
    ensures |o.ops| >= 3 && o.ops[..3] == StartPreamble()
  {
    var s := SendStartBit(script, pos, budget);
    if s.err != Ok then s
    else
      var bs := Passes(q, script, budget, s.next);
      PassesFit(q, script, budget, s.next);
      var t := SendStopBit(script, End(bs, s.next), budget);
      assert (s.ops + LoopOps(q, bs) + t.ops + [WriteCon(0)])[..3] == s.ops[..3];
      Outcome(ErrAfter(bs, Ok), s.ops + LoopOps(q, bs) + t.ops + [WriteCon(0)], t.next)
  }

  // ---------------------------------------------------------------------
  // The shape of the passes.
  // ---------------------------------------------------------------------

  lemma BurstsStep(wait: nat -> TxWait, rLen: nat, pos: nat, cur: nat, remain: nat)
    requires remain > 0
    ensures var bs := Bursts(wait, rLen, pos, cur, remain);
      var w := wait(pos);
      && |bs| > 0
      && bs[0] == Burst(cur, ChunkSize(remain), w)
      && bs[1..] == if w.timeOut <= 0 then []
                    else Bursts(wait, rLen, w.next, cur + PayloadBefore(rLen, ChunkSize(remain)), remain - ChunkSize(remain))
  {
  }

  /** Pass k sends the k-th chunk, min(remain - 32k, 32) bytes (chunk k of
      ChunkSizes, by Chunking), and only the last pass can time out. */
  lemma {:induction false} BurstSize(wait: nat -> TxWait, rLen: nat, pos: nat, cur: nat, remain: nat, k: nat)
    requires k < |Bursts(wait, rLen, pos, cur, remain)|
    ensures var bs := Bursts(wait, rLen, pos, cur, remain);
      && remain > FifoSize * k && bs[k].size == ChunkSize(remain - FifoSize * k)
      && (k < |bs| - 1 ==> bs[k].wait.timeOut > 0)
    decreases remain
  {
    var size := ChunkSize(remain);
    var w := wait(pos);
    BurstsStep(wait, rLen, pos, cur, remain);
    if k > 0 {
      var bs := Bursts(wait, rLen, pos, cur, remain);
      var rest := Bursts(wait, rLen, w.next, cur + PayloadBefore(rLen, size), remain - size);
      BurstSize(wait, rLen, w.next, cur + PayloadBefore(rLen, size), remain - size, k - 1);
      assert bs[k] == rest[k - 1];
      assert remain - size - FifoSize * (k - 1) == remain - FifoSize * k;
    }
  }

  /** The loop ends early only on a timeout: when its last wait succeeds,
      it has made one pass for each of the ceil(remain / 32) chunks. */
  lemma {:induction false} BurstsCount(wait: nat -> TxWait, rLen: nat, pos: nat, cur: nat, remain: nat)
    ensures var bs := Bursts(wait, rLen, pos, cur, remain);
      && (remain > 0 <==> |bs| > 0)
      && (bs != [] && bs[|bs| - 1].wait.timeOut > 0 ==> remain <= FifoSize * |bs|)
    decreases remain
  {
    if remain > 0 {
      var size := ChunkSize(remain);
      var w := wait(pos);
      BurstsStep(wait, rLen, pos, cur, remain);
      var bs := Bursts(wait, rLen, pos, cur, remain);
      var rest := if w.timeOut <= 0 then [] else Bursts(wait, rLen, w.next, cur + PayloadBefore(rLen, size), remain - size);
      if w.timeOut > 0 {
        BurstsCount(wait, rLen, w.next, cur + PayloadBefore(rLen, size), remain - size);
      }
      CountCons(bs, rest, remain, size);
    }
  }

  /** The count bound for passes made of a first pass of size bytes and
      the passes rest for the other remain - size bytes. */
  lemma CountCons(bs: seq<Burst>, rest: seq<Burst>, remain: nat, size: nat)
    requires |bs| > 0 && bs[1..] == rest && 0 < size <= FifoSize && size <= remain
    requires rest == [] ==> bs[0].wait.timeOut <= 0 || remain == size
    requires rest != [] && rest[|rest| - 1].wait.timeOut > 0 ==> remain - size <= FifoSize * |rest|
    ensures bs[|bs| - 1].wait.timeOut > 0 ==> remain <= FifoSize * |bs|
  {
    assert |bs| == 1 + |rest|;
    if rest != [] {
      assert bs[|bs| - 1] == rest[|rest| - 1];
    }
  }

  /** The passes send the chunks of ChunkSizes in order, stopping early
      only on a timeout. */
  lemma PassSizes(wait: nat -> TxWait, rLen: nat, pos: nat, cur: nat, remain: nat)
    ensures var bs := Bursts(wait, rLen, pos, cur, remain);
      var cs := ChunkSizes(remain);
      && |bs| <= |cs| && Sizes(bs) == cs[..|bs|]
      && (bs != [] && bs[|bs| - 1].wait.timeOut > 0 ==> Sizes(bs) == cs)
  {
    var bs := Bursts(wait, rLen, pos, cur, remain);
    var cs := ChunkSizes(remain);
    BurstsCount(wait, rLen, pos, cur, remain);
    Chunking(remain);
    if bs != [] {
      BurstSize(wait, rLen, pos, cur, remain, |bs| - 1);
    }
    assert |bs| <= |cs|;
    var ms := Sizes(bs);
    forall k | 0 <= k < |bs| ensures ms[k] == cs[k] {
      BurstSize(wait, rLen, pos, cur, remain, k);
    }
    assert ms == cs[..|bs|];
  }

  /** Pass k reads its payload from the bytes the chunks of remain need,
      starting at cur. */
  lemma {:induction false} BurstBound(wait: nat -> TxWait, rLen: nat, pos: nat, cur: nat, remain: nat, k: nat)
    requires k < |Bursts(wait, rLen, pos, cur, remain)|
    ensures var bs := Bursts(wait, rLen, pos, cur, remain);
      cur <= bs[k].cur && bs[k].cur + PayloadBefore(rLen, bs[k].size) <= cur + Need(rLen, remain)
    decreases remain
  {
    var size := ChunkSize(remain);
    var w := wait(pos);
    var cur' := cur + PayloadBefore(rLen, size);
    BurstsStep(wait, rLen, pos, cur, remain);
    assert Need(rLen, remain) == PayloadBefore(rLen, size) + Need(rLen, remain - size);
    if k > 0 {
      var bs := Bursts(wait, rLen, pos, cur, remain);
      var rest := Bursts(wait, rLen, w.next, cur', remain - size);
      BurstBound(wait, rLen, w.next, cur', remain - size, k - 1);
      assert bs[k] == rest[k - 1];
    }
  }

  /** Passes k and k - 1 of bs are passes k - 1 and k - 2 of its tail. */
  lemma TailShift(bs: seq<Burst>, rest: seq<Burst>, k: nat)
    requires 0 < k < |bs| && bs[1..] == rest
    ensures bs[k] == rest[k - 1]
    ensures k > 1 ==> bs[k - 1] == rest[k - 2]
  {
  }

  /** Pass k > 0 starts reading status where pass k - 1 stopped, and takes
      payload where it left off. */
  lemma {:induction false} BurstLink(wait: nat -> TxWait, rLen: nat, pos: nat, cur: nat, remain: nat, k: nat)
    requires 0 < k < |Bursts(wait, rLen, pos, cur, remain)|
    ensures var bs := Bursts(wait, rLen, pos, cur, remain);
      && bs[k].cur == bs[k - 1].cur + PayloadBefore(rLen, bs[k - 1].size)
      && bs[k].wait == wait(bs[k - 1].wait.next)
    decreases remain
  {
    var size := ChunkSize(remain);
    var w := wait(pos);
    var cur' := cur + PayloadBefore(rLen, size);
    BurstsStep(wait, rLen, pos, cur, remain);
    var bs := Bursts(wait, rLen, pos, cur, remain);
    assert w.timeOut > 0;
    var rest := Bursts(wait, rLen, w.next, cur', remain - size);
    TailShift(bs, rest, k);
    if k == 1 {
      BurstsStep(wait, rLen, w.next, cur', remain - size);
    } else {
      BurstLink(wait, rLen, w.next, cur', remain - size, k - 1);
    }
  }

  /** The passes of a write read their payload from buf[.. b_len] and only
      poll IPD while waiting. */
  lemma PassesFit(q: TransferRequest, script: seq<bv32>, budget: nat, pos: nat)
    requires ValidRequest(q)
    ensures Fits(q, Passes(q, script, budget, pos))
    ensures Polled(Passes(q, script, budget, pos))
  {
    var bs := Passes(q, script, budget, pos);
    forall k | 0 <= k < |bs| ensures bs[k].cur + PayloadBefore(q.rLen, bs[k].size) <= q.bLen {
      BurstBound(Waiter(script, budget), q.rLen, pos, 0, Total(q), k);
    }
    forall k | 0 <= k < |bs| ensures PollOnly(bs[k].wait.ops) {
      if k == 0 {
        BurstsStep(Waiter(script, budget), q.rLen, pos, 0, Total(q));
      } else {
        BurstLink(Waiter(script, budget), q.rLen, pos, 0, Total(q), k);
      }
      var p := if k == 0 then pos else bs[k - 1].wait.next;
      assert bs[k].wait == WaitTx(script, p, budget);
    }
  }

  /** Appending a pass that fits to passes that fit: the accesses extend
      by that pass. */
  lemma SnocFits(q: TransferRequest, done: seq<Burst>, b: Burst)
    requires ValidRequest(q) && Fits(q, done + [b])
    ensures Fits(q, done)
    ensures b.size <= FifoSize && b.cur + PayloadBefore(q.rLen, b.size) <= q.bLen
    ensures LoopOps(q, done + [b]) == LoopOps(q, done) + BurstOps(q, b)
  {
    var ext := done + [b];
    assert ext[|done|] == b;
    forall k | 0 <= k < |done| ensures ext[k] == done[k] { }
    assert ext[..|done|] == done;
  }

  /** Appending a pass: the read position is the one it leaves. */
  lemma SnocEnd(done: seq<Burst>, b: Burst, pos: nat)
    ensures End(done + [b], pos) == b.wait.next
  {
    assert (done + [b])[|done|] == b;
  }

  /** Appending a pass: some pass timed out, or saw NAKRCV, when one did
      before or the new one does. */
  lemma SnocFlags(done: seq<Burst>, b: Burst)
    ensures AnyTimeout(done + [b]) == (AnyTimeout(done) || b.wait.timeOut <= 0)
    ensures AnyNack(done + [b]) == (AnyNack(done) || b.wait.nack)
  {
    var ext := done + [b];
    assert ext[|done|] == b;
    if AnyTimeout(ext) {
      var k :| 0 <= k < |ext| && ext[k].wait.timeOut <= 0;
      if k < |done| { assert done[k].wait.timeOut <= 0; }
    }
    if AnyNack(ext) {
      var k :| 0 <= k < |ext| && ext[k].wait.nack;
      if k < |done| { assert done[k].wait.nack; }
    }
    if AnyTimeout(done) {
      var k :| 0 <= k < |done| && done[k].wait.timeOut <= 0;
      assert ext[k] == done[k];
    }
    if AnyNack(done) {
      var k :| 0 <= k < |done| && done[k].wait.nack;
      assert ext[k] == done[k];
    }
  }

  /** The passes done so far, followed by the passes of the loop entered
      with remain bytes left, the cursor at cur and the next status read at
      p, make up the passes full. */
  ghost predicate Completes(wait: nat -> TxWait, rLen: nat, done: seq<Burst>, full: seq<Burst>,
                            p: nat, cur: nat, remain: nat)
  {
    done + Bursts(wait, rLen, p, cur, remain) == full
  }

  /** One more pass of the loop, seen from the passes done so far: it is
      the next pass of the write, the passes up to it fit, and either it
      timed out and was the last or the remaining passes follow it. */
  lemma PassStep(q: TransferRequest, wait: nat -> TxWait, full: seq<Burst>,
                 done: seq<Burst>, p: nat, cur: nat, remain: nat)
    requires ValidRequest(q) && remain > 0 && Fits(q, full)
    requires Completes(wait, q.rLen, done, full, p, cur, remain)
    ensures var b := Burst(cur, ChunkSize(remain), wait(p));
      && Fits(q, done + [b])
      && (b.wait.timeOut <= 0 ==> done + [b] == full)
      && (b.wait.timeOut > 0 ==>
            done + [b] + Bursts(wait, q.rLen, b.wait.next, cur + PayloadBefore(q.rLen, ChunkSize(remain)), remain - ChunkSize(remain)) == full)
  {
    BurstsSnoc(wait, q.rLen, p, cur, remain, done);
    var b := Burst(cur, ChunkSize(remain), wait(p));
    FitsPrefix(q, done + [b], full);
  }

  /** After a pass that did not time out, the passes still to come start
      at the read position, cursor and byte count that pass left. */
  lemma PassNext(q: TransferRequest, wait: nat -> TxWait, full: seq<Burst>,
                 done: seq<Burst>, p: nat, cur: nat, remain: nat,
                 b: Burst, done': seq<Burst>, next: nat, p': nat)
    requires remain > 0 && Completes(wait, q.rLen, done, full, p, cur, remain)
    requires b == Burst(cur, ChunkSize(remain), wait(p)) && done' == done + [b]
    requires next == cur + PayloadBefore(q.rLen, b.size)
    requires b.wait.timeOut > 0 && p' == b.wait.next
    ensures Completes(wait, q.rLen, done', full, p', next, remain - b.size)
  {
    BurstsSnoc(wait, q.rLen, p, cur, remain, done);
  }

  /** The state of the chunk loop after the passes done, entered with the
      passes full ahead of it from read position pos0 and log log0: the
      passes so far fit and none timed out, the passes still to come from
      read position p, cursor cur and remain bytes complete them to full,
      and err, the log and the read position are what those passes left. */
  ghost predicate Looping(q: TransferRequest, wait: nat -> TxWait, full: seq<Burst>, done: seq<Burst>,
                          pos0: nat, log0: seq<Op>, p: nat, cur: nat, remain: nat, err: Err, log: seq<Op>)
  {
    && ValidRequest(q) && Fits(q, full) && Fits(q, done) && !AnyTimeout(done)
    && Completes(wait, q.rLen, done, full, p, cur, remain)
    && err == (if AnyNack(done) then ErrorNoAck else Ok)
    && log == log0 + LoopOps(q, done)
    && p == End(done, pos0)
  }

  /** The loop starts with no passes done. */
  lemma LoopEnter(q: TransferRequest, wait: nat -> TxWait, full: seq<Burst>, pos0: nat, log0: seq<Op>)
    requires ValidRequest(q) && Fits(q, full)
    requires full == Bursts(wait, q.rLen, pos0, 0, Total(q))
    ensures Looping(q, wait, full, [], pos0, log0, pos0, 0, Total(q), Ok, log0)
  {
    assert [] + full == full;
  }

  /** The next pass reads its payload from buf[.. b_len]. */
  lemma LoopFits(q: TransferRequest, wait: nat -> TxWait, full: seq<Burst>, done: seq<Burst>,
                 pos0: nat, log0: seq<Op>, p: nat, cur: nat, remain: nat, err: Err, log: seq<Op>)
    requires Looping(q, wait, full, done, pos0, log0, p, cur, remain, err, log) && remain > 0
    ensures cur + PayloadBefore(q.rLen, ChunkSize(remain)) <= q.bLen
  {
    PassStep(q, wait, full, done, p, cur, remain);
    var b := Burst(cur, ChunkSize(remain), wait(p));
    assert (done + [b])[|done|] == b;
  }

  /** A pass that does not time out: the loop goes on with one more pass
      done, a NACK recorded in err. */
  lemma LoopAdvance(q: TransferRequest, wait: nat -> TxWait, full: seq<Burst>, done: seq<Burst>,
                    pos0: nat, log0: seq<Op>, p: nat, cur: nat, remain: nat, err: Err, log: seq<Op>,
                    b: Burst, done': seq<Burst>, p': nat, next: nat, remain': nat, err': Err, log': seq<Op>)
    requires Looping(q, wait, full, done, pos0, log0, p, cur, remain, err, log) && remain > 0
    requires b == Burst(cur, ChunkSize(remain), wait(p)) && b.wait.timeOut > 0
    requires cur + PayloadBefore(q.rLen, b.size) <= q.bLen
    requires done' == done + [b] && remain' == remain - b.size
    requires p' == b.wait.next && next == cur + PayloadBefore(q.rLen, b.size)
    requires err' == (if b.wait.nack then ErrorNoAck else err)
    requires log' == log + BurstOps(q, b)
    ensures Looping(q, wait, full, done', pos0, log0, p', next, remain', err', log')
  {
    AdvancePasses(q, wait, full, done, pos0, p, cur, remain, b, done', p', next, remain');
    AdvanceLog(q, done, log0, err, log, b, done', err', log');
  }

  /** After a pass that did not time out, the passes done still fit, none
      timed out, the rest completes them, and they end where the pass did. */
  lemma AdvancePasses(q: TransferRequest, wait: nat -> TxWait, full: seq<Burst>, done: seq<Burst>,
                      pos0: nat, p: nat, cur: nat, remain: nat,
                      b: Burst, done': seq<Burst>, p': nat, next: nat, remain': nat)
    requires ValidRequest(q) && Fits(q, full) && !AnyTimeout(done) && remain > 0
    requires Completes(wait, q.rLen, done, full, p, cur, remain)
    requires b == Burst(cur, ChunkSize(remain), wait(p)) && b.wait.timeOut > 0
    requires done' == done + [b] && remain' == remain - b.size
    requires p' == b.wait.next && next == cur + PayloadBefore(q.rLen, b.size)
    ensures Fits(q, done') && !AnyTimeout(done') && p' == End(done', pos0)
    ensures Completes(wait, q.rLen, done', full, p', next, remain')
  {
    PassStep(q, wait, full, done, p, cur, remain);
    SnocFlags(done, b);
    SnocEnd(done, b, pos0);
    PassNext(q, wait, full, done, p, cur, remain, b, done', next, p');
  }

  /** After one more pass, the error and the log are those of the passes
      done so far. */
  lemma AdvanceLog(q: TransferRequest, done: seq<Burst>, log0: seq<Op>, err: Err, log: seq<Op>,
                   b: Burst, done': seq<Burst>, err': Err, log': seq<Op>)
    requires ValidRequest(q) && Fits(q, done) && Fits(q, done') && done' == done + [b]
    requires b.size <= FifoSize && b.cur + PayloadBefore(q.rLen, b.size) <= q.bLen
    requires err == (if AnyNack(done) then ErrorNoAck else Ok) && log == log0 + LoopOps(q, done)
    requires err' == (if b.wait.nack then ErrorNoAck else err) && log' == log + BurstOps(q, b)
    ensures err' == (if AnyNack(done') then ErrorNoAck else Ok) && log' == log0 + LoopOps(q, done')
  {
    SnocFits(q, done, b);
    SnocFlags(done, b);
    Regroup(log0, LoopOps(q, done), BurstOps(q, b));
  }

  /** A pass that times out is the last one: the loop leaves
      I2C_ERROR_TIMEOUT. */
  lemma LoopTimeout(q: TransferRequest, wait: nat -> TxWait, full: seq<Burst>, done: seq<Burst>,
                    pos0: nat, log0: seq<Op>, p: nat, cur: nat, remain: nat, err: Err, log: seq<Op>,
                    b: Burst, p': nat, log': seq<Op>)
    requires Looping(q, wait, full, done, pos0, log0, p, cur, remain, err, log) && remain > 0
    requires b == Burst(cur, ChunkSize(remain), wait(p)) && b.wait.timeOut <= 0
    requires cur + PayloadBefore(q.rLen, b.size) <= q.bLen
    requires p' == b.wait.next && log' == log + BurstOps(q, b)
    ensures ErrorTimeout == ErrAfter(full, Ok) && log' == log0 + LoopOps(q, full) && p' == End(full, pos0)
  {
    PassStep(q, wait, full, done, p, cur, remain);
    SnocFits(q, done, b);
    SnocEnd(done, b, pos0);
    Regroup(log0, LoopOps(q, done), BurstOps(q, b));
    assert AnyTimeout(full) by {
      assert full[|done|] == b;
    }
  }

  /** The loop ends with no bytes left: it has made every pass. */
  lemma LoopExit(q: TransferRequest, wait: nat -> TxWait, full: seq<Burst>, done: seq<Burst>,
                 pos0: nat, log0: seq<Op>, p: nat, cur: nat, err: Err, log: seq<Op>)
    requires Looping(q, wait, full, done, pos0, log0, p, cur, 0, err, log)
    ensures err == ErrAfter(full, Ok) && log == log0 + LoopOps(q, full) && p == End(full, pos0)
  {
    assert done + [] == done;
  }

  /** The first pass of the loop entered with remain > 0 bytes left moves
      from the passes still to come to the passes done. */
  lemma BurstsSnoc(wait: nat -> TxWait, rLen: nat, p: nat, cur: nat, remain: nat, done: seq<Burst>)
    requires remain > 0
    ensures var b := Burst(cur, ChunkSize(remain), wait(p));
      var rest := if b.wait.timeOut <= 0 then []
                  else Bursts(wait, rLen, b.wait.next, cur + PayloadBefore(rLen, b.size), remain - b.size);
      done + [b] + rest == done + Bursts(wait, rLen, p, cur, remain)
  {
    BurstsStep(wait, rLen, p, cur, remain);
    var bs := Bursts(wait, rLen, p, cur, remain);
    assert bs == [bs[0]] + bs[1..];
  }

  /** A prefix of passes that fit also fits. */
  lemma FitsPrefix(q: TransferRequest, a: seq<Burst>, full: seq<Burst>)
    requires Fits(q, full) && |a| <= |full| && a == full[..|a|]
    ensures Fits(q, a)
  {
    forall k | 0 <= k < |a| ensures a[k] == full[k] { }
  }

  // ---------------------------------------------------------------------
  // The error rules.
  // ---------------------------------------------------------------------

  /** Some pass of bs timed out. */
  predicate AnyTimeout(bs: seq<Burst>)
  {
    exists k :: 0 <= k < |bs| && bs[k].wait.timeOut <= 0
  }

  /** Some pass of bs saw NAKRCV. */
  predicate AnyNack(bs: seq<Burst>)
  {
    exists k :: 0 <= k < |bs| && bs[k].wait.nack
  }

  lemma AnyCons(bs: seq<Burst>)
    requires bs != []
    ensures AnyTimeout(bs) == (bs[0].wait.timeOut <= 0 || AnyTimeout(bs[1..]))
    ensures AnyNack(bs) == (bs[0].wait.nack || AnyNack(bs[1..]))
  {
    var rest := bs[1..];
    forall k | 0 <= k < |rest| ensures rest[k] == bs[k + 1] { }
    if AnyTimeout(bs) {
      var k :| 0 <= k < |bs| && bs[k].wait.timeOut <= 0;
      if k > 0 { assert rest[k - 1].wait.timeOut <= 0; }
    }
    if AnyNack(bs) {
      var k :| 0 <= k < |bs| && bs[k].wait.nack;
      if k > 0 { assert rest[k - 1].wait.nack; }
    }
  }

  // ---------------------------------------------------------------------
  // What the loop writes.
  // ---------------------------------------------------------------------

  /** The values written to MTXCNT, in order. */
  function Mtxcnts(ops: seq<Op>): seq<nat>
    decreases |ops|
  {
    if ops == [] then []
    else
      var op := ops[|ops| - 1];
      Mtxcnts(ops[..|ops| - 1]) + (if op.WriteMtxcnt? then [op.count] else [])
  }

  lemma {:induction false} MtxcntsAppend(a: seq<Op>, b: seq<Op>)
    ensures Mtxcnts(a + b) == Mtxcnts(a) + Mtxcnts(b)
    decreases |b|
  {
    if b == [] {
      assert a + b == a;
    } else {
      var n := |b| - 1;
      assert (a + b)[..|a + b| - 1] == a + b[..n];
      assert (a + b)[|a + b| - 1] == b[n];
      MtxcntsAppend(a, b[..n]);
    }
  }

  lemma MtxcntsSingle(op: Op)
    ensures Mtxcnts([op]) == if op.WriteMtxcnt? then [op.count] else []
  {
    assert [op][..0] == [];
  }

  /** A log without MTXCNT writes adds no MTXCNT value. */
  lemma {:induction false} MtxcntsNone(ops: seq<Op>)
    requires forall k :: 0 <= k < |ops| ==> !ops[k].WriteMtxcnt?
    ensures Mtxcnts(ops) == []
    decreases |ops|
  {
    if ops != [] {
      MtxcntsNone(ops[..|ops| - 1]);
    }
  }

  /** Every CON write in ops sets v. */
  predicate ConOnly(ops: seq<Op>, v: bv32)
  {
    forall k :: 0 <= k < |ops| && ops[k].WriteCon? ==> ops[k].con == v
  }

  lemma ConOnlyAppend(a: seq<Op>, b: seq<Op>, v: bv32)
    requires ConOnly(a, v) && ConOnly(b, v)
    ensures ConOnly(a + b, v)
  {
    forall k | 0 <= k < |a + b| && (a + b)[k].WriteCon? ensures (a + b)[k].con == v {
      if k >= |a| {
        assert (a + b)[k] == b[k - |a|];
      }
    }
  }

  /** TXDATA writes, a launch and a poll: one MTXCNT write with the chunk
      size, and CON set to transmit mode only. */
  lemma LaunchAccesses(fill: seq<Op>, size: nat, w: seq<Op>)
    requires forall k :: 0 <= k < |fill| ==> fill[k].WriteTxdata?
    requires PollOnly(w)
    ensures Mtxcnts(fill + Launch(size) + w) == [size]
    ensures ConOnly(fill + Launch(size) + w, ConTransmit)
  {
    LaunchMtxcnts(fill, size, w);
    LaunchCon(fill, size, w);
  }

  /** The launch selects transmit mode with the controller enabled, sets
      MTXCNT to the chunk size and enables only the MBTF and NAKRCV
      interrupts; TXDATA keeps what the fill left. */
  lemma LaunchEffect(r: Regs, size: nat)
    ensures Replay(r, Launch(size)) == r.(con := ConTransmit, mtxcnt := size, ien := IenMbtf | IenNakrcv)
  {
    ReplayTriple(WriteCon(ConTransmit), WriteMtxcnt(size), WriteIen(IenMbtf | IenNakrcv));
  }

  /** After one pass the controller holds the launch values, TXDATA holds
      what the fill of the chunk left, and the wait has changed none of
      them. */
  lemma BurstEffect(q: TransferRequest, b: Burst, r: Regs)
    requires ValidRequest(q) && b.size <= FifoSize
    requires b.cur + PayloadBefore(q.rLen, b.size) <= q.bLen
    requires PollOnly(b.wait.ops)
    ensures var r' := Replay(r, BurstOps(q, b));
      r' == Replay(r, FillOps(q, b.cur, b.size, Words(b.size))).(con := ConTransmit, mtxcnt := b.size, ien := IenMbtf | IenNakrcv)
  {
    var fill := FillOps(q, b.cur, b.size, Words(b.size));
    ReplayAppend(r, fill, Launch(b.size));
    LaunchEffect(Replay(r, fill), b.size);
    PollReplay(r, fill + Launch(b.size), b.wait.ops);
  }

  /** The launch itself writes MTXCNT once, with the chunk size. */
  lemma LaunchOneMtxcnt(size: nat)
    ensures Mtxcnts(Launch(size)) == [size]
  {
    var x, y, z := WriteCon(ConTransmit), WriteMtxcnt(size), WriteIen(IenMbtf | IenNakrcv);
    assert Launch(size) == [x] + [y] + [z];
    MtxcntsAppend([x] + [y], [z]);
    MtxcntsAppend([x], [y]);
    MtxcntsSingle(x);
    MtxcntsSingle(y);
    MtxcntsSingle(z);
  }

  lemma LaunchMtxcnts(fill: seq<Op>, size: nat, w: seq<Op>)
    requires forall k :: 0 <= k < |fill| ==> fill[k].WriteTxdata?
    requires PollOnly(w)
    ensures Mtxcnts(fill + Launch(size) + w) == [size]
  {
    MtxcntsNone(fill);
    MtxcntsNone(w);
    MtxcntsAppend(fill, Launch(size));
    MtxcntsAppend(fill + Launch(size), w);
    LaunchOneMtxcnt(size);
    assert [] + [size] + [] == [size];
  }

  lemma LaunchCon(fill: seq<Op>, size: nat, w: seq<Op>)
    requires forall k :: 0 <= k < |fill| ==> fill[k].WriteTxdata?
    requires PollOnly(w)
    ensures ConOnly(fill + Launch(size) + w, ConTransmit)
  {
    PollConOnly(w, ConTransmit);
    assert ConOnly(fill, ConTransmit);
    assert ConOnly(Launch(size), ConTransmit);
    ConOnlyAppend(fill, Launch(size), ConTransmit);
    ConOnlyAppend(fill + Launch(size), w, ConTransmit);
  }

  /** One pass writes MTXCNT once, with its chunk size, and writes CON only
      with transmit mode. */
  lemma BurstAccesses(q: TransferRequest, b: Burst)
    requires ValidRequest(q) && b.size <= FifoSize
    requires b.cur + PayloadBefore(q.rLen, b.size) <= q.bLen
    requires PollOnly(b.wait.ops)
    ensures Mtxcnts(BurstOps(q, b)) == [b.size]
    ensures ConOnly(BurstOps(q, b), ConTransmit)
  {
    LaunchAccesses(FillOps(q, b.cur, b.size, Words(b.size)), b.size, b.wait.ops);
  }

  /** The chunk sizes of the passes bs, as written to MTXCNT. */
  function Sizes(bs: seq<Burst>): (ms: seq<nat>)
    ensures |ms| == |bs|
    ensures forall k :: 0 <= k < |bs| ==> ms[k] == bs[k].size
    decreases |bs|
  {
    if bs == [] then [] else Sizes(bs[..|bs| - 1]) + [bs[|bs| - 1].size]
  }

  /** Appending one pass's MTXCNT write to those before it. */
  lemma MtxcntsSnoc(init: seq<Op>, last: seq<Op>, bs: seq<Burst>)
    requires bs != []
    requires Mtxcnts(init) == Sizes(bs[..|bs| - 1])
    requires Mtxcnts(last) == [bs[|bs| - 1].size]
    ensures Mtxcnts(init + last) == Sizes(bs)
  {
    MtxcntsAppend(init, last);
  }

  /** The loop writes MTXCNT once per pass, with that pass's chunk size,
      and writes CON only with transmit mode. */
  lemma {:induction false} LoopAccesses(q: TransferRequest, bs: seq<Burst>)
    requires ValidRequest(q) && Fits(q, bs) && Polled(bs)
    ensures Mtxcnts(LoopOps(q, bs)) == Sizes(bs)
    ensures ConOnly(LoopOps(q, bs), ConTransmit)
    decreases |bs|
  {
    if bs != [] {
      var n := |bs| - 1;
      var init := LoopOps(q, bs[..n]);
      var last := BurstOps(q, bs[n]);
      LoopAccesses(q, bs[..n]);
      BurstAccesses(q, bs[n]);
      MtxcntsSnoc(init, last, bs);
      ConOnlyAppend(init, last, ConTransmit);
    }
  }

  /** Every pass but the last sends a full chunk, so pass k starts at
      payload byte k * (31 - r_len): each chunk after the first starts with
      the header again. */
  lemma {:induction false} PassCursor(wait: nat -> TxWait, rLen: nat, pos: nat, remain: nat, k: nat)
    requires k < |Bursts(wait, rLen, pos, 0, remain)|
    ensures Bursts(wait, rLen, pos, 0, remain)[k].cur == k * PayloadBefore(rLen, FifoSize)
  {
    var bs := Bursts(wait, rLen, pos, 0, remain);
    if k == 0 {
      BurstsStep(wait, rLen, pos, 0, remain);
    } else {
      PassCursor(wait, rLen, pos, remain, k - 1);
      BurstLink(wait, rLen, pos, 0, remain, k);
      BurstSize(wait, rLen, pos, 0, remain, k);
      BurstSize(wait, rLen, pos, 0, remain, k - 1);
      assert remain - FifoSize * (k - 1) > FifoSize;
      assert bs[k - 1].size == FifoSize;
      assert (k - 1) * PayloadBefore(rLen, FifoSize) + PayloadBefore(rLen, FifoSize) == k * PayloadBefore(rLen, FifoSize);
    }
  }

  // ---------------------------------------------------------------------
  // A whole rk_i2c_write.
  // ---------------------------------------------------------------------

  lemma PollConOnly(ops: seq<Op>, v: bv32)
    requires PollOnly(ops)
    ensures ConOnly(ops, v)
  {
  }

  /** A log whose CON writes all set v holds no write of another value. */
  lemma ConOnlyCount(ops: seq<Op>, v: bv32, c: bv32)
    requires ConOnly(ops, v) && c != v
    ensures Count(ops, WriteCon(c)) == 0
  {
    assert forall k :: 0 <= k < |ops| ==> ops[k] != WriteCon(c);
    assert WriteCon(c) !in ops;
  }

  /** CON holds the last value written to it. */
  lemma ReplayLastCon(r: Regs, a: seq<Op>, v: bv32, b: seq<Op>)
    requires forall k :: 0 <= k < |b| ==> !b[k].WriteCon?
    ensures Replay(r, a + [WriteCon(v)] + b).con == v
    decreases |b|
  {
    if b == [] {
      EndsDisabled(r, a);
      assert a + [WriteCon(v)] + b == a + [WriteCon(v)];
      assert (a + [WriteCon(v)])[..|a|] == a;
    } else {
      var n := |b| - 1;
      var c := a + [WriteCon(v)] + b;
      assert c[..|c| - 1] == a + [WriteCon(v)] + b[..n];
      assert c[|c| - 1] == b[n];
      ReplayLastCon(r, a, v, b[..n]);
    }
  }

  /** A routine that writes IPD, CON := v and IEN, then only polls: CON is
      written once, with v, which it keeps afterwards, and MTXCNT never. */
  lemma RoutineAccesses(ops: seq<Op>, a: bv32, v: bv32, b: bv32, r: Regs)
    requires |ops| >= 3 && ops[..3] == [WriteIpd(a), WriteCon(v), WriteIen(b)] && PollOnly(ops[3..])
    ensures ConOnly(ops, v) && Count(ops, WriteCon(v)) == 1 && Mtxcnts(ops) == []
    ensures Replay(r, ops).con == v
  {
    var w := [WriteIen(b)] + ops[3..];
    RoutineShape(ops, a, v, b);
    RoutineCount(WriteIpd(a), WriteCon(v), w);
    MtxcntsNone(ops);
    ReplayLastCon(r, [WriteIpd(a)], v, w);
  }

  /** A routine's log is its IPD and CON writes followed by accesses that
      write neither CON nor MTXCNT. */
  lemma RoutineShape(ops: seq<Op>, a: bv32, v: bv32, b: bv32)
    requires |ops| >= 3 && ops[..3] == [WriteIpd(a), WriteCon(v), WriteIen(b)] && PollOnly(ops[3..])
    ensures var w := [WriteIen(b)] + ops[3..];
      && ops == [WriteIpd(a), WriteCon(v)] + w && ops == [WriteIpd(a)] + [WriteCon(v)] + w
      && (forall k :: 0 <= k < |w| ==> !w[k].WriteCon? && !w[k].WriteMtxcnt?)
      && WriteCon(v) !in w
      && ConOnly(ops, v) && (forall k :: 0 <= k < |ops| ==> !ops[k].WriteMtxcnt?)
  {
    var w := [WriteIen(b)] + ops[3..];
    assert ops == [WriteIpd(a), WriteCon(v)] + w;
    assert forall k :: 0 <= k < |w| ==> !w[k].WriteCon? && !w[k].WriteMtxcnt?;
  }

  lemma RoutineCount(x: Op, y: Op, w: seq<Op>)
    requires x != y && y !in w
    ensures Count([x, y] + w, y) == 1
  {
    CountAppend([x, y], w, y);
    assert [x, y][..1] == [x] && [x][..0] == [];
  }

  /** The accesses after a successful START: CON gets I2C_CON_EN |
      I2C_CON_STOP exactly once and zero exactly once, as the very last
      access, and MTXCNT only gets the loop's values. */
  lemma ExitAccesses(start: seq<Op>, loop: seq<Op>, stop: seq<Op>, r: Regs)
    requires |start| >= 3 && start[..3] == StartPreamble() && PollOnly(start[3..])
    requires ConOnly(loop, ConTransmit)
    requires |stop| >= 3 && stop[..3] == StopPreamble() && PollOnly(stop[3..])
    ensures var ops := start + loop + stop + [WriteCon(0)];
      && ops[..3] == StartPreamble()
      && ops[|ops| - 1] == WriteCon(0)
      && Count(ops, WriteCon(ConEnable | ConStop)) == 1
      && Count(ops, WriteCon(0)) == 1
      && Replay(r, ops).con == 0
      && Mtxcnts(ops) == Mtxcnts(loop)
  {
    var stopCon, startCon := ConEnable | ConStop, ConEnable | ConStart;
    RoutineAccesses(start, IpdAllClean, startCon, IenStart, r);
    RoutineAccesses(stop, IpdAllClean, stopCon, ConStop, r);
    var ops := start + loop + stop + [WriteCon(0)];
    ExitEnds(start, loop + stop, WriteCon(0));
    ConOnlyCount(start, startCon, stopCon);
    ConOnlyCount(start, startCon, 0);
    ConOnlyCount(loop, ConTransmit, stopCon);
    ConOnlyCount(loop, ConTransmit, 0);
    ConOnlyCount(stop, stopCon, 0);
    ExitCount(start, loop, stop, WriteCon(stopCon));
    ExitCount(start, loop, stop, WriteCon(0));
    EndsDisabled(r, start + loop + stop);
    ExitMtxcnts(start, loop, stop);
  }

  /** A log that starts with start and ends with last. */
  lemma ExitEnds(start: seq<Op>, middle: seq<Op>, last: Op)
    requires |start| >= 3
    ensures var ops := start + middle + [last];
      ops[..3] == start[..3] && ops[|ops| - 1] == last
  {
    var ops := start + middle + [last];
    assert ops == start + (middle + [last]);
  }

  lemma ExitMtxcnts(start: seq<Op>, loop: seq<Op>, stop: seq<Op>)
    requires Mtxcnts(start) == [] && Mtxcnts(stop) == []
    ensures Mtxcnts(start + loop + stop + [WriteCon(0)]) == Mtxcnts(loop)
  {
    MtxcntsAppend(start, loop);
    MtxcntsAppend(start + loop, stop);
    MtxcntsAppend(start + loop + stop, [WriteCon(0)]);
    MtxcntsSingle(WriteCon(0));
  }

  lemma ExitCount(start: seq<Op>, loop: seq<Op>, stop: seq<Op>, op: Op)
    ensures Count(start + loop + stop + [WriteCon(0)], op)
         == Count(start, op) + Count(loop, op) + Count(stop, op) + (if op == WriteCon(0) then 1 else 0)
  {
    CountAppend(start, loop, op);
    CountAppend(start + loop, stop, op);
    CountAppend(start + loop + stop, [WriteCon(0)], op);
    assert [WriteCon(0)][..0] == [];
  }

  /** A write whose START is never seen in time returns I2C_ERROR_TIMEOUT
      straight away: it sends no STOP, never disables the controller (CON
      keeps I2C_CON_EN | I2C_CON_START) and touches neither TXDATA nor
      MTXCNT. */
  lemma WriteStartFails(q: TransferRequest, script: seq<bv32>, budget: nat, pos: nat, r: Regs)
    requires ValidRequest(q) && budget >= 1
    requires forall k :: 0 <= k < budget - 1 ==> !HitAt(script, pos, IpdStart, k)
    ensures var o := WriteRun(q, script, budget, pos);
      && o.err == ErrorTimeout
      && o.ops[..3] == StartPreamble() && PollOnly(o.ops[3..])
      && Count(o.ops, WriteCon(ConEnable | ConStop)) == 0
      && Count(o.ops, WriteCon(0)) == 0
      && Mtxcnts(o.ops) == []
      && Replay(r, o.ops).con == ConEnable | ConStart
  {
    var s := SendStartBit(script, pos, budget);
    StartBitResult(script, pos, budget);
    RoutineAccesses(s.ops, IpdAllClean, ConEnable | ConStart, IenStart, r);
    ConOnlyCount(s.ops, ConEnable | ConStart, ConEnable | ConStop);
    ConOnlyCount(s.ops, ConEnable | ConStart, 0);
  }

  /** Once START is seen, the write always ends the same way: STOP is
      requested exactly once, CON is then zeroed by rk_i2c_disable, and
      that is the last access, so the controller is left disabled. MTXCNT
      is written once per pass with the sizes of ChunkSizes in order, all
      of them unless a wait timed out. */
  lemma WriteCompletes(q: TransferRequest, script: seq<bv32>, budget: nat, pos: nat, r: Regs)
    requires ValidRequest(q) && budget >= 1
    requires exists k :: 0 <= k < budget - 1 && HitAt(script, pos, IpdStart, k)
    ensures var s := SendStartBit(script, pos, budget);
      var bs := Passes(q, script, budget, s.next);
      var o := WriteRun(q, script, budget, pos);
      var cs := ChunkSizes(Total(q));
      && o.ops[..3] == StartPreamble()
      && o.ops[|o.ops| - 1] == WriteCon(0)
      && Count(o.ops, WriteCon(ConEnable | ConStop)) == 1
      && Count(o.ops, WriteCon(0)) == 1
      && Replay(r, o.ops).con == 0
      && |Mtxcnts(o.ops)| == |bs| && Mtxcnts(o.ops) <= cs
      && (!AnyTimeout(bs) ==> Mtxcnts(o.ops) == cs)
  {
    var s := SendStartBit(script, pos, budget);
    var bs := Passes(q, script, budget, s.next);
    var t := SendStopBit(script, End(bs, s.next), budget);
    StartBitResult(script, pos, budget);
    StopBitResult(script, End(bs, s.next), budget);
    PassesFit(q, script, budget, s.next);
    LoopAccesses(q, bs);
    ExitAccesses(s.ops, LoopOps(q, bs), t.ops, r);
    PassSizes(Waiter(script, budget), q.rLen, s.next, 0, Total(q));
    BurstsCount(Waiter(script, budget), q.rLen, s.next, 0, Total(q));
    if !AnyTimeout(bs) && bs != [] {
      assert bs[|bs| - 1].wait.timeOut > 0;
    }
  }

  // ---------------------------------------------------------------------
  // The result does not depend on what the STOP routine reads.
  // ---------------------------------------------------------------------

  /** Waits never move the read position backwards. */
  ghost predicate Forward(wait: nat -> TxWait)
  {
    forall p: nat :: p <= wait(p).next
  }

  lemma WaiterForward(script: seq<bv32>, budget: nat)
    ensures Forward(Waiter(script, budget))
  {
    forall p: nat ensures p <= Waiter(script, budget)(p).next {
      assert Waiter(script, budget)(p) == WaitTx(script, p, budget);
    }
  }

  /** Where the passes stop reading: after the first wait, and where the
      later passes stop when the first wait succeeds. */
  lemma EndNext(wait: nat -> TxWait, rLen: nat, pos: nat, cur: nat, remain: nat)
    requires remain > 0
    ensures var w := wait(pos);
      var size := ChunkSize(remain);
      var e := End(Bursts(wait, rLen, pos, cur, remain), pos);
      && (w.timeOut <= 0 ==> e == w.next)
      && (w.timeOut > 0 ==> e == End(Bursts(wait, rLen, w.next, cur + PayloadBefore(rLen, size), remain - size), w.next))
  {
    var bs := Bursts(wait, rLen, pos, cur, remain);
    BurstsStep(wait, rLen, pos, cur, remain);
    assert bs == [bs[0]] + bs[1..];
    EndCons(bs[0], bs[1..], pos);
  }

  /** The passes after a first one stop reading where the whole run does. */
  lemma EndCons(b: Burst, rest: seq<Burst>, pos: nat)
    ensures End([b] + rest, pos) == End(rest, b.wait.next)
  {
    if rest != [] {
      assert ([b] + rest)[|rest|] == rest[|rest| - 1];
    }
  }

  lemma {:induction false} EndStep(wait: nat -> TxWait, rLen: nat, pos: nat, cur: nat, remain: nat)
    requires Forward(wait)
    ensures var e := End(Bursts(wait, rLen, pos, cur, remain), pos);
      && pos <= e
      && (remain > 0 ==> wait(pos).next <= e)
    decreases remain
  {
    if remain > 0 {
      var size := ChunkSize(remain);
      var w := wait(pos);
      EndNext(wait, rLen, pos, cur, remain);
      assert pos <= w.next;
      if w.timeOut > 0 {
        EndStep(wait, rLen, w.next, cur + PayloadBefore(rLen, size), remain - size);
      }
    }
  }

  /** Two ways of waiting that agree on every wait ending by e give the
      same passes, when the passes of the first end by e. */
  lemma {:induction false} BurstsAgree(w1: nat -> TxWait, w2: nat -> TxWait, rLen: nat, pos: nat, cur: nat, remain: nat, e: nat)
    requires Forward(w1)
    requires forall p: nat :: pos <= p && w1(p).next <= e ==> w1(p) == w2(p)
    requires End(Bursts(w1, rLen, pos, cur, remain), pos) <= e
    ensures Bursts(w1, rLen, pos, cur, remain) == Bursts(w2, rLen, pos, cur, remain)
    decreases remain
  {
    if remain > 0 {
      var size := ChunkSize(remain);
      var w := w1(pos);
      EndStep(w1, rLen, pos, cur, remain);
      EndNext(w1, rLen, pos, cur, remain);
      assert w1(pos) == w2(pos);
      BurstsStep(w1, rLen, pos, cur, remain);
      BurstsStep(w2, rLen, pos, cur, remain);
      if w.timeOut > 0 {
        assert pos <= w.next;
        BurstsAgree(w1, w2, rLen, w.next, cur + PayloadBefore(rLen, size), remain - size, e);
      }
    }
  }

  /** The read position at which the STOP routine of a write starts: none
      is run when START fails. */
  function StopFrom(q: TransferRequest, script: seq<bv32>, budget: nat, pos: nat): nat
  {
    var s := SendStartBit(script, pos, budget);
    if s.err != Ok then s.next else End(Passes(q, script, budget, s.next), s.next)
  }

  /** rk_i2c_write discards what rk_i2c_send_stop_bit returns: two device
      behaviours that agree on every status read before the STOP wait give
      the same result and the same STOP position. */
  lemma WriteIgnoresStop(q: TransferRequest, s1: seq<bv32>, s2: seq<bv32>, budget: nat, pos: nat)
    requires ValidRequest(q)
    requires Agree(s1, s2, pos, StopFrom(q, s1, budget, pos))
    ensures WriteRun(q, s1, budget, pos).err == WriteRun(q, s2, budget, pos).err
    ensures StopFrom(q, s1, budget, pos) == StopFrom(q, s2, budget, pos)
  {
    var a := WaitBit(s1, pos, budget, IpdStart);
    var e := StopFrom(q, s1, budget, pos);
    if a.timeOut <= 0 {
      WaitBitAgree(s1, s2, pos, budget, IpdStart);
    } else {
      var w1, w2 := Waiter(s1, budget), Waiter(s2, budget);
      WaiterForward(s1, budget);
      EndStep(w1, q.rLen, a.next, 0, Total(q));
      WaitBitAgree(s1, s2, pos, budget, IpdStart);
      forall p: nat | a.next <= p && w1(p).next <= e ensures w1(p) == w2(p) {
        assert w1(p) == WaitTx(s1, p, budget) && w2(p) == WaitTx(s2, p, budget);
        assert Agree(s1, s2, p, WaitTx(s1, p, budget).next);
        WaitTxAgree(s1, s2, p, budget);
      }
      BurstsAgree(w1, w2, q.rLen, a.next, 0, Total(q), e);
    }
  }
}
