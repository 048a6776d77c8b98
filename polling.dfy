/** The bounded countdown waits of the driver: the START wait of
    rk_i2c_send_start_bit, the STOP wait of rk_i2c_send_stop_bit and the
    per-chunk transmit wait of rk_i2c_write. Each is a pure function of the
    status script and the read position it starts at. */
module Polling {
  import opened Registers

  /** The end of one wait: the final value of the countdown (the C idiom
      `while (TimeOut--)` leaves -1 when the budget runs out), the accesses
      made, and the index of the next unread status. */
  datatype Wait = Wait(timeOut: int, ops: seq<Op>, next: nat)

  /** The transmit wait also reports whether NAKRCV was seen during it. */
  datatype TxWait = TxWait(timeOut: int, nack: bool, ops: seq<Op>, next: nat)

  /** The result of a start or stop routine. */
  datatype Outcome = Outcome(err: Err, ops: seq<Op>, next: nat)

  /** A log that only touches IPD and the delay primitive. */
  predicate PollOnly(ops: seq<Op>)
  {
    forall k :: 0 <= k < |ops| ==> ops[k].ReadIpd? || ops[k].WriteIpd? || ops[k].Udelay?
  }

  /** Polling leaves the control registers as they were. */
  lemma {:induction false} PollReplay(r: Regs, a: seq<Op>, ops: seq<Op>)
    requires PollOnly(ops)
    ensures Replay(r, a + ops) == Replay(r, a)
    decreases |ops|
  {
    if ops == [] {
      assert a + ops == a;
    } else {
      var n := |ops| - 1;
      assert (a + ops)[..|a + ops| - 1] == a + ops[..n];
      assert (a + ops)[|a + ops| - 1] == ops[n];
      assert forall k :: 0 <= k < n ==> ops[..n][k] == ops[k];
      PollReplay(r, a, ops[..n]);
      var x := Replay(r, a + ops[..n]);
      assert ops[n].ReadIpd? || ops[n].WriteIpd? || ops[n].Udelay?;
      assert Step(x, ops[n]) == x;
    }
  }

  /** Check number k (0-based) of a wait that starts reading at pos sees bit. */
  predicate HitAt(script: seq<bv32>, pos: nat, bit: bv32, k: nat)
  {
    Pending(StatusAt(script, pos + k), bit)
  }

  /** The countdown wait on one status bit, entered with TimeOut == t:
      test-and-decrement TimeOut; when it was 0, give up; otherwise read
      IPD, and on the bit clear it and leave, else delay 1 us and repeat. */
  function WaitBit(script: seq<bv32>, pos: nat, t: nat, bit: bv32): (w: Wait)
    ensures pos <= w.next <= pos + t
    ensures -1 <= w.timeOut < t
    ensures |w.ops| == 2 * (w.next - pos)
    ensures PollOnly(w.ops)
    decreases t
  {
    if t == 0 then Wait(-1, [], pos)
    else
      var s := StatusAt(script, pos);
      if Pending(s, bit) then Wait(t - 1, [ReadIpd(s), WriteIpd(bit)], pos + 1)
      else
        var r := WaitBit(script, pos + 1, t - 1, bit);
        Wait(r.timeOut, [ReadIpd(s), Udelay(1)] + r.ops, r.next)
  }

  /** The accesses of k checks that all missed, starting at pos. */
  function Misses(script: seq<bv32>, pos: nat, k: nat): (ops: seq<Op>)
    ensures |ops| == 2 * k
  {
    if k == 0 then [] else Misses(script, pos, k - 1) + [ReadIpd(StatusAt(script, pos + k - 1)), Udelay(1)]
  }

  /** After k checks that missed, a wait goes on as the wait with the rest
      of the budget from the next read. */
  lemma {:induction false} WaitBitResume(script: seq<bv32>, pos: nat, t: nat, bit: bv32, k: nat)
    requires k <= t
    requires forall i :: 0 <= i < k ==> !HitAt(script, pos, bit, i)
    ensures WaitBit(script, pos, t, bit) == BitJoin(Misses(script, pos, k), WaitBit(script, pos + k, t - k, bit))
  {
    if k > 0 {
      WaitBitResume(script, pos, t, bit, k - 1);
      WaitBitResumeStep(script, pos, t, bit, k - 1, k);
    }
  }

  /** The wait r, preceded by checks that made the accesses ops. */
  function BitJoin(ops: seq<Op>, r: Wait): Wait
  {
    Wait(r.timeOut, ops + r.ops, r.next)
  }

  /** One more check that misses extends a resumed wait. */
  lemma WaitBitResumeStep(script: seq<bv32>, pos: nat, t: nat, bit: bv32, j: nat, k: nat)
    requires j < t && j + 1 == k && !HitAt(script, pos, bit, j)
    requires WaitBit(script, pos, t, bit) == BitJoin(Misses(script, pos, j), WaitBit(script, pos + j, t - j, bit))
    ensures WaitBit(script, pos, t, bit) == BitJoin(Misses(script, pos, k), WaitBit(script, pos + k, t - k, bit))
  {
    var r := WaitBit(script, pos + k, t - k, bit);
    var miss := [ReadIpd(StatusAt(script, pos + j)), Udelay(1)];
    assert pos + j + 1 == pos + k && t - j - 1 == t - k;
    assert WaitBit(script, pos + j, t - j, bit) == BitJoin(miss, r);
    assert Misses(script, pos, k) == Misses(script, pos, j) + miss;
    Regroup(Misses(script, pos, j), miss, r.ops);
  }

  /** The wait that misses its first k checks and then sees the bit at
      check k < t, or misses all t checks when k == t. */
  function BitAfter(script: seq<bv32>, pos: nat, t: nat, bit: bv32, k: nat): Wait
    requires k <= t
  {
    if k < t then Wait(t - k - 1, Misses(script, pos, k) + [ReadIpd(StatusAt(script, pos + k)), WriteIpd(bit)], pos + k + 1)
    else Wait(-1, Misses(script, pos, t), pos + t)
  }

  /** A wait whose first hit is at check k (or that has none, k == t) is
      BitAfter at k. */
  lemma WaitBitAfter(script: seq<bv32>, pos: nat, t: nat, bit: bv32, k: nat)
    requires k <= t && (k < t ==> HitAt(script, pos, bit, k))
    requires forall i :: 0 <= i < k ==> !HitAt(script, pos, bit, i)
    ensures WaitBit(script, pos, t, bit) == BitAfter(script, pos, t, bit, k)
  {
    WaitBitResume(script, pos, t, bit, k);
    if k == t {
      assert Misses(script, pos, t) + [] == Misses(script, pos, t);
    }
  }

  /** A wait reports success exactly when the bit shows up on one of the
      first t - 1 checks: a hit on the last check of the budget still ends
      with TimeOut == 0, which the driver reads as a timeout. */
  lemma {:induction false} WaitBitSucceeds(script: seq<bv32>, pos: nat, t: nat, bit: bv32)
    requires t >= 1
    ensures WaitBit(script, pos, t, bit).timeOut > 0 <==> exists k :: 0 <= k < t - 1 && HitAt(script, pos, bit, k)
    decreases t
  {
    var s := StatusAt(script, pos);
    if Pending(s, bit) {
      if t > 1 {
        assert HitAt(script, pos, bit, 0);
      }
    } else if t == 1 {
      assert WaitBit(script, pos + 1, 0, bit).timeOut == -1;
    } else {
      var p1 := pos + 1;
      WaitBitSucceeds(script, p1, t - 1, bit);
      if exists k :: 0 <= k < t - 1 && HitAt(script, pos, bit, k) {
        var k :| 0 <= k < t - 1 && HitAt(script, pos, bit, k);
        assert k != 0;
        assert HitAt(script, p1, bit, k - 1);
      }
      if exists k :: 0 <= k < t - 2 && HitAt(script, p1, bit, k) {
        var k :| 0 <= k < t - 2 && HitAt(script, p1, bit, k);
        assert HitAt(script, pos, bit, k + 1);
      }
    }
  }

  /** A wait that succeeds ends by clearing the awaited bit through IPD. */
  lemma {:induction false} WaitBitClears(script: seq<bv32>, pos: nat, t: nat, bit: bv32)
    ensures var w := WaitBit(script, pos, t, bit);
      w.timeOut > 0 ==> |w.ops| >= 2 && w.ops[|w.ops| - 1] == WriteIpd(bit)
    decreases t
  {
    if t > 0 && !Pending(StatusAt(script, pos), bit) {
      WaitBitClears(script, pos + 1, t - 1, bit);
    }
  }

  /** When the first hit is at check k, the wait makes k + 1 checks, leaves
      TimeOut == t - 1 - k and ends by clearing the bit through IPD. */
  lemma {:induction false} WaitBitFirstHit(script: seq<bv32>, pos: nat, t: nat, bit: bv32, k: nat)
    requires k < t
    requires HitAt(script, pos, bit, k)
    requires forall m :: 0 <= m < k ==> !HitAt(script, pos, bit, m)
    ensures var w := WaitBit(script, pos, t, bit);
      && w.timeOut == t - 1 - k
      && w.next == pos + k + 1
      && w.ops[|w.ops| - 1] == WriteIpd(bit)
    decreases k
  {
    var s := StatusAt(script, pos);
    if k == 0 {
      assert Pending(s, bit) by { assert HitAt(script, pos, bit, 0); }
    } else {
      var p1 := pos + 1;
      assert !Pending(s, bit) by { assert !HitAt(script, pos, bit, 0); }
      forall m | 0 <= m < k - 1 ensures !HitAt(script, p1, bit, m) {
        assert !HitAt(script, pos, bit, m + 1);
      }
      assert HitAt(script, p1, bit, k - 1);
      WaitBitFirstHit(script, p1, t - 1, bit, k - 1);
    }
  }

  /** Without a hit the wait uses its whole budget: t checks and t delays,
      TimeOut ends at -1 and IPD is never written. */
  lemma {:induction false} WaitBitNoHit(script: seq<bv32>, pos: nat, t: nat, bit: bv32)
    requires forall m :: 0 <= m < t ==> !HitAt(script, pos, bit, m)
    ensures var w := WaitBit(script, pos, t, bit);
      && w.timeOut == -1
      && w.next == pos + t
      && forall k :: 0 <= k < |w.ops| ==> !w.ops[k].WriteIpd?
    decreases t
  {
    if t > 0 {
      var p1 := pos + 1;
      var s := StatusAt(script, pos);
      assert !Pending(s, bit) by { assert !HitAt(script, pos, bit, 0); }
      forall m | 0 <= m < t - 1 ensures !HitAt(script, p1, bit, m) {
        assert !HitAt(script, pos, bit, m + 1);
      }
      WaitBitNoHit(script, p1, t - 1, bit);
    }
  }

  /** The accesses of rk_i2c_send_start_bit before its wait. */
  function StartPreamble(): seq<Op>
  {
    [WriteIpd(IpdAllClean), WriteCon(ConEnable | ConStart), WriteIen(IenStart)]
  }

  /** The accesses of rk_i2c_send_stop_bit before its wait; IEN is written
      with the CON stop bit, as the source does. */
  function StopPreamble(): seq<Op>
  {
    [WriteIpd(IpdAllClean), WriteCon(ConEnable | ConStop), WriteIen(ConStop)]
  }

  /** The START preamble leaves the controller enabled with START
      requested and only the START interrupt enabled; MTXCNT and TXDATA
      keep their values. */
  lemma StartPreambleEffect(r: Regs)
    ensures Replay(r, StartPreamble()) == r.(con := ConEnable | ConStart, ien := IenStart)
  {
    ReplayTriple(WriteIpd(IpdAllClean), WriteCon(ConEnable | ConStart), WriteIen(IenStart));
  }

  /** The STOP preamble leaves the controller enabled with STOP requested
      and IEN holding I2C_CON_STOP; MTXCNT and TXDATA keep their values. */
  lemma StopPreambleEffect(r: Regs)
    ensures Replay(r, StopPreamble()) == r.(con := ConEnable | ConStop, ien := ConStop)
  {
    ReplayTriple(WriteIpd(IpdAllClean), WriteCon(ConEnable | ConStop), WriteIen(ConStop));
  }

  /** rk_i2c_send_start_bit: request START and wait for STARTIPD. It
      returns one of two codes, reads at most budget statuses, only polls
      after its preamble, and on success has just cleared STARTIPD. */
  function SendStartBit(script: seq<bv32>, pos: nat, budget: nat): (o: Outcome)
    ensures o.err == Ok || o.err == ErrorTimeout
    ensures |o.ops| >= 3 && o.ops[..3] == StartPreamble() && PollOnly(o.ops[3..])
    ensures pos <= o.next <= pos + budget
    ensures o.err == Ok ==> o.ops[|o.ops| - 1] == WriteIpd(IpdStart)
  {
    var w := WaitBit(script, pos, budget, IpdStart);
    WaitBitClears(script, pos, budget, IpdStart);
    assert (StartPreamble() + w.ops)[3..] == w.ops;
    Outcome(if w.timeOut <= 0 then ErrorTimeout else Ok, StartPreamble() + w.ops, w.next)
  }

  /** rk_i2c_send_stop_bit: request STOP and wait for STOPIPD, with the
      same guarantees for STOPIPD. */
  function SendStopBit(script: seq<bv32>, pos: nat, budget: nat): (o: Outcome)
    ensures o.err == Ok || o.err == ErrorTimeout
    ensures |o.ops| >= 3 && o.ops[..3] == StopPreamble() && PollOnly(o.ops[3..])
    ensures pos <= o.next <= pos + budget
    ensures o.err == Ok ==> o.ops[|o.ops| - 1] == WriteIpd(IpdStop)
  {
    var w := WaitBit(script, pos, budget, IpdStop);
    WaitBitClears(script, pos, budget, IpdStop);
    assert (StopPreamble() + w.ops)[3..] == w.ops;
    Outcome(if w.timeOut <= 0 then ErrorTimeout else Ok, StopPreamble() + w.ops, w.next)
  }

  /** The start routine succeeds iff STARTIPD is seen within the first
      budget - 1 checks, reads at most budget statuses, only touches IPD
      and the delay after its three-write preamble, and on success has
      cleared STARTIPD. */
  lemma StartBitResult(script: seq<bv32>, pos: nat, budget: nat)
    requires budget >= 1
    ensures var o := SendStartBit(script, pos, budget);
      && (o.err == Ok <==> exists k :: 0 <= k < budget - 1 && HitAt(script, pos, IpdStart, k))
      && (o.err == Ok || o.err == ErrorTimeout)
      && pos <= o.next <= pos + budget
      && o.ops[..3] == StartPreamble() && PollOnly(o.ops[3..])
      && (o.err == Ok ==> o.ops[|o.ops| - 1] == WriteIpd(IpdStart))
  {
    WaitBitSucceeds(script, pos, budget, IpdStart);
  }

  /** The same for the stop routine and STOPIPD. */
  lemma StopBitResult(script: seq<bv32>, pos: nat, budget: nat)
    requires budget >= 1
    ensures var o := SendStopBit(script, pos, budget);
      && (o.err == Ok <==> exists k :: 0 <= k < budget - 1 && HitAt(script, pos, IpdStop, k))
      && (o.err == Ok || o.err == ErrorTimeout)
      && pos <= o.next <= pos + budget
      && o.ops[..3] == StopPreamble() && PollOnly(o.ops[3..])
      && (o.err == Ok ==> o.ops[|o.ops| - 1] == WriteIpd(IpdStop))
  {
    WaitBitSucceeds(script, pos, budget, IpdStop);
  }

  // ---------------------------------------------------------------------
  // The transmit wait: each iteration reads IPD once for NAKRCV (clearing
  // it and noting the NACK when set) and once more for MBTF (clearing it
  // and leaving when set), then delays.
  // ---------------------------------------------------------------------

  /** The NAKRCV read of iteration k of a transmit wait starting at pos. */
  predicate NakAt(script: seq<bv32>, pos: nat, k: nat)
  {
    Pending(StatusAt(script, pos + 2 * k), IpdNakrcv)
  }

  /** The MBTF read of iteration k of a transmit wait starting at pos. */
  predicate MbtfAt(script: seq<bv32>, pos: nat, k: nat)
  {
    Pending(StatusAt(script, pos + 2 * k + 1), IpdMbtf)
  }

  function WaitTx(script: seq<bv32>, pos: nat, t: nat): (w: TxWait)
    ensures pos <= w.next <= pos + 2 * t
    ensures -1 <= w.timeOut < t
    ensures PollOnly(w.ops)
    decreases t
  {
    if t == 0 then TxWait(-1, false, [], pos)
    else
      var s1 := StatusAt(script, pos);
      var nak := Pending(s1, IpdNakrcv);
      var nakOps := if nak then [ReadIpd(s1), WriteIpd(IpdNakrcv)] else [ReadIpd(s1)];
      var s2 := StatusAt(script, pos + 1);
      if Pending(s2, IpdMbtf) then
        TxWait(t - 1, nak, nakOps + [ReadIpd(s2), WriteIpd(IpdMbtf)], pos + 2)
      else
        var r := WaitTx(script, pos + 2, t - 1);
        TxWait(r.timeOut, nak || r.nack, nakOps + [ReadIpd(s2), Udelay(1)] + r.ops, r.next)
  }

  /** Shifting the iteration index of a transmit wait by one. */
  lemma TxShift(script: seq<bv32>, pos: nat, k: nat)
    ensures MbtfAt(script, pos + 2, k) == MbtfAt(script, pos, k + 1)
    ensures NakAt(script, pos + 2, k) == NakAt(script, pos, k + 1)
  {
    assert pos + 2 + 2 * k == pos + 2 * (k + 1);
  }

  /** The NAKRCV check of a transmit-wait iteration reading at p: the read,
      and the clearing write when the bit is set. */
  function NakOps(script: seq<bv32>, p: nat): seq<Op>
  {
    var s1 := StatusAt(script, p);
    if Pending(s1, IpdNakrcv) then [ReadIpd(s1), WriteIpd(IpdNakrcv)] else [ReadIpd(s1)]
  }

  /** The accesses of one transmit-wait iteration reading at p and p + 1
      that saw no MBTF. */
  function TxPass(script: seq<bv32>, p: nat): seq<Op>
  {
    NakOps(script, p) + [ReadIpd(StatusAt(script, p + 1)), Udelay(1)]
  }

  /** The accesses of the transmit-wait iteration that saw MBTF. */
  function TxHit(script: seq<bv32>, p: nat): seq<Op>
  {
    NakOps(script, p) + [ReadIpd(StatusAt(script, p + 1)), WriteIpd(IpdMbtf)]
  }

  /** The NAKRCV check reads IPD once and clears NAKRCV exactly when that
      read shows it pending. */
  lemma NakOpsShape(script: seq<bv32>, p: nat)
    ensures var ops := NakOps(script, p);
      && 1 <= |ops| <= 2 && ops[0] == ReadIpd(StatusAt(script, p)) && PollOnly(ops)
      && (WriteIpd(IpdNakrcv) in ops <==> NakAt(script, p, 0))
  {
  }

  /** An iteration that saw no MBTF only polls, clears NAKRCV exactly when
      NAKRCV was pending, never clears MBTF, and ends with its second read
      and the 1 us delay. */
  lemma TxPassShape(script: seq<bv32>, p: nat)
    ensures var ops := TxPass(script, p);
      && PollOnly(ops) && |ops| >= 3 && ops[|ops| - 1] == Udelay(1)
      && ops[|ops| - 2] == ReadIpd(StatusAt(script, p + 1))
      && WriteIpd(IpdMbtf) !in ops
      && (WriteIpd(IpdNakrcv) in ops <==> NakAt(script, p, 0))
  {
    NakOpsShape(script, p);
    var a, b := NakOps(script, p), [ReadIpd(StatusAt(script, p + 1)), Udelay(1)];
    assert WriteIpd(IpdNakrcv) in a + b <==> WriteIpd(IpdNakrcv) in a;
  }

  /** The iteration that saw MBTF only polls, clears NAKRCV exactly when
      NAKRCV was pending, ends with its second read and the MBTF clear, and
      does not delay. */
  lemma TxHitShape(script: seq<bv32>, p: nat)
    ensures var ops := TxHit(script, p);
      && PollOnly(ops) && |ops| >= 3 && ops[|ops| - 1] == WriteIpd(IpdMbtf)
      && ops[|ops| - 2] == ReadIpd(StatusAt(script, p + 1))
      && Udelay(1) !in ops
      && (WriteIpd(IpdNakrcv) in ops <==> NakAt(script, p, 0))
  {
    NakOpsShape(script, p);
    var a, b := NakOps(script, p), [ReadIpd(StatusAt(script, p + 1)), WriteIpd(IpdMbtf)];
    assert WriteIpd(IpdNakrcv) in a + b <==> WriteIpd(IpdNakrcv) in a;
  }

  /** The accesses of the first k iterations of a transmit wait, none of
      which saw MBTF. */
  function TxMisses(script: seq<bv32>, pos: nat, k: nat): seq<Op>
  {
    if k == 0 then [] else TxMisses(script, pos, k - 1) + TxPass(script, pos + 2 * (k - 1))
  }

  /** Some of the first k iterations saw NAKRCV. */
  function Nacks(script: seq<bv32>, pos: nat, k: nat): bool
  {
    k > 0 && (Nacks(script, pos, k - 1) || NakAt(script, pos, k - 1))
  }

  /** One iteration of a transmit wait that saw no MBTF. */
  lemma WaitTxMiss(script: seq<bv32>, p: nat, t: nat)
    requires t > 0 && !MbtfAt(script, p, 0)
    ensures var r := WaitTx(script, p + 2, t - 1);
      WaitTx(script, p, t) == TxWait(r.timeOut, NakAt(script, p, 0) || r.nack, TxPass(script, p) + r.ops, r.next)
  {
    var r := WaitTx(script, p + 2, t - 1);
    assert NakOps(script, p) + [ReadIpd(StatusAt(script, p + 1)), Udelay(1)] + r.ops == TxPass(script, p) + r.ops;
  }

  /** The iteration of a transmit wait that sees MBTF ends it. */
  lemma WaitTxHit(script: seq<bv32>, p: nat, t: nat)
    requires t > 0 && MbtfAt(script, p, 0)
    ensures WaitTx(script, p, t) == TxWait(t - 1, NakAt(script, p, 0), TxHit(script, p), p + 2)
  {
  }

  /** Iteration k of a transmit wait, when it sees no MBTF. */
  lemma WaitTxMissAt(script: seq<bv32>, pos: nat, t: nat, k: nat)
    requires k < t && !MbtfAt(script, pos, k)
    ensures var r := WaitTx(script, pos + 2 * k + 2, t - k - 1);
      WaitTx(script, pos + 2 * k, t - k)
        == TxWait(r.timeOut, NakAt(script, pos, k) || r.nack, TxPass(script, pos + 2 * k) + r.ops, r.next)
  {
    var p := pos + 2 * k;
    assert p + 1 == pos + 2 * k + 1;
    assert !MbtfAt(script, p, 0);
    assert NakAt(script, p, 0) == NakAt(script, pos, k);
    WaitTxMiss(script, p, t - k);
  }

  /** The wait r, preceded by iterations that made the accesses ops and
      saw NAKRCV when nack holds. */
  function TxJoin(nack: bool, ops: seq<Op>, r: TxWait): TxWait
  {
    TxWait(r.timeOut, nack || r.nack, ops + r.ops, r.next)
  }

  /** After k iterations without MBTF, a transmit wait goes on as the wait
      with the rest of the budget from the next read. */
  lemma {:induction false} WaitTxResume(script: seq<bv32>, pos: nat, t: nat, k: nat)
    requires k <= t
    requires forall i :: 0 <= i < k ==> !MbtfAt(script, pos, i)
    ensures WaitTx(script, pos, t) == TxJoin(Nacks(script, pos, k), TxMisses(script, pos, k), WaitTx(script, pos + 2 * k, t - k))
  {
    if k > 0 {
      var j := k - 1;
      assert !MbtfAt(script, pos, j);
      WaitTxResume(script, pos, t, j);
      WaitTxResumeStep(script, pos, t, j, k);
    }
  }

  /** One more iteration without MBTF extends a resumed transmit wait. */
  lemma WaitTxResumeStep(script: seq<bv32>, pos: nat, t: nat, j: nat, k: nat)
    requires j < t && j + 1 == k && !MbtfAt(script, pos, j)
    requires WaitTx(script, pos, t) == TxJoin(Nacks(script, pos, j), TxMisses(script, pos, j), WaitTx(script, pos + 2 * j, t - j))
    ensures WaitTx(script, pos, t) == TxJoin(Nacks(script, pos, k), TxMisses(script, pos, k), WaitTx(script, pos + 2 * k, t - k))
  {
    WaitTxMissNext(script, pos, t, j, k);
    TxCompose(WaitTx(script, pos, t), WaitTx(script, pos + 2 * j, t - j), WaitTx(script, pos + 2 * k, t - k),
              Nacks(script, pos, j), NakAt(script, pos, j), Nacks(script, pos, k),
              TxMisses(script, pos, j), TxPass(script, pos + 2 * j), TxMisses(script, pos, k));
  }

  /** Iteration k of a transmit wait, when it sees no MBTF, goes on as the
      wait from iteration k + 1. */
  lemma WaitTxMissNext(script: seq<bv32>, pos: nat, t: nat, j: nat, k: nat)
    requires j < t && j + 1 == k && !MbtfAt(script, pos, j)
    ensures WaitTx(script, pos + 2 * j, t - j)
      == TxJoin(NakAt(script, pos, j), TxPass(script, pos + 2 * j), WaitTx(script, pos + 2 * k, t - k))
  {
    WaitTxMissAt(script, pos, t, j);
    assert pos + 2 * j + 2 == pos + 2 * k && t - j - 1 == t - k;
  }

  /** A wait that goes on as m, which goes on as r, goes on as r. */
  lemma TxCompose(w: TxWait, m: TxWait, r: TxWait, n1: bool, n2: bool, n: bool, o1: seq<Op>, o2: seq<Op>, o: seq<Op>)
    requires w == TxJoin(n1, o1, m) && m == TxJoin(n2, o2, r)
    requires n == (n1 || n2) && o == o1 + o2
    ensures w == TxJoin(n, o, r)
  {
    Regroup(o1, o2, r.ops);
  }

  /** A transmit wait whose first MBTF is seen in iteration k < t. */
  lemma WaitTxFound(script: seq<bv32>, pos: nat, t: nat, k: nat)
    requires k < t && MbtfAt(script, pos, k)
    requires forall i :: 0 <= i < k ==> !MbtfAt(script, pos, i)
    ensures WaitTx(script, pos, t)
      == TxWait(t - k - 1, Nacks(script, pos, k + 1), TxMisses(script, pos, k) + TxHit(script, pos + 2 * k), pos + 2 * k + 2)
  {
    WaitTxResume(script, pos, t, k);
    var p := pos + 2 * k;
    assert p + 1 == pos + 2 * k + 1;
    assert MbtfAt(script, p, 0);
    assert NakAt(script, p, 0) == NakAt(script, pos, k);
    WaitTxHit(script, p, t - k);
  }

  /** A transmit wait that never sees MBTF uses up its budget. */
  lemma WaitTxExhausted(script: seq<bv32>, pos: nat, t: nat)
    requires forall i :: 0 <= i < t ==> !MbtfAt(script, pos, i)
    ensures WaitTx(script, pos, t) == TxWait(-1, Nacks(script, pos, t), TxMisses(script, pos, t), pos + 2 * t)
  {
    WaitTxResume(script, pos, t, t);
    assert TxMisses(script, pos, t) + [] == TxMisses(script, pos, t);
  }

  /** The transmit wait that sees no MBTF in its first k iterations and
      then sees it in iteration k < t, or never, when k == t. */
  function TxAfter(script: seq<bv32>, pos: nat, t: nat, k: nat): TxWait
    requires k <= t
  {
    if k < t then TxWait(t - k - 1, Nacks(script, pos, k + 1), TxMisses(script, pos, k) + TxHit(script, pos + 2 * k), pos + 2 * k + 2)
    else TxWait(-1, Nacks(script, pos, t), TxMisses(script, pos, t), pos + 2 * t)
  }

  /** A transmit wait whose first MBTF is in iteration k (or that sees
      none, k == t) is TxAfter at k. */
  lemma WaitTxAfter(script: seq<bv32>, pos: nat, t: nat, k: nat)
    requires k <= t && (k < t ==> MbtfAt(script, pos, k))
    requires forall i :: 0 <= i < k ==> !MbtfAt(script, pos, i)
    ensures WaitTx(script, pos, t) == TxAfter(script, pos, t, k)
  {
    if k < t {
      WaitTxFound(script, pos, t, k);
    } else {
      WaitTxExhausted(script, pos, t);
    }
  }

  /** The transmit wait succeeds iff MBTF shows up in one of the first t - 1
      iterations (a hit in the last iteration is reported as a timeout). */
  lemma {:induction false} WaitTxSucceeds(script: seq<bv32>, pos: nat, t: nat)
    requires t >= 1
    ensures WaitTx(script, pos, t).timeOut > 0 <==> exists k :: 0 <= k < t - 1 && MbtfAt(script, pos, k)
    decreases t
  {
    if MbtfAt(script, pos, 0) {
      if t > 1 {
        assert MbtfAt(script, pos, 0);
      }
    } else if t == 1 {
      assert WaitTx(script, pos + 2, 0).timeOut == -1;
    } else {
      var p2 := pos + 2;
      WaitTxSucceeds(script, p2, t - 1);
      if exists k :: 0 <= k < t - 1 && MbtfAt(script, pos, k) {
        var k :| 0 <= k < t - 1 && MbtfAt(script, pos, k);
        TxShift(script, pos, k - 1);
        assert MbtfAt(script, p2, k - 1);
      }
      if exists k :: 0 <= k < t - 2 && MbtfAt(script, p2, k) {
        var k :| 0 <= k < t - 2 && MbtfAt(script, p2, k);
        TxShift(script, pos, k);
        assert MbtfAt(script, pos, k + 1);
      }
    }
  }

  /** Iteration k of a transmit wait runs and sees NAKRCV. */
  predicate NakSeenAt(script: seq<bv32>, pos: nat, k: nat)
  {
    NakAt(script, pos, k) && forall m :: 0 <= m < k ==> !MbtfAt(script, pos, m)
  }

  /** The transmit wait reports a NACK iff NAKRCV was set in an iteration
      that ran: one within the budget and not after the first MBTF. */
  lemma {:induction false} WaitTxNack(script: seq<bv32>, pos: nat, t: nat)
    ensures WaitTx(script, pos, t).nack <==> exists k :: 0 <= k < t && NakSeenAt(script, pos, k)
    decreases t
  {
    if t == 0 {
    } else if MbtfAt(script, pos, 0) {
      if WaitTx(script, pos, t).nack {
        assert NakSeenAt(script, pos, 0);
      }
      if exists k :: 0 <= k < t && NakSeenAt(script, pos, k) {
        var k :| 0 <= k < t && NakSeenAt(script, pos, k);
        assert k == 0;
      }
    } else {
      var p2 := pos + 2;
      WaitTxNack(script, p2, t - 1);
      var r := WaitTx(script, p2, t - 1);
      if NakAt(script, pos, 0) {
        assert NakSeenAt(script, pos, 0);
      } else {
        if r.nack {
          var k :| 0 <= k < t - 1 && NakSeenAt(script, p2, k);
          TxShift(script, pos, k);
          forall m | 0 <= m < k + 1 ensures !MbtfAt(script, pos, m) {
            if m > 0 {
              TxShift(script, pos, m - 1);
            }
          }
          assert NakSeenAt(script, pos, k + 1);
        }
        if exists k :: 0 <= k < t && NakSeenAt(script, pos, k) {
          var k :| 0 <= k < t && NakSeenAt(script, pos, k);
          assert k > 0;
          TxShift(script, pos, k - 1);
          forall m | 0 <= m < k - 1 ensures !MbtfAt(script, p2, m) {
            TxShift(script, pos, m);
          }
          assert NakSeenAt(script, p2, k - 1);
        }
      }
    }
  }

  /** A transmit wait that succeeds ends by clearing MBTF through IPD. */
  lemma {:induction false} WaitTxClears(script: seq<bv32>, pos: nat, t: nat)
    requires WaitTx(script, pos, t).timeOut > 0
    ensures |WaitTx(script, pos, t).ops| >= 2
    ensures WaitTx(script, pos, t).ops[|WaitTx(script, pos, t).ops| - 1] == WriteIpd(IpdMbtf)
    decreases t
  {
    if !MbtfAt(script, pos, 0) {
      WaitTxClears(script, pos + 2, t - 1);
    } else {
      assert pos + 2 * 0 + 1 == pos + 1;
    }
  }

  // ---------------------------------------------------------------------
  // A wait depends only on the statuses it reads.
  // ---------------------------------------------------------------------

  /** Two scripts present the same statuses at reads from .. to - 1. */
  predicate Agree(s1: seq<bv32>, s2: seq<bv32>, from: nat, to: nat)
  {
    forall i :: from <= i < to ==> StatusAt(s1, i) == StatusAt(s2, i)
  }

  /** The START and STOP waits are decided by the statuses they read. */
  lemma {:induction false} WaitBitAgree(s1: seq<bv32>, s2: seq<bv32>, pos: nat, t: nat, bit: bv32)
    requires bit == IpdStart || bit == IpdStop
    requires Agree(s1, s2, pos, WaitBit(s1, pos, t, bit).next)
    ensures WaitBit(s1, pos, t, bit) == WaitBit(s2, pos, t, bit)
    decreases t
  {
    if t > 0 {
      var x := StatusAt(s1, pos);
      assert StatusAt(s2, pos) == x;
      if !Pending(x, bit) {
        var p1 := pos + 1;
        var r1 := WaitBit(s1, p1, t - 1, bit);
        assert WaitBit(s1, pos, t, bit).next == r1.next;
        WaitBitAgree(s1, s2, p1, t - 1, bit);
        assert WaitBit(s2, pos, t, bit) == Wait(r1.timeOut, [ReadIpd(x), Udelay(1)] + r1.ops, r1.next);
      }
    }
  }

  /** So is the transmit wait. */
  lemma {:induction false} WaitTxAgree(s1: seq<bv32>, s2: seq<bv32>, pos: nat, t: nat)
    requires Agree(s1, s2, pos, WaitTx(s1, pos, t).next)
    ensures WaitTx(s1, pos, t) == WaitTx(s2, pos, t)
    decreases t
  {
    if t > 0 {
      assert StatusAt(s1, pos) == StatusAt(s2, pos);
      assert StatusAt(s1, pos + 1) == StatusAt(s2, pos + 1);
      if !Pending(StatusAt(s1, pos + 1), IpdMbtf) {
        WaitTxAgree(s1, s2, pos + 2, t - 1);
      }
    }
  }
}
