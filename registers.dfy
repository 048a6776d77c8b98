/** The I2C4 register bank of the RK3399 as seen by the polled master driver:
    the bit masks it uses, the operations it performs on the registers, the
    register values those operations leave behind, and the scripted device
    that answers every read of the interrupt-pending register. */
module Registers {

  // ---------------------------------------------------------------------
  // Bit masks and sizes. rk3399_i2c.h is not part of this model; the values
  // follow the RK3399 I2C register layout (CON: enable bit 0, mode bits 1-2,
  // start bit 3, stop bit 4; IEN and IPD: MBTF bit 2, START bit 4, STOP bit 5,
  // NAKRCV bit 6).
  // ---------------------------------------------------------------------

  const ConEnable: bv32 := 0x01          // I2C_CON_EN
  const ModeTx: bv32 := 0x00             // I2C_MODE_TX
  const ConStart: bv32 := 0x08           // I2C_CON_START
  const ConStop: bv32 := 0x10            // I2C_CON_STOP
  const IenStart: bv32 := 0x10           // I2C_STARTIEN
  const IenMbtf: bv32 := 0x04            // I2C_MBTFIEN
  const IenNakrcv: bv32 := 0x40          // I2C_NAKRCVIEN
  const IpdStart: bv32 := 0x10           // I2C_STARTIPD
  const IpdStop: bv32 := 0x20            // I2C_STOPIPD
  const IpdMbtf: bv32 := 0x04            // I2C_MBTFIPD
  const IpdNakrcv: bv32 := 0x40          // I2C_NAKRCVIPD
  const IpdAllClean: bv32 := 0x7f        // I2C_IPD_ALL_CLEAN

  /** I2C_CON_EN | I2C_CON_MOD(I2C_MODE_TX): enabled, transmit mode. */
  const ConTransmit: bv32 := ConEnable | (ModeTx << 1)

  /** RK_I2C_FIFO_SIZE: bytes per transmit burst. */
  const FifoSize: nat := 32
  /** Number of 32-bit TXDATA registers (FifoSize / 4). */
  const TxWords: nat := 8

  /** The driver's return codes I2C_OK, I2C_ERROR_TIMEOUT, I2C_ERROR_NOACK. */
  datatype Err = Ok | ErrorTimeout | ErrorNoAck

  /** One access the driver makes to the controller, or one call of udelay. */
  datatype Op =
    | WriteCon(con: bv32)
    | WriteIen(ien: bv32)
    | WriteIpd(ipd: bv32)
    | WriteMtxcnt(count: nat)
    | WriteTxdata(index: nat, word: bv32)
    | ReadIpd(status: bv32)
    | Udelay(us: nat)

  /** The values last written to the controller's control registers. IPD
      is not among them: a write to IPD clears pending bits, and what a
      read of IPD returns comes from the device. */
  datatype Regs = Regs(con: bv32, ien: bv32, mtxcnt: nat, txdata: seq<bv32>)

  /** The register values after one more access. */
  function Step(r: Regs, op: Op): (r': Regs)
    ensures |r'.txdata| == |r.txdata|
    ensures op.WriteCon? ==> r'.con == op.con
    ensures !op.WriteCon? ==> r'.con == r.con
    ensures op.WriteTxdata? && op.index < |r.txdata| ==> r'.txdata == r.txdata[op.index := op.word]
    ensures !op.WriteTxdata? ==> r'.txdata == r.txdata
  {
    match op
    case WriteCon(v) => r.(con := v)
    case WriteIen(v) => r.(ien := v)
    case WriteIpd(_) => r
    case WriteMtxcnt(v) => r.(mtxcnt := v)
    case WriteTxdata(i, v) => if i < |r.txdata| then r.(txdata := r.txdata[i := v]) else r
    case ReadIpd(_) => r
    case Udelay(_) => r
  }

  /** The register values after a whole log of accesses, oldest first. */
  function Replay(r: Regs, ops: seq<Op>): (r': Regs)
    ensures |r'.txdata| == |r.txdata|
    decreases |ops|
  {
    if ops == [] then r else Step(Replay(r, ops[..|ops| - 1]), ops[|ops| - 1])
  }

  lemma {:induction false} ReplayAppend(r: Regs, a: seq<Op>, b: seq<Op>)
    ensures Replay(r, a + b) == Replay(Replay(r, a), b)
    decreases |b|
  {
    if b == [] {
      assert a + b == a;
    } else {
      var n := |b| - 1;
      assert (a + b)[..|a + b| - 1] == a + b[..n];
      assert (a + b)[|a + b| - 1] == b[n];
      ReplayAppend(r, a, b[..n]);
    }
  }

  lemma ReplayOne(r: Regs, op: Op)
    ensures Replay(r, [op]) == Step(r, op)
  {
    assert [op][..0] == [];
  }

  /** Replaying three accesses applies them one after the other. */
  lemma ReplayTriple(a: Op, b: Op, c: Op)
    ensures forall r :: Replay(r, [a, b, c]) == Step(Step(Step(r, a), b), c)
  {
    forall r ensures Replay(r, [a, b, c]) == Step(Step(Step(r, a), b), c) {
      assert [a, b, c][..2] == [a, b];
      assert [a, b][..1] == [a];
      assert [a][..0] == [];
      assert Replay(r, [a]) == Step(r, a);
      assert Replay(r, [a, b]) == Step(Step(r, a), b);
    }
  }

  /** Regrouping a concatenation of logs. */
  lemma Regroup(a: seq<Op>, b: seq<Op>, c: seq<Op>)
    ensures a + (b + c) == (a + b) + c
  {
  }

  /** Regrouping a log followed by four more. */
  lemma Regroup4(a: seq<Op>, b: seq<Op>, c: seq<Op>, d: seq<Op>, e: seq<Op>)
    ensures a + b + c + d + e == a + (b + c + d + e)
  {
  }

  /** A log that ends by zeroing CON leaves the controller disabled. */
  lemma EndsDisabled(r: Regs, a: seq<Op>)
    ensures Replay(r, a + [WriteCon(0)]).con == 0
  {
    assert (a + [WriteCon(0)])[..|a|] == a;
  }

  /** The value the device presents at the k-th read of IPD: the script, and
      nothing pending once the script is exhausted. */
  function StatusAt(script: seq<bv32>, k: nat): bv32
  {
    if k < |script| then script[k] else 0
  }

  /** A status word has the given pending bit set (the driver's
      `*I2C4_IPD & bit` test). */
  predicate Pending(s: bv32, bit: bv32)
  {
    s & bit != 0
  }

  /** Number of occurrences of op in a log. */
  function Count(ops: seq<Op>, op: Op): (n: nat)
    ensures n <= |ops|
    ensures n == 0 <==> op !in ops
    decreases |ops|
  {
    if ops == [] then 0 else Count(ops[..|ops| - 1], op) + (if ops[|ops| - 1] == op then 1 else 0)
  }

  lemma {:induction false} CountAppend(a: seq<Op>, b: seq<Op>, op: Op)
    ensures Count(a + b, op) == Count(a, op) + Count(b, op)
    decreases |b|
  {
    if b == [] {
      assert a + b == a;
    } else {
      var n := |b| - 1;
      assert (a + b)[..|a + b| - 1] == a + b[..n];
      assert (a + b)[|a + b| - 1] == b[n];
      CountAppend(a, b[..n], op);
    }
  }
}
