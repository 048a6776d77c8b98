/** rk_i2c_send_data and the bus scan of rk_i2c_detect, on top of the
    write transaction. */
module Scan {
  import opened Registers
  import opened Polling
  import opened Packing
  import opened Engine

  /** rk_i2c_send_data: a write with a one-byte register address. */
  function DataRequest(chip: bv8, reg: bv32, data: seq<bv8>, len: nat): (q: TransferRequest)
    ensures q.rLen == 1
    ensures ValidRequest(q) <==> len <= |data|
  {
    TransferRequest(chip, reg, 1, data, len)
  }

  /** Every chunk of rk_i2c_send_data starts with the address byte and the
      low byte of reg, followed by data from the chunk's cursor. */
  lemma DataChunks(chip: bv8, reg: bv32, data: seq<bv8>, len: nat, cur: nat, size: nat)
    requires len <= |data| && 2 <= size <= FifoSize
    requires cur + PayloadBefore(1, size) <= len
    ensures var bs := ChunkBytes(DataRequest(chip, reg, data, len), cur, size);
      bs[0] == chip << 1 && bs[1] == ByteOf(reg, 0) && bs[2..] == data[cur .. cur + size - 2]
  {
    var q := DataRequest(chip, reg, data, len);
    ChunkLayout(q, cur, size);
    var h := Header(q);
    assert h == [chip << 1, ByteOf(reg, 0)];
    var bs := ChunkBytes(q, cur, size);
    assert bs == (h + data[cur .. cur + size - 2])[..size];
  }

  /** The first address rk_i2c_detect probes, and the last. */
  const FirstAddr: nat := 0x03
  const LastAddr: nat := 0x77

  /** The probe of one address: a write of the register byte 0x00 with no
      payload (buf is NULL, b_len is 0). */
  function Probe(addr: nat): (q: TransferRequest)
    requires addr <= LastAddr
    ensures ValidRequest(q) && Total(q) == 2
  {
    TransferRequest(addr as bv8, 0, 1, [], 0)
  }

  /** After a scan: the addresses that answered, the result of each probe
      in order, the accesses made and the next unread status. */
  datatype ScanResult = ScanResult(found: seq<nat>, errs: seq<Err>, ops: seq<Op>, next: nat)

  /** The scan of addresses addr .. 0x77, each probe followed by
      udelay(10). It probes every address from addr to 0x77 once, in
      order, and reports an address exactly when its probe returned I2C_OK,
      in ascending order. */
  function ScanFrom(script: seq<bv32>, budget: nat, pos: nat, addr: nat): (s: ScanResult)
    requires addr >= FirstAddr
    ensures addr <= LastAddr + 1 ==> Reports(s, addr)
    decreases LastAddr + 1 - addr
  {
    if addr > LastAddr then ScanResult([], [], [], pos)
    else
      var o := WriteRun(Probe(addr), script, budget, pos);
      var rest := ScanFrom(script, budget, o.next, addr + 1);
      ReportsCons(addr, o.err, rest, o.ops + [Udelay(10)]);
      ScanResult((if o.err == Ok then [addr] else []) + rest.found, [o.err] + rest.errs,
                 o.ops + [Udelay(10)] + rest.ops, rest.next)
  }

  /** rk_i2c_detect: 117 probes, 0x03 .. 0x77; an address is reported iff
      its probe returned I2C_OK, and the reported addresses are strictly
      ascending. */
  function Detect(script: seq<bv32>, budget: nat, pos: nat): (s: ScanResult)
    ensures |s.errs| == 117
    ensures forall a :: a in s.found <==> 3 <= a <= 0x77 && s.errs[a - 3] == Ok
    ensures forall i, j :: 0 <= i < j < |s.found| ==> s.found[i] < s.found[j]
  {
    ScanFrom(script, budget, pos, FirstAddr)
  }

  /** The state of the scan loop before probing addr, read position pos:
      the addresses found so far and the log so far, followed by what the
      scan of addr .. 0x77 finds and does, make up the whole scan total
      entered with log log0. */
  ghost predicate Scanning(script: seq<bv32>, budget: nat, total: ScanResult, log0: seq<Op>,
                           found: seq<nat>, log: seq<Op>, pos: nat, addr: nat)
  {
    && FirstAddr <= addr <= LastAddr + 1
    && var rest := ScanFrom(script, budget, pos, addr);
    && found + rest.found == total.found
    && log + rest.ops == log0 + total.ops
    && rest.next == total.next
  }

  /** The scan starts at 0x03 with nothing found. */
  lemma ScanEnter(script: seq<bv32>, budget: nat, pos: nat, log0: seq<Op>)
    ensures Scanning(script, budget, Detect(script, budget, pos), log0, [], log0, pos, FirstAddr)
  {
    var total := Detect(script, budget, pos);
    assert [] + total.found == total.found;
  }

  lemma ScanFromStep(script: seq<bv32>, budget: nat, pos: nat, addr: nat)
    requires FirstAddr <= addr <= LastAddr
    ensures var o := WriteRun(Probe(addr), script, budget, pos);
      var rest := ScanFrom(script, budget, o.next, addr + 1);
      ScanFrom(script, budget, pos, addr)
        == ScanResult((if o.err == Ok then [addr] else []) + rest.found, [o.err] + rest.errs,
                      o.ops + [Udelay(10)] + rest.ops, rest.next)
  {
  }

  /** Moving one probe's result from the scan still to come to the scan
      done so far. */
  lemma ScanCons(total: ScanResult, log0: seq<Op>, found: seq<nat>, log: seq<Op>,
                 rest: ScanResult, head: seq<nat>, err: Err, ops: seq<Op>, rest': ScanResult,
                 found': seq<nat>, log': seq<Op>)
    requires found + rest.found == total.found && log + rest.ops == log0 + total.ops
    requires rest == ScanResult(head + rest'.found, [err] + rest'.errs, ops + rest'.ops, rest'.next)
    requires found' == found + head && log' == log + ops
    ensures found' + rest'.found == total.found && log' + rest'.ops == log0 + total.ops
  {
    assert found' + rest'.found == found + (head + rest'.found);
    assert log' + rest'.ops == log + (ops + rest'.ops);
  }

  /** The probe of addr, and the udelay(10) after it, move the scan to the
      next address. */
  lemma {:induction false} ScanStep(script: seq<bv32>, budget: nat, total: ScanResult, log0: seq<Op>,
                 found: seq<nat>, log: seq<Op>, pos: nat, addr: nat,
                 o: Outcome, found': seq<nat>, log': seq<Op>)
    requires Scanning(script, budget, total, log0, found, log, pos, addr) && addr <= LastAddr
    requires o == WriteRun(Probe(addr), script, budget, pos)
    requires found' == found + (if o.err == Ok then [addr] else [])
    requires log' == log + (o.ops + [Udelay(10)])
    ensures Scanning(script, budget, total, log0, found', log', o.next, addr + 1)
  {
    ScanFromStep(script, budget, pos, addr);
    ScanCons(total, log0, found, log, ScanFrom(script, budget, pos, addr), if o.err == Ok then [addr] else [],
             o.err, o.ops + [Udelay(10)], ScanFrom(script, budget, o.next, addr + 1), found', log');
  }

  /** Past 0x77 the scan is complete. */
  lemma ScanExit(script: seq<bv32>, budget: nat, total: ScanResult, log0: seq<Op>,
                 found: seq<nat>, log: seq<Op>, pos: nat)
    requires Scanning(script, budget, total, log0, found, log, pos, LastAddr + 1)
    ensures found == total.found && log == log0 + total.ops && pos == total.next
  {
    assert found + [] == found && log + [] == log;
  }

  /** s holds one result per address addr .. 0x77, and reports an address
      exactly when its probe returned I2C_OK, in ascending order. */
  ghost predicate Reports(s: ScanResult, addr: nat)
  {
    && |s.errs| == LastAddr + 1 - addr
    && (forall a :: a in s.found <==> addr <= a <= LastAddr && s.errs[a - addr] == Ok)
    && (forall i, j :: 0 <= i < j < |s.found| ==> s.found[i] < s.found[j])
  }

  /** One more probe in front of a scan keeps Reports. */
  lemma ReportsCons(addr: nat, err: Err, rest: ScanResult, ops: seq<Op>)
    requires addr <= LastAddr && Reports(rest, addr + 1)
    ensures Reports(ScanResult((if err == Ok then [addr] else []) + rest.found, [err] + rest.errs,
                               ops + rest.ops, rest.next), addr)
  {
    var head: seq<nat> := if err == Ok then [addr] else [];
    var s := ScanResult(head + rest.found, [err] + rest.errs, ops + rest.ops, rest.next);
    forall a ensures a in s.found <==> addr <= a <= LastAddr && s.errs[a - addr] == Ok {
      if a != addr && addr <= a <= LastAddr {
        assert s.errs[a - addr] == rest.errs[a - (addr + 1)];
      }
    }
    forall i, j | 0 <= i < j < |s.found| ensures s.found[i] < s.found[j] {
      if head != [] {
        if i == 0 {
          assert rest.found[j - 1] in rest.found;
        } else {
          assert s.found[i] == rest.found[i - 1] && s.found[j] == rest.found[j - 1];
        }
      }
    }
  }

  /** A probe is one chunk of two bytes, MTXCNT 2: the address shifted into
      bits 7..1 with the write bit 0, then the register byte 0x00; no
      payload byte is read. */
  lemma ProbeChunk(addr: nat)
    requires addr <= LastAddr
    ensures ChunkSizes(Total(Probe(addr))) == [2]
    ensures Need(1, Total(Probe(addr))) == 0
    ensures ChunkBytes(Probe(addr), 0, 2) == [(addr as bv8) << 1, 0]
  {
    var q := Probe(addr);
    assert ChunkSizes(0) == [];
    assert ChunkBytes(q, 0, 2)[1] == ByteOf(0, 0);
  }
}
