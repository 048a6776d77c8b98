/** The byte-to-word packer of rk_i2c_write: how one chunk of at most 32
    bytes (the address byte, the register bytes, then payload bytes taken
    through the `pbuf` cursor) is ORed, byte by byte, into the TXDATA
    words. */
module Packing {
  import opened Registers

  /** The arguments of one rk_i2c_write call: chip, reg, r_len, buf, b_len.
      A NULL buf is the empty sequence. */
  datatype TransferRequest = TransferRequest(chip: bv8, reg: bv32, rLen: nat, buf: seq<bv8>, bLen: nat)

  /** At most three register bytes fit in word 0 beside the address byte,
      and buf holds at least b_len bytes. */
  predicate ValidRequest(q: TransferRequest)
  {
    q.rLen <= 3 && q.bLen <= |q.buf|
  }

  /** A chunk of size bytes whose payload starts at cursor cur fits the
      FIFO, and its payload bytes lie within the first b_len bytes of buf. */
  predicate ChunkFits(q: TransferRequest, cur: nat, size: nat)
  {
    ValidRequest(q) && size <= FifoSize && cur + PayloadBefore(q.rLen, size) <= q.bLen
  }

  /** bytes_remain_len at entry: address byte, register bytes, payload. */
  function Total(q: TransferRequest): nat
  {
    q.bLen + q.rLen + 1
  }

  /** bytes_tranfered_len: the next chunk takes the remaining bytes, capped
      at the FIFO size. */
  function ChunkSize(remain: nat): (size: nat)
    ensures size <= FifoSize && size <= remain
    ensures remain > 0 ==> size > 0
    ensures remain <= FifoSize ==> size == remain
  {
    if remain > FifoSize then 32 else remain
  }

  /** words_tranfered_len for a chunk of size bytes. */
  function Words(size: nat): (n: nat)
    ensures size <= FifoSize ==> n <= TxWords
    ensures 4 * n >= size && 4 * n < size + 4
  {
    (size + 3) / 4
  }

  /** How many of the first p positions of a chunk take a payload byte:
      positions 0 .. rLen hold the header, every later one a payload byte. */
  function PayloadBefore(rLen: nat, p: nat): nat
  {
    if p <= rLen + 1 then 0 else p - 1 - rLen
  }

  /** Byte k (k = 0 the least significant) of a 32-bit word. */
  function ByteOf(w: bv32, k: nat): bv8
    requires k < 4
  {
    if k == 0 then (w & 0xff) as bv8
    else if k == 1 then ((w >> 8) & 0xff) as bv8
    else if k == 2 then ((w >> 16) & 0xff) as bv8
    else (w >> 24) as bv8
  }

  /** A byte placed at byte position m of a word. */
  function Shifted(x: bv8, m: nat): bv32
    requires m < 4
  {
    if m == 0 then x as bv32
    else if m == 1 then (x as bv32) << 8
    else if m == 2 then (x as bv32) << 16
    else (x as bv32) << 24
  }

  /** w shifted left by n bytes, one literal shift amount per case (the
      source shifts by (j - 1) * 8 and j * 8; ShiftByAsWritten shows the two
      agree). */
  function ShiftBy(w: bv32, n: nat): bv32
    requires n < 4
  {
    if n == 0 then w
    else if n == 1 then w << 8
    else if n == 2 then w << 16
    else w << 24
  }

  /** The source's register-byte term (reg & (0xff << ((j - 1) * 8))) << 8:
      byte j - 1 of reg, masked in place and shifted up by one byte. */
  function RegPart(reg: bv32, j: nat): bv32
    requires 1 <= j <= 3
  {
    ShiftBy(reg & ShiftBy(0xff, j - 1), 1)
  }

  /** The source's payload term x << (j * 8): a byte shifted into byte j
      of the word. */
  function BytePart(x: bv8, j: nat): bv32
    requires j < 4
  {
    ShiftBy(x as bv32, j)
  }

  /** ShiftBy is the shift by 8n bits the source writes. */
  lemma ShiftByAsWritten(w: bv32, n: nat)
    requires n < 4
    ensures ShiftBy(w, n) == w << (n * 8)
  {
    match n
    case 0 => assert w << 0 == w;
    case 1 => ShiftByLiteral(w, n, 8);
    case 2 => ShiftByLiteral(w, n, 16);
    case 3 => ShiftByLiteral(w, n, 24);
  }

  lemma ShiftByLiteral(w: bv32, n: nat, m: nat)
    requires m == n * 8 && m <= 24
    ensures w << (n * 8) == w << m
  {
  }

  /** What the packer ORs into word i at inner-loop pass j, as the source
      writes it: the address shifted by one, a register byte, or the payload
      byte at the cursor. cur is the cursor at the start of the chunk; at
      position 4i + j it has moved past PayloadBefore(rLen, 4i + j) payload
      bytes. The term is chunk byte 4i + j placed at byte j of the word;
      the address term also carries the top bit of chip into byte 1. */
  function Contribution(q: TransferRequest, cur: nat, i: nat, j: nat): (c: bv32)
    requires ValidRequest(q) && j < 4 && 4 * i + j < FifoSize
    requires cur + PayloadBefore(q.rLen, 4 * i + j + 1) <= q.bLen
    ensures i == 0 && j == 0 ==> c == Shifted(ChunkByte(q, cur, 0), 0) | AddressCarry(q.chip)
    ensures !(i == 0 && j == 0) ==> c == Shifted(ChunkByte(q, cur, 4 * i + j), j)
  {
    if i == 0 && j == 0 then
      AddressBytes(q.chip);
      (q.chip as bv32) << 1
    else if i == 0 && j <= q.rLen then
      RegPartIsByte(q.reg, j);
      RegPart(q.reg, j)
    else
      BytePartIsByte(q.buf[cur + PayloadBefore(q.rLen, 4 * i + j)], j);
      BytePart(q.buf[cur + PayloadBefore(q.rLen, 4 * i + j)], j)
  }

  /** The bit that chip << 1 moves out of byte 0 of an int: bit 8, set
      when the address has eight significant bits. */
  function AddressCarry(chip: bv8): bv32
  {
    if chip >= 0x80 then Shifted(1, 1) else 0
  }

  /** chip << 1, computed in int, is the byte chip << 1 with the carried
      bit above it. */
  lemma AddressBytes(chip: bv8)
    ensures (chip as bv32) << 1 == Shifted(chip << 1, 0) | AddressCarry(chip)
  {
  }

  /** The three cases of Contribution, one at a time. */
  lemma ContributionCases(q: TransferRequest, cur: nat, i: nat, j: nat)
    requires ValidRequest(q) && j < 4 && 4 * i + j < FifoSize
    requires cur + PayloadBefore(q.rLen, 4 * i + j + 1) <= q.bLen
    ensures i == 0 && j == 0 ==> Contribution(q, cur, i, j) == (q.chip as bv32) << 1
    ensures i == 0 && 0 < j <= q.rLen ==> Contribution(q, cur, i, j) == RegPart(q.reg, j)
    ensures !(i == 0 && j <= q.rLen) ==>
      Contribution(q, cur, i, j) == BytePart(q.buf[cur + PayloadBefore(q.rLen, 4 * i + j)], j)
  {
  }

  /** The OR of a sequence of words, accumulated from the first. */
  function OrFold(ws: seq<bv32>): bv32
    decreases |ws|
  {
    if ws == [] then 0 else OrFold(ws[..|ws| - 1]) | ws[|ws| - 1]
  }

  /** The terms ORed into word i in its first j inner-loop passes. */
  function Contributions(q: TransferRequest, cur: nat, i: nat, j: nat): (cs: seq<bv32>)
    requires ValidRequest(q) && j <= 4 && 4 * i + j <= FifoSize
    requires cur + PayloadBefore(q.rLen, 4 * i + j) <= q.bLen
    ensures |cs| == j
  {
    seq(j, k requires 0 <= k < j => Contribution(q, cur, i, k))
  }

  /** The local txdata after j passes of the inner loop for word i: it
      starts at zero and every pass ORs one more term in. It is the
      little-endian packing of the j chunk bytes from 4i on, with the
      address carry in word 0. */
  function PartialWord(q: TransferRequest, cur: nat, i: nat, j: nat): (w: bv32)
    requires ValidRequest(q) && j <= 4 && 4 * i + j <= FifoSize
    requires cur + PayloadBefore(q.rLen, 4 * i + j) <= q.bLen
    ensures w == LittleEndian(WordBytes(q, cur, i, j)) | (if i == 0 && j > 0 then AddressCarry(q.chip) else 0)
  {
    ContributionsPlaced(q, cur, i, j);
    OrFold(Contributions(q, cur, i, j))
  }

  /** The j chunk bytes from position 4i on. */
  function WordBytes(q: TransferRequest, cur: nat, i: nat, j: nat): (bs: seq<bv8>)
    requires ValidRequest(q) && j <= 4 && 4 * i + j <= FifoSize
    requires cur + PayloadBefore(q.rLen, 4 * i + j) <= q.bLen
    ensures |bs| == j
  {
    seq(j, k requires 0 <= k < j => ChunkByte(q, cur, 4 * i + k))
  }

  /** The terms of word i are its chunk bytes placed at their positions,
      the first one marked with the address carry in word 0. */
  lemma ContributionsPlaced(q: TransferRequest, cur: nat, i: nat, j: nat)
    requires ValidRequest(q) && j <= 4 && 4 * i + j <= FifoSize
    requires cur + PayloadBefore(q.rLen, 4 * i + j) <= q.bLen
    ensures OrFold(Contributions(q, cur, i, j))
      == LittleEndian(WordBytes(q, cur, i, j)) | (if i == 0 && j > 0 then AddressCarry(q.chip) else 0)
  {
    var m := if i == 0 then AddressCarry(q.chip) else 0;
    var cs, vs := Contributions(q, cur, i, j), Placed(WordBytes(q, cur, i, j));
    TermsPlaced(q, cur, i, j, m);
    OrFoldMarked(cs, vs, m);
    assert LittleEndian(WordBytes(q, cur, i, j)) == OrFold(vs);
    assert (if i == 0 && j > 0 then AddressCarry(q.chip) else 0) == (if |cs| > 0 then m else 0);
  }

  lemma TermsPlaced(q: TransferRequest, cur: nat, i: nat, j: nat, m: bv32)
    requires ValidRequest(q) && j <= 4 && 4 * i + j <= FifoSize
    requires cur + PayloadBefore(q.rLen, 4 * i + j) <= q.bLen
    requires m == if i == 0 then AddressCarry(q.chip) else 0
    ensures forall k :: 0 <= k < j ==>
      Contributions(q, cur, i, j)[k] == Placed(WordBytes(q, cur, i, j))[k] | (if k == 0 then m else 0)
  {
    forall k | 0 <= k < j
      ensures Contributions(q, cur, i, j)[k] == Placed(WordBytes(q, cur, i, j))[k] | (if k == 0 then m else 0)
    {
      TermPlaced(q, cur, i, j, k, m);
    }
  }

  lemma TermPlaced(q: TransferRequest, cur: nat, i: nat, j: nat, k: nat, m: bv32)
    requires ValidRequest(q) && k < j <= 4 && 4 * i + j <= FifoSize
    requires cur + PayloadBefore(q.rLen, 4 * i + j) <= q.bLen
    requires m == if i == 0 then AddressCarry(q.chip) else 0
    ensures Contributions(q, cur, i, j)[k] == Placed(WordBytes(q, cur, i, j))[k] | (if k == 0 then m else 0)
  {
    var b := ChunkByte(q, cur, 4 * i + k);
    assert Placed(WordBytes(q, cur, i, j))[k] == Shifted(b, k);
    var c := Contribution(q, cur, i, k);
    if i == 0 && k == 0 {
      assert c == Shifted(b, 0) | m;
    } else {
      assert c == Shifted(b, k);
    }
  }

  /** ORing m into the first of a sequence of words ORs m into their fold. */
  lemma {:induction false} OrFoldMarked(ws: seq<bv32>, vs: seq<bv32>, m: bv32)
    requires |ws| == |vs|
    requires forall k :: 0 <= k < |ws| ==> ws[k] == vs[k] | (if k == 0 then m else 0)
    ensures OrFold(ws) == OrFold(vs) | (if |ws| > 0 then m else 0)
    decreases |ws|
  {
    if ws != [] {
      var n := |ws| - 1;
      OrFoldMarked(ws[..n], vs[..n], m);
    }
  }

  /** One more inner-loop pass ORs one more term into the word. */
  lemma PartialWordStep(q: TransferRequest, cur: nat, i: nat, j: nat)
    requires ValidRequest(q) && j < 4 && 4 * i + j < FifoSize
    requires cur + PayloadBefore(q.rLen, 4 * i + j + 1) <= q.bLen
    ensures PartialWord(q, cur, i, j + 1) == PartialWord(q, cur, i, j) | Contribution(q, cur, i, j)
  {
    assert Contributions(q, cur, i, j + 1)[..j] == Contributions(q, cur, i, j);
  }

  /** The number of inner-loop passes for word i of a chunk of size bytes:
      the loop breaks when position 4i + j reaches the chunk size. */
  function WordEnd(size: nat, i: nat): (n: nat)
    requires 4 * i < size
    ensures 1 <= n <= 4 && 4 * i + n <= size
  {
    if size - 4 * i < 4 then size - 4 * i else 4
  }

  /** The successive values of the local txdata while word i is built. */
  function PartialWords(q: TransferRequest, cur: nat, i: nat, j: nat): (ws: seq<bv32>)
    requires ValidRequest(q) && j <= 4 && 4 * i + j <= FifoSize
    requires cur + PayloadBefore(q.rLen, 4 * i + j) <= q.bLen
    ensures |ws| == j
  {
    seq(j, k requires 0 <= k < j => PartialWord(q, cur, i, k + 1))
  }

  /** Writes of the values vs, in order, to TXDATA[i]. */
  function WriteAll(i: nat, vs: seq<bv32>): (ops: seq<Op>)
    ensures |ops| == |vs|
    decreases |vs|
  {
    if vs == [] then [] else WriteAll(i, vs[..|vs| - 1]) + [WriteTxdata(i, vs[|vs| - 1])]
  }

  lemma {:induction false} WriteAllReplay(r: Regs, i: nat, vs: seq<bv32>)
    requires i < |r.txdata|
    ensures Replay(r, WriteAll(i, vs)) == if vs == [] then r else r.(txdata := r.txdata[i := vs[|vs| - 1]])
    decreases |vs|
  {
    if vs != [] {
      var init := vs[..|vs| - 1];
      var op := WriteTxdata(i, vs[|vs| - 1]);
      WriteAllReplay(r, i, init);
      ReplayAppend(r, WriteAll(i, init), [op]);
      ReplayOne(Replay(r, WriteAll(i, init)), op);
    }
  }

  /** Writing one more value appends one more write. */
  lemma WriteAllSnoc(i: nat, vs: seq<bv32>, j: nat)
    requires j < |vs|
    ensures WriteAll(i, vs[..j + 1]) == WriteAll(i, vs[..j]) + [WriteTxdata(i, vs[j])]
  {
    assert vs[..j + 1][..j] == vs[..j];
  }

  /** Pass j of word i turns the local txdata before it (zero before the
      first pass) into row[j] by ORing in the term of its position. */
  ghost predicate Grows(q: TransferRequest, cur: nat, i: nat, row: seq<bv32>, j: nat)
    requires ValidRequest(q) && j < |row| <= 4 && 4 * i + |row| <= FifoSize
    requires cur + PayloadBefore(q.rLen, 4 * i + |row|) <= q.bLen
  {
    row[j] == (if j == 0 then 0 else row[j - 1]) | Contribution(q, cur, i, j)
  }

  /** Pass j of word i ORs the term of its position into the value before
      it and yields row[j]. */
  lemma GrowsStep(q: TransferRequest, cur: nat, i: nat, row: seq<bv32>, j: nat, t: bv32)
    requires ValidRequest(q) && j < |row| <= 4 && 4 * i + |row| <= FifoSize
    requires cur + PayloadBefore(q.rLen, 4 * i + |row|) <= q.bLen
    requires Grows(q, cur, i, row, j) && t == if j == 0 then 0 else row[j - 1]
    ensures row[j] == t | Contribution(q, cur, i, j)
  {
  }

  /** row holds the successive values of the local txdata while word i is
      built, one per inner-loop pass. */
  ghost predicate Accumulated(q: TransferRequest, cur: nat, i: nat, row: seq<bv32>)
    requires ValidRequest(q) && |row| <= 4 && 4 * i + |row| <= FifoSize
    requires cur + PayloadBefore(q.rLen, 4 * i + |row|) <= q.bLen
  {
    forall j :: 0 <= j < |row| ==> Grows(q, cur, i, row, j)
  }

  /** The partial words of word i are so accumulated. */
  lemma PartialWordsAccumulated(q: TransferRequest, cur: nat, i: nat, n: nat)
    requires ValidRequest(q) && n <= 4 && 4 * i + n <= FifoSize
    requires cur + PayloadBefore(q.rLen, 4 * i + n) <= q.bLen
    ensures Accumulated(q, cur, i, PartialWords(q, cur, i, n))
  {
    forall j | 0 <= j < n
      ensures Grows(q, cur, i, PartialWords(q, cur, i, n), j)
    {
      PartialWordGrows(q, cur, i, n, j);
    }
  }

  lemma PartialWordGrows(q: TransferRequest, cur: nat, i: nat, n: nat, j: nat)
    requires ValidRequest(q) && j < n <= 4 && 4 * i + n <= FifoSize
    requires cur + PayloadBefore(q.rLen, 4 * i + n) <= q.bLen
    ensures Grows(q, cur, i, PartialWords(q, cur, i, n), j)
  {
    var row := PartialWords(q, cur, i, n);
    PartialWordStep(q, cur, i, j);
    assert row[j] == PartialWord(q, cur, i, j + 1);
    if j == 0 {
      assert Contributions(q, cur, i, 0) == [];
    } else {
      assert row[j - 1] == PartialWord(q, cur, i, j);
    }
  }

  // ---------------------------------------------------------------------
  // The byte view of a chunk and its little-endian packing.
  // ---------------------------------------------------------------------

  /** The address byte and the register bytes. */
  function Header(q: TransferRequest): (h: seq<bv8>)
    requires q.rLen <= 3
    ensures |h| == q.rLen + 1
  {
    [q.chip << 1] + seq(q.rLen, k requires 0 <= k < q.rLen => ByteOf(q.reg, k))
  }

  /** Byte p of a chunk whose payload starts at cursor cur. */
  function ChunkByte(q: TransferRequest, cur: nat, p: nat): bv8
    requires ValidRequest(q) && p < FifoSize
    requires cur + PayloadBefore(q.rLen, p + 1) <= q.bLen
  {
    if p == 0 then q.chip << 1
    else if p <= q.rLen then ByteOf(q.reg, p - 1)
    else q.buf[cur + PayloadBefore(q.rLen, p)]
  }

  /** The bytes a chunk of size bytes sends. */
  function ChunkBytes(q: TransferRequest, cur: nat, size: nat): (bs: seq<bv8>)
    requires ChunkFits(q, cur, size)
    ensures |bs| == size
  {
    seq(size, p requires 0 <= p < size => ChunkByte(q, cur, p))
  }

  /** Every chunk is the header followed by the payload bytes at the
      cursor, cut to the chunk size: the header repeats in every chunk, and
      the payload is taken in order, one byte per position after it. */
  lemma ChunkLayout(q: TransferRequest, cur: nat, size: nat)
    requires ChunkFits(q, cur, size)
    ensures ChunkBytes(q, cur, size) == (Header(q) + q.buf[cur .. cur + PayloadBefore(q.rLen, size)])[..size]
    ensures size > 0 ==> ChunkBytes(q, cur, size)[0] & 1 == 0
  {
    var h := Header(q);
    var tail := q.buf[cur .. cur + PayloadBefore(q.rLen, size)];
    var rhs := (h + tail)[..size];
    assert |h + tail| >= size;
    forall p | 0 <= p < size ensures ChunkBytes(q, cur, size)[p] == rhs[p] {
      if p > q.rLen {
        assert rhs[p] == tail[p - |h|];
      }
    }
  }

  /** Each byte of bs placed at its own position in a word. */
  function Placed(bs: seq<bv8>): (ws: seq<bv32>)
    requires |bs| <= 4
    ensures |ws| == |bs|
  {
    seq(|bs|, k requires 0 <= k < |bs| => Shifted(bs[k], k))
  }

  /** Little-endian packing of up to four bytes into a word. */
  function LittleEndian(bs: seq<bv8>): bv32
    requires |bs| <= 4
  {
    OrFold(Placed(bs))
  }

  lemma ByteOfShifted(x: bv8, m: nat, k: nat)
    requires m < 4 && k < 4
    ensures ByteOf(Shifted(x, m), k) == if k == m then x else 0
  {
  }

  lemma ByteOfOr(a: bv32, b: bv32, k: nat)
    requires k < 4
    ensures ByteOf(a | b, k) == ByteOf(a, k) | ByteOf(b, k)
  {
    if k == 0 {
      assert ((a | b) & 0xff) == (a & 0xff) | (b & 0xff);
    } else if k == 1 {
      assert (((a | b) >> 8) & 0xff) == ((a >> 8) & 0xff) | ((b >> 8) & 0xff);
    } else if k == 2 {
      assert (((a | b) >> 16) & 0xff) == ((a >> 16) & 0xff) | ((b >> 16) & 0xff);
    } else {
      assert (a | b) >> 24 == (a >> 24) | (b >> 24);
    }
  }

  lemma OrZero(x: bv8, y: bv8)
    ensures x | 0 == x && 0 | y == y
  {
  }

  /** Unpacking a packed word gives the bytes back, and zero above them. */
  lemma {:induction false} LittleEndianBytes(bs: seq<bv8>, k: nat)
    requires |bs| <= 4 && k < 4
    ensures ByteOf(LittleEndian(bs), k) == if k < |bs| then bs[k] else 0
    decreases |bs|
  {
    if bs != [] {
      var n := |bs| - 1;
      var init := bs[..n];
      var ws := Placed(bs);
      var a := LittleEndian(init);
      var b := Shifted(bs[n], n);
      assert ws[..n] == Placed(init);
      assert LittleEndian(bs) == a | b;
      LittleEndianBytes(init, k);
      ByteOfOr(a, b, k);
      ByteOfShifted(bs[n], n, k);
      OrZero(ByteOf(a, k), ByteOf(b, k));
    }
  }

  // The source's shift terms, one literal position at a time.

  lemma RegShift1(reg: bv32)
    ensures RegPart(reg, 1) == Shifted(ByteOf(reg, 0), 1)
  {
  }

  lemma RegShift2(reg: bv32)
    ensures RegPart(reg, 2) == Shifted(ByteOf(reg, 1), 2)
  {
  }

  lemma RegShift3(reg: bv32)
    ensures RegPart(reg, 3) == Shifted(ByteOf(reg, 2), 3)
  {
  }

  lemma ByteShift0(x: bv8)
    ensures BytePart(x, 0) == Shifted(x, 0)
  {
  }

  lemma ByteShift1(x: bv8)
    ensures BytePart(x, 1) == Shifted(x, 1)
  {
  }

  lemma ByteShift2(x: bv8)
    ensures BytePart(x, 2) == Shifted(x, 2)
  {
  }

  lemma ByteShift3(x: bv8)
    ensures BytePart(x, 3) == Shifted(x, 3)
  {
  }

  /** The register-byte term is register byte j - 1 placed at byte j. */
  lemma RegPartIsByte(reg: bv32, j: nat)
    requires 1 <= j <= 3
    ensures RegPart(reg, j) == Shifted(ByteOf(reg, j - 1), j)
  {
    if j == 1 { RegShift1(reg); }
    else if j == 2 { RegShift2(reg); }
    else { RegShift3(reg); }
  }

  /** The payload term is the byte placed at byte j. */
  lemma BytePartIsByte(x: bv8, j: nat)
    requires j < 4
    ensures BytePart(x, j) == Shifted(x, j)
  {
    if j == 0 { ByteShift0(x); }
    else if j == 1 { ByteShift1(x); }
    else if j == 2 { ByteShift2(x); }
    else { ByteShift3(x); }
  }

  /** The inner loop builds the little-endian packing of the chunk bytes
      of word i. */
  lemma PartialWordPacks(q: TransferRequest, cur: nat, size: nat, i: nat, j: nat)
    requires ChunkFits(q, cur, size) && q.chip < 0x80
    requires j <= 4 && 4 * i + j <= size
    ensures PartialWord(q, cur, i, j) == LittleEndian(ChunkBytes(q, cur, size)[4 * i .. 4 * i + j])
  {
    assert WordBytes(q, cur, i, j) == ChunkBytes(q, cur, size)[4 * i .. 4 * i + j];
  }

  /** The writes of the first n rows of vals, row i to TXDATA[i]. */
  function RowWrites(vals: seq<seq<bv32>>, n: nat): seq<Op>
    requires n <= |vals|
  {
    if n == 0 then [] else RowWrites(vals, n - 1) + WriteAll(n - 1, vals[n - 1])
  }

  /** t with each of its first n entries replaced by the last value of the
      matching row, when that row is not empty. */
  function Stamp(t: seq<bv32>, rows: seq<seq<bv32>>, n: nat): (t': seq<bv32>)
    requires n <= |rows| && n <= |t|
    ensures |t'| == |t|
  {
    if n == 0 then t
    else
      var s := Stamp(t, rows, n - 1);
      if rows[n - 1] == [] then s else s[n - 1 := rows[n - 1][|rows[n - 1]| - 1]]
  }

  lemma {:induction false} StampAt(t: seq<bv32>, rows: seq<seq<bv32>>, n: nat, i: nat)
    requires n <= |rows| && n <= |t| && i < |t|
    ensures Stamp(t, rows, n)[i] == if i < n && rows[i] != [] then rows[i][|rows[i]| - 1] else t[i]
  {
    if n > 0 {
      StampAt(t, rows, n - 1, i);
    }
  }

  /** Replaying such writes leaves in each written register the last value
      of its row and changes nothing else. */
  lemma {:induction false} RowWritesReplay(r: Regs, vals: seq<seq<bv32>>, n: nat)
    requires n <= |vals| && n <= |r.txdata|
    ensures Replay(r, RowWrites(vals, n)) == r.(txdata := Stamp(r.txdata, vals, n))
  {
    if n > 0 {
      var before, row := RowWrites(vals, n - 1), WriteAll(n - 1, vals[n - 1]);
      assert RowWrites(vals, n) == before + row;
      RowWritesReplay(r, vals, n - 1);
      ReplayAppend(r, before, row);
      WriteAllReplay(Replay(r, before), n - 1, vals[n - 1]);
      StampStep(r, Replay(r, before), Replay(Replay(r, before), row), vals, n);
    }
  }

  /** Writing row n - 1 after the first n - 1 rows stamps one more entry. */
  lemma StampStep(r: Regs, r1: Regs, r2: Regs, vals: seq<seq<bv32>>, n: nat)
    requires 0 < n <= |vals| && n <= |r.txdata|
    requires r1 == r.(txdata := Stamp(r.txdata, vals, n - 1))
    requires r2 == if vals[n - 1] == [] then r1 else r1.(txdata := r1.txdata[n - 1 := vals[n - 1][|vals[n - 1]| - 1]])
    ensures r2 == r.(txdata := Stamp(r.txdata, vals, n))
  {
  }

  /** Such writes only write TXDATA registers, and only the first n. */
  lemma {:induction false} RowWritesTargets(vals: seq<seq<bv32>>, n: nat)
    requires n <= |vals|
    ensures forall k :: 0 <= k < |RowWrites(vals, n)| ==>
      RowWrites(vals, n)[k].WriteTxdata? && RowWrites(vals, n)[k].index < n
  {
    if n > 0 {
      RowWritesTargets(vals, n - 1);
      WriteAllTargets(n - 1, vals[n - 1]);
      var a: seq<Op>, b: seq<Op> := RowWrites(vals, n - 1), WriteAll(n - 1, vals[n - 1]);
      forall k | 0 <= k < |a + b| ensures (a + b)[k].WriteTxdata? && (a + b)[k].index < n {
        if k >= |a| {
          assert (a + b)[k] == b[k - |a|];
        }
      }
    }
  }

  /** The successive values of the local txdata for every word of a chunk. */
  function ChunkRows(q: TransferRequest, cur: nat, size: nat): (rows: seq<seq<bv32>>)
    requires ChunkFits(q, cur, size)
    ensures |rows| == Words(size)
  {
    seq(Words(size), i requires 0 <= i < Words(size) => PartialWords(q, cur, i, WordEnd(size, i)))
  }

  /** The TXDATA writes of the first n words of a chunk of size bytes: one
      write of word i after every byte ORed into it. They write only TXDATA
      registers, and only the first n. */
  function FillOps(q: TransferRequest, cur: nat, size: nat, n: nat): (ops: seq<Op>)
    requires ChunkFits(q, cur, size) && n <= Words(size)
    ensures forall k :: 0 <= k < |ops| ==> ops[k].WriteTxdata? && ops[k].index < n
  {
    RowWritesTargets(ChunkRows(q, cur, size), n);
    RowWrites(ChunkRows(q, cur, size), n)
  }

  /** Row i of a chunk has one value per inner-loop pass of word i, so
      accumulated. */
  lemma ChunkRowAccumulated(q: TransferRequest, cur: nat, size: nat, i: nat)
    requires ChunkFits(q, cur, size) && i < Words(size)
    ensures var row := ChunkRows(q, cur, size)[i];
      |row| == WordEnd(size, i) && Accumulated(q, cur, i, row)
  {
    PartialWordsAccumulated(q, cur, i, WordEnd(size, i));
  }

  /** Row i of rows has one value per inner-loop pass of word i of a chunk
      of size bytes, so accumulated. */
  ghost predicate RowAccumulated(q: TransferRequest, cur: nat, size: nat, rows: seq<seq<bv32>>, i: nat)
    requires ChunkFits(q, cur, size) && i < |rows| == Words(size)
  {
    |rows[i]| == WordEnd(size, i) && Accumulated(q, cur, i, rows[i])
  }

  /** rows holds, for every word of a chunk of size bytes, the partial
      words of its inner-loop passes. */
  ghost predicate AccumulatedRows(q: TransferRequest, cur: nat, size: nat, rows: seq<seq<bv32>>)
    requires ChunkFits(q, cur, size)
  {
    |rows| == Words(size) && forall i :: 0 <= i < |rows| ==> RowAccumulated(q, cur, size, rows, i)
  }

  lemma ChunkRowsAccumulated(q: TransferRequest, cur: nat, size: nat)
    requires ChunkFits(q, cur, size)
    ensures AccumulatedRows(q, cur, size, ChunkRows(q, cur, size))
  {
    forall i | 0 <= i < Words(size)
      ensures RowAccumulated(q, cur, size, ChunkRows(q, cur, size), i)
    {
      ChunkRowAccumulated(q, cur, size, i);
    }
  }

  /** Word i of a chunk ends up holding the local txdata after its last
      inner-loop pass. */
  lemma ChunkRowLast(q: TransferRequest, cur: nat, size: nat, i: nat)
    requires ChunkFits(q, cur, size) && i < Words(size)
    ensures var row := ChunkRows(q, cur, size)[i];
      row != [] && row[|row| - 1] == PartialWord(q, cur, i, WordEnd(size, i))
  {
    var j := WordEnd(size, i);
    assert ChunkRows(q, cur, size)[i] == PartialWords(q, cur, i, j);
    assert PartialWords(q, cur, i, j)[j - 1] == PartialWord(q, cur, i, j);
  }

  /** Replaying the TXDATA writes of the first n words: each word i < n
      holds its final local txdata and nothing else changes. */
  lemma FillOpsReplay(q: TransferRequest, cur: nat, size: nat, n: nat, r: Regs)
    requires ChunkFits(q, cur, size) && n <= Words(size)
    requires |r.txdata| == TxWords
    ensures Replay(r, FillOps(q, cur, size, n)) == r.(txdata := Stamp(r.txdata, ChunkRows(q, cur, size), n))
  {
    RowWritesReplay(r, ChunkRows(q, cur, size), n);
  }

  /** The whole fill of a chunk: only TXDATA[0 .. Words(size) - 1] are
      written, and for a 7-bit address each ends up holding the little-endian
      packing of chunk bytes 4i .. min(4i + 3, size - 1), with zero above. */
  lemma PackedWords(q: TransferRequest, cur: nat, size: nat, r: Regs)
    requires ChunkFits(q, cur, size) && q.chip < 0x80
    requires |r.txdata| == TxWords
    ensures var r' := Replay(r, FillOps(q, cur, size, Words(size)));
      && r'.con == r.con && r'.ien == r.ien && r'.mtxcnt == r.mtxcnt
      && (forall i :: Words(size) <= i < TxWords ==> r'.txdata[i] == r.txdata[i])
      && forall i, k :: 0 <= i < Words(size) && 0 <= k < 4 ==>
           ByteOf(r'.txdata[i], k) == if 4 * i + k < size then ChunkBytes(q, cur, size)[4 * i + k] else 0
  {
    FillOpsReplay(q, cur, size, Words(size), r);
    var rows := ChunkRows(q, cur, size);
    var r' := Replay(r, FillOps(q, cur, size, Words(size)));
    forall i | Words(size) <= i < TxWords ensures r'.txdata[i] == r.txdata[i] {
      StampAt(r.txdata, rows, Words(size), i);
    }
    forall i, k | 0 <= i < Words(size) && 0 <= k < 4
      ensures ByteOf(r'.txdata[i], k) == if 4 * i + k < size then ChunkBytes(q, cur, size)[4 * i + k] else 0
    {
      var n := WordEnd(size, i);
      StampAt(r.txdata, rows, Words(size), i);
      ChunkRowLast(q, cur, size, i);
      PartialWordPacks(q, cur, size, i, n);
      var w := ChunkBytes(q, cur, size)[4 * i .. 4 * i + n];
      LittleEndianBytes(w, k);
    }
  }

  lemma {:induction false} WriteAllTargets(i: nat, vs: seq<bv32>)
    ensures forall k :: 0 <= k < |WriteAll(i, vs)| ==> WriteAll(i, vs)[k] == WriteTxdata(i, vs[k])
    decreases |vs|
  {
    if vs != [] {
      WriteAllTargets(i, vs[..|vs| - 1]);
    }
  }
}
