/**
 * Erasing, programming and reading an SPI-NOR chip through the 512-byte FIFO of the Altera ASMI
 * Parallel II controller: drivers/mtd/spi-nor/spi-nor.c lines 448-552, 1204-1242 and 1328-1390,
 * drivers/mtd/spi-nor/altera-asmip2.c lines 56-213.
 */
module NorFlash {
  import opened Common
  import opened Arith
  import opened AddressCodec

  const FIFO_DEPTH: nat := 0x200
  const OP_WREN: byte := 0x06
  const OP_WRDI: byte := 0x04
  const OP_CHIP_ERASE: byte := 0xC7

  /** What spi_nor_scan leaves in the nor structure. */
  datatype Geometry = Geometry(
    size: nat, pageSize: nat, eraseSize: nat, width: nat,
    readOp: byte, programOp: byte, eraseOp: byte, noChipErase: bool)

  predicate Valid(g: Geometry)
  {
    && 0 < g.pageSize && 0 < g.eraseSize
    && 1 <= g.width <= MAX_ADDR_WIDTH && 0 < g.size <= Pow256(g.width)
    && g.programOp !in {OP_WREN, OP_WRDI, OP_CHIP_ERASE, g.eraseOp}
    && g.eraseOp !in {OP_WREN, OP_WRDI, OP_CHIP_ERASE}
    && g.readOp !in {OP_WREN, OP_WRDI, OP_CHIP_ERASE, g.programOp, g.eraseOp}
  }

  // ----- the chip

  /** Programming a byte can only clear bits. */
  function And(stored: byte, data: byte): byte
  {
    AndAtMost(stored, data);
    BitAnd(stored, data)
  }

  /** An erased byte takes any value. */
  lemma AndErased(erased: byte, data: byte)
    requires erased == 0xFF
    ensures And(erased, data) == data
  {
    Pow2Byte();
    AndOnes(erased, data, 8);
  }

  /** Memory and write-enable latch. */
  datatype Chip = Chip(mem: seq<byte>, wel: bool)

  /** Page program: bits only go from 1 to 0, and the address wraps inside its page. */
  function PageProgram(mem: seq<byte>, pageSize: nat, addr: nat, data: seq<byte>): (r: seq<byte>)
    requires pageSize > 0
    ensures |r| == |mem|
  {
    var base := BlockStart(addr, pageSize);
    seq(|mem|, i requires 0 <= i < |mem| =>
      var k := if i >= addr then i - addr else i - addr + pageSize;
      if base <= i < base + pageSize && k < |data| then And(mem[i], data[k]) else mem[i])
  }

  /** The plain meaning of a write: AND the buffer into the slice that starts at `to`. */
  function FlatProgram(mem: seq<byte>, to: nat, data: seq<byte>): (r: seq<byte>)
    ensures |r| == |mem|
  {
    seq(|mem|, i requires 0 <= i < |mem| => if to <= i < to + |data| then And(mem[i], data[i - to]) else mem[i])
  }

  /** The plain meaning of an erase: the slice reads 0xFF. */
  function FlatErase(mem: seq<byte>, at: nat, len: nat): (r: seq<byte>)
    ensures |r| == |mem|
  {
    seq(|mem|, i requires 0 <= i < |mem| => if at <= i < at + len then 0xFF else mem[i])
  }

  /** What the chip does with one command sent over the bus. */
  function Execute(g: Geometry, c: Chip, tx: seq<byte>): (r: Chip)
    requires Valid(g)
    ensures |r.mem| == |c.mem|
  {
    if tx == [] then c
    else if tx[0] == OP_WREN then c.(wel := true)
    else if tx[0] == OP_WRDI then c.(wel := false)
    else if !c.wel then c
    else if tx[0] == OP_CHIP_ERASE then Chip(FlatErase(c.mem, 0, |c.mem|), false)
    else if |tx| <= g.width then c
    else
      var addr := Decode(tx[1..1 + g.width]);
      if tx[0] == g.programOp then
        Chip(PageProgram(c.mem, g.pageSize, addr, tx[1 + g.width..]), false)
      else if tx[0] == g.eraseOp then
        Chip(FlatErase(c.mem, BlockStart(addr, g.eraseSize), g.eraseSize), false)
      else c
  }

  /** Bytes the chip shifts out for a read command; reading runs on from the end to the start. */
  function ReadBack(g: Geometry, c: Chip, tx: seq<byte>, n: nat): (r: seq<byte>)
    requires Valid(g) && |c.mem| == g.size && |tx| > g.width
    ensures |r| == n
  {
    var addr := Decode(tx[1..1 + g.width]);
    seq(n, i requires 0 <= i < n => c.mem[if addr + i < g.size then addr + i else (addr + i) % g.size])
  }

  /** A program that stays inside one page is the plain write of its slice. */
  lemma ProgramInPage(g: Geometry, c: Chip, to: nat, data: seq<byte>)
    requires Valid(g) && |c.mem| == g.size && c.wel && to + |data| <= g.size && to < g.size
    requires InPage(to, |data|, g.pageSize)
    ensures Execute(g, c, [g.programOp] + Encode(g.width, to) + data) == Chip(FlatProgram(c.mem, to, data), false)
  {
    var tx := [g.programOp] + Encode(g.width, to) + data;
    assert tx[1..1 + g.width] == Encode(g.width, to);
    assert tx[1 + g.width..] == data;
    DecodeEncode(g.width, to);
    assert PageProgram(c.mem, g.pageSize, to, data) == FlatProgram(c.mem, to, data);
  }

  lemma EraseSector(g: Geometry, c: Chip, at: nat)
    requires Valid(g) && |c.mem| == g.size && c.wel && at < g.size
    ensures Execute(g, c, [g.eraseOp] + Encode(g.width, at)) ==
            Chip(FlatErase(c.mem, BlockStart(at, g.eraseSize), g.eraseSize), false)
  {
    var tx := [g.eraseOp] + Encode(g.width, at);
    assert tx[1..1 + g.width] == Encode(g.width, at);
    DecodeEncode(g.width, at);
  }

  lemma ReadInRange(g: Geometry, c: Chip, from: nat, n: nat)
    requires Valid(g) && |c.mem| == g.size && from + n <= g.size && from < g.size
    ensures ReadBack(g, c, [g.readOp] + Encode(g.width, from), n) == c.mem[from..from + n]
  {
    var tx := [g.readOp] + Encode(g.width, from);
    assert tx[1..1 + g.width] == Encode(g.width, from);
    DecodeEncode(g.width, from);
  }

  // ----- slices

  /** Two adjacent writes are one. */
  lemma FlatProgramJoin(mem: seq<byte>, to: nat, a: seq<byte>, b: seq<byte>)
    ensures FlatProgram(FlatProgram(mem, to, a), to + |a|, b) == FlatProgram(mem, to, a + b)
  {
  }

  /** The memory after the first `n` bytes of a buffer have been written. */
  function Landed(mem: seq<byte>, to: nat, buf: seq<byte>, n: nat): (r: seq<byte>)
    requires n <= |buf|
    ensures |r| == |mem|
  {
    FlatProgram(mem, to, buf[..n])
  }

  lemma LandedStep(mem: seq<byte>, to: nat, buf: seq<byte>, i: nat, data: seq<byte>, sent: nat)
    requires sent <= |data| && i + |data| <= |buf| && data == buf[i..i + |data|]
    ensures FlatProgram(Landed(mem, to, buf, i), to + i, data[..sent]) == Landed(mem, to, buf, i + sent)
  {
    FlatProgramJoin(mem, to, buf[..i], data[..sent]);
    assert buf[..i] + data[..sent] == buf[..i + sent];
  }

  lemma LandedEnds(mem: seq<byte>, to: nat, buf: seq<byte>)
    ensures Landed(mem, to, buf, 0) == mem
    ensures Landed(mem, to, buf, |buf|) == FlatProgram(mem, to, buf)
  {
    assert buf[..|buf|] == buf;
  }

  lemma FlatEraseJoin(mem: seq<byte>, at: nat, m: nat, n: nat)
    ensures FlatErase(FlatErase(mem, at, m), at + m, n) == FlatErase(mem, at, m + n)
  {
  }

  /**
   * Erase, write, read: over an erased range a write reads back exactly, and nothing outside the
   * erased range changes.
   */
  lemma EraseWriteRead(mem: seq<byte>, at: nat, len: nat, to: nat, data: seq<byte>)
    requires at <= to && to + |data| <= at + len <= |mem|
    ensures var after := FlatProgram(FlatErase(mem, at, len), to, data);
            && after[to..to + |data|] == data
            && after[..at] == mem[..at] && after[at + len..] == mem[at + len..]
            && forall i :: at <= i < at + len && !(to <= i < to + |data|) ==> after[i] == 0xFF
  {
    var after := FlatProgram(FlatErase(mem, at, len), to, data);
    forall i | 0 <= i < |data| ensures after[to..to + |data|][i] == data[i] {
      AndErased(FlatErase(mem, at, len)[to + i], data[i]);
    }
  }

  // ----- the driver

  /** The offset inside a page, by mask when the page size is a power of two. */
  function PageOffset(addr: nat, pageSize: nat): nat
    requires pageSize > 0
  {
    if Weight(pageSize) == 1 then BitAnd(addr, pageSize - 1) else addr % pageSize
  }

  lemma PageOffsetIsMod(addr: nat, pageSize: nat)
    requires pageSize > 0
    ensures PageOffset(addr, pageSize) == addr % pageSize
  {
    if Weight(pageSize) == 1 {
      WeightOne(pageSize);
      MaskIsMod(addr, Log2(pageSize));
    }
  }

  /** The slice of `len` bytes at `addr` stays inside one page. */
  predicate InPage(addr: nat, len: nat, pageSize: nat)
    requires pageSize > 0
  {
    addr % pageSize + len <= pageSize
  }

  /** The part of the remaining request that fits the page of `addr`. */
  function PageRemain(addr: nat, rest: nat, pageSize: nat): (r: nat)
    requires pageSize > 0
    ensures r <= rest && (rest > 0 ==> r > 0)
    ensures InPage(addr, r, pageSize)
    ensures r < rest ==> addr % pageSize + r == pageSize
  {
    PageOffsetIsMod(addr, pageSize);
    Min(pageSize - PageOffset(addr, pageSize), rest)
  }

  /** How the poll of the FIFO count ends; of a command that times out any first part may reach the chip. */
  datatype Beat = Answered | TimedOut(sent: nat)

  /** How many of the `n` bytes of a command reach the chip. */
  function Sent(beat: Beat, n: nat): (r: nat)
    ensures r <= n
  {
    if beat.Answered? then n else Min(beat.sent, n)
  }

  /** What happens to one chunk: the controller's poll and the ready-wait (0 or negative). */
  datatype Fate = Fate(command: Beat, ready: int)

  datatype Chunk = Chunk(at: nat, len: nat)

  /** Data bytes one program command can carry. */
  function Capacity(g: Geometry): nat
    requires Valid(g)
  {
    FIFO_DEPTH - (g.width + 1)
  }

  /** The byte count altera_asmip2_write reports. */
  function Reported(g: Geometry, len: nat, beat: Beat): nat
    requires Valid(g)
  {
    if beat.TimedOut? then 0 else Min(len, Capacity(g))
  }

  /** How many data bytes of a program command of `len` bytes reach the chip behind opcode and address. */
  function Lands(g: Geometry, len: nat, beat: Beat): (r: nat)
    requires Valid(g)
    ensures r <= Min(len, Capacity(g)) && (beat.Answered? ==> r == Min(len, Capacity(g)))
  {
    var s := Sent(beat, 1 + g.width + Min(len, Capacity(g)));
    if s > 1 + g.width then s - (1 + g.width) else 0
  }

  /** The part of a program command that reaches the chip writes the part of its data that does. */
  lemma PartInPage(g: Geometry, c: Chip, to: nat, data: seq<byte>, beat: Beat)
    requires Valid(g) && |c.mem| == g.size && c.wel && to + |data| <= g.size && to < g.size
    requires InPage(to, |data|, g.pageSize) && |data| <= Capacity(g)
    ensures var tx := ProgramBytes(g, to, data);
            Execute(g, c, tx[..Sent(beat, |tx|)]).mem == FlatProgram(c.mem, to, data[..Lands(g, |data|, beat)])
  {
    var tx := [g.programOp] + Encode(g.width, to) + data;
    var part := data[..Lands(g, |data|, beat)];
    assert |tx| == 1 + g.width + |data|;
    if Sent(beat, |tx|) > g.width {
      assert tx[..Sent(beat, |tx|)] == [g.programOp] + Encode(g.width, to) + part;
      ProgramInPage(g, c, to, part);
    } else {
      assert part == [] && FlatProgram(c.mem, to, []) == c.mem;
    }
  }

  function ChunksEnd(chunks: seq<Chunk>, to: nat): nat
  {
    if chunks == [] then to else chunks[|chunks| - 1].at + chunks[|chunks| - 1].len
  }

  /** Non-empty chunks, each inside one page, that follow each other from `to` on. */
  ghost predicate Tiled(chunks: seq<Chunk>, to: nat, pageSize: nat)
    requires pageSize > 0
  {
    chunks == [] ||
    var n := |chunks| - 1;
    && Tiled(chunks[..n], to, pageSize)
    && chunks[n].at == ChunksEnd(chunks[..n], to)
    && chunks[n].len > 0 && InPage(chunks[n].at, chunks[n].len, pageSize)
  }

  /** No chunk could be longer: each reaches the end of its page or the end of the request. */
  ghost predicate Longest(chunks: seq<Chunk>, end: nat, pageSize: nat)
    requires pageSize > 0
  {
    forall j :: 0 <= j < |chunks| ==>
      chunks[j].at + chunks[j].len == end || chunks[j].at % pageSize + chunks[j].len == pageSize
  }

  /** Every chunk was reported whole and became ready. */
  ghost predicate Accepted(g: Geometry, chunks: seq<Chunk>, fate: nat -> Fate)
    requires Valid(g)
  {
    chunks == [] ||
    var n := |chunks| - 1;
    && Accepted(g, chunks[..n], fate)
    && fate(n).ready == 0 && Reported(g, chunks[n].len, fate(n).command) == chunks[n].len
  }

  /** The bytes the last chunk added to retlen, and the code it returned. */
  function Gained(g: Geometry, c: Chunk, f: Fate): nat
    requires Valid(g)
  {
    if f.ready != 0 then 0 else Reported(g, c.len, f.command)
  }

  function Code(g: Geometry, c: Chunk, f: Fate): int
    requires Valid(g)
  {
    if f.ready != 0 then f.ready else if Reported(g, c.len, f.command) != c.len then -EIO else 0
  }

  /**
   * A chunk is accepted exactly if its command is answered and fits the FIFO and the chip becomes
   * ready; it counts only if answered and ready; a failing ready-wait is the code, the rest is -EIO.
   */
  lemma ChunkOutcome(g: Geometry, c: Chunk, f: Fate)
    requires Valid(g) && c.len > 0
    ensures Code(g, c, f) == 0 <==> f.ready == 0 && f.command.Answered? && c.len + 1 + g.width <= 0x200
    ensures Code(g, c, f) != 0 ==> Code(g, c, f) == if f.ready != 0 then f.ready else -EIO
    ensures Gained(g, c, f) ==
            if f.ready == 0 && f.command.Answered? then Min(c.len, 0x200 - (1 + g.width)) else 0
  {
  }

  /**
   * How a write of `len` bytes ended: its chunks tile the request inside pages, every chunk before
   * the last was whole and ready, and the last one decides `ret` and `retlen`.
   */
  ghost predicate WriteReport(
    g: Geometry, to: nat, len: nat, fate: nat -> Fate, ret: int, retlen: nat, chunks: seq<Chunk>)
    requires Valid(g)
  {
    && Tiled(chunks, to, g.pageSize) && ChunksEnd(chunks, to) <= to + len
    && (chunks == [] ==> len == 0 && ret == 0 && retlen == 0)
    && (chunks != [] ==>
        var n := |chunks| - 1;
        && Accepted(g, chunks[..n], fate)
        && retlen == chunks[n].at - to + Gained(g, chunks[n], fate(n))
        && ret == Code(g, chunks[n], fate(n)))
    && (ret == 0 ==> retlen == len && ChunksEnd(chunks, to) == to + len)
  }

  lemma {:induction false} AcceptedFits(g: Geometry, chunks: seq<Chunk>, fate: nat -> Fate)
    requires Valid(g) && Accepted(g, chunks, fate)
    ensures forall c :: c in chunks ==> c.len <= Capacity(g)
  {
    if chunks != [] {
      var n := |chunks| - 1;
      AcceptedFits(g, chunks[..n], fate);
      assert chunks == chunks[..n] + [chunks[n]];
    }
  }

  /** Without faults a write succeeds exactly when no chunk outgrows the FIFO, so on every small page. */
  lemma FaultFreeWriteIff(g: Geometry, to: nat, len: nat, fate: nat -> Fate, ret: int, retlen: nat, chunks: seq<Chunk>)
    requires Valid(g) && WriteReport(g, to, len, fate, ret, retlen, chunks)
    requires forall n :: fate(n) == Fate(Answered, 0)
    ensures ret == 0 <==> forall c :: c in chunks ==> c.len <= Capacity(g)
    ensures g.pageSize <= Capacity(g) ==> ret == 0
  {
    if chunks != [] {
      var n := |chunks| - 1;
      assert fate(n) == Fate(Answered, 0);
      AcceptedFits(g, chunks[..n], fate);
      assert chunks == chunks[..n] + [chunks[n]];
    }
  }

  /** Reported bytes of the chunks whose ready-wait succeeded. */
  ghost function ReadyBytes(g: Geometry, chunks: seq<Chunk>, fate: nat -> Fate): nat
    requires Valid(g)
  {
    if chunks == [] then 0
    else
      var n := |chunks| - 1;
      ReadyBytes(g, chunks[..n], fate) + Gained(g, chunks[n], fate(n))
  }

  lemma {:induction false} ReadyBytesAccepted(g: Geometry, chunks: seq<Chunk>, fate: nat -> Fate, to: nat)
    requires Valid(g) && Accepted(g, chunks, fate) && Tiled(chunks, to, g.pageSize)
    ensures ChunksEnd(chunks, to) == to + ReadyBytes(g, chunks, fate)
  {
    if chunks != [] {
      ReadyBytesAccepted(g, chunks[..|chunks| - 1], fate, to);
    }
  }

  /** On any exit `retlen` is what the chunks that became ready were reported to hold. */
  lemma RetlenCountsReadyChunks(
    g: Geometry, to: nat, len: nat, fate: nat -> Fate, ret: int, retlen: nat, chunks: seq<Chunk>)
    requires Valid(g) && WriteReport(g, to, len, fate, ret, retlen, chunks)
    ensures retlen == ReadyBytes(g, chunks, fate)
  {
    if chunks != [] {
      ReadyBytesAccepted(g, chunks[..|chunks| - 1], fate, to);
    }
  }

  /** The first `i` bytes of a request are written, in chunks that were all accepted. */
  ghost predicate Underway(g: Geometry, to: nat, len: nat, fate: nat -> Fate, chunks: seq<Chunk>, i: nat)
    requires Valid(g)
  {
    && Tiled(chunks, to, g.pageSize) && ChunksEnd(chunks, to) == to + i
    && Accepted(g, chunks, fate) && Longest(chunks, to + len, g.pageSize)
  }

  /** The report of a write that ends with chunk `c` after `chunks` were accepted. */
  lemma ReportAt(g: Geometry, to: nat, len: nat, fate: nat -> Fate, chunks: seq<Chunk>, c: Chunk)
    requires Valid(g) && Tiled(chunks, to, g.pageSize) && Accepted(g, chunks, fate)
    requires c.at == ChunksEnd(chunks, to) && c.len > 0 && InPage(c.at, c.len, g.pageSize) && c.at + c.len <= to + len
    requires Longest(chunks, to + len, g.pageSize) && Longest([c], to + len, g.pageSize)
    ensures c.at >= to && Longest(chunks + [c], to + len, g.pageSize)
    ensures Tiled(chunks + [c], to, g.pageSize) && ChunksEnd(chunks + [c], to) == c.at + c.len
    ensures var f := fate(|chunks|);
            && (Code(g, c, f) != 0 || c.at + c.len == to + len ==>
                WriteReport(g, to, len, fate, Code(g, c, f), c.at - to + Gained(g, c, f), chunks + [c]))
            && (Code(g, c, f) == 0 ==> Accepted(g, chunks + [c], fate))
  {
    var all := chunks + [c];
    assert all[..|chunks|] == chunks && all[|chunks|] == c;
    assert [c][0] == c;
    ReadyBytesAccepted(g, chunks, fate, to);
  }

  /** The report of a write all of whose chunks were accepted. */
  lemma ReportWhole(g: Geometry, to: nat, len: nat, fate: nat -> Fate, chunks: seq<Chunk>)
    requires Valid(g) && Tiled(chunks, to, g.pageSize) && Accepted(g, chunks, fate) && ChunksEnd(chunks, to) == to + len
    ensures WriteReport(g, to, len, fate, 0, len, chunks)
  {
    if chunks != [] {
      ReadyBytesAccepted(g, chunks[..|chunks| - 1], fate, to);
    }
  }

  /** The transmit FIFO after more bytes were pushed; what it has no room for is lost. */
  function Queue(fifo: seq<byte>, bytes: seq<byte>): seq<byte>
  {
    (fifo + bytes)[..Min(|fifo| + |bytes|, FIFO_DEPTH)]
  }

  lemma QueueTwice(fifo: seq<byte>, a: seq<byte>, b: seq<byte>)
    ensures Queue(Queue(fifo, a), b) == Queue(fifo, a + b)
  {
    assert fifo + a + b == fifo + (a + b);
  }

  /** The bytes of a program command. */
  function ProgramBytes(g: Geometry, to: nat, data: seq<byte>): seq<byte>
  {
    [g.programOp] + Encode(g.width, to) + data
  }

  class Driver {
    const g: Geometry
    var chip: Chip
    var fifo: seq<byte>

    constructor (g: Geometry, chip: Chip)
      ensures this.g == g && this.chip == chip && fifo == []
    {
      this.g := g;
      this.chip := chip;
      fifo := [];
    }

    ghost predicate Ok()
      reads this
    {
      Valid(g) && |chip.mem| == g.size
    }

    /** Bytes written to the data register queue up in the transmit FIFO. */
    method Push(bytes: seq<byte>)
      modifies this`fifo
      ensures fifo == Queue(old(fifo), bytes)
    {
      fifo := Queue(fifo, bytes);
    }

    /** Starts the queued command and polls for its end. What a timeout leaves in the FIFO stays there. */
    method Go(beat: Beat)
      requires Valid(g)
      modifies this`fifo, this`chip
      ensures beat.Answered? ==> fifo == []
      ensures chip == Execute(g, old(chip), old(fifo)[..Sent(beat, |old(fifo)|)])
      ensures fifo == old(fifo)[Sent(beat, |old(fifo)|)..]
    {
      var n := Sent(beat, |fifo|);
      chip := Execute(g, chip, fifo[..n]);
      fifo := fifo[n..];
    }

    /** altera_asmip2_write_reg */
    method WriteReg(opcode: byte, val: seq<byte>, beat: Beat) returns (ret: int)
      requires Ok() && fifo == []
      modifies this`fifo, this`chip
      ensures Ok() && (ret == 0 ==> fifo == [])
      ensures |val| >= FIFO_DEPTH ==> ret == -EINVAL && chip == old(chip)
      ensures |val| < FIFO_DEPTH ==>
              && ret == (if beat.Answered? then 0 else -ETIMEDOUT)
              && chip == Execute(g, old(chip), ([opcode] + val)[..Sent(beat, 1 + |val|)])
    {
      if |val| + 1 > FIFO_DEPTH {
        return -EINVAL;
      }
      Push([opcode]);
      Push(val);
      assert fifo == Queue([], [opcode] + val) == [opcode] + val by {
        QueueTwice([], [opcode], val);
      }
      Go(beat);
      ret := if beat.Answered? then 0 else -ETIMEDOUT;
    }

    /** write_enable and write_disable, which are taken to reach the chip. */
    method Latch(opcode: byte)
      requires Ok() && fifo == [] && (opcode == OP_WREN || opcode == OP_WRDI)
      modifies this`fifo, this`chip
      ensures Ok() && fifo == [] && chip == old(chip).(wel := opcode == OP_WREN)
    {
      var _ := WriteReg(opcode, [], Answered);
      assert ([opcode] + [])[..1] == [opcode];
    }

    /**
     * altera_asmip2_write. The command goes out behind whatever an earlier timeout left in the FIFO;
     * a timeout reports nothing written, whatever reached the chip.
     */
    method ControllerWrite(to: nat, data: seq<byte>, beat: Beat) returns (written: nat)
      requires Ok()
      modifies this`fifo, this`chip
      ensures Ok()
      ensures written == Reported(g, |data|, beat)
      ensures var tx := Queue(old(fifo), ProgramBytes(g, to, data[..Min(|data|, Capacity(g))]));
              chip == Execute(g, old(chip), tx[..Sent(beat, |tx|)]) && fifo == tx[Sent(beat, |tx|)..]
    {
      var n := Min(|data|, FIFO_DEPTH - (g.width + 1));
      Push([g.programOp]);
      var offset := OffsetBytes(g.width, to);
      QueueTwice(fifo, offset, data[..n]);
      QueueTwice(old(fifo), [g.programOp], offset + data[..n]);
      Push(offset);
      Push(data[..n]);
      assert [g.programOp] + (offset + data[..n]) == ProgramBytes(g, to, data[..n]);
      Go(beat);
      written := if beat.TimedOut? then 0 else n;
    }

    /** write_enable and one program command for a chunk inside a page. */
    method ProgramChunk(addr: nat, data: seq<byte>, beat: Beat) returns (written: nat)
      requires Ok() && fifo == [] && 0 < |data| && addr + |data| <= g.size && InPage(addr, |data|, g.pageSize)
      modifies this`fifo, this`chip
      ensures Ok() && (beat.Answered? ==> fifo == [])
      ensures written == Reported(g, |data|, beat)
      ensures chip.mem == FlatProgram(old(chip.mem), addr, data[..Lands(g, |data|, beat)])
    {
      Latch(OP_WREN);
      var n := Min(|data|, Capacity(g));
      PartInPage(g, chip, addr, data[..n], beat);
      assert data[..n][..Lands(g, n, beat)] == data[..Lands(g, |data|, beat)];
      assert Queue([], ProgramBytes(g, addr, data[..n])) == ProgramBytes(g, addr, data[..n]);
      written := ControllerWrite(addr, data, beat);
    }

    method WriteChunk(to: nat, buf: seq<byte>, i: nat, len: nat, beat: Beat, ghost mem: seq<byte>)
      returns (written: nat)
      requires Ok() && fifo == [] && 0 < len && i + len <= |buf| && to + |buf| <= g.size
      requires InPage(to + i, len, g.pageSize)
      requires chip.mem == Landed(mem, to, buf, i)
      modifies this`fifo, this`chip
      ensures Ok() && (beat.Answered? ==> fifo == [])
      ensures written == Reported(g, len, beat)
      ensures chip.mem == Landed(mem, to, buf, i + Lands(g, len, beat))
    {
      var data := buf[i..i + len];
      LandedStep(mem, to, buf, i, data, Lands(g, len, beat));
      written := ProgramChunk(to + i, data, beat);
    }

    /** altera_asmip2_read; a timeout yields no bytes. */
    method ControllerRead(from: nat, len: nat, beat: Beat) returns (bytes: seq<byte>)
      requires Ok() && fifo == [] && 0 < len && from + len <= g.size
      modifies this`fifo
      ensures Ok() && (beat.Answered? ==> fifo == [])
      ensures bytes == if beat.TimedOut? then [] else chip.mem[from..from + Min(len, FIFO_DEPTH)]
    {
      var n := Min(len, FIFO_DEPTH);
      Push([g.readOp]);
      var offset := OffsetBytes(g.width, from);
      Push(offset);
      assert fifo == [g.readOp] + Encode(g.width, from) by {
        QueueTwice([], [g.readOp], offset);
      }
      ReadInRange(g, chip, from, n);
      bytes := if beat.TimedOut? then [] else ReadBack(g, chip, fifo, n);
      fifo := fifo[Sent(beat, |fifo|)..];
    }

    /**
     * spi_nor_write. The chunks tile the request inside pages; the return code and `retlen` are
     * decided by the last chunk; the memory is the plain write of a prefix of the buffer, all of
     * it on success.
     */
    method Write(to: nat, buf: seq<byte>, fate: nat -> Fate)
      returns (ret: int, retlen: nat, chunks: seq<Chunk>, ghost reached: nat)
      requires Ok() && fifo == [] && to + |buf| <= g.size
      requires forall n :: fate(n).ready <= 0
      modifies this`fifo, this`chip
      ensures Ok() && (ret == 0 ==> fifo == [])
      ensures WriteReport(g, to, |buf|, fate, ret, retlen, chunks) && Longest(chunks, to + |buf|, g.pageSize)
      ensures retlen <= reached <= |buf| && chip.mem == Landed(old(chip.mem), to, buf, reached)
      ensures ret == 0 ==> retlen == |buf| && chip.mem == FlatProgram(old(chip.mem), to, buf)
    {
      ret, retlen, chunks, reached := 0, 0, [], 0;
      var i := 0;
      LandedEnds(chip.mem, to, buf);
      while i < |buf|
        invariant Ok() && fifo == [] && 0 <= i <= |buf|
        invariant ret == 0 && retlen == i == reached
        invariant Underway(g, to, |buf|, fate, chunks, i)
        invariant chip.mem == Landed(old(chip.mem), to, buf, i)
        decreases |buf| - i
      {
        var gained;
        ghost var landed;
        ret, gained, chunks, landed := WritePage(to, buf, i, fate, chunks, old(chip.mem));
        reached := i + landed;
        retlen := retlen + gained;
        i := i + gained;
        if ret != 0 {
          return;
        }
      }
      ReportWhole(g, to, |buf|, fate, chunks);
    }

    /** One round of spi_nor_write: the chunk up to the end of its page, and the ready-wait. */
    method WritePage(to: nat, buf: seq<byte>, i: nat, fate: nat -> Fate, chunks: seq<Chunk>, ghost mem: seq<byte>)
      returns (ret: int, gained: nat, chunks': seq<Chunk>, ghost landed: nat)
      requires Ok() && fifo == [] && i < |buf| && to + |buf| <= g.size && fate(|chunks|).ready <= 0
      requires chip.mem == Landed(mem, to, buf, i) && Underway(g, to, |buf|, fate, chunks, i)
      modifies this`fifo, this`chip
      ensures Ok() && (ret == 0 ==> fifo == [])
      ensures gained <= landed <= |buf| - i && chip.mem == Landed(mem, to, buf, i + landed)
      ensures ret == 0 ==> gained == landed > 0 && Underway(g, to, |buf|, fate, chunks', i + gained)
      ensures ret != 0 ==>
              WriteReport(g, to, |buf|, fate, ret, i + gained, chunks') && Longest(chunks', to + |buf|, g.pageSize)
    {
      var len := PageRemain(to + i, |buf| - i, g.pageSize);
      var f := fate(|chunks|);
      landed := Lands(g, len, f.command);
      var written := WriteChunk(to, buf, i, len, f.command, mem);
      chunks' := chunks + [Chunk(to + i, len)];
      ret, gained := f.ready, 0;
      if ret == 0 {
        gained := written;
        if written != len {
          ret := -EIO;
        }
      }
      ReportAt(g, to, |buf|, fate, chunks, Chunk(to + i, len));
    }

    /**
     * Erase a range, write inside it, read back: the buffer returns and the rest is untouched.
     * Erasing 4 GiB at once succeeds and erases nothing, so the write then only clears bits.
     */
    method EraseWriteVerify(at: nat, length: nat, to: nat, buf: seq<byte>,
                            fate: nat -> Fate, fate': nat -> Fate, beats: nat -> Beat)
      returns (ret: int, back: seq<byte>)
      requires Ok() && fifo == [] && at % g.eraseSize == 0 && at <= to && to + |buf| <= at + length <= g.size
      requires (forall n :: fate(n).ready <= 0) && (forall n :: fate'(n).ready <= 0)
      modifies this`fifo, this`chip
      ensures Ok() && (ret == 0 ==> fifo == [])
      ensures ret == 0 ==> back == chip.mem[to..to + |buf|]
      ensures ret == 0 && length == U32 ==> chip.mem == FlatProgram(old(chip.mem), to, buf)
      ensures ret == 0 && length < U32 ==>
        && back == buf
        && chip.mem[..at] == old(chip.mem)[..at] && chip.mem[at + length..] == old(chip.mem)[at + length..]
      ensures (length % g.eraseSize == 0 && g.pageSize <= Capacity(g) &&
              (forall n :: fate(n) == Fate(Answered, 0)) && (forall n :: fate'(n) == Fate(Answered, 0)) &&
               (forall n :: beats(n).Answered?)) ==> ret == 0
    {
      back := [];
      ghost var mem := chip.mem;
      ghost var erased, last;
      ret, erased, last := Erase(at, length, fate);
      if ret != 0 {
        return;
      }
      if length < U32 {
        EraseWriteRead(mem, at, length, to, buf);
      } else {
        assert FlatErase(mem, at, 0) == mem;
      }
      var retlen, chunks;
      ghost var reached;
      ret, retlen, chunks, reached := Write(to, buf, fate');
      if forall n :: fate'(n) == Fate(Answered, 0) {
        FaultFreeWriteIff(g, to, |buf|, fate', ret, retlen, chunks);
      }
      if ret != 0 {
        return;
      }
      ret, back := Read(to, |buf|, beats);
    }

    /** spi_nor_read */
    method Read(from: nat, len: nat, beats: nat -> Beat) returns (ret: int, buf: seq<byte>)
      requires Ok() && fifo == [] && from + len <= g.size
      modifies this`fifo
      ensures Ok() && (ret == 0 ==> fifo == [])
      ensures |buf| <= len && buf == chip.mem[from..from + |buf|]
      ensures ret == 0 <==> |buf| == len
      ensures ret == 0 || ret == -EIO
      ensures (forall n :: beats(n).Answered?) ==> ret == 0
    {
      ret, buf := 0, [];
      var n := 0;
      while |buf| < len
        invariant Ok() && fifo == [] && |buf| <= len && buf == chip.mem[from..from + |buf|]
        decreases len - |buf|
      {
        var bytes := ControllerRead(from + |buf|, len - |buf|, beats(n));
        if bytes == [] {
          ret := -EIO;
          return;
        }
        buf := buf + bytes;
        n := n + 1;
      }
    }

    /**
     * spi_nor_erase: whole sectors from the one that holds `at`, or the whole chip at once. The
     * length is kept in 32 bits. `last` numbers the last command sent: it decides a failure, and
     * every command before it was answered and ready.
     */
    method Erase(at: nat, length: nat, fate: nat -> Fate) returns (ret: int, ghost erased: nat, ghost last: nat)
      requires Ok() && fifo == [] && at + length <= g.size
      requires forall n :: fate(n).ready <= 0
      modifies this`fifo, this`chip
      ensures Ok() && (ret == 0 ==> fifo == [])
      ensures length % g.eraseSize != 0 ==> ret == -EINVAL && erased == 0
      ensures erased <= length && chip.mem == FlatErase(old(chip.mem), BlockStart(at, g.eraseSize), erased)
      ensures ret == 0 ==> erased == if length == U32 then 0 else length
      ensures length % g.eraseSize == 0 && (forall n :: fate(n) == Fate(Answered, 0)) ==> ret == 0
      ensures length % g.eraseSize == 0 && length % U32 == g.size && !g.noChipErase ==>
              ret == if fate(0).command.TimedOut? then -EIO else fate(0).ready
      ensures length % g.eraseSize == 0 && !(length % U32 == g.size && !g.noChipErase) ==>
              && (forall n :: 0 <= n < last ==> fate(n) == Fate(Answered, 0))
              && (ret == 0 ==> last * g.eraseSize == length % U32)
              && (ret != 0 ==>
                  && ret == (if fate(last).command.TimedOut? then -ETIMEDOUT else fate(last).ready)
                  && last * g.eraseSize <= erased <= (last + 1) * g.eraseSize <= length)
    {
      erased, last := 0, 0;
      SizeBelow(g);
      assert FlatErase(chip.mem, BlockStart(at, g.eraseSize), 0) == chip.mem;
      if length % g.eraseSize != 0 {
        return -EINVAL, 0, 0;
      }
      var addr, len, n := at, length % U32, 0;
      ghost var total := len;
      assert length < U32 ==> len == length;
      if len == g.size && !g.noChipErase {
        ret, erased := EraseWholeChip(at, fate(0));
        return;
      }
      assert len == 0 ==> len % g.eraseSize == 0;
      while len > 0
        invariant Ok() && fifo == [] && 0 <= len <= total <= length && n == last
        invariant addr == at + (total - len) && erased == total - len == last * g.eraseSize
        invariant len % g.eraseSize == 0
        invariant forall k :: 0 <= k < last ==> fate(k) == Fate(Answered, 0)
        invariant BlockStart(addr, g.eraseSize) == BlockStart(at, g.eraseSize) + erased
        invariant chip.mem == FlatErase(old(chip.mem), BlockStart(at, g.eraseSize), erased)
        decreases len
      {
        LastBlock(len, g.eraseSize);
        ModStep(addr, g.eraseSize);
        NextMultiple(last, g.eraseSize);
        FlatEraseJoin(old(chip.mem), BlockStart(at, g.eraseSize), erased, g.eraseSize);
        ghost var done;
        ret, done := EraseOneSector(addr, fate(n).command);
        erased := erased + if done then g.eraseSize else 0;
        if ret != 0 {
          return;
        }
        addr := addr + g.eraseSize;
        len := len - g.eraseSize;
        if fate(n).ready != 0 {
          return fate(n).ready, erased, last;
        }
        n := n + 1;
        last := n;
      }
      Latch(OP_WRDI);
      return 0, erased, last;
    }

    /** write_enable and spi_nor_erase_sector; a command that is cut short erases nothing. */
    method EraseOneSector(addr: nat, beat: Beat) returns (ret: int, ghost done: bool)
      requires Ok() && fifo == [] && addr < g.size
      modifies this`fifo, this`chip
      ensures Ok() && (ret == 0 ==> fifo == [])
      ensures ret == (if beat.Answered? then 0 else -ETIMEDOUT) && (ret == 0 ==> done)
      ensures chip.mem == if done then FlatErase(old(chip.mem), BlockStart(addr, g.eraseSize), g.eraseSize)
                          else old(chip.mem)
    {
      Latch(OP_WREN);
      EraseSector(g, chip, addr);
      var buf := EraseAddress(g.width, addr);
      done := Sent(beat, 1 + g.width) == 1 + g.width;
      ghost var tx := [g.eraseOp] + buf[..];
      assert done ==> tx[..1 + g.width] == tx;
      ret := WriteReg(g.eraseOp, buf[..], beat);
    }

    method EraseWholeChip(at: nat, fate: Fate) returns (ret: int, ghost erased: nat)
      requires Ok() && fifo == [] && at == 0 && fate.ready <= 0
      modifies this`fifo, this`chip
      ensures Ok() && (ret == 0 ==> fifo == [])
      ensures erased == (if Sent(fate.command, 1) == 0 then 0 else g.size)
      ensures chip.mem == FlatErase(old(chip.mem), 0, erased)
      ensures ret == if fate.command.TimedOut? then -EIO else fate.ready
    {
      assert FlatErase(chip.mem, 0, 0) == chip.mem;
      erased := if Sent(fate.command, 1) == 0 then 0 else g.size;
      Latch(OP_WREN);
      assert Sent(fate.command, 1) == 1 ==> ([OP_CHIP_ERASE] + [])[..1] == [OP_CHIP_ERASE];
      ret := WriteReg(OP_CHIP_ERASE, [], fate.command);
      if ret != 0 {
        return -EIO, erased;
      }
      if fate.ready != 0 {
        return fate.ready, erased;
      }
      Latch(OP_WRDI);
      return 0, erased;
    }
  }

  /** A chip has at most 2^32 bytes. */
  lemma SizeBelow(g: Geometry)
    requires Valid(g)
    ensures g.size <= U32
  {
    Pow256Steps();
  }

  lemma Pow256Steps()
    ensures Pow256(1) <= U32 && Pow256(2) <= U32 && Pow256(3) <= U32 && Pow256(4) == U32
  {
    assert Pow256(1) == 256 && Pow256(2) == 0x1_0000;
    assert Pow256(3) == 0x100_0000;
  }

  lemma NextMultiple(n: nat, m: nat)
    ensures (n + 1) * m == n * m + m
  {
  }

  lemma LastBlock(len: nat, m: nat)
    requires m > 0 && len > 0 && len % m == 0
    ensures len >= m && (len - m) % m == 0
  {
    if len < m {
      DivModUnique(len, m, 0, len);
    } else {
      ModStep(len - m, m);
    }
  }
}
