/**
 * Word programming of SST chips: drivers/mtd/spi-nor/spi-nor.c lines 1244-1321.
 */
module AaiWrite {
  import opened Common
  import opened NorFlash

  datatype Program = ByteProgram | WordProgram

  /** One program command as issued to the controller. */
  datatype Command = Command(kind: Program, at: nat, data: seq<byte>)

  /**
   * What happens to one command: an error the controller returns (0 for none), how its FIFO poll
   * ends, and the ready-wait. The ASMI controller returns no error; a timeout counts as 0 bytes.
   */
  datatype Answer = Answer(error: int, command: Beat, ready: int)

  /** How many of the bytes from index `i` on the next command carries: a word if one fits. */
  function Next(to: nat, buf: seq<byte>, i: nat): (n: nat)
    requires i < |buf|
    ensures 1 <= n <= 2 && i + n <= |buf|
  {
    if (to + i) % 2 == 1 || i + 1 == |buf| then 1 else 2
  }

  function CommandAt(to: nat, buf: seq<byte>, i: nat): Command
    requires i < |buf|
  {
    var n := Next(to, buf, i);
    Command(if n == 1 then ByteProgram else WordProgram, to + i, buf[i..i + n])
  }

  /**
   * The commands that write `buf` at `to` from index `i` on: words at even addresses, single bytes
   * only where a word does not fit.
   */
  function Plan(to: nat, buf: seq<byte>, i: nat): seq<Command>
    decreases if i < |buf| then |buf| - i else 0
  {
    if i >= |buf| then [] else [CommandAt(to, buf, i)] + Plan(to, buf, i + Next(to, buf, i))
  }

  /** The memory after a sequence of commands, each an AND into its slice. */
  function Apply(mem: seq<byte>, cmds: seq<Command>): seq<byte>
    decreases |cmds|
  {
    if cmds == [] then mem else Apply(FlatProgram(mem, cmds[0].at, cmds[0].data), cmds[1..])
  }

  lemma ApplyFirst(mem: seq<byte>, to: nat, buf: seq<byte>, i: nat)
    requires i < |buf|
    ensures var n := Next(to, buf, i);
            Apply(mem, Plan(to, buf, i)) == Apply(FlatProgram(mem, to + i, buf[i..i + n]), Plan(to, buf, i + n))
  {
    var c, rest := CommandAt(to, buf, i), Plan(to, buf, i + Next(to, buf, i));
    assert ([c] + rest)[1..] == rest;
  }

  /** The plan is one plain write of the rest of the buffer. */
  lemma {:induction false} PlanIsFlatProgram(mem: seq<byte>, to: nat, buf: seq<byte>, i: nat)
    requires i <= |buf|
    ensures Apply(mem, Plan(to, buf, i)) == FlatProgram(mem, to + i, buf[i..])
    decreases |buf| - i
  {
    if i == |buf| {
      assert FlatProgram(mem, to + i, []) == mem;
    } else {
      var n := Next(to, buf, i);
      var first := buf[i..i + n];
      ApplyFirst(mem, to, buf, i);
      PlanIsFlatProgram(FlatProgram(mem, to + i, first), to, buf, i + n);
      FlatProgramJoin(mem, to + i, first, buf[i + n..]);
      assert first + buf[i + n..] == buf[i..];
    }
  }

  /**
   * Every command carries the buffer bytes that belong at its address; words go to even addresses;
   * a single byte is the first command at an odd start, or the last byte.
   */
  lemma {:induction false} PlanShape(to: nat, buf: seq<byte>, i: nat, k: nat)
    requires k < |Plan(to, buf, i)|
    ensures var c := Plan(to, buf, i)[k];
            && to + i <= c.at && c.at + |c.data| <= to + |buf|
            && c.data == buf[c.at - to..c.at - to + |c.data|]
            && (c.kind.WordProgram? ==> c.at % 2 == 0 && |c.data| == 2)
            && (c.kind.ByteProgram? ==> |c.data| == 1 && ((k == 0 && (to + i) % 2 == 1) || c.at + 1 == to + |buf|))
    decreases k
  {
    if k > 0 {
      var n := Next(to, buf, i);
      assert Plan(to, buf, i)[k] == Plan(to, buf, i + n)[k - 1];
      PlanShape(to, buf, i + n, k - 1);
    }
  }

  /** The log so far and the plan for the rest are the whole plan. */
  ghost predicate OnPlan(to: nat, buf: seq<byte>, log: seq<Command>, i: nat)
  {
    log + Plan(to, buf, i) == Plan(to, buf, 0)
  }

  lemma PlanStep(to: nat, buf: seq<byte>, log: seq<Command>, i: nat)
    requires i < |buf| && OnPlan(to, buf, log, i)
    ensures OnPlan(to, buf, log + [CommandAt(to, buf, i)], i + Next(to, buf, i))
    ensures log <= Plan(to, buf, 0) && log + [CommandAt(to, buf, i)] <= Plan(to, buf, 0)
  {
    var c, rest := CommandAt(to, buf, i), Plan(to, buf, i + Next(to, buf, i));
    assert log + ([c] + rest) == (log + [c]) + rest;
  }

  lemma PlanDone(to: nat, buf: seq<byte>, log: seq<Command>, i: nat)
    requires OnPlan(to, buf, log, i)
    ensures log <= Plan(to, buf, 0)
    ensures i >= |buf| ==> log == Plan(to, buf, 0)
  {
  }

  /** A command that was accepted and followed by a ready chip, and the code of one that was not. */
  predicate Fine(a: Answer)
  {
    a.error >= 0 && a.ready == 0
  }

  function CodeOf(a: Answer): int
  {
    if a.error < 0 then a.error else a.ready
  }

  /** The first `n` commands went well except possibly the last, whose code is the result. */
  ghost predicate Ends(answer: nat -> Answer, n: nat, ret: int)
  {
    && (forall k :: 0 <= k < n - 1 ==> Fine(answer(k)))
    && (if n == 0 || Fine(answer(n - 1)) then ret == 0 else ret == CodeOf(answer(n - 1)))
  }

  // ----- what reaches the chip

  /** The bytes of a command on the wire. */
  function Wire(g: Geometry, c: Command): seq<byte>
  {
    ProgramBytes(g, c.at, c.data)
  }

  /** Every command went out whole. */
  ghost predicate AllWhole(g: Geometry, log: seq<Command>, answer: nat -> Answer)
  {
    forall k :: 0 <= k < |log| ==> Sent(answer(k).command, |Wire(g, log[k])|) == |Wire(g, log[k])|
  }

  /** The chip got the commands as they were issued, one by one. */
  ghost predicate GotPlan(g: Geometry, log: seq<Command>, wire: seq<seq<byte>>)
  {
    |wire| == |log| && forall k :: 0 <= k < |log| ==> wire[k] == Wire(g, log[k])
  }

  lemma {:induction false} ApplySnoc(mem: seq<byte>, cmds: seq<Command>, c: Command)
    ensures Apply(mem, cmds + [c]) == FlatProgram(Apply(mem, cmds), c.at, c.data)
    decreases |cmds|
  {
    if cmds == [] {
      assert [] + [c] == [c] && [c][1..] == [];
    } else {
      assert (cmds + [c])[1..] == cmds[1..] + [c];
      ApplySnoc(FlatProgram(mem, cmds[0].at, cmds[0].data), cmds[1..], c);
    }
  }

  lemma WordInPage(at: nat, len: nat, pageSize: nat)
    requires pageSize > 0 && pageSize % 2 == 0 && (len == 1 || (len == 2 && at % 2 == 0))
    ensures InPage(at, len, pageSize)
  {
    assert at == (at / pageSize) * pageSize + at % pageSize;
    if len == 2 {
      assert pageSize == 2 * (pageSize / 2);
      assert at % pageSize == 2 * (at / 2 - (at / pageSize) * (pageSize / 2));
    }
  }

  /** Every command of a write inside the chip fits it, the FIFO and a page. */
  predicate Fitting(g: Geometry, c: Command)
  {
    && 1 <= |c.data| <= 2 && c.at + |c.data| <= g.size && (|c.data| == 2 ==> c.at % 2 == 0)
  }

  /**
   * The state of a write: as long as every command went out whole, the chip got the commands, its
   * memory holds them and the FIFO is empty; a command that did not is missing on the wire; if no
   * command went out at all, the memory is untouched.
   */
  ghost predicate Progress(g: Geometry, mem: seq<byte>, mem': seq<byte>, fifo: seq<byte>,
                           log: seq<Command>, wire: seq<seq<byte>>, answer: nat -> Answer)
  {
    && |wire| == |log|
    && (AllWhole(g, log, answer) <==> GotPlan(g, log, wire))
    && (AllWhole(g, log, answer) ==> mem' == Apply(mem, log) && fifo == [])
    && ((forall n :: answer(n).command == TimedOut(0)) ==> mem' == mem)
  }

  lemma ProgressStep(g: Geometry, mem: seq<byte>, before: Chip, after: Chip, fifo: seq<byte>, fifo': seq<byte>,
                     log: seq<Command>, c: Command, wire: seq<seq<byte>>, answer: nat -> Answer)
    requires Valid(g) && g.pageSize % 2 == 0 && |before.mem| == g.size && before.wel && Fitting(g, c)
    requires Progress(g, mem, before.mem, fifo, log, wire, answer)
    requires var tx := Queue(fifo, Wire(g, c));
             var n := Sent(answer(|log|).command, |tx|);
             after == Execute(g, before, tx[..n]) && fifo' == tx[n..]
    ensures var tx := Queue(fifo, Wire(g, c));
            Progress(g, mem, after.mem, fifo', log + [c], wire + [tx[..Sent(answer(|log|).command, |tx|)]], answer)
  {
    var tx := Queue(fifo, Wire(g, c));
    var beat := answer(|log|).command;
    var out := tx[..Sent(beat, |tx|)];
    var log', wire' := log + [c], wire + [out];
    WordInPage(c.at, |c.data|, g.pageSize);
    ApplySnoc(mem, log, c);
    assert AllWhole(g, log', answer) <==> AllWhole(g, log, answer) && Sent(beat, |Wire(g, c)|) == |Wire(g, c)|;
    assert GotPlan(g, log', wire') <==> GotPlan(g, log, wire) && out == Wire(g, c);
    if AllWhole(g, log, answer) {
      assert tx == Wire(g, c);
      if Sent(beat, |tx|) == |tx| {
        assert out == tx;
        ProgramInPage(g, before, c.at, c.data);
      }
    }
  }

  lemma WordAt(to: nat, buf: seq<byte>, i: nat, half: nat)
    requires i + 1 < |buf| && to + i == 2 * half
    ensures CommandAt(to, buf, i) == Command(WordProgram, to + i, buf[i..i + 2])
  {
  }

  lemma ByteAt(to: nat, buf: seq<byte>, i: nat)
    requires i < |buf| && (i + 1 == |buf| || (i == 0 && to % 2 == 1))
    ensures CommandAt(to, buf, i) == Command(ByteProgram, to + i, buf[i..i + 1])
  {
  }

  /** A plan that went out whole is the plain write. */
  lemma PlanWritten(g: Geometry, mem: seq<byte>, mem': seq<byte>, fifo: seq<byte>, to: nat, buf: seq<byte>,
                    wire: seq<seq<byte>>, answer: nat -> Answer)
    requires Progress(g, mem, mem', fifo, Plan(to, buf, 0), wire, answer)
    ensures AllWhole(g, Plan(to, buf, 0), answer) ==> mem' == FlatProgram(mem, to, buf)
  {
    PlanIsFlatProgram(mem, to, buf, 0);
    assert buf[0..] == buf;
  }

  lemma PlanFits(g: Geometry, to: nat, buf: seq<byte>, i: nat)
    requires i < |buf| && to + |buf| <= g.size
    ensures Fitting(g, CommandAt(to, buf, i))
  {
  }

  /** Sends one command and waits until the chip is ready; the write-enable latch is taken to be set. */
  method Send(d: Driver, c: Command, ghost log: seq<Command>, a: Answer,
              ghost answer: nat -> Answer, ghost mem: seq<byte>, ghost wire: seq<seq<byte>>)
    returns (ret: int, ghost wire': seq<seq<byte>>)
    requires d.Ok() && d.g.pageSize % 2 == 0 && Fitting(d.g, c) && a == answer(|log|)
    requires Progress(d.g, mem, d.chip.mem, d.fifo, log, wire, answer)
    modifies d`chip, d`fifo
    ensures d.Ok() && Progress(d.g, mem, d.chip.mem, d.fifo, log + [c], wire', answer)
    ensures ret == CodeOf(a)
  {
    d.chip := d.chip.(wel := true);
    ghost var before, fifo := d.chip, d.fifo;
    var written := d.ControllerWrite(c.at, c.data, a.command);
    ghost var tx := Queue(fifo, Wire(d.g, c));
    assert c.data[..|c.data|] == c.data;
    wire' := wire + [tx[..Sent(a.command, |tx|)]];
    ProgressStep(d.g, mem, before, d.chip, fifo, d.fifo, log, c, wire, answer);
    ret := if a.error < 0 then a.error else a.ready;
  }

  /** Sends the command for the bytes from index `i` on. */
  method Issue(d: Driver, c: Command, to: nat, buf: seq<byte>, ghost i: nat, log: seq<Command>,
               answer: nat -> Answer, ghost mem: seq<byte>, ghost wire: seq<seq<byte>>)
    returns (ret: int, log': seq<Command>, ghost wire': seq<seq<byte>>)
    requires d.Ok() && d.g.pageSize % 2 == 0 && to + |buf| <= d.g.size
    requires i < |buf| && c == CommandAt(to, buf, i) && OnPlan(to, buf, log, i)
    requires Progress(d.g, mem, d.chip.mem, d.fifo, log, wire, answer) && Ends(answer, |log|, 0)
    modifies d`chip, d`fifo
    ensures d.Ok() && OnPlan(to, buf, log', i + Next(to, buf, i)) && Ends(answer, |log'|, ret)
    ensures Progress(d.g, mem, d.chip.mem, d.fifo, log', wire', answer)
  {
    PlanStep(to, buf, log, i);
    PlanFits(d.g, to, buf, i);
    log' := log + [c];
    ret, wire' := Send(d, c, log, answer(|log|), answer, mem, wire);
  }

  lemma EvenStart(to: nat)
    ensures to + to % 2 == 2 * ((to + to % 2) / 2)
  {
  }

  lemma WriteStart(g: Geometry, mem: seq<byte>, to: nat, buf: seq<byte>, answer: nat -> Answer)
    ensures OnPlan(to, buf, [], 0) && Progress(g, mem, mem, [], [], [], answer)
  {
  }

  /** The leading byte at an odd address. */
  method WriteFirst(d: Driver, to: nat, buf: seq<byte>, answer: nat -> Answer)
    returns (ret: int, actual: nat, log: seq<Command>, ghost wire: seq<seq<byte>>, ghost half: nat)
    requires d.Ok() && d.fifo == [] && d.g.pageSize % 2 == 0 && to + |buf| <= d.g.size && |buf| >= 1
    modifies d`chip, d`fifo
    ensures d.Ok() && OnPlan(to, buf, log, actual) && Ends(answer, |log|, ret)
    ensures Progress(d.g, old(d.chip.mem), d.chip.mem, d.fifo, log, wire, answer)
    ensures actual <= |buf| && to + actual == 2 * half
  {
    ret, log, wire := 0, [], [];
    WriteStart(d.g, d.chip.mem, to, buf, answer);
    actual := to % 2;
    half := (to + actual) / 2;
    EvenStart(to);
    if actual == 1 {
      ByteAt(to, buf, 0);
      ret, log, wire := Issue(d, Command(ByteProgram, to, buf[0..1]), to, buf, 0, log, answer, d.chip.mem, wire);
    }
  }

  /** The loop of sst_write: words as long as two bytes are left; `reach` is the end of the last command. */
  method WriteWords(d: Driver, to: nat, buf: seq<byte>, start: nat, ghost half: nat, log: seq<Command>,
                    answer: nat -> Answer, ghost mem: seq<byte>, ghost wire: seq<seq<byte>>)
    returns (ret: int, actual: nat, log': seq<Command>, ghost wire': seq<seq<byte>>, ghost reach: nat)
    requires d.Ok() && d.g.pageSize % 2 == 0 && to + |buf| <= d.g.size
    requires start <= |buf| && to + start == 2 * half && OnPlan(to, buf, log, start)
    requires Progress(d.g, mem, d.chip.mem, d.fifo, log, wire, answer) && Ends(answer, |log|, 0)
    modifies d`chip, d`fifo
    ensures d.Ok() && OnPlan(to, buf, log', reach) && Ends(answer, |log'|, ret)
    ensures Progress(d.g, mem, d.chip.mem, d.fifo, log', wire', answer)
    ensures ret == 0 ==> |buf| - 1 <= actual == reach <= |buf|
  {
    ret, actual, log', wire', reach := 0, start, log, wire, start;
    var addr := to + start;
    ghost var words := half;
    while actual < |buf| - 1
      invariant d.Ok() && ret == 0 && actual == reach <= |buf| && addr == to + actual == 2 * words
      invariant OnPlan(to, buf, log', reach) && Ends(answer, |log'|, 0)
      invariant Progress(d.g, mem, d.chip.mem, d.fifo, log', wire', answer)
      decreases |buf| - actual
    {
      var c := Command(WordProgram, addr, buf[actual..actual + 2]);
      WordAt(to, buf, actual, words);
      ret, log', wire' := Issue(d, c, to, buf, actual, log', answer, mem, wire');
      reach := actual + 2;
      if ret != 0 {
        return;
      }
      addr := addr + 2;
      actual := actual + 2;
      words := words + 1;
    }
  }

  /** The trailing byte, if there is one. */
  method WriteLast(d: Driver, to: nat, buf: seq<byte>, start: nat, log: seq<Command>,
                   answer: nat -> Answer, ghost mem: seq<byte>, ghost wire: seq<seq<byte>>)
    returns (ret: int, log': seq<Command>, ghost wire': seq<seq<byte>>)
    requires d.Ok() && d.g.pageSize % 2 == 0 && to + |buf| <= d.g.size
    requires |buf| - 1 <= start <= |buf| && OnPlan(to, buf, log, start)
    requires Progress(d.g, mem, d.chip.mem, d.fifo, log, wire, answer) && Ends(answer, |log|, 0)
    modifies d`chip, d`fifo
    ensures d.Ok() && OnPlan(to, buf, log', |buf|) && Ends(answer, |log'|, ret)
    ensures Progress(d.g, mem, d.chip.mem, d.fifo, log', wire', answer)
  {
    ret, log', wire' := 0, log, wire;
    if start != |buf| {
      var c := Command(ByteProgram, to + start, buf[start..start + 1]);
      ByteAt(to, buf, start);
      ret, log', wire' := Issue(d, c, to, buf, start, log', answer, mem, wire');
    }
  }

  /** What a finished write promises, from what its last part left. */
  lemma WriteEnds(g: Geometry, mem: seq<byte>, mem': seq<byte>, fifo: seq<byte>, to: nat, buf: seq<byte>,
                  log: seq<Command>, wire: seq<seq<byte>>, answer: nat -> Answer, reach: nat, ret: int)
    requires OnPlan(to, buf, log, reach) && Progress(g, mem, mem', fifo, log, wire, answer)
    requires Ends(answer, |log|, ret) && forall n :: answer(n).ready <= 0
    ensures log <= Plan(to, buf, 0) && ret <= 0
    ensures AllWhole(g, log, answer) <==> GotPlan(g, log, wire)
    ensures reach >= |buf| && AllWhole(g, log, answer) ==> mem' == FlatProgram(mem, to, buf)
    ensures reach >= |buf| ==> log == Plan(to, buf, 0)
    ensures (forall n :: Fine(answer(n))) ==> ret == 0
    ensures (forall n :: answer(n).command == TimedOut(0)) ==> mem' == mem
  {
    PlanDone(to, buf, log, reach);
    if reach >= |buf| {
      PlanWritten(g, mem, mem', fifo, to, buf, wire, answer);
    }
  }

  /**
   * sst_write. A successful call has issued exactly the plan; a failing one a prefix of it, and
   * returns the code of its last command or of the wait after the words. The chip got the plan
   * exactly when every command went out whole, and then its memory is the plain write. Timeouts are
   * not noticed: the call can succeed with nothing written at all. The caller never asks for an
   * empty write.
   */
  method SstWrite(d: Driver, to: nat, buf: seq<byte>, answer: nat -> Answer, lastWait: int)
    returns (ret: int, retlen: nat, log: seq<Command>, ghost wire: seq<seq<byte>>)
    requires d.Ok() && d.fifo == [] && d.g.pageSize % 2 == 0 && to + |buf| <= d.g.size
    requires |buf| >= 1
    requires lastWait <= 0 && forall n :: answer(n).ready <= 0
    modifies d`chip, d`fifo
    ensures d.Ok() && ret <= 0 && log <= Plan(to, buf, 0)
    ensures ret == 0 ==> log == Plan(to, buf, 0) && retlen == |buf|
    ensures Ends(answer, |log|, ret) || (Ends(answer, |log|, 0) && ret == lastWait)
    ensures ret == 0 ==> lastWait == 0
    ensures AllWhole(d.g, log, answer) <==> GotPlan(d.g, log, wire)
    ensures ret == 0 && AllWhole(d.g, log, answer) ==> d.chip.mem == FlatProgram(old(d.chip.mem), to, buf)
    ensures (lastWait == 0 && forall n :: answer(n).error >= 0 && answer(n).ready == 0) ==> ret == 0
    ensures (forall n :: answer(n).command == TimedOut(0)) ==> d.chip.mem == old(d.chip.mem)
  {
    ghost var mem, half, reach := d.chip.mem, 0, 0;
    ret, retlen, log, wire, half := WriteFirst(d, to, buf, answer);
    if ret != 0 {
      WriteEnds(d.g, mem, d.chip.mem, d.fifo, to, buf, log, wire, answer, retlen, ret);
      return;
    }
    ret, retlen, log, wire, reach := WriteWords(d, to, buf, retlen, half, log, answer, mem, wire);
    WriteEnds(d.g, mem, d.chip.mem, d.fifo, to, buf, log, wire, answer, reach, ret);
    if ret != 0 {
      return;
    }
    if lastWait != 0 {
      return lastWait, retlen, log, wire;
    }
    ret, log, wire := WriteLast(d, to, buf, retlen, log, answer, mem, wire);
    WriteEnds(d.g, mem, d.chip.mem, d.fifo, to, buf, log, wire, answer, |buf|, ret);
    if ret == 0 {
      retlen := |buf|;
    }
  }
}
