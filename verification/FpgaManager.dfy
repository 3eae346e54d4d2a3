/**
 * Loading an image through the FPGA manager, from a contiguous buffer or from a scatter list:
 * drivers/fpga/fpga-mgr.c lines 42-123, 142-199 and 215-270.
 */
module FpgaManager {
  import opened Common
  import opened Arith

  datatype State =
    | Unknown
    | WriteInit | WriteInitErr
    | Write | WriteErr
    | WriteComplete | WriteCompleteErr
    | Operating

  /** A call to the low-level driver. `DataSg` is write_sg, which sees the fragments. */
  datatype Call = Init(header: seq<byte>) | Data(bytes: seq<byte>) | DataSg(frags: seq<seq<byte>>) | Complete

  /**
   * The low-level driver: `headerSize` is initial_header_size, `takesSg` tells which of `write` and
   * `write_sg` it has, and `answer` is what it returns for the last of the calls made so far.
   */
  datatype Driver = Driver(headerSize: nat, takesSg: bool, answer: seq<Call> -> int)

  // ----- what a load means

  /** The bytes write_init gets to see. */
  function Header(image: seq<byte>, headerSize: nat): seq<byte>
  {
    image[..Min(headerSize, |image|)]
  }

  function BytesOf(c: Call): seq<byte>
  {
    match c
    case Data(bytes) => bytes
    case DataSg(frags) => Flatten(frags)
    case _ => []
  }

  /** All bytes handed over for writing in a sequence of calls. */
  function Written(calls: seq<Call>): seq<byte>
  {
    if calls == [] then [] else BytesOf(calls[0]) + Written(calls[1..])
  }

  function Datas(frags: seq<seq<byte>>): (r: seq<Call>)
    ensures |r| == |frags|
  {
    seq(|frags|, i requires 0 <= i < |frags| => Data(frags[i]))
  }

  function Writes(d: Driver, frags: seq<seq<byte>>): seq<Call>
  {
    if d.takesSg then [DataSg(frags)] else Datas(frags)
  }

  /** The calls of a load that meets no error. */
  function Script(d: Driver, frags: seq<seq<byte>>): seq<Call>
  {
    [Init(Header(Flatten(frags), d.headerSize))] + Writes(d, frags) + [Complete]
  }

  /** How many calls of a script are made: up to the first one that fails, from call `k` on. */
  function Made(d: Driver, script: seq<Call>, k: nat): (n: nat)
    requires k < |script|
    ensures k < n <= |script|
    decreases |script| - k
  {
    if d.answer(script[..k + 1]) != 0 || k + 1 == |script| then k + 1 else Made(d, script, k + 1)
  }

  /** The state after a call that is the last one of a load. */
  function StateAfter(c: Call, ret: int): State
  {
    match c
    case Init(_) => if ret == 0 then WriteInit else WriteInitErr
    case Complete => if ret == 0 then Operating else WriteCompleteErr
    case _ => if ret == 0 then Write else WriteErr
  }

  datatype Load = Load(ret: int, state: State, calls: seq<Call>)

  /** A load: the script up to its first failing call. */
  function LoadOf(d: Driver, frags: seq<seq<byte>>): Load
  {
    var script := Script(d, frags);
    var calls := script[..Made(d, script, 0)];
    Load(d.answer(calls), StateAfter(calls[|calls| - 1], d.answer(calls)), calls)
  }

  /** Where fpga_mgr_buf_load_sg finds the header: it needs memory only if no fragment holds it whole. */
  predicate HeaderAtHand(d: Driver, frags: seq<seq<byte>>, memory: bool)
  {
    memory || d.headerSize == 0 || (frags != [] && |frags[0]| >= d.headerSize)
  }

  /** fpga_mgr_buf_load_sg, on a manager that was in state `before` after the calls `past`. */
  function SgLoad(d: Driver, frags: seq<seq<byte>>, memory: bool, before: State, past: seq<Call>): Load
  {
    if HeaderAtHand(d, frags, memory) then LoadOf(d, frags) else Load(-ENOMEM, before, past)
  }

  // ----- what holds of every driver

  lemma {:induction false} MadeMeans(d: Driver, script: seq<Call>, k: nat)
    requires k < |script|
    ensures var n := Made(d, script, k);
            && (forall i :: k < i < n ==> d.answer(script[..i]) == 0)
            && (d.answer(script[..n]) == 0 ==> n == |script|)
    decreases |script| - k
  {
    if !(d.answer(script[..k + 1]) != 0 || k + 1 == |script|) {
      MadeMeans(d, script, k + 1);
    }
  }

  lemma {:induction false} MadeIs(d: Driver, script: seq<Call>, k: nat, n: nat)
    requires k < n <= |script| && (forall i :: k < i < n ==> d.answer(script[..i]) == 0)
    requires n == |script| || d.answer(script[..n]) != 0
    ensures Made(d, script, k) == n
    decreases n - k
  {
    if k + 1 < n {
      MadeIs(d, script, k + 1, n);
    }
  }

  lemma {:induction false} WrittenAppend(a: seq<Call>, b: seq<Call>)
    ensures Written(a + b) == Written(a) + Written(b)
    decreases |a|
  {
    if a == [] {
      assert a + b == b;
    } else {
      assert (a + b)[1..] == a[1..] + b;
      WrittenAppend(a[1..], b);
      assert BytesOf(a[0]) + (Written(a[1..]) + Written(b)) == BytesOf(a[0]) + Written(a[1..]) + Written(b);
    }
  }

  lemma WrittenOne(c: Call)
    ensures Written([c]) == BytesOf(c)
  {
    assert [c][1..] == [];
    assert Written([c]) == BytesOf(c) + [];
  }

  lemma {:induction false} WrittenDatas(frags: seq<seq<byte>>)
    ensures Written(Datas(frags)) == Flatten(frags)
    decreases |frags|
  {
    if frags != [] {
      assert Datas(frags)[1..] == Datas(frags[1..]);
      WrittenDatas(frags[1..]);
    }
  }

  /** Before its completion a script hands over exactly the image. */
  lemma WrittenScript(d: Driver, frags: seq<seq<byte>>)
    ensures Written(Script(d, frags)) == Flatten(frags)
    ensures Written(Script(d, frags)[..|Script(d, frags)| - 1]) == Flatten(frags)
  {
    var init, writes := [Init(Header(Flatten(frags), d.headerSize))], Writes(d, frags);
    WrittenDatas(frags);
    WrittenOne(DataSg(frags));
    WrittenOne(init[0]);
    WrittenOne(Complete);
    WrittenAppend(init, writes);
    WrittenAppend(init + writes, [Complete]);
    assert Script(d, frags)[..|Script(d, frags)| - 1] == init + writes;
    assert Flatten(frags) + [] == Flatten(frags);
  }

  lemma WrittenPart(calls: seq<Call>, n: nat)
    requires n <= |calls|
    ensures Written(calls[..n]) <= Written(calls)
  {
    WrittenAppend(calls[..n], calls[n..]);
    assert calls[..n] + calls[n..] == calls;
  }

  /** A script starts with write_init, ends with write_complete, and only writes in between. */
  lemma ScriptShape(d: Driver, frags: seq<seq<byte>>)
    ensures var script := Script(d, frags);
            && |script| >= 2 && script[0] == Init(Header(Flatten(frags), d.headerSize))
            && script[|script| - 1] == Complete
            && forall i :: 0 < i < |script| - 1 ==> script[i].Data? || script[i].DataSg?
  {
  }

  /** The calls of a load: a part of the script, all answered with 0 but possibly the last. */
  lemma LoadCalls(d: Driver, frags: seq<seq<byte>>)
    ensures var l, script := LoadOf(d, frags), Script(d, frags);
            var n := |l.calls|;
            && 0 < n <= |script| && l.calls == script[..n]
            && l.ret == d.answer(l.calls) && (forall i :: 0 < i < n ==> d.answer(l.calls[..i]) == 0)
            && (l.ret == 0 ==> n == |script|) && l.state == StateAfter(l.calls[n - 1], l.ret)
  {
    var script := Script(d, frags);
    var n := Made(d, script, 0);
    MadeMeans(d, script, 0);
    forall i | 0 < i < n ensures d.answer(script[..n][..i]) == 0 {
      assert script[..n][..i] == script[..i];
    }
  }

  /**
   * Every driver, every fragmentation: write_init sees the header of the image first, the bytes
   * handed over are a prefix of the image, every call but the last was answered with 0 and the last
   * with the result, completion comes after the whole image, and OPERATING means success. Every
   * failing stage has its state, and each fragment is handed over on its own or all at once.
   */
  lemma LoadMeans(d: Driver, frags: seq<seq<byte>>)
    ensures var l, image := LoadOf(d, frags), Flatten(frags);
            var n := |l.calls|;
            && n > 0 && l.calls[0] == Init(Header(image, d.headerSize))
            && l.ret == d.answer(l.calls) && (forall i :: 0 < i < n ==> d.answer(l.calls[..i]) == 0)
            && Written(l.calls) <= image
            && (l.calls[n - 1] == Complete ==> Written(l.calls) == image)
            && (l.ret == 0 ==> l.calls[n - 1] == Complete)
            && (l.ret == 0 <==> l.state == Operating)
            && (l.ret != 0 ==>
                l.state == if n == 1 then WriteInitErr
                           else if l.calls[n - 1] == Complete then WriteCompleteErr else WriteErr)
            && (d.takesSg ==> n <= 3 && (n > 1 ==> l.calls[1] == DataSg(frags)))
            && (!d.takesSg ==>
                n <= |frags| + 2 && forall i :: 0 < i < n && i <= |frags| ==> l.calls[i] == Data(frags[i - 1]))
  {
    var l, script := LoadOf(d, frags), Script(d, frags);
    LoadCalls(d, frags);
    ScriptShape(d, frags);
    WrittenScript(d, frags);
    WrittenPart(script, |l.calls|);
    assert script[..|script|] == script;
  }

  /** A refused write_init ends every load of the image in the same way. */
  lemma InitDecides(d: Driver, frags: seq<seq<byte>>)
    ensures var init := [Init(Header(Flatten(frags), d.headerSize))];
            && (d.answer(init) != 0 ==> LoadOf(d, frags) == Load(d.answer(init), WriteInitErr, init))
            && (d.answer(init) == 0 ==> LoadOf(d, frags).state != WriteInitErr)
  {
    ScriptShape(d, frags);
    LoadCalls(d, frags);
    assert Script(d, frags)[..1] == [Init(Header(Flatten(frags), d.headerSize))];
  }

  /**
   * Two loads of one image, however fragmented, show write_init the same header; the bytes one has
   * handed over are a prefix of the other's, and both are the image if both succeed.
   */
  lemma SameBytes(d: Driver, a: seq<seq<byte>>, b: seq<seq<byte>>)
    requires Flatten(a) == Flatten(b)
    ensures var l, m := LoadOf(d, a), LoadOf(d, b);
            && l.calls != [] && m.calls != [] && l.calls[0] == m.calls[0]
            && (Written(l.calls) <= Written(m.calls) || Written(m.calls) <= Written(l.calls))
            && (l.ret == 0 && m.ret == 0 ==> Written(l.calls) == Written(m.calls) == Flatten(a))
            && (l.state == WriteInitErr ==> l == m)
  {
    LoadMeans(d, a);
    LoadMeans(d, b);
    InitDecides(d, a);
    InitDecides(d, b);
    BothPrefixes(Written(LoadOf(d, a).calls), Written(LoadOf(d, b).calls), Flatten(a));
  }

  lemma BothPrefixes(x: seq<byte>, y: seq<byte>, whole: seq<byte>)
    requires x <= whole && y <= whole
    ensures x <= y || y <= x
  {
    assert x == whole[..|x|] && y == whole[..|y|];
  }

  /** After a scattered load the state is OPERATING exactly on success, or if it was and no memory was left. */
  lemma OperatingIff(d: Driver, frags: seq<seq<byte>>, memory: bool, before: State, past: seq<Call>)
    ensures var l := SgLoad(d, frags, memory, before, past);
            l.state == Operating <==> l.ret == 0 || (before == Operating && !HeaderAtHand(d, frags, memory))
  {
    LoadMeans(d, frags);
  }

  /** A failed load can leave the state at OPERATING: a good load, then one without memory for the header. */
  lemma OperatingOutlives()
    ensures var d := Driver(2, false, (calls: seq<Call>) => 0);
            var first := SgLoad(d, [[1, 2]], true, Unknown, []);
            var second := SgLoad(d, [[1], [2]], false, first.state, first.calls);
            first.ret == 0 && second.ret == -ENOMEM && second.state == Operating
  {
    var d := Driver(2, false, (calls: seq<Call>) => 0);
    OperatingIff(d, [[1, 2]], true, Unknown, []);
    MadeMeans(d, Script(d, [[1, 2]]), 0);
  }

  // ----- when fragmentation does not matter

  /** The calls of a load of `image` that has handed over the chunks `cs`. */
  function After(d: Driver, image: seq<byte>, cs: seq<seq<byte>>): seq<Call>
  {
    [Init(Header(image, d.headerSize))] + Datas(cs)
  }

  predicate Accepted(d: Driver, calls: seq<Call>)
  {
    forall i :: 0 < i <= |calls| ==> d.answer(calls[..i]) == 0
  }

  predicate SameResult(a: Load, b: Load)
  {
    a.ret == b.ret && a.state == b.state
  }

  /** A chunk is refused only with the error that the whole image in one chunk gets. */
  ghost predicate RefusesAlike(d: Driver, image: seq<byte>)
  {
    forall cs, f ::
      Flatten(cs + [f]) <= image && Accepted(d, After(d, image, cs)) && d.answer(After(d, image, cs + [f])) != 0 ==>
      d.answer(After(d, image, cs + [f])) == d.answer(After(d, image, [image]))
  }

  /** What is accepted in chunks is accepted in one chunk, and completion does not tell them apart. */
  ghost predicate AcceptsAlike(d: Driver, image: seq<byte>)
  {
    forall cs :: Flatten(cs) == image && Accepted(d, After(d, image, cs)) ==>
      && d.answer(After(d, image, [image])) == 0
      && d.answer(After(d, image, cs) + [Complete]) == d.answer(After(d, image, [image]) + [Complete])
  }

  lemma FlattenOne(f: seq<byte>)
    ensures Flatten([f]) == f
  {
    FlattenSnoc([], f);
    assert [] + [f] == [f];
  }

  /** Where a load ends that gets past the chunks `cs`. */
  lemma LoadPast(d: Driver, cs: seq<seq<byte>>, rest: seq<seq<byte>>)
    requires !d.takesSg && Accepted(d, After(d, Flatten(cs + rest), cs))
    ensures var image, l := Flatten(cs + rest), LoadOf(d, cs + rest);
            && (rest == [] ==> l == Load(d.answer(After(d, image, cs) + [Complete]),
                                         StateAfter(Complete, d.answer(After(d, image, cs) + [Complete])),
                                         After(d, image, cs) + [Complete]))
            && (rest != [] && d.answer(After(d, image, cs + [rest[0]])) != 0 ==>
                l == Load(d.answer(After(d, image, cs + [rest[0]])), WriteErr, After(d, image, cs + [rest[0]])))
  {
    var image, script, n := Flatten(cs + rest), Script(d, cs + rest), |cs| + 1;
    var past := After(d, image, cs);
    assert script[..n] == past;
    forall i | 0 < i <= n ensures d.answer(script[..i]) == 0 {
      assert script[..i] == past[..i];
    }
    if rest == [] {
      assert script == past + [Complete];
      MadeIs(d, script, 0, n + 1);
      assert script[..n + 1] == script;
    } else if d.answer(After(d, image, cs + [rest[0]])) != 0 {
      assert script[..n + 1] == After(d, image, cs + [rest[0]]);
      MadeIs(d, script, 0, n + 1);
    }
  }

  /** The chunks a load hands over and is not refused. */
  lemma FirstRefusal(d: Driver, frags: seq<seq<byte>>) returns (k: nat)
    requires !d.takesSg && d.answer([Init(Header(Flatten(frags), d.headerSize))]) == 0
    ensures k <= |frags| && Accepted(d, After(d, Flatten(frags), frags[..k]))
    ensures k < |frags| ==> d.answer(After(d, Flatten(frags), frags[..k] + [frags[k]])) != 0
  {
    var image := Flatten(frags);
    k := 0;
    assert After(d, image, frags[..0]) == [Init(Header(image, d.headerSize))];
    assert [Init(Header(image, d.headerSize))][..1] == [Init(Header(image, d.headerSize))];
    while k < |frags| && d.answer(After(d, image, frags[..k] + [frags[k]])) == 0
      invariant k <= |frags| && Accepted(d, After(d, image, frags[..k]))
    {
      var now := After(d, image, frags[..k]);
      var next := After(d, image, frags[..k + 1]);
      assert frags[..k] + [frags[k]] == frags[..k + 1];
      forall i | 0 < i <= |next| ensures d.answer(next[..i]) == 0 {
        if i <= |now| {
          assert next[..i] == now[..i];
        } else {
          assert next[..i] == next;
        }
      }
      k := k + 1;
    }
  }

  lemma ContiguousLoad(d: Driver, image: seq<byte>)
    requires !d.takesSg && d.answer([Init(Header(image, d.headerSize))]) == 0
    ensures var one, l := After(d, image, [image]), LoadOf(d, [image]);
            && (d.answer(one) != 0 ==> l == Load(d.answer(one), WriteErr, one))
            && (d.answer(one) == 0 ==>
                && l.ret == d.answer(one + [Complete])
                && l.state == StateAfter(Complete, d.answer(one + [Complete])))
  {
    FlattenOne(image);
    var k := FirstRefusal(d, [image]);
    if k == 0 {
      assert [image][..0] == [] && [] + [image] == [image];
      LoadPast(d, [], [image]);
    } else {
      assert [image][..1] == [image] && [image] + [] == [image];
      assert After(d, image, [image])[..2] == After(d, image, [image]);
      LoadPast(d, [image], []);
    }
  }

  /**
   * A driver cannot tell how an image is cut, for whatever fragmentation, exactly when it refuses
   * chunks as it refuses the whole image and accepts chunks as it accepts the whole image.
   */
  lemma FragmentationIrrelevantIff(d: Driver, image: seq<byte>)
    requires !d.takesSg
    ensures (forall frags :: Flatten(frags) == image ==> SameResult(LoadOf(d, frags), LoadOf(d, [image]))) <==>
            RefusesAlike(d, image) && AcceptsAlike(d, image)
  {
    if RefusesAlike(d, image) && AcceptsAlike(d, image) {
      forall frags | Flatten(frags) == image ensures SameResult(LoadOf(d, frags), LoadOf(d, [image])) {
        AlikeIsSame(d, image, frags);
      }
    }
    if forall frags :: Flatten(frags) == image ==> SameResult(LoadOf(d, frags), LoadOf(d, [image])) {
      forall cs, f |
        Flatten(cs + [f]) <= image && Accepted(d, After(d, image, cs)) && d.answer(After(d, image, cs + [f])) != 0
        ensures d.answer(After(d, image, cs + [f])) == d.answer(After(d, image, [image]))
      {
        RefusalShows(d, image, cs, f);
      }
      forall cs | Flatten(cs) == image && Accepted(d, After(d, image, cs))
        ensures d.answer(After(d, image, [image])) == 0 &&
                d.answer(After(d, image, cs) + [Complete]) == d.answer(After(d, image, [image]) + [Complete])
      {
        AcceptanceShows(d, image, cs);
      }
    }
  }

  lemma AcceptanceShows(d: Driver, image: seq<byte>, cs: seq<seq<byte>>)
    requires !d.takesSg && Flatten(cs) == image && Accepted(d, After(d, image, cs))
    requires SameResult(LoadOf(d, cs), LoadOf(d, [image]))
    ensures d.answer(After(d, image, [image])) == 0
    ensures d.answer(After(d, image, cs) + [Complete]) == d.answer(After(d, image, [image]) + [Complete])
  {
    AcceptedInit(d, image, cs);
    ContiguousLoad(d, image);
    assert cs + [] == cs;
    LoadPast(d, cs, []);
  }

  lemma AcceptedInit(d: Driver, image: seq<byte>, cs: seq<seq<byte>>)
    requires Accepted(d, After(d, image, cs))
    ensures d.answer([Init(Header(image, d.headerSize))]) == 0
  {
    assert After(d, image, cs)[..1] == [Init(Header(image, d.headerSize))];
  }

  lemma AlikeIsSame(d: Driver, image: seq<byte>, frags: seq<seq<byte>>)
    requires !d.takesSg && RefusesAlike(d, image) && AcceptsAlike(d, image) && Flatten(frags) == image
    ensures SameResult(LoadOf(d, frags), LoadOf(d, [image]))
  {
    if d.answer([Init(Header(image, d.headerSize))]) != 0 {
      FlattenOne(image);
      InitDecides(d, frags);
      InitDecides(d, [image]);
    } else {
      var k := FirstRefusal(d, frags);
      assert frags[..k] + frags[k..] == frags;
      LoadPast(d, frags[..k], frags[k..]);
      ContiguousLoad(d, image);
      if k < |frags| {
        FlattenSplit(frags, k + 1);
        assert frags[..k] + [frags[k]] == frags[..k + 1];
      } else {
        assert frags[..k] == frags && frags[k..] == [];
      }
    }
  }

  /** A refused chunk can be completed to a fragmentation of the image. */
  lemma RefusalShows(d: Driver, image: seq<byte>, cs: seq<seq<byte>>, f: seq<byte>)
    requires !d.takesSg && Flatten(cs + [f]) <= image
    requires Accepted(d, After(d, image, cs)) && d.answer(After(d, image, cs + [f])) != 0
    requires forall frags :: Flatten(frags) == image ==> SameResult(LoadOf(d, frags), LoadOf(d, [image]))
    ensures d.answer(After(d, image, cs + [f])) == d.answer(After(d, image, [image]))
  {
    var tail := [f, image[|Flatten(cs + [f])|..]];
    FlattenSnoc(cs + [f], tail[1]);
    assert cs + [f] + [tail[1]] == cs + tail;
    assert Flatten(cs + tail) == image;
    LoadPast(d, cs, tail);
    AcceptedInit(d, image, cs);
    ContiguousLoad(d, image);
    assert SameResult(LoadOf(d, cs + tail), LoadOf(d, [image]));
  }

  // ----- the driver of this repository

  /**
   * What fme_pr_write answers on hardware that keeps up: a chunk that is no whole number of words
   * is refused. It has no header and no write_sg.
   */
  function WordDriver(bandwidth: nat): Driver
    requires bandwidth > 0
  {
    Driver(0, false, (calls: seq<Call>) =>
      if calls != [] && calls[|calls| - 1].Data? && |calls[|calls| - 1].bytes| % bandwidth != 0 then -EINVAL else 0)
  }

  predicate WholeWords(frags: seq<seq<byte>>, bandwidth: nat)
    requires bandwidth > 0
  {
    forall i :: 0 <= i < |frags| ==> |frags[i]| % bandwidth == 0
  }

  lemma {:induction false} WholeWordsAdd(frags: seq<seq<byte>>, bandwidth: nat)
    requires bandwidth > 0 && WholeWords(frags, bandwidth)
    ensures |Flatten(frags)| % bandwidth == 0
    decreases |frags|
  {
    if frags != [] {
      WholeWordsAdd(frags[1..], bandwidth);
      ModSum(|frags[0]|, |Flatten(frags[1..])|, bandwidth);
    }
  }

  lemma ModSum(a: nat, b: nat, m: nat)
    requires m > 0 && a % m == 0 && b % m == 0
    ensures (a + b) % m == 0
  {
    assert a + b == (a / m + b / m) * m + 0;
    DivModUnique(a + b, m, a / m + b / m, 0);
  }

  lemma WordLoad(frags: seq<seq<byte>>, bandwidth: nat)
    requires bandwidth > 0
    ensures var l := LoadOf(WordDriver(bandwidth), frags);
            if WholeWords(frags, bandwidth) then l.ret == 0 && l.state == Operating
            else l.ret == -EINVAL && l.state == WriteErr
  {
    var d := WordDriver(bandwidth);
    var k := FirstRefusal(d, frags);
    assert frags[..k] + frags[k..] == frags;
    LoadPast(d, frags[..k], frags[k..]);
    var calls := After(d, Flatten(frags), frags[..k]);
    forall i | 0 <= i < k ensures |frags[i]| % bandwidth == 0 {
      var upTo := calls[..i + 2];
      assert upTo[|upTo| - 1] == Data(frags[i]) && d.answer(upTo) == 0;
    }
    if k < |frags| {
      var next := After(d, Flatten(frags), frags[..k] + [frags[k]]);
      assert next[|next| - 1] == Data(frags[k]);
    }
  }

  /**
   * On that driver a scattered load ends as the contiguous one exactly when every fragment is a
   * whole number of words, or the image is not.
   */
  lemma WordDriverSameIff(frags: seq<seq<byte>>, bandwidth: nat)
    requires bandwidth > 0
    ensures SameResult(LoadOf(WordDriver(bandwidth), frags), LoadOf(WordDriver(bandwidth), [Flatten(frags)])) <==>
            WholeWords(frags, bandwidth) || |Flatten(frags)| % bandwidth != 0
  {
    WordLoad(frags, bandwidth);
    WordLoad([Flatten(frags)], bandwidth);
    if WholeWords(frags, bandwidth) {
      WholeWordsAdd(frags, bandwidth);
    } else {
      assert !WholeWords([Flatten(frags)], bandwidth) ==> |Flatten(frags)| % bandwidth != 0;
      assert WholeWords([Flatten(frags)], bandwidth) ==> |[Flatten(frags)][0]| % bandwidth == 0;
    }
  }

  /** One word cut into 1 and 3 bytes is refused; in one piece it is loaded. */
  lemma CutWordFails()
    ensures LoadOf(WordDriver(4), [[1], [2, 3, 4]]).ret == -EINVAL
    ensures LoadOf(WordDriver(4), [[1, 2, 3, 4]]).ret == 0
  {
    WordLoad([[1], [2, 3, 4]], 4);
    WordLoad([[1, 2, 3, 4]], 4);
    assert |[[1], [2, 3, 4]][0]| % 4 != 0;
  }

  lemma {:induction false} FlattenSnoc(frags: seq<seq<byte>>, f: seq<byte>)
    ensures Flatten(frags + [f]) == Flatten(frags) + f
  {
    if frags != [] {
      assert (frags + [f])[1..] == frags[1..] + [f];
      FlattenSnoc(frags[1..], f);
    } else {
      assert frags + [f] == [f];
      assert Flatten([f]) == f + Flatten([]);
    }
  }

  lemma FlattenUpTo(frags: seq<seq<byte>>, k: nat)
    requires k < |frags|
    ensures Flatten(frags[..k + 1]) == Flatten(frags[..k]) + frags[k]
  {
    FlattenSnoc(frags[..k], frags[k]);
    assert frags[..k + 1] == frags[..k] + [frags[k]];
  }

  lemma {:induction false} FlattenSplit(frags: seq<seq<byte>>, k: nat)
    requires k <= |frags|
    ensures Flatten(frags) == Flatten(frags[..k]) + Flatten(frags[k..])
    decreases k
  {
    if k == 0 {
      assert frags[..0] == [] && frags[0..] == frags;
    } else {
      FlattenSplit(frags[1..], k - 1);
      assert frags[..k][1..] == frags[1..][..k - 1];
      assert frags[1..][k - 1..] == frags[k..];
    }
  }

  // ----- the pages of a kernel buffer

  /** The bytes at an address range, and the page-sized pieces a page list describes. */
  function Bytes(mem: nat -> byte, at: nat, len: nat): (r: seq<byte>)
    ensures |r| == len
  {
    seq(len, i requires 0 <= i => mem(at + i))
  }

  /**
   * What sg_alloc_table_from_pages makes of a page list: the first page from `offset` on, whole
   * pages after that, cut after `size` bytes.
   */
  function Pieces(mem: nat -> byte, pages: seq<nat>, offset: nat, size: nat): seq<seq<byte>>
    requires offset < PAGE_SIZE
    decreases |pages|
  {
    if pages == [] then []
    else
      var n := Min(PAGE_SIZE - offset, size);
      [Bytes(mem, pages[0] + offset, n)] + Pieces(mem, pages[1..], 0, size - n)
  }

  predicate Consecutive(pages: seq<nat>, first: nat)
  {
    forall k :: 0 <= k < |pages| ==> pages[k] == first + k * PAGE_SIZE
  }

  lemma FlattenCons(f: seq<byte>, rest: seq<seq<byte>>)
    ensures Flatten([f] + rest) == f + Flatten(rest)
  {
    assert ([f] + rest)[1..] == rest;
  }

  lemma ConsecutiveTail(pages: seq<nat>, first: nat)
    requires pages != [] && Consecutive(pages, first)
    ensures pages[0] == first && Consecutive(pages[1..], first + PAGE_SIZE)
  {
    assert pages[0] == first + 0 * PAGE_SIZE;
    forall k | 0 <= k < |pages| - 1 ensures pages[1..][k] == first + PAGE_SIZE + k * PAGE_SIZE {
      assert pages[1..][k] == pages[k + 1];
    }
  }

  lemma BytesJoin(mem: nat -> byte, at: nat, m: nat, n: nat)
    ensures Bytes(mem, at, m) + Bytes(mem, at + m, n) == Bytes(mem, at, m + n)
  {
  }

  /** Consecutive pages that reach far enough give back exactly the buffer. */
  lemma {:induction false} PiecesCover(mem: nat -> byte, pages: seq<nat>, first: nat, offset: nat, size: nat)
    requires offset < PAGE_SIZE && Consecutive(pages, first) && offset + size <= |pages| * PAGE_SIZE
    ensures Flatten(Pieces(mem, pages, offset, size)) == Bytes(mem, first + offset, size)
    decreases |pages|
  {
    if pages == [] {
      assert size == 0;
    } else {
      var n := Min(PAGE_SIZE - offset, size);
      ConsecutiveTail(pages, first);
      PiecesCover(mem, pages[1..], first + PAGE_SIZE, 0, size - n);
      var rest := Pieces(mem, pages[1..], 0, size - n);
      FlattenCons(Bytes(mem, first + offset, n), rest);
      BytesJoin(mem, first + offset, n, size - n);
      if n == size {
        assert Flatten(rest) == [] && Bytes(mem, first + offset + n, 0) == [];
      } else {
        assert first + offset + n == first + PAGE_SIZE;
      }
    }
  }

  /** nr_pages: the pages that [buf, buf + count) touches. */
  function PageCount(buf: nat, count: nat): nat
  {
    (buf + count + PAGE_SIZE - 1) / PAGE_SIZE - buf / PAGE_SIZE
  }

  /** It is the least number of pages from the one of `buf` on that reaches the end of the buffer. */
  lemma PageCountMeans(buf: nat, count: nat)
    ensures var first, n := buf - buf % 4096, PageCount(buf, count);
            && buf + count <= first + n * 4096
            && (n > 0 ==> first + (n - 1) * 4096 < buf + count)
  {
    var end := buf + count;
    assert buf == (buf / 4096) * 4096 + buf % 4096;
    assert end + 4095 == ((end + 4095) / 4096) * 4096 + (end + 4095) % 4096;
    assert PageCount(buf, count) * 4096 == ((end + 4095) / 4096) * 4096 - (buf / 4096) * 4096;
  }

  // ----- the manager

  class Manager {
    const d: Driver
    var state: State
    var calls: seq<Call>   // the calls to the low-level driver in the current load

    constructor (d: Driver)
      ensures this.d == d && state == Unknown && calls == []
    {
      this.d, state, calls := d, Unknown, [];
    }

    /** One call of the low-level driver. */
    method Invoke(c: Call) returns (ret: int)
      modifies this`calls
      ensures calls == old(calls) + [c] && ret == d.answer(calls)
    {
      calls := calls + [c];
      ret := d.answer(calls);
    }

    /** fpga_mgr_write_init_buf; `hdr` is where the header is read from. */
    method WriteInitBuf(hdr: seq<byte>) returns (ret: int)
      modifies this
      ensures var h := if d.headerSize == 0 then [] else hdr[..Min(d.headerSize, |hdr|)];
              calls == [Init(h)] && ret == d.answer(calls) && state == StateAfter(Init(h), ret)
    {
      state := WriteInit;
      calls := [];
      ret := Invoke(Init(if d.headerSize == 0 then [] else hdr[..Min(d.headerSize, |hdr|)]));
      if ret != 0 {
        state := WriteInitErr;
      }
    }

    /** sg_copy_to_buffer: up to `size` bytes from the front of the fragments. */
    method CopyToBuffer(frags: seq<seq<byte>>, size: nat) returns (buf: seq<byte>)
      ensures buf == Header(Flatten(frags), size)
    {
      buf := [];
      var k := 0;
      while k < |frags| && |buf| < size
        invariant k <= |frags| && |buf| <= size
        invariant |buf| < size ==> buf == Flatten(frags[..k])
        invariant |buf| == size ==> buf == Header(Flatten(frags), size)
      {
        FlattenUpTo(frags, k);
        FlattenSplit(frags, k + 1);
        var n := Min(size - |buf|, |frags[k]|);
        buf := buf + frags[k][..n];
        k := k + 1;
      }
      assert k == |frags| ==> frags[..k] == frags;
    }

    /** fpga_mgr_write_init_sg; `memory` says whether the temporary buffer can be had. */
    method WriteInitSg(frags: seq<seq<byte>>, memory: bool) returns (ret: int, reached: bool)
      modifies this
      ensures reached == HeaderAtHand(d, frags, memory)
      ensures !reached ==> ret == -ENOMEM && state == old(state) && calls == old(calls)
      ensures reached ==>
              && calls == [Init(Header(Flatten(frags), d.headerSize))]
              && ret == d.answer(calls) && state == StateAfter(calls[0], ret)
    {
      reached := true;
      if d.headerSize == 0 {
        ret := WriteInitBuf([]);
        return;
      }
      if frags != [] && |frags[0]| >= d.headerSize {
        FlattenFirst(frags);
        assert frags[0][..d.headerSize] == Header(Flatten(frags), d.headerSize);
        ret := WriteInitBuf(frags[0]);
        return;
      }
      if !memory {
        return -ENOMEM, false;
      }
      var buf := CopyToBuffer(frags, d.headerSize);
      assert buf[..Min(d.headerSize, |buf|)] == buf;
      ret := WriteInitBuf(buf);
    }

    /** fpga_mgr_write_complete */
    method Finish() returns (ret: int)
      modifies this
      ensures calls == old(calls) + [Complete] && ret == d.answer(calls) && state == StateAfter(Complete, ret)
    {
      state := WriteComplete;
      ret := Invoke(Complete);
      if ret != 0 {
        state := WriteCompleteErr;
        return;
      }
      state := Operating;
    }

    /** The writes of a load that has been initialised, and what they leave of the script. */
    method WriteAll(frags: seq<seq<byte>>) returns (ret: int)
      requires calls == Script(d, frags)[..1] && d.answer(calls) == 0
      modifies this`calls
      ensures ret == d.answer(calls) && 0 < |calls| < |Script(d, frags)| && calls == Script(d, frags)[..|calls|]
      ensures ret == 0 ==> |calls| == |Script(d, frags)| - 1
      ensures ret == 0 ==> Made(d, Script(d, frags), 0) == |Script(d, frags)|
      ensures ret != 0 ==> Made(d, Script(d, frags), 0) == |calls| && StateAfter(calls[|calls| - 1], ret) == WriteErr
    {
      ghost var script := Script(d, frags);
      ret := 0;
      if d.takesSg {
        ret := Invoke(DataSg(frags));
        assert calls == script[..2];
      } else {
        var k := 0;
        while k < |frags| && ret == 0
          invariant k <= |frags| && |calls| == k + 1 && calls == script[..k + 1] && ret == d.answer(calls)
          invariant ret == 0 ==> Made(d, script, 0) == Made(d, script, k + 1)
          invariant ret != 0 ==> Made(d, script, 0) == k + 1 && calls[k].Data?
        {
          ret := Invoke(Data(frags[k]));
          k := k + 1;
          assert calls == script[..k + 1];
        }
      }
    }

    /**
     * fpga_mgr_buf_load_sg: the load of the fragments, or nothing at all if the header cannot be
     * had.
     */
    method LoadSg(frags: seq<seq<byte>>, memory: bool) returns (ret: int)
      modifies this
      ensures Load(ret, state, calls) == SgLoad(d, frags, memory, old(state), old(calls))
    {
      ghost var script := Script(d, frags);
      var reached;
      ret, reached := WriteInitSg(frags, memory);
      assert reached ==> calls == script[..1];
      if ret != 0 {
        return;
      }
      state := Write;
      ret := WriteAll(frags);
      if ret != 0 {
        state := WriteErr;
        return;
      }
      ret := Finish();
      assert calls == script == script[..|script|];
    }

    /** fpga_mgr_buf_load_mapped: the load of one fragment. */
    method LoadMapped(buf: seq<byte>) returns (ret: int)
      requires !d.takesSg
      modifies this
      ensures Load(ret, state, calls) == LoadOf(d, [buf])
    {
      FlattenOne(buf);
      ghost var script := Script(d, [buf]);
      ret := WriteInitBuf(buf);
      assert calls == script[..1];
      if ret != 0 {
        return;
      }
      state := Write;
      ret := Invoke(Data(buf));
      assert calls == script[..2] && |script| == 3;
      MadeIs(d, script, 0, if ret != 0 then 2 else 3);
      if ret != 0 {
        state := WriteErr;
        return;
      }
      ret := Finish();
      assert calls == script == script[..3];
    }

    /** The page list of fpga_mgr_buf_load; not `ok` when some page cannot be found. */
    method ListPages(buf: nat, count: nat, found: nat -> bool) returns (pages: seq<nat>, ok: bool)
      ensures ok ==> |pages| == PageCount(buf, count) && Consecutive(pages, BlockStart(buf, PAGE_SIZE))
      ensures ok ==> buf + count <= buf - buf % PAGE_SIZE + |pages| * PAGE_SIZE
      ensures ok && pages != [] ==>
              pages[0] == buf - buf % PAGE_SIZE && buf - buf % PAGE_SIZE + (|pages| - 1) * PAGE_SIZE < buf + count
      ensures ok <==> forall k :: 0 <= k < PageCount(buf, count) ==> found(k)
    {
      PageCountMeans(buf, count);
      var p := buf - buf % PAGE_SIZE;
      pages, ok := [], true;
      while |pages| < PageCount(buf, count)
        invariant |pages| <= PageCount(buf, count) && p == BlockStart(buf, PAGE_SIZE) + |pages| * PAGE_SIZE
        invariant Consecutive(pages, BlockStart(buf, PAGE_SIZE))
        invariant forall k :: 0 <= k < |pages| ==> found(k)
        decreases PageCount(buf, count) - |pages|
      {
        if !found(|pages|) {
          return pages, false;
        }
        pages := pages + [p];
        p := p + PAGE_SIZE;
      }
    }

    /**
     * fpga_mgr_buf_load: the bytes at [buf, buf + count), in one piece or as the pages of a scatter
     * list. `memory` grants the page list and `headerMemory` the header buffer.
     */
    method BufLoad(mem: nat -> byte, buf: nat, count: nat, memory: bool, headerMemory: bool,
                   found: nat -> bool, tableErr: int)
      returns (ret: int, ghost frags: seq<seq<byte>>)
      requires tableErr <= 0
      modifies this
      ensures Flatten(frags) == Bytes(mem, buf, count)
      ensures var missing := exists k :: 0 <= k < PageCount(buf, count) && !found(k);
              var early := if !memory then -ENOMEM else if missing then -EFAULT else tableErr;
              Load(ret, state, calls) ==
              if !d.takesSg then LoadOf(d, [Bytes(mem, buf, count)])
              else if early != 0 then Load(early, old(state), old(calls))
              else SgLoad(d, frags, headerMemory, old(state), old(calls))
    {
      frags := [Bytes(mem, buf, count)];
      FlattenOne(Bytes(mem, buf, count));
      if !d.takesSg {
        ret := LoadMapped(Bytes(mem, buf, count));
        return;
      }
      if !memory {
        return -ENOMEM, frags;
      }
      var pages, ok := ListPages(buf, count, found);
      if !ok {
        return -EFAULT, frags;
      }
      if tableErr != 0 {
        return tableErr, frags;
      }
      PiecesCover(mem, pages, BlockStart(buf, PAGE_SIZE), buf % PAGE_SIZE, count);
      frags := Pieces(mem, pages, buf % PAGE_SIZE, count);
      ret := LoadSg(Pieces(mem, pages, buf % PAGE_SIZE, count), headerMemory);
    }
  }

  lemma FlattenFirst(frags: seq<seq<byte>>)
    requires frags != []
    ensures frags[0] <= Flatten(frags)
  {
  }
}
