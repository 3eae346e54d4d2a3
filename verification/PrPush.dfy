/**
 * Pushing a partial-reconfiguration image into the hardware FIFO under a cached credit:
 * drivers/fpga/intel/fme-pr.c lines 183-259 and 358-374.
 */
module PrPush {
  import opened Common
  import opened Arith

  const PR_WAIT_TIMEOUT: nat := 8000000

  /** The words of `n` bytes an image is cut into; a shorter rest is dropped. */
  function Words(s: seq<byte>, n: nat): seq<seq<byte>>
    requires n > 0
    decreases |s|
  {
    if |s| < n then [] else [s[..n]] + Words(s[n..], n)
  }

  lemma {:induction false} FlattenWords(s: seq<byte>, n: nat)
    requires n > 0 && |s| % n == 0
    ensures Flatten(Words(s, n)) == s
    decreases |s|
  {
    if |s| >= n {
      ModStep(|s| - n, n);
      FlattenWords(s[n..], n);
      assert s[..n] + s[n..] == s;
      assert Words(s, n)[1..] == Words(s[n..], n);
    } else {
      DivModUnique(|s|, n, 0, |s|);
      assert s == [];
    }
  }

  lemma {:induction false} WordsAreWords(s: seq<byte>, n: nat)
    requires n > 0
    ensures forall w :: w in Words(s, n) ==> |w| == n
    decreases |s|
  {
    if |s| >= n {
      WordsAreWords(s[n..], n);
    }
  }

  lemma {:induction false} WordsNext(s: seq<byte>, n: nat, pos: nat)
    requires n > 0 && pos % n == 0 && pos + n <= |s|
    ensures Words(s[..pos + n], n) == Words(s[..pos], n) + [s[pos..pos + n]]
    ensures (pos + n) % n == 0
    decreases pos
  {
    ModStep(pos, n);
    if pos < n {
      DivModUnique(pos, n, 0, pos);
      assert s[..n][..n] == s[..n] && s[..n][n..] == [];
    } else {
      ModStep(pos - n, n);
      WordsNext(s[n..], n, pos - n);
      assert s[..pos + n][n..] == s[n..][..pos];
      assert s[..pos][n..] == s[n..][..pos - n];
      assert s[n..][pos - n..pos] == s[pos..pos + n];
      assert s[..pos + n][..n] == s[..pos][..n];
    }
  }

  /** `ALIGN(size, a)`: the size with its low bits cleared after adding a - 1. */
  function Align(size: nat, a: nat): nat
    requires a > 0
  {
    BlockStart(size + a - 1, a)
  }

  /** The zero-filled buffer that fme_pr hands to the manager. */
  function Padded(image: seq<byte>, bandwidth: nat): (r: seq<byte>)
    requires bandwidth > 0
  {
    AlignBounds(|image|, bandwidth);
    image + seq(Align(|image|, bandwidth) - |image|, _ => 0)
  }

  /** Padding is less than one word and makes the length a multiple of the bandwidth. */
  lemma AlignBounds(size: nat, a: nat)
    requires a > 0
    ensures size <= Align(size, a) < size + a
    ensures Align(size, a) % a == 0
  {
    var x := size + a - 1;
    assert x == (x / a) * a + x % a;
    DivModUnique((x / a) * a, a, x / a, 0);
  }

  /**
   * The hardware side. It only ever frees slots; how many before each access is `drain`. Pushing
   * needs a free slot: a push into a full FIFO would lose data.
   */
  class PrFifo {
    const depth: nat
    const drain: nat -> nat
    var time: nat
    var free: nat
    var pushed: seq<seq<byte>>
    ghost var spare: bool   // every push has left a free slot

    constructor (depth: nat, drain: nat -> nat)
      requires depth < 512
      ensures this.depth == depth && this.drain == drain && Valid() && pushed == [] && free == depth && spare
    {
      this.depth, this.drain := depth, drain;
      time, free, pushed, spare := 0, depth, [], true;
    }

    ghost predicate Valid()
      reads this
    {
      free <= depth < 512   // the credit field has 9 bits
    }

    method Drain()
      requires Valid()
      modifies this`free, this`time
      ensures Valid() && free == Min(depth, old(free) + drain(old(time)))
    {
      free := Min(depth, free + drain(time));
      time := time + 1;
    }

    method ReadCredit() returns (credit: nat)
      requires Valid()
      modifies this`free, this`time
      ensures Valid() && credit == free == Min(depth, old(free) + drain(old(time)))
    {
      Drain();
      credit := free;
    }

    method Push(word: seq<byte>)
      requires Valid() && free > 0
      modifies this`free, this`time, this`pushed, this`spare
      ensures Valid() && free >= old(free) - 1 && pushed == old(pushed) + [word]
      ensures spare == (old(spare) && free > 0)
    {
      Drain();
      free := free - 1;
      spare := spare && free > 0;
      pushed := pushed + [word];
    }

    /** Hardware that frees a slot before every access, and an image within the wait budget. */
    ghost predicate Prompt(size: nat, bandwidth: nat)
      requires bandwidth > 0
    {
      depth >= 2 && (forall t :: drain(t) >= 1) && 2 * (size / bandwidth) <= PR_WAIT_TIMEOUT
    }

    /** The inner loop of fme_pr_write: waits until the credit is above one or the budget is used up. */
    method WaitCredit(start: nat, spent: nat, prErr: bool) returns (ret: int, credit: nat, delay: nat)
      requires Valid() && start <= free && spent <= PR_WAIT_TIMEOUT + 1
      modifies this`free, this`time
      ensures Valid() && credit <= free
      ensures ret == 0 ==> credit > 1 && spent <= delay <= PR_WAIT_TIMEOUT + 1
      ensures ret != 0 ==> ret == (if prErr then -EIO else -ETIMEDOUT) && delay == PR_WAIT_TIMEOUT + 2
      ensures depth >= 2 && (forall t :: drain(t) >= 1) && spent < PR_WAIT_TIMEOUT ==> ret == 0 && delay <= spent + 2
    {
      ret, credit, delay := 0, start, spent;
      while credit <= 1
        invariant Valid() && credit <= free && spent <= delay <= PR_WAIT_TIMEOUT + 1
        invariant depth >= 2 && (forall t :: drain(t) >= 1) ==> delay <= spent + 2 && delay - spent <= credit
        decreases PR_WAIT_TIMEOUT + 2 - delay
      {
        if delay > PR_WAIT_TIMEOUT {
          delay := delay + 1;
          ret := if prErr then -EIO else -ETIMEDOUT;
          return;
        }
        delay := delay + 1;
        credit := ReadCredit();
      }
    }

    /**
     * fme_pr_write. On success the pushed words are the buffer, on failure the words before a
     * word boundary. `delay` counts every wait of the whole image, so the timeout is a budget for
     * the image and not for one word. Every push leaves a slot free.
     */
    method Write(buf: seq<byte>, bandwidth: nat, prErr: bool) returns (ret: int, delay: nat, ghost pos: nat)
      requires Valid() && bandwidth > 0
      modifies this`free, this`time, this`pushed, this`spare
      ensures Valid()
      ensures old(spare) ==> spare
      ensures pos <= |buf| && pos % bandwidth == 0 && pushed == old(pushed) + Words(buf[..pos], bandwidth)
      ensures ret == 0 ==> pos == |buf| && delay <= PR_WAIT_TIMEOUT + 1
      ensures ret == 0 || ret == -EFAULT || ret == -EINVAL || ret == (if prErr then -EIO else -ETIMEDOUT)
      ensures ret == -EFAULT ==> bandwidth != 4 && bandwidth != 64
      ensures ret == -EINVAL ==> |buf| % bandwidth != 0
      ensures (ret == -EIO || ret == -ETIMEDOUT) ==> delay == PR_WAIT_TIMEOUT + 2
      ensures Prompt(|buf|, bandwidth) && (bandwidth == 4 || bandwidth == 64) && |buf| % bandwidth == 0 ==> ret == 0
      ensures Prompt(|buf| + bandwidth, bandwidth) && (bandwidth == 4 || bandwidth == 64) && |buf| % bandwidth != 0 ==>
              ret == -EINVAL
    {
      ret, delay, pos := 0, 0, 0;
      assert Words(buf[..0], bandwidth) == [];
      DivModUnique(0, bandwidth, 0, 0);
      DivOrder(|buf|, |buf| + bandwidth, bandwidth);
      ModStep(|buf|, bandwidth);
      assert Prompt(|buf| + bandwidth, bandwidth) ==> Prompt(|buf|, bandwidth);
      var count := |buf|;
      var credit := ReadCredit();
      while count > 0
        invariant Valid() && 0 <= count && pos == |buf| - count && pos <= |buf|
        invariant 0 <= credit <= free && delay <= PR_WAIT_TIMEOUT + 1 && (old(spare) ==> spare)
        invariant pos % bandwidth == 0
        invariant pushed == old(pushed) + Words(buf[..pos], bandwidth)
        invariant Prompt(|buf|, bandwidth) ==> delay <= 2 * (pos / bandwidth)
        decreases count
      {
        DivOrder(pos, |buf|, bandwidth);
        if |buf| % bandwidth == 0 {
          WholeWordLeft(|buf|, bandwidth, pos);
        }
        ret, credit, delay := WaitCredit(credit, delay, prErr);
        if ret != 0 {
          return;
        }
        if count >= bandwidth {
          if bandwidth != 4 && bandwidth != 64 {
            ret := -EFAULT;
            return;
          }
          WordsNext(buf, bandwidth, pos);
          ModStep(pos, bandwidth);
          Push(buf[|buf| - count..|buf| - count + bandwidth]);
          count := count - bandwidth;
          pos := pos + bandwidth;
          credit := credit - 1;
        } else {
          ShortRest(|buf|, bandwidth, pos);
          ret := -EINVAL;
          return;
        }
      }
    }

    /** The load part of fme_pr: what reaches the hardware is the image and then zeros. */
    method LoadImage(image: seq<byte>, bandwidth: nat, prErr: bool) returns (ret: int)
      requires Valid() && (bandwidth == 4 || bandwidth == 64)
      modifies this`free, this`time, this`pushed, this`spare
      ensures Valid() && old(pushed) <= pushed && (old(spare) ==> spare)
      ensures ret == 0 || ret == (if prErr then -EIO else -ETIMEDOUT)
      ensures ret == 0 ==>
        var sent := Flatten(pushed[|old(pushed)|..]);
        && image <= sent && (forall i :: |image| <= i < |sent| ==> sent[i] == 0)
        && |sent| < |image| + bandwidth && |sent| % bandwidth == 0
      ensures ret == 0 ==> forall w :: w in pushed[|old(pushed)|..] ==> |w| == bandwidth
      ensures Flatten(pushed[|old(pushed)|..]) <= Padded(image, bandwidth)
      ensures ret == 0 ==> Flatten(pushed[|old(pushed)|..]) == Padded(image, bandwidth)
      ensures Prompt(|image| + bandwidth, bandwidth) ==> ret == 0
    {
      var buf := Padded(image, bandwidth);
      AlignBounds(|image|, bandwidth);
      ghost var pos;
      var delay;
      DivOrder(|buf|, |image| + bandwidth, bandwidth);
      ret, delay, pos := Write(buf, bandwidth, prErr);
      FlattenWords(buf[..pos], bandwidth);
      assert pushed[|old(pushed)|..] == Words(buf[..pos], bandwidth);
      if ret == 0 {
        FlattenWords(buf, bandwidth);
        WordsAreWords(buf, bandwidth);
        assert buf[..pos] == buf;
        assert pushed[|old(pushed)|..] == Words(buf, bandwidth);
      }
    }
  }

  lemma DivOrder(a: nat, b: nat, m: nat)
    requires a <= b && m > 0
    ensures a / m <= b / m
  {
    if a / m > b / m {
      MulAtLeast(a / m - b / m, m);
    }
  }

  lemma WholeWordLeft(total: nat, n: nat, pos: nat)
    requires n > 0 && pos % n == 0 && total % n == 0 && pos < total
    ensures pos + n <= total && pos / n < total / n
  {
    if total < pos + n {
      ShortRest(total, n, pos);
    }
    ModStep(pos, n);
    DivOrder(pos + n, total, n);
  }

  lemma ShortRest(total: nat, n: nat, pos: nat)
    requires n > 0 && pos % n == 0 && pos < total < pos + n
    ensures total % n == total - pos && total % n != 0
  {
    ModWithin(pos, total - pos, n);
  }
}
