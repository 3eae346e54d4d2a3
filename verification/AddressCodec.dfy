/**
 * Flash addresses on the wire and the page-address conversion of S3AN chips:
 * drivers/mtd/spi-nor/spi-nor.c lines 433-443 and 463-466,
 * drivers/mtd/spi-nor/altera-asmip2.c lines 127-138.
 */
module AddressCodec {
  import opened Common
  import opened Arith

  const MAX_ADDR_WIDTH: nat := 4

  function Pow256(w: nat): (r: nat)
    ensures r >= 1
  {
    if w == 0 then 1 else 256 * Pow256(w - 1)
  }

  /** The `w` low bytes of an address, most significant first. */
  function Encode(w: nat, a: nat): (s: seq<byte>)
    ensures |s| == w
  {
    if w == 0 then [] else Encode(w - 1, a / 256) + [a % 256]
  }

  /** The address a chip assembles from the bytes it receives. */
  function Decode(s: seq<byte>): nat
  {
    if s == [] then 0 else 256 * Decode(s[..|s| - 1]) + s[|s| - 1]
  }

  lemma DecodeSnoc(s: seq<byte>, b: byte)
    ensures Decode(s + [b]) == 256 * Decode(s) + b
  {
    assert (s + [b])[..|s|] == s;
  }

  /** The chip sees the address the driver meant. */
  lemma {:induction false} DecodeEncode(w: nat, a: nat)
    requires a < Pow256(w)
    ensures Decode(Encode(w, a)) == a
  {
    if w > 0 {
      var hi, lo := a / 256, a % 256;
      DecodeEncode(w - 1, hi);
      DecodeSnoc(Encode(w - 1, hi), lo);
    }
  }

  lemma {:induction false} ShrCompose(x: nat, j: nat, k: nat)
    ensures Shr(x, j + k) == Shr(Shr(x, j), k)
    decreases j
  {
    if j > 0 {
      ShrCompose(x / 2, j - 1, k);
    }
  }

  lemma ShrByte(x: nat)
    ensures Shr(x, 8) == x / 256
  {
    assert Shr(x, 8) == Shr(x / 2 / 2 / 2 / 2, 4);
  }

  /** Byte `j` of the encoding is what a shift by its position and an 8-bit write produce. */
  lemma {:induction false} EncodeAt(w: nat, a: nat, j: nat)
    requires j < w
    ensures Encode(w, a)[j] == Shr(a, 8 * (w - 1 - j)) % 256
    decreases w
  {
    if j < w - 1 {
      EncodeAt(w - 1, a / 256, j);
      ShrByte(a);
      ShrCompose(a, 8, 8 * (w - 2 - j));
    }
  }

  /** The bytes altera_asmip2_push_offset writes to the data register. */
  method OffsetBytes(width: nat, offset: nat) returns (out: seq<byte>)
    ensures out == Encode(width, offset)
  {
    out := [];
    var i: int := (width - 1) * 8;
    while i >= 0
      invariant i == 8 * (width - 1 - |out|) && |out| <= width
      invariant out == Encode(width, offset)[..|out|]
      decreases i
    {
      EncodeAt(width, offset, |out|);
      out := out + [Shr(offset, i) % 256];
      i := i - 8;
    }
  }

  /** The address buffer spi_nor_erase_sector fills from its last byte up. */
  method EraseAddress(width: nat, address: nat) returns (buf: array<byte>)
    ensures fresh(buf) && buf[..] == Encode(width, address)
  {
    buf := new byte[width];
    var addr := address;
    var i: int := width - 1;
    while i >= 0
      invariant -1 <= i < width
      invariant Encode(width, address) == Encode(i + 1, addr) + buf[i + 1..]
    {
      ghost var tail := buf[i + 1..];
      buf[i] := addr % 256;
      addr := addr / 256;
      assert buf[i..] == [buf[i]] + tail;
      i := i - 1;
    }
    assert buf[0..] == buf[..];
  }

  // ----- S3AN default address mode

  const S3AN_LIMIT: nat := 0x40_0000   // the biggest S3AN device is smaller than 4 MiB

  /** The distance of two pages after `page <<= 10` or `page <<= 9`. */
  function Stride(pageSize: nat): nat
  {
    if pageSize > 512 then 1024 else 512
  }

  /** spi_nor_s3an_addr_convert, in 32 bits. */
  function S3anConvert(pageSize: nat, addr: nat): nat
    requires pageSize > 0
  {
    BitOr(addr / pageSize * Stride(pageSize) % 0x1_0000_0000, addr % pageSize)
  }

  lemma StrideIsShift(pageSize: nat)
    ensures Stride(pageSize) == Pow2(if pageSize > 512 then 10 else 9)
  {
    assert Pow2(5) == 32;
    assert Pow2(9) == 512;
  }

  lemma PageBelow(addr: nat, pageSize: nat)
    requires pageSize > 0
    ensures addr / pageSize <= addr
  {
    assert addr == (addr / pageSize) * pageSize + addr % pageSize;
    if addr / pageSize > 0 {
      MulAtLeast(pageSize, addr / pageSize);
    }
  }

  /** For pages up to 1024 bytes the conversion puts the page number above the page offset. */
  lemma S3anSplit(pageSize: nat, addr: nat)
    requires 0 < pageSize <= 1024 && addr < S3AN_LIMIT
    ensures S3anConvert(pageSize, addr) ==
            addr / pageSize * (if pageSize <= 512 then 512 else 1024) + addr % pageSize
  {
    PageBelow(addr, pageSize);
    JoinPage(addr / pageSize, addr % pageSize, pageSize);
  }

  lemma JoinPage(page: nat, offset: nat, pageSize: nat)
    requires page < S3AN_LIMIT && offset < Stride(pageSize)
    ensures BitOr(page * Stride(pageSize) % 0x1_0000_0000, offset) == page * Stride(pageSize) + offset
  {
    StrideIsShift(pageSize);
    OrIsAdd(page, offset, if pageSize > 512 then 10 else 9);
    if pageSize > 512 {
      assert page * 1024 % 0x1_0000_0000 == page * 1024;
    } else {
      assert page * 512 % 0x1_0000_0000 == page * 512;
    }
  }

  /** Within a page converted addresses are contiguous, and the next page starts higher. */
  lemma S3anStep(pageSize: nat, addr: nat)
    requires 0 < pageSize <= 1024 && addr + 1 < S3AN_LIMIT
    ensures S3anConvert(pageSize, addr) < S3anConvert(pageSize, addr + 1)
    ensures (addr + 1) % pageSize != 0 ==> S3anConvert(pageSize, addr + 1) == S3anConvert(pageSize, addr) + 1
  {
    S3anSplit(pageSize, addr);
    S3anSplit(pageSize, addr + 1);
    ModWithin(addr, 1, pageSize);
  }

  lemma {:induction false} S3anIncreasing(pageSize: nat, a: nat, b: nat)
    requires 0 < pageSize <= 1024 && a < b < S3AN_LIMIT
    ensures S3anConvert(pageSize, a) < S3anConvert(pageSize, b)
    decreases b
  {
    S3anStep(pageSize, b - 1);
    if a < b - 1 {
      S3anIncreasing(pageSize, a, b - 1);
    }
  }

  /** The conversion tells addresses apart exactly when pages have at most 1024 bytes. */
  lemma S3anInjectiveIff(pageSize: nat)
    requires 0 < pageSize < S3AN_LIMIT
    ensures (forall a, b :: 0 <= a < b < S3AN_LIMIT ==> S3anConvert(pageSize, a) != S3anConvert(pageSize, b)) <==>
            pageSize <= 1024
  {
    if pageSize <= 1024 {
      forall a, b | 0 <= a < b < S3AN_LIMIT ensures S3anConvert(pageSize, a) != S3anConvert(pageSize, b) {
        S3anIncreasing(pageSize, a, b);
      }
    } else {
      S3anCollision(pageSize);
    }
  }

  /** With longer pages the last byte of page 0 that fits the mask meets the first byte of page 1. */
  lemma S3anCollision(pageSize: nat)
    requires pageSize > 1024
    ensures S3anConvert(pageSize, 1024) == S3anConvert(pageSize, pageSize)
  {
    DivModUnique(1024, pageSize, 0, 1024);
    DivModUnique(pageSize, pageSize, 1, 0);
    assert S3anConvert(pageSize, 1024) == BitOr(0, 1024);
    assert S3anConvert(pageSize, pageSize) == BitOr(1024, 0);
  }
}
