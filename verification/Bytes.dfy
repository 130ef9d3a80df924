/**
  Memory by the byte: the four bytes of a 32-bit word, least significant first, and the load and
  store of one of them.
 */
module Bytes {
  import opened Mmu

  type Byte = n: int | 0 <= n < 256

  // ---- words --------------------------------------------------------------------------------

  function Bit(b: bool): nat { if b then 1 else 0 }

  /** A word as an unsigned integer. */
  function Number(w: Word): Addr {
    w.frame * 4096 + w.flags.avl * 8 + Bit(w.flags.u) * 4 + Bit(w.flags.w) * 2 + Bit(w.flags.p)
  }

  function WordOf(n: Addr): Word {
    Word(n / 4096, Flags(n % 2 == 1, n / 2 % 2 == 1, n / 4 % 2 == 1, n / 8 % 512))
  }

  lemma LowBits(n: nat)
    ensures n == n / 2 * 2 + n % 2
    ensures n / 2 == n / 4 * 2 + n / 2 % 2
    ensures n / 4 == n / 8 * 2 + n / 4 % 2
    ensures n / 8 == n / 4096 * 512 + n / 8 % 512
  {
  }

  lemma WordNumber(n: Addr)
    ensures Number(WordOf(n)) == n
  {
    LowBits(n);
    var w := WordOf(n);
    assert Bit(w.flags.p) == n % 2 && Bit(w.flags.w) == n / 2 % 2 && Bit(w.flags.u) == n / 4 % 2;
  }

  /** PTE_P is bit 0, PTE_W bit 1 and PTE_U bit 2; the page number starts at bit 12. */
  lemma WordLayout(w: Word)
    ensures var n := Number(w);
      && n / 4096 == w.frame
      && (n % 2 == 1 <==> w.flags.p) && (n / 2 % 2 == 1 <==> w.flags.w) && (n / 4 % 2 == 1 <==> w.flags.u)
      && n / 8 % 512 == w.flags.avl && WordOf(n) == w
  {
    var n := Number(w);
    LowBits(n);
    assert n / 2 == w.frame * 2048 + w.flags.avl * 4 + Bit(w.flags.u) * 2 + Bit(w.flags.w);
    assert n / 4 == w.frame * 1024 + w.flags.avl * 2 + Bit(w.flags.u);
    assert n / 8 == w.frame * 512 + w.flags.avl;
  }

  /** Bytes lie least significant first. */
  lemma ByteLayout(w: Word)
    ensures Number(w) ==
      LoadByte(w, 0) + 0x100 * LoadByte(w, 1) + 0x1_0000 * LoadByte(w, 2) + 0x100_0000 * LoadByte(w, 3)
  {
    hide Number;
    var n := Number(w);
    assert n / 0x100 == n / 0x1_0000 * 0x100 + n / 0x100 % 0x100;
    assert n / 0x1_0000 == n / 0x100_0000 * 0x100 + n / 0x1_0000 % 0x100;
  }

  /** The four bytes of n, and n from its four bytes. */
  function ByteOf(n: Addr, k: nat): Byte
    requires k < 4
  {
    if k == 0 then n % 0x100
    else if k == 1 then n / 0x100 % 0x100
    else if k == 2 then n / 0x1_0000 % 0x100
    else n / 0x100_0000
  }

  function FromBytes(b0: Byte, b1: Byte, b2: Byte, b3: Byte): Addr {
    b0 + 0x100 * b1 + 0x1_0000 * b2 + 0x100_0000 * b3
  }

  lemma BytesRoundTrip(b0: Byte, b1: Byte, b2: Byte, b3: Byte)
    ensures var n := FromBytes(b0, b1, b2, b3);
      ByteOf(n, 0) == b0 && ByteOf(n, 1) == b1 && ByteOf(n, 2) == b2 && ByteOf(n, 3) == b3
  {
    var n := FromBytes(b0, b1, b2, b3);
    assert n / 0x100 == b1 + 0x100 * b2 + 0x1_0000 * b3 && n % 0x100 == b0;
    assert n / 0x1_0000 == b2 + 0x100 * b3;
    assert n / 0x100_0000 == b3;
  }

  function LoadByte(w: Word, k: nat): Byte
    requires k < 4
  {
    ByteOf(Number(w), k)
  }

  function StoreByte(w: Word, k: nat, b: Byte): Word
    requires k < 4
  {
    var n := Number(w);
    WordOf(FromBytes(if k == 0 then b else ByteOf(n, 0), if k == 1 then b else ByteOf(n, 1),
                     if k == 2 then b else ByteOf(n, 2), if k == 3 then b else ByteOf(n, 3)))
  }

  lemma LoadStored(w: Word, k: nat, b: Byte, k': nat)
    requires k < 4 && k' < 4
    ensures LoadByte(StoreByte(w, k, b), k') == if k' == k then b else LoadByte(w, k')
  {
    hide WordOf;
    hide Number;
    hide ByteOf;
    hide FromBytes;
    var n := Number(w);
    var b0, b1 := if k == 0 then b else ByteOf(n, 0), if k == 1 then b else ByteOf(n, 1);
    var b2, b3 := if k == 2 then b else ByteOf(n, 2), if k == 3 then b else ByteOf(n, 3);
    WordNumber(FromBytes(b0, b1, b2, b3));
    BytesRoundTrip(b0, b1, b2, b3);
  }
}
