/**
  Program images by their fields: struct Elf and struct Proghdr of inc/elf.h as they lie in a file, and
  load_icode's promise in terms of them.
 */
module Elf {
  import opened Mmu
  import opened Vm
  import opened VmInvariant
  import opened PageTables
  import opened AddressSpace
  import opened Bytes
  import opened UserMemory
  import opened Loader

  type Uint16 = n: int | 0 <= n < 0x1_0000

  datatype Elfhdr = Elfhdr(
    magic: Addr, elf: seq<Byte>, etype: Uint16, machine: Uint16, version: Addr, entry: Addr, phoff: Addr, shoff: Addr,
    flags: Addr, ehsize: Uint16, phentsize: Uint16, phnum: Uint16, shentsize: Uint16, shnum: Uint16, shstrndx: Uint16)

  datatype Proghdr = Proghdr(
    ptype: Addr, offset: Addr, va: Addr, pa: Addr, filesz: Addr, memsz: Addr, flags: Addr, align: Addr)

  // ---- the layout ---------------------------------------------------------------------------

  /** The least significant byte comes first. */
  function Le16(n: Uint16): (b: seq<Byte>)
    ensures |b| == 2
  {
    [n % 0x100, n / 0x100]
  }

  function Le32(n: Addr): (b: seq<Byte>)
    ensures |b| == 4
  {
    [n % 0x100, n / 0x100 % 0x100, n / 0x1_0000 % 0x100, n / 0x100_0000]
  }

  function EncodeElf(h: Elfhdr): seq<Byte> {
    Le32(h.magic) + h.elf + Le16(h.etype) + Le16(h.machine) + Le32(h.version) + Le32(h.entry) + Le32(h.phoff)
    + Le32(h.shoff) + Le32(h.flags) + Le16(h.ehsize) + Le16(h.phentsize) + Le16(h.phnum) + Le16(h.shentsize)
    + Le16(h.shnum) + Le16(h.shstrndx)
  }

  function EncodePh(ph: Proghdr): seq<Byte> {
    Le32(ph.ptype) + Le32(ph.offset) + Le32(ph.va) + Le32(ph.pa) + Le32(ph.filesz) + Le32(ph.memsz)
    + Le32(ph.flags) + Le32(ph.align)
  }

  /** The image starts with h and has the program headers at h.phoff, one after the other. */
  ghost predicate Image(binary: seq<Byte>, h: Elfhdr, phs: seq<Proghdr>) {
    && |h.elf| == 12 && |phs| == h.phnum && 52 <= |binary| && h.phoff + 32 * |phs| <= |binary|
    && binary[..52] == EncodeElf(h)
    && (forall k: nat :: k < |phs| ==> binary[h.phoff + 32 * k..h.phoff + 32 * k + 32] == EncodePh(phs[k]))
  }

  // ---- what load_icode is promised ----------------------------------------------------------

  predicate PtLoad(ph: Proghdr) {
    ph.ptype == 1
  }

  /** Address a lies in the memory of a program header that is loaded. */
  ghost predicate InMemory(ph: Proghdr, a: nat) {
    PtLoad(ph) && ph.va <= a < ph.va + ph.memsz
  }

  /** The last address of the page below USTACKTOP is 0xEEBFDFFF. */
  ghost predicate InStack(a: nat) {
    0xEEBF_D000 <= a < 0xEEBF_E000
  }

  /** Below UTOP, no file bytes without memory, file bytes in the image; no page shared with another or the stack. */
  ghost predicate Proper(binary: seq<Byte>, phs: seq<Proghdr>) {
    && (forall ph :: ph in phs && PtLoad(ph) ==>
          ph.va + ph.memsz <= 0xEEC0_0000 && ph.filesz <= ph.memsz && ph.offset + ph.filesz <= |binary|)
    && (forall i: nat, j: nat, a: nat, b: nat :: i < j < |phs| && InMemory(phs[i], a) && InMemory(phs[j], b) ==>
          a / PGSIZE != b / PGSIZE)
    && (forall ph, a: nat, b: nat :: ph in phs && InMemory(ph, a) && InStack(b) ==> a / PGSIZE != b / PGSIZE)
  }

  /** Page n holds a byte of a loaded header's memory or of the stack. */
  ghost predicate Used(phs: seq<Proghdr>, n: nat) {
    exists a: nat :: a / PGSIZE == n && (InStack(a) || exists ph :: ph in phs && InMemory(ph, a))
  }

  ghost function UsedPages(phs: seq<Proghdr>): (pages: set<VPage>)
    ensures forall v :: v in pages <==> v in UserPages() && Used(phs, v.i * NPTENTRIES + v.j)
  {
    set v | v in UserPages() && Used(phs, v.i * NPTENTRIES + v.j)
  }

  // ---- reading the fields -------------------------------------------------------------------

  lemma ReadFull(b: seq<Byte>, off: nat, n: Addr)
    requires off + 4 <= |b| && b[off..off + 4] == Le32(n)
    ensures Full(b, off) == n
  {
    var w := b[off..off + 4];
    assert b[off] == w[0] && b[off + 1] == w[1] && b[off + 2] == w[2] && b[off + 3] == w[3];
    FourBytes(n);
  }

  lemma FourBytes(n: Addr)
    ensures FromBytes(n % 0x100, n / 0x100 % 0x100, n / 0x1_0000 % 0x100, n / 0x100_0000) == n
  {
    SecondByte(n);
    ThirdByte(n);
  }

  lemma SecondByte(n: nat)
    ensures n / 0x100 == n / 0x1_0000 * 0x100 + n / 0x100 % 0x100
  {
  }

  lemma ThirdByte(n: nat)
    ensures n / 0x1_0000 == n / 0x100_0000 * 0x100 + n / 0x1_0000 % 0x100
  {
  }

  lemma ReadHalf(b: seq<Byte>, off: nat, n: Uint16)
    requires off + 2 <= |b| && b[off..off + 2] == Le16(n)
    ensures Half(b, off) == n
  {
    var w := b[off..off + 2];
    assert b[off] == w[0] && b[off + 1] == w[1];
  }

  lemma ElfFields(h: Elfhdr)
    requires |h.elf| == 12
    ensures var b := EncodeElf(h);
      && |b| == 52 && b[0..4] == Le32(h.magic) && b[24..28] == Le32(h.entry) && b[28..32] == Le32(h.phoff)
      && b[44..46] == Le16(h.phnum)
  {
    hide Le32;
    hide Le16;
  }

  lemma PhFields(ph: Proghdr)
    ensures var b := EncodePh(ph);
      && |b| == 32 && b[0..4] == Le32(ph.ptype) && b[4..8] == Le32(ph.offset) && b[8..12] == Le32(ph.va)
      && b[16..20] == Le32(ph.filesz) && b[20..24] == Le32(ph.memsz)
  {
    hide Le32;
  }

  lemma ReadHeader(binary: seq<Byte>, h: Elfhdr, phs: seq<Proghdr>)
    requires Image(binary, h, phs)
    ensures HeadersInside(binary) && Half(binary, 44) == |phs|
    ensures Full(binary, 0) == h.magic && EntryPoint(binary) == h.entry && Full(binary, 28) == h.phoff
  {
    hide Le32;
    hide Le16;
    hide Full;
    hide Half;
    ElfFields(h);
    hide EncodeElf;
    assert binary[0..4] == binary[..52][0..4] && binary[24..28] == binary[..52][24..28];
    assert binary[28..32] == binary[..52][28..32] && binary[44..46] == binary[..52][44..46];
    ReadFull(binary, 0, h.magic);
    ReadFull(binary, 24, h.entry);
    ReadFull(binary, 28, h.phoff);
    ReadHalf(binary, 44, h.phnum);
  }

  function SegmentOf(ph: Proghdr): Segment {
    Segment(ph.va, ph.offset, ph.filesz, ph.memsz)
  }

  lemma ReadPh(binary: seq<Byte>, h: Elfhdr, phs: seq<Proghdr>, k: nat)
    requires Image(binary, h, phs) && k < |phs|
    ensures HeadersInside(binary) && k < Half(binary, 44) && Header(binary, k) == (phs[k].ptype, SegmentOf(phs[k]))
  {
    hide Le32;
    hide Full;
    hide Half;
    hide EncodePh;
    hide EncodeElf;
    ReadHeader(binary, h, phs);
    var at := h.phoff + 32 * k;
    assert binary[at..at + 32] == EncodePh(phs[k]);
    hide Image;
    ReadPhAt(binary, at, phs[k]);
  }

  lemma ReadPhAt(binary: seq<Byte>, at: nat, ph: Proghdr)
    requires at + 32 <= |binary| && binary[at..at + 32] == EncodePh(ph)
    ensures Full(binary, at) == ph.ptype && Full(binary, at + 4) == ph.offset && Full(binary, at + 8) == ph.va
    ensures Full(binary, at + 16) == ph.filesz && Full(binary, at + 20) == ph.memsz
  {
    hide Le32;
    hide Full;
    PhFields(ph);
    hide EncodePh;
    Part(binary, at, 32, 0, 4);
    Part(binary, at, 32, 4, 8);
    Part(binary, at, 32, 8, 12);
    Part(binary, at, 32, 16, 20);
    Part(binary, at, 32, 20, 24);
    ReadFull(binary, at, ph.ptype);
    ReadFull(binary, at + 4, ph.offset);
    ReadFull(binary, at + 8, ph.va);
    ReadFull(binary, at + 16, ph.filesz);
    ReadFull(binary, at + 20, ph.memsz);
  }

  lemma Part(b: seq<Byte>, at: nat, n: nat, lo: nat, hi: nat)
    requires lo <= hi <= n && at + n <= |b|
    ensures b[at..at + n][lo..hi] == b[at + lo..at + hi]
  {
    var x, y := b[at..at + n][lo..hi], b[at + lo..at + hi];
    forall k | 0 <= k < |x| ensures x[k] == y[k] {
    }
  }

  /** The segments of the headers that are loaded, in order. */
  ghost function Loads(phs: seq<Proghdr>): (segs: seq<Segment>)
    ensures forall seg :: seg in segs <==> exists ph :: ph in phs && PtLoad(ph) && seg == SegmentOf(ph)
  {
    if phs == [] then []
    else
      assert phs == [phs[0]] + phs[1..];
      (if PtLoad(phs[0]) then [SegmentOf(phs[0])] else []) + Loads(phs[1..])
  }

  lemma {:induction false} ReadSegments(binary: seq<Byte>, h: Elfhdr, phs: seq<Proghdr>, k: nat)
    requires Image(binary, h, phs) && k <= |phs|
    ensures HeadersInside(binary) && Half(binary, 44) == |phs| && Segments(binary, k) == Loads(phs[k..])
    decreases |phs| - k
  {
    ReadHeader(binary, h, phs);
    hide Image;
    hide Header;
    hide Half;
    if k < |phs| {
      ReadPh(binary, h, phs, k);
      ReadSegments(binary, h, phs, k + 1);
      assert phs[k..][1..] == phs[k + 1..];
    }
  }

  // ---- segments, pages and headers ----------------------------------------------------------

  lemma SegPagesUsed(ph: Proghdr, v: VPage)
    requires PtLoad(ph) && ph.va + ph.memsz <= UTOP
    ensures v in SegPages(SegmentOf(ph)) <==>
      v in UserPages() && exists a: nat :: InMemory(ph, a) && a / PGSIZE == v.i * NPTENTRIES + v.j
  {
    if ph.memsz > 0 {
      PagesTouched(ph.va, ph.memsz, v.i * NPTENTRIES + v.j);
      if v in SegPages(SegmentOf(ph)) {
        var a: nat :| ph.va <= a < ph.va + ph.memsz && a / PGSIZE == v.i * NPTENTRIES + v.j;
        assert InMemory(ph, a);
      }
    }
  }

  lemma ProperRest(binary: seq<Byte>, phs: seq<Proghdr>)
    requires Proper(binary, phs) && phs != []
    ensures Proper(binary, phs[1..])
  {
    var rest := phs[1..];
    assert forall i: nat :: i < |rest| ==> rest[i] == phs[i + 1];
  }

  lemma {:induction false} SeparateLoads(binary: seq<Byte>, phs: seq<Proghdr>)
    requires Proper(binary, phs)
    ensures Separate(Loads(phs)) && forall seg :: seg in Loads(phs) ==> Loadable(seg, binary)
    decreases |phs|
  {
    hide SegPages;
    if phs != [] {
      var rest := phs[1..];
      ProperRest(binary, phs);
      SeparateLoads(binary, rest);
      if PtLoad(phs[0]) {
        forall seg | seg in Loads(rest) ensures SegPages(SegmentOf(phs[0])) !! SegPages(seg) {
          var j :| 0 <= j < |rest| && PtLoad(rest[j]) && seg == SegmentOf(rest[j]);
          ApartPages(binary, phs, 0, j + 1);
        }
        NotTheStack(binary, phs, phs[0]);
        assert Loads(phs) == [SegmentOf(phs[0])] + Loads(rest);
      } else {
        assert Loads(phs) == Loads(rest);
      }
    }
  }

  lemma ApartPages(binary: seq<Byte>, phs: seq<Proghdr>, i: nat, j: nat)
    requires Proper(binary, phs) && i < j < |phs| && PtLoad(phs[i]) && PtLoad(phs[j])
    ensures SegPages(SegmentOf(phs[i])) !! SegPages(SegmentOf(phs[j]))
  {
    hide SegPages;
    forall v ensures !(v in SegPages(SegmentOf(phs[i])) && v in SegPages(SegmentOf(phs[j]))) {
      SegPagesUsed(phs[i], v);
      SegPagesUsed(phs[j], v);
    }
  }

  lemma StackPage(v: VPage)
    ensures v == STACKPAGE <==> v in UserPages() && exists b: nat :: InStack(b) && b / PGSIZE == v.i * NPTENTRIES + v.j
  {
    assert InStack(0xEEBF_D000);
    assert forall b: nat :: InStack(b) ==> b / PGSIZE == 0xE_EBFD;
  }

  lemma NotTheStack(binary: seq<Byte>, phs: seq<Proghdr>, ph: Proghdr)
    requires Proper(binary, phs) && ph in phs && PtLoad(ph)
    ensures STACKPAGE !in SegPages(SegmentOf(ph))
  {
    hide SegPages;
    SegPagesUsed(ph, STACKPAGE);
    StackPage(STACKPAGE);
  }

  lemma {:induction false} InSomeSegment(segs: seq<Segment>, v: VPage)
    ensures v in AllPages(segs) <==> exists seg :: seg in segs && v in SegPages(seg)
  {
    if segs != [] {
      InSomeSegment(segs[1..], v);
      assert segs == [segs[0]] + segs[1..];
    }
  }

  lemma AllPagesUsed(binary: seq<Byte>, phs: seq<Proghdr>)
    requires Proper(binary, phs)
    ensures AllPages(Loads(phs)) + {STACKPAGE} == UsedPages(phs)
  {
    hide SegPages;
    hide AllPages;
    hide Loads;
    hide Proper;
    forall v ensures v in AllPages(Loads(phs)) + {STACKPAGE} <==> v in UsedPages(phs) {
      PageUsed(binary, phs, v);
    }
  }

  lemma PageUsed(binary: seq<Byte>, phs: seq<Proghdr>, v: VPage)
    requires Proper(binary, phs)
    ensures v in AllPages(Loads(phs)) || v == STACKPAGE <==> v in UserPages() && Used(phs, v.i * NPTENTRIES + v.j)
  {
    hide SegPages;
    hide AllPages;
    InSomeSegment(Loads(phs), v);
    StackPage(v);
    forall ph | ph in phs && PtLoad(ph) ensures v in SegPages(SegmentOf(ph)) <==>
      v in UserPages() && exists a: nat :: InMemory(ph, a) && a / PGSIZE == v.i * NPTENTRIES + v.j
    {
      SegPagesUsed(ph, v);
    }
  }

  // ---- load_icode ---------------------------------------------------------------------------

  /** load_icode can be called on such an image. */
  lemma ImageWellFormed(binary: seq<Byte>, h: Elfhdr, phs: seq<Proghdr>)
    requires Image(binary, h, phs) && Proper(binary, phs)
    ensures WellFormed(binary) && Segments(binary, 0) == Loads(phs) && Separate(Loads(phs))
  {
    ReadSegments(binary, h, phs, 0);
    assert phs[0..] == phs;
    SeparateLoads(binary, phs);
    hide Image;
  }

  /**
    Loading an image into a fresh environment, by its fields.  It succeeds exactly with the magic number
    "\x7FELF" and enough free pages for the used pages and their tables, and takes exactly those.  Then
    tf_eip is e_entry; exactly the used pages are mapped, user-writable; byte k of each PT_LOAD header's
    memory is byte k of its part of the file, and 0 from p_filesz on; and the stack page is zero.
   */
  lemma LoadsImage(s: State, e: nat, binary: seq<Byte>, h: Elfhdr, phs: seq<Proghdr>)
    requires Inv(s) && e in s.vm.dirs && Mapping(s.vm, e) == map[]
    requires Image(binary, h, phs) && Proper(binary, phs)
    ensures WellFormed(binary)
    ensures var d, pages := s.vm.dirs[e], UsedPages(phs); var r := LoadIcode(s, d, binary);
      && (r.Some? <==> h.magic == 0x464C_457F && Need(s.vm, d, pages) <= |s.free|)
      && (r.Some? ==> var (s', eip) := r.value;
            && eip == h.entry
            && Inv(s') && s'.vm.dirs == s.vm.dirs && OthersSame(s.vm, s'.vm, d)
            && |s'.free| + Need(s.vm, d, pages) == |s.free|
            && Mapping(s'.vm, e).Keys == pages && (forall v :: v in pages ==> Mapping(s'.vm, e)[v].flags == PTE_PWU)
            && HoldsImage(s'.vm, d, binary, phs) && forall a: Addr :: InStack(a) ==> ByteAt(s'.vm, d, a) == Some(0))
  {
    hide Proper;
    hide HoldsImage;
    hide Loads;
    hide Inv;
    hide OthersSame;
    hide Need;
    hide Mapping;
    hide ByteAt;
    hide LoadIcode;
    hide SegPages;
    hide AllPages;
    hide UsedPages;
    ImageWellFormed(binary, h, phs);
    ReadHeader(binary, h, phs);
    hide Image;
    hide WellFormed;
    hide EntryPoint;
    LoadExact(s, e, binary);
    AllPagesUsed(binary, phs);
    StackAddresses();
    hide InStack;
    hide PageOf;
    var r := LoadIcode(s, s.vm.dirs[e], binary);
    if r.Some? {
      SegmentsHeld(r.value.0.vm, s.vm.dirs[e], binary, phs);
    }
  }

  lemma StackAddresses()
    ensures forall a: Addr :: InStack(a) ==> PageOf(Pgnum(a)) == STACKPAGE
  {
  }

  /** Byte k of each loaded header's memory is byte k of its part of the file, or 0 beyond that. */
  ghost predicate HoldsImage(vm: Tables, d: nat, binary: seq<Byte>, phs: seq<Proghdr>)
    requires Proper(binary, phs)
  {
    forall ph, a: Addr :: ph in phs && InMemory(ph, a) ==>
      ByteAt(vm, d, a) == Some(if a - ph.va < ph.filesz then binary[ph.offset + (a - ph.va)] else 0)
  }

  lemma SegmentsHeld(vm: Tables, d: nat, binary: seq<Byte>, phs: seq<Proghdr>)
    requires Proper(binary, phs)
    requires forall seg :: seg in Loads(phs) ==> Loadable(seg, binary) && Holds(vm, d, seg, binary)
    ensures HoldsImage(vm, d, binary, phs)
  {
    hide ByteAt;
    forall ph, a: Addr | ph in phs && InMemory(ph, a)
      ensures ByteAt(vm, d, a) == Some(if a - ph.va < ph.filesz then binary[ph.offset + (a - ph.va)] else 0)
    {
      assert SegmentOf(ph) in Loads(phs);
    }
  }
}
