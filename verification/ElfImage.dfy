/** The ELF loader of src/elf.c as functions on the machine: header fields, one page, one
    segment, all segments. */
module ElfImage {
  import opened Words
  import opened Frames
  import opened Quota
  import opened Machine
  import opened UserMemory
  import opened CopyLoops

  const ELF_MAGIC: int := 0x464C_457F
  const ELF_PROG_LOAD: int := 1
  const ELF_PROG_FLAG_WRITE: int := 2
  const ELF_SHT_STRTAB: int := 3
  const ELF_SHN_UNDEF: int := 0
  const PROGHDR_SIZE: int := 32
  const SECHDR_SIZE: int := 40

  datatype ProgHdr = ProgHdr(kind: uint32, offset: uint32, va: uint32, filesz: uint32, memsz: uint32, flags: uint32)

  function Half(m: seq<byte>, a: nat): (h: nat)
    requires a + 2 <= |m|
    ensures h < 0x1_0000
  {
    m[a] as int + 0x100 * m[a + 1] as int
  }

  /** Header fields at their offsets in `elfhdr`. */
  function PhOff(m: seq<byte>, exe: nat): uint32 requires exe + 52 <= |m| { Word(m, exe + 28) }
  function ShOff(m: seq<byte>, exe: nat): uint32 requires exe + 52 <= |m| { Word(m, exe + 32) }
  function PhNum(m: seq<byte>, exe: nat): nat requires exe + 52 <= |m| { Half(m, exe + 44) }
  function ShStrNdx(m: seq<byte>, exe: nat): nat requires exe + 52 <= |m| { Half(m, exe + 50) }

  /** The headers the loader reads lie in the image, below user memory. */
  ghost predicate HeadersFit(m: seq<byte>, exe: nat) {
    && |m| == WORD && PAGESIZE <= exe && exe + 52 <= USERLO
    && exe + ShOff(m, exe) + SECHDR_SIZE * (ShStrNdx(m, exe) + 1) <= USERLO
    && exe + PhOff(m, exe) + PROGHDR_SIZE * PhNum(m, exe) <= USERLO
  }

  /** The loader's three assertions. */
  predicate AssertsHold(m: seq<byte>, exe: nat)
    requires HeadersFit(m, exe)
  {
    && Word(m, exe) == ELF_MAGIC
    && ShStrNdx(m, exe) != ELF_SHN_UNDEF
    && Word(m, exe + ShOff(m, exe) + SECHDR_SIZE * ShStrNdx(m, exe) + 4) == ELF_SHT_STRTAB
  }

  function HdrAt(m: seq<byte>, ph: nat): ProgHdr
    requires ph + PROGHDR_SIZE <= |m|
  {
    ProgHdr(Word(m, ph), Word(m, ph + 4), Word(m, ph + 8), Word(m, ph + 16), Word(m, ph + 20), Word(m, ph + 24))
  }

  /** The `n` program headers from `ph` on. */
  function Hdrs(m: seq<byte>, ph: nat, n: nat): (hs: seq<ProgHdr>)
    requires ph + PROGHDR_SIZE * n <= |m|
    ensures |hs| == n && forall i :: 0 <= i < n ==> hs[i] == HdrAt(m, ph + PROGHDR_SIZE * i)
  {
    seq(n, i requires 0 <= i < n => HdrAt(m, ph + PROGHDR_SIZE * i))
  }

  // ----- the headers' layout, field by field

  function Bytes2(x: nat): seq<byte>
    requires x < 0x1_0000
  {
    [x % 256, x / 256]
  }

  /** A program header laid out as `struct proghdr`, read back. */
  lemma HdrLayout(m: seq<byte>, ph: nat, kind: uint32, offset: uint32, va: uint32, pa: uint32, filesz: uint32,
                  memsz: uint32, flags: uint32, align: uint32)
    requires ph + 32 <= |m|
    requires m[ph..ph + 32] == WordBytes(kind) + WordBytes(offset) + WordBytes(va) + WordBytes(pa) + WordBytes(filesz)
                               + WordBytes(memsz) + WordBytes(flags) + WordBytes(align)
    ensures HdrAt(m, ph) == ProgHdr(kind, offset, va, filesz, memsz, flags)
  {
    hide WordBytes;
  }

  /** The first 52 bytes of an image, laid out as `elfhdr`: the five fields the loader reads. */
  lemma ElfLayout(m: seq<byte>, exe: nat, magic: uint32, ident: seq<byte>, kind: nat, machine: nat, version: uint32,
                  entry: uint32, phoff: uint32, shoff: uint32, flags: uint32, ehsize: nat, phentsize: nat, phnum: nat,
                  shentsize: nat, shnum: nat, shstrndx: nat)
    requires exe + 52 <= |m| && |ident| == 12 && kind < 0x1_0000 && machine < 0x1_0000 && ehsize < 0x1_0000
    requires phentsize < 0x1_0000 && phnum < 0x1_0000 && shentsize < 0x1_0000 && shnum < 0x1_0000
    requires shstrndx < 0x1_0000
    requires m[exe..exe + 52]
             == WordBytes(magic) + ident + Bytes2(kind) + Bytes2(machine) + WordBytes(version) + WordBytes(entry)
                + WordBytes(phoff) + WordBytes(shoff) + WordBytes(flags) + Bytes2(ehsize) + Bytes2(phentsize)
                + Bytes2(phnum) + Bytes2(shentsize) + Bytes2(shnum) + Bytes2(shstrndx)
    ensures Word(m, exe) == magic && PhOff(m, exe) == phoff && ShOff(m, exe) == shoff
    ensures PhNum(m, exe) == phnum && ShStrNdx(m, exe) == shstrndx
  {
    hide WordBytes;
  }

  /** The assertions on the image's bytes: it starts with 7F 45 4C 46, names a string table
      section, and that section's header, 40 bytes long each, has type 3. */
  lemma AssertsIff(m: seq<byte>, exe: nat)
    requires HeadersFit(m, exe)
    ensures var sh := exe + ShOff(m, exe) + 40 * ShStrNdx(m, exe);
            && sh + 40 <= |m|
            && (AssertsHold(m, exe) <==>
                && m[exe..exe + 4] == [0x7F, 0x45, 0x4C, 0x46]
                && ShStrNdx(m, exe) != 0 && m[sh + 4..sh + 8] == [3, 0, 0, 0])
  {
    hide Word;
    WordIs(m, exe, 0x7F, 0x45, 0x4C, 0x46);
    WordIs(m, exe + ShOff(m, exe) + 40 * ShStrNdx(m, exe) + 4, 3, 0, 0, 0);
  }

  lemma WordIs(m: seq<byte>, a: nat, b0: byte, b1: byte, b2: byte, b3: byte)
    requires a + 4 <= |m|
    ensures Word(m, a) == b0 + 256 * b1 + 65536 * b2 + 16777216 * b3 <==> m[a..a + 4] == [b0, b1, b2, b3]
  {
    assert m[a..a + 4] == [m[a], m[a + 1], m[a + 2], m[a + 3]];
    SameBytes(m[a], m[a + 1], m[a + 2], m[a + 3], b0, b1, b2, b3);
  }

  lemma SameBytes(a0: byte, a1: byte, a2: byte, a3: byte, b0: byte, b1: byte, b2: byte, b3: byte)
    ensures a0 + 256 * a1 + 65536 * a2 + 16777216 * a3 == b0 + 256 * b1 + 65536 * b2 + 16777216 * b3
            <==> a0 == b0 && a1 == b1 && a2 == b2 && a3 == b3
  {
    var d2: int, d3: int := a2 - b2, a3 - b3;
    assert d3 != 0 ==> d3 >= 1 || d3 <= -1;
    assert d2 != 0 ==> d2 >= 1 || d2 <= -1;
  }

  function PermOf(h: ProgHdr): nat {
    if h.flags / ELF_PROG_FLAG_WRITE % 2 == 1 then PTE_U + PTE_P + PTE_W else PTE_U + PTE_P
  }

  // Where a segment lies: its first page, the end of its file part, the page after its last.

  function Base(h: ProgHdr): uint32 { RoundDown(h.va, PAGESIZE) }
  function ZeroFrom(h: ProgHdr): uint32 { (h.va + h.filesz) % WORD }
  function End(h: ProgHdr): uint32 { RoundUp((h.va + h.memsz) % WORD, PAGESIZE) }
  function FirstPage(h: ProgHdr): nat { h.va / PAGESIZE }
  function LastPage(h: ProgHdr): nat { (h.va + h.memsz + PAGESIZE - 1) / PAGESIZE }
  function FileBase(h: ProgHdr, exe: nat): nat { exe + RoundDown(h.offset, PAGESIZE) }

  /** What the System V gABI asks of a loadable segment, and that its file part is in the image. */
  ghost predicate SegmentOk(h: ProgHdr, exe: nat) {
    && USERLO <= h.va && h.va + h.memsz <= USERHI
    && h.filesz <= h.memsz && h.offset % PAGESIZE == h.va % PAGESIZE
    && PAGESIZE <= exe && exe + h.offset + h.filesz <= USERLO
  }

  /** Filling an allocated page from `fa` in the image: the three branches of the page loop. */
  function FillStep(s1: State, pid: nat, fa: nat, va: nat, h: ProgHdr, v: Variant): (r: State)
    requires Shaped(s1) && pid < MAX_PROCS && va + PAGESIZE <= WORD && fa + PAGESIZE <= WORD
    ensures Shaped(r)
  {
    if va < RoundDown(ZeroFrom(h), PAGESIZE) then CopyOut(s1, fa, pid, va, PAGESIZE, v)
    else if va < ZeroFrom(h) && h.filesz != 0 && ZeroFrom(h) - va <= PAGESIZE then
      CopyOut(MemSetUser(s1, pid, va, 0, PAGESIZE, v), fa, pid, va, ZeroFrom(h) - va, v)
    else MemSetUser(s1, pid, va, 0, PAGESIZE, v)
  }

  /** The loader's page loop body. */
  function LoadPage(s: State, pid: nat, fa: nat, va: nat, h: ProgHdr, v: Variant): (r: (State, bool))
    requires Shaped(s) && pid < MAX_PROCS && va + PAGESIZE <= WORD && fa + PAGESIZE <= WORD
    ensures Shaped(r.0)
  {
    var (s1, _, ok) := AllocPage(s, pid, va / PAGESIZE, PermOf(h), v);
    if ok then (FillStep(s1, pid, fa, va, h, v), true) else (s1, false)
  }

  /** The page loop over pages `[x, xe)`; a failed allocation panics, which stops the load. */
  function LoadPages(s: State, pid: nat, fa: nat, x: nat, xe: nat, h: ProgHdr, v: Variant): (r: (State, bool))
    requires Shaped(s) && pid < MAX_PROCS && xe <= NUM_PAGES && (x < xe ==> fa + (xe - x) * PAGESIZE <= WORD)
    ensures Shaped(r.0)
    decreases xe - x
  {
    if x >= xe then (s, true)
    else
      var (s1, ok) := LoadPage(s, pid, fa, x * PAGESIZE, h, v);
      if !ok then (s1, false) else LoadPages(s1, pid, fa + PAGESIZE, x + 1, xe, h, v)
  }

  ghost predicate AllOk(hs: seq<ProgHdr>, exe: nat) {
    forall i :: 0 <= i < |hs| && hs[i].kind == ELF_PROG_LOAD ==> SegmentOk(hs[i], exe)
  }

  lemma PageRounding(a: uint32)
    ensures RoundDown(a, PAGESIZE) == a / PAGESIZE * PAGESIZE
  {}

  /** The C expressions for the page loop's bounds, without their 32-bit wrap. */
  lemma SegmentPages(h: ProgHdr, exe: nat)
    requires SegmentOk(h, exe)
    ensures Base(h) == FirstPage(h) * PAGESIZE && End(h) == LastPage(h) * PAGESIZE && ZeroFrom(h) == h.va + h.filesz
    ensures USERLO_PI <= FirstPage(h) <= LastPage(h) <= USERHI_PI
    ensures PAGESIZE <= FileBase(h, exe) && FileBase(h, exe) - Base(h) == exe + h.offset - h.va
    ensures FileBase(h, exe) <= USERLO
  {
    PageRounding(h.va);
    PageRounding(h.offset);
    PageRounding(h.va + h.memsz + PAGESIZE - 1);
    assert (h.va + h.memsz) % WORD == h.va + h.memsz;
    assert (h.va + h.memsz + PAGESIZE - 1) % WORD == h.va + h.memsz + PAGESIZE - 1;
    SamePageOffset(h.va, h.offset);
  }

  lemma SamePageOffset(a: nat, b: nat)
    requires a % PAGESIZE == b % PAGESIZE
    ensures a - a / PAGESIZE * PAGESIZE == b - b / PAGESIZE * PAGESIZE
  {}

  function LoadSegment(s: State, pid: nat, exe: nat, h: ProgHdr, v: Variant): (r: (State, bool))
    requires Shaped(s) && pid < MAX_PROCS && SegmentOk(h, exe)
    ensures Shaped(r.0)
  {
    SegmentPages(h, exe);
    LoadPages(s, pid, FileBase(h, exe), FirstPage(h), LastPage(h), h, v)
  }

  function LoadSegments(s: State, pid: nat, exe: nat, hs: seq<ProgHdr>, v: Variant): (r: (State, bool))
    requires Shaped(s) && pid < MAX_PROCS && AllOk(hs, exe)
    ensures Shaped(r.0)
    decreases |hs|
  {
    if hs == [] then (s, true)
    else
      var rest := hs[1..];
      assert forall i :: 0 <= i < |rest| ==> rest[i] == hs[i + 1];
      if hs[0].kind != ELF_PROG_LOAD then LoadSegments(s, pid, exe, rest, v)
      else
        var (s1, ok) := LoadSegment(s, pid, exe, hs[0], v);
        if !ok then (s1, false) else LoadSegments(s1, pid, exe, rest, v)
  }
}
