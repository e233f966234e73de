/** The mapping loop of the bootstrap, `map_interp` of
    `crates/onelf-payloads/src/bootstrap.rs`, over a memory of cells that `mmap` and plain
    stores change. What it must build is the load image of the System V ABI, chapter 5,
    Program Loading. Addresses are 64 bits wide and wrap; the page size is a parameter.
 */
module LoadImage {
  import opened Bytes

  const WRAP: nat := 0x1_0000_0000_0000_0000
  const HALF: nat := 0x8000_0000_0000_0000

  datatype Prot = Prot(read: bool, write: bool, exec: bool)

  /** A mapped byte. Pages wholly past the end of their file cannot be touched. */
  datatype Cell = Cell(value: byte, prot: Prot) | Beyond(prot: Prot)

  /** What is mapped at each address. */
  type Cells = int -> Option<Cell>

  datatype Phdr = Phdr(load: bool, prot: Prot, offset: nat, vaddr: nat, filesz: nat, memsz: nat)

  // ---- pages ---------------------------------------------------------------------------

  function PageDown(x: nat, page: nat): (r: nat)
    requires page > 0
  {
    x - x % page
  }

  /** The mask trick: the next page boundary at or after `x`. */
  function PageUp(x: nat, page: nat): nat
    requires page > 0
  {
    PageDown(x + page - 1, page)
  }

  predicate Aligned(x: int, page: nat)
    requires page > 0
  {
    x % page == 0
  }

  lemma ModBasics(x: int, page: nat)
    requires page > 0
    ensures x == page * (x / page) + x % page && 0 <= x % page < page
  {
  }

  lemma Multiple(k: int, page: nat)
    requires page > 0
    ensures Aligned(page * k, page)
  {
    var q, r := (page * k) / page, (page * k) % page;
    assert page * k == page * q + r && 0 <= r < page;
    if k > q { Product(page, k - q); } else if k < q { Product(page, q - k); }
  }

  lemma Product(page: nat, d: nat)
    requires d >= 1
    ensures page * d >= page
  {
  }

  lemma AlignedSum(a: int, b: int, page: nat)
    requires page > 0 && Aligned(a, page) && Aligned(b, page)
    ensures Aligned(a + b, page) && Aligned(a - b, page)
  {
    var i, j := a / page, b / page;
    assert a == page * i && b == page * j;
    Multiple(i + j, page);
    Multiple(i - j, page);
    assert page * (i + j) == a + b && page * (i - j) == a - b;
  }

  lemma PageDownIs(x: nat, page: nat)
    requires page > 0
    ensures Aligned(PageDown(x, page), page) && PageDown(x, page) <= x < PageDown(x, page) + page
  {
    ModBasics(x, page);
    Multiple(x / page, page);
  }

  lemma PageUpIs(x: nat, page: nat)
    requires page > 0
    ensures Aligned(PageUp(x, page), page) && x <= PageUp(x, page) < x + page
  {
    PageDownIs(x + page - 1, page);
  }

  /** Two boundaries less than a page apart are one. */
  lemma AlignedClose(a: int, b: int, page: nat)
    requires page > 0 && Aligned(a, page) && Aligned(b, page) && a - b < page && b - a < page
    ensures a == b
  {
    AlignedSum(a, b, page);
    var d := a - b;
    ModBasics(d, page);
    if d / page > 0 { Product(page, d / page); } else if d / page < 0 { Product(page, -(d / page)); }
  }

  /** No page boundary lies between `x` and the next one. */
  lemma PageUpIsNext(x: nat, a: int, page: nat)
    requires page > 0 && Aligned(a, page) && x <= a
    ensures PageUp(x, page) <= a
  {
    PageUpIs(x, page);
    if a < PageUp(x, page) { AlignedClose(a, PageUp(x, page), page); }
  }

  /** Rounding up commutes with moving by whole pages. */
  lemma PageUpMoves(x: nat, d: int, page: nat)
    requires page > 0 && Aligned(d, page) && x + d >= 0
    ensures PageUp(x + d, page) == PageUp(x, page) + d
  {
    PageUpIs(x, page);
    PageUpIs(x + d, page);
    AlignedSum(PageUp(x, page), d, page);
    AlignedClose(PageUp(x + d, page), PageUp(x, page) + d, page);
  }

  // ---- what the kernel does ------------------------------------------------------------

  /** A byte of a file mapping: zero up to the end of the last page, and nothing after it. */
  function FileCell(file: seq<byte>, page: nat, o: nat, prot: Prot): Cell
    requires page > 0
  {
    if o < |file| then Cell(file[o], prot)
    else if o < PageUp(|file|, page) then Cell(0, prot)
    else Beyond(prot)
  }

  /** Memory after a mapping of the pages from `va`, with `off` the file offset of the first. */
  function FileMapped(cells: Cells, file: seq<byte>, page: nat, va: int, len: nat, prot: Prot, off: nat): Cells
    requires page > 0
  {
    (a: int) => if va <= a < va + PageUp(len, page) then Some(FileCell(file, page, off + (a - va), prot)) else cells(a)
  }

  function ZeroMapped(cells: Cells, page: nat, va: int, len: nat, prot: Prot): Cells
    requires page > 0
  {
    (a: int) => if va <= a < va + PageUp(len, page) then Some(Cell(0, prot)) else cells(a)
  }

  /** A store faults unless the cell is there and writable. */
  predicate Writable(cells: Cells, a: int) {
    match cells(a)
    case Some(Cell(_, prot)) => prot.write
    case _ => false
  }

  function Stored(cell: Option<Cell>, b: byte): Option<Cell> {
    match cell
    case Some(Cell(_, prot)) => Some(Cell(b, prot))
    case _ => cell
  }

  class Memory {
    var cells: Cells

    constructor (cells: Cells)
      ensures this.cells == cells
    {
      this.cells := cells;
    }

    /** `bzero`: plain stores, one byte after another, up to the first that faults. */
    method Zero(from: int, n: nat) returns (ok: bool)
      modifies this
      ensures ok <==> forall a: int :: from <= a < from + n ==> Writable(old(cells), a)
      ensures ok ==>
        forall a: int :: cells(a) == if from <= a < from + n then Stored(old(cells)(a), 0) else old(cells)(a)
    {
      ghost var was := cells;
      for i := 0 to n
        invariant forall a: int :: from <= a < from + i ==> Writable(was, a)
        invariant forall a: int :: cells(a) == if from <= a < from + i then Stored(was(a), 0) else was(a)
      {
        assert Writable(cells, from + i) <==> Writable(was, from + i);
        if !Writable(cells, from + i) { return false; }
        var now := cells;
        cells := (a: int) => if a == from + i then Stored(now(a), 0) else now(a);
      }
      return true;
    }
  }

  // ---- what is promised --------------------------------------------------------------------

  /** The bytes of a segment at their place: the file's below `filesz` and zero from there. */
  ghost predicate Loaded(cells: Cells, base: int, file: seq<byte>, p: Phdr) {
    forall a: int :: base + p.vaddr <= a < base + p.vaddr + p.memsz ==>
      cells(a) == Some(Cell(ImageByte(file, p, a - base - p.vaddr), p.prot))
  }

  function ImageByte(file: seq<byte>, p: Phdr, k: nat): byte {
    if k < p.filesz && p.offset + k < |file| then file[p.offset + k] else 0
  }

  /** The segment's first page. */
  function Begin(p: Phdr, page: nat): nat
    requires page > 0
  {
    PageDown(p.vaddr, page)
  }

  /** Where the segment ends in memory, to a page. */
  function End(p: Phdr, page: nat): nat
    requires page > 0
  {
    PageUp(p.vaddr + p.memsz, page)
  }

  /** Where its file contents end, to a page. */
  function FileEnd(p: Phdr, page: nat): nat
    requires page > 0
  {
    PageUp(p.vaddr + p.filesz, page)
  }

  predicate GoodSegment(p: Phdr, file: seq<byte>, page: nat)
    requires page > 0
  {
    && p.offset % page == p.vaddr % page
    && p.filesz <= p.memsz
    && p.offset + p.filesz <= |file|
  }

  /** Without file contents, and not at the start of a page. */
  predicate Hollow(p: Phdr, page: nat)
    requires page > 0
  {
    p.filesz == 0 < p.memsz && p.offset % page != 0
  }

  /** The rest of the last file page is cleared, or the segment is not writable and keeps the file's bytes there. */
  ghost predicate TailIs(cells: Cells, base: int, file: seq<byte>, page: nat, p: Phdr)
    requires page > 0
  {
    forall a: int :: base + p.vaddr + p.filesz <= a < base + FileEnd(p, page) ==>
      cells(a) ==
        Some(if p.prot.write then Cell(0, p.prot) else FileCell(file, page, p.offset + (a - base - p.vaddr), p.prot))
  }

  /** What the loop leaves at every byte of a segment, and to the end of its last page if it has a tail. */
  ghost predicate Described(cells: Cells, base: int, file: seq<byte>, page: nat, p: Phdr)
    requires page > 0
  {
    && (forall a: int :: base + p.vaddr <= a < base + p.vaddr + p.filesz ==>
          cells(a) == Some(Cell(ImageByte(file, p, a - base - p.vaddr), p.prot)))
    && (p.filesz < p.memsz ==>
          && TailIs(cells, base, file, page, p)
          && (forall a: int :: base + FileEnd(p, page) <= a < base + End(p, page) ==>
              cells(a) == Some(Cell(0, p.prot))))
  }

  /** In the file, what follows the segment on its last page is zero as far as the segment goes. */
  predicate ZeroInFile(file: seq<byte>, page: nat, p: Phdr)
    requires page > 0
  {
    forall o :: p.offset + p.filesz <= o < |file| && o < p.offset + p.memsz && o < p.offset + FileEnd(p, page) - p.vaddr
      ==> file[o] == 0
  }

  /** Where in the file the mapping of the whole image, made for its first segment, has an address. */
  function FirstOffset(f: Phdr, page: nat, k: nat): nat
    requires page > 0 && k >= Begin(f, page)
  {
    PageDown(f.offset, page) + (k - Begin(f, page))
  }

  /** What the loop leaves of a later segment that is hollow: up to the next page it is what was
      mapped for the first segment `f`, cleared if the later one is writable. */
  ghost predicate HollowDescribed(cells: Cells, base: int, file: seq<byte>, page: nat, f: Phdr, p: Phdr)
    requires page > 0 && Begin(f, page) <= p.vaddr
  {
    && (forall a: int :: base + p.vaddr <= a < base + FileEnd(p, page) ==>
          cells(a) == Some(
            if p.prot.write then Cell(0, f.prot)
            else FileCell(file, page, FirstOffset(f, page, a - base), f.prot)))
    && (forall a: int :: base + FileEnd(p, page) <= a < base + End(p, page) ==> cells(a) == Some(Cell(0, p.prot)))
  }

  /** The first mapping has bytes of a page of the file where a hollow segment starts. */
  predicate InFile(file: seq<byte>, page: nat, f: Phdr, p: Phdr)
    requires page > 0 && Begin(f, page) <= p.vaddr
  {
    FirstOffset(f, page, p.vaddr) < PageUp(|file|, page)
  }

  /** In the file, what the first mapping has there is zero as far as the hollow segment goes. */
  predicate ZeroInFirst(file: seq<byte>, page: nat, f: Phdr, p: Phdr)
    requires page > 0 && Begin(f, page) <= p.vaddr
  {
    forall k :: p.vaddr <= k < FileEnd(p, page) && k < p.vaddr + p.memsz && FirstOffset(f, page, k) < |file|
      ==> file[FirstOffset(f, page, k)] == 0
  }

  lemma FileBytes(file: seq<byte>, page: nat, p: Phdr, o: nat)
    requires page > 0 && GoodSegment(p, file, page)
    requires o < p.offset + FileEnd(p, page) - p.vaddr
    ensures FileCell(file, page, o, p.prot) == Cell(if o < |file| then file[o] else 0, p.prot)
  {
    var d := p.offset - p.vaddr;
    PageDownIs(p.vaddr, page);
    PageDownIs(p.offset, page);
    AlignedSum(PageDown(p.offset, page), PageDown(p.vaddr, page), page);
    PageUpMoves(p.vaddr + p.filesz, d, page);
    PageUpIs(|file|, page);
    PageUpIs(p.vaddr + p.memsz, page);
    PageUpIsNext(p.offset + p.filesz, PageUp(|file|, page), page);
  }

  lemma FileEndIsWithin(p: Phdr, page: nat)
    requires page > 0 && p.filesz <= p.memsz
    ensures p.vaddr + p.filesz <= FileEnd(p, page) <= End(p, page) && p.vaddr + p.memsz <= End(p, page)
  {
    PageUpIs(p.vaddr + p.filesz, page);
    PageUpIs(p.vaddr + p.memsz, page);
    PageUpIsNext(p.vaddr + p.filesz, End(p, page), page);
  }

  /** The image of a segment is right exactly when it is writable, has no tail, or the file is zero where the
      tail begins. */
  lemma LoadedExactly(cells: Cells, base: int, file: seq<byte>, page: nat, p: Phdr)
    requires page > 0 && GoodSegment(p, file, page) && Described(cells, base, file, page, p)
    ensures Loaded(cells, base, file, p) <==> p.prot.write || p.filesz == p.memsz || ZeroInFile(file, page, p)
  {
    FileEndIsWithin(p, page);
    hide GoodSegment, FileEnd, End;
    var start := base + p.vaddr;
    if p.prot.write || p.filesz == p.memsz {
    } else {
      forall a | start + p.filesz <= a < base + FileEnd(p, page)
        ensures var o := p.offset + (a - start);
          cells(a) == Some(Cell(if o < |file| then file[o] else 0, p.prot))
      {
        FileBytes(file, page, p, p.offset + (a - start));
      }
      if Loaded(cells, base, file, p) {
        forall o | p.offset + p.filesz <= o < |file| && o < p.offset + p.memsz &&
          o < p.offset + FileEnd(p, page) - p.vaddr
          ensures file[o] == 0
        {
          assert cells(start + (o - p.offset)) == Some(Cell(0, p.prot));
        }
      }
    }
  }

  /** Without a page boundary between them, two addresses are on the page of the file that one of them is on. */
  lemma OnePage(file: seq<byte>, page: nat, f: Phdr, p: Phdr, k: nat)
    requires page > 0 && Begin(f, page) <= p.vaddr <= k < FileEnd(p, page) && p.filesz == 0
    ensures FirstOffset(f, page, k) < PageUp(|file|, page) <==> InFile(file, page, f, p)
  {
    PageDownIs(f.vaddr, page);
    PageDownIs(f.offset, page);
    PageUpIs(|file|, page);
    var o := PageDown(f.offset, page);
    var e := PageUp(|file|, page) - o + Begin(f, page);
    AlignedSum(PageUp(|file|, page), o, page);
    AlignedSum(PageUp(|file|, page) - o, Begin(f, page), page);
    assert Aligned(e, page);
    if p.vaddr <= e { PageUpIsNext(p.vaddr, e, page); }
  }

  /** The image of a hollow segment is right exactly when its protection is that of the first one
      and the bytes are cleared, or are in the file and zero there. */
  lemma HollowExactly(cells: Cells, base: int, file: seq<byte>, page: nat, f: Phdr, p: Phdr)
    requires page > 0 && GoodSegment(p, file, page) && Hollow(p, page) && Begin(f, page) <= p.vaddr
    requires HollowDescribed(cells, base, file, page, f, p)
    ensures Loaded(cells, base, file, p)
      <==> f.prot == p.prot && (p.prot.write || (InFile(file, page, f, p) && ZeroInFirst(file, page, f, p)))
  {
    FileEndIsWithin(p, page);
    OffPage(p, page);
    var start := base + p.vaddr;
    assert cells(start) ==
      Some(if p.prot.write then Cell(0, f.prot) else FileCell(file, page, FirstOffset(f, page, p.vaddr), f.prot));
    hide GoodSegment, Hollow, FileEnd, End, PageUp, FirstOffset;
    if !p.prot.write {
      forall k | p.vaddr <= k < FileEnd(p, page)
        ensures cells(base + k) == Some(FileCell(file, page, FirstOffset(f, page, k), f.prot))
        ensures FirstOffset(f, page, k) < PageUp(|file|, page) <==> InFile(file, page, f, p)
      {
        assert cells(base + k) == Some(FileCell(file, page, FirstOffset(f, page, base + k - base), f.prot));
        OnePage(file, page, f, p, k);
      }
      if f.prot == p.prot && InFile(file, page, f, p) {
        forall k | p.vaddr <= k < FileEnd(p, page) && k < p.vaddr + p.memsz
          ensures cells(base + k) == Some(Cell(0, p.prot)) <==>
            (FirstOffset(f, page, k) < |file| ==> file[FirstOffset(f, page, k)] == 0)
        {
        }
        if ZeroInFirst(file, page, f, p) {
          forall a: int | start <= a < start + p.memsz ensures cells(a) == Some(Cell(0, p.prot)) {
            if a < base + FileEnd(p, page) { assert cells(base + (a - base)) == Some(Cell(0, p.prot)); }
          }
        }
      }
    }
  }

  lemma OffPage(p: Phdr, page: nat)
    requires page > 0 && p.offset % page == p.vaddr % page && Hollow(p, page)
    ensures p.vaddr < FileEnd(p, page)
  {
    PageUpIs(p.vaddr, page);
  }

  // ---- one segment -------------------------------------------------------------------------

  /** The pages of the segment's file contents, as just mapped. */
  ghost predicate FilePages(cells: Cells, base: int, file: seq<byte>, page: nat, p: Phdr)
    requires page > 0
  {
    forall a: int :: base + p.vaddr <= a < base + FileEnd(p, page) ==>
      cells(a) == Some(FileCell(file, page, p.offset + (a - base - p.vaddr), p.prot))
  }

  lemma FileContents(cells: Cells, base: int, file: seq<byte>, page: nat, p: Phdr)
    requires page > 0 && GoodSegment(p, file, page) && FilePages(cells, base, file, page, p)
    ensures forall a: int :: base + p.vaddr <= a < base + p.vaddr + p.filesz ==>
      cells(a) == Some(Cell(ImageByte(file, p, a - base - p.vaddr), p.prot))
    ensures p.prot.write ==> forall a: int :: base + p.vaddr <= a < base + FileEnd(p, page) ==> Writable(cells, a)
  {
    FileEndIsWithin(p, page);
    forall a: int | base + p.vaddr <= a < base + FileEnd(p, page)
      ensures var o := p.offset + (a - base - p.vaddr);
        cells(a) == Some(Cell(if o < |file| then file[o] else 0, p.prot))
    {
      FileBytes(file, page, p, p.offset + (a - base - p.vaddr));
    }
  }

  /** Zero pages from the end of the file contents to the end of the segment. */
  ghost predicate ZeroPages(was: Cells, mid: Cells, base: int, page: nat, p: Phdr)
    requires page > 0
  {
    forall a: int :: mid(a) ==
      if base + FileEnd(p, page) <= a < base + End(p, page) then Some(Cell(0, p.prot)) else was(a)
  }

  ghost predicate Cleared(mid: Cells, now: Cells, fe: int, pe: int) {
    forall a: int :: now(a) == if fe <= a < pe then Stored(mid(a), 0) else mid(a)
  }

  /** The bytes to be cleared can be stored to. */
  ghost predicate Clearable(cells: Cells, base: int, page: nat, p: Phdr)
    requires page > 0
  {
    p.prot.write && p.filesz < p.memsz ==>
      forall a: int :: base + p.vaddr + p.filesz <= a < base + FileEnd(p, page) ==> Writable(cells, a)
  }

  /** What is done after the file mapping. */
  ghost predicate TailMapped(was: Cells, now: Cells, base: int, page: nat, p: Phdr)
    requires page > 0
  {
    forall a: int :: now(a) ==
      if p.memsz <= p.filesz then was(a)
      else if base + FileEnd(p, page) <= a < base + End(p, page) then Some(Cell(0, p.prot))
      else if p.prot.write && base + p.vaddr + p.filesz <= a < base + FileEnd(p, page) then Stored(was(a), 0)
      else was(a)
  }

  lemma TailDescribed(was: Cells, now: Cells, base: int, file: seq<byte>, page: nat, p: Phdr)
    requires page > 0 && GoodSegment(p, file, page) && FilePages(was, base, file, page, p)
    requires TailMapped(was, now, base, page, p)
    ensures Described(now, base, file, page, p)
  {
    FileContents(was, base, file, page, p);
    FileEndIsWithin(p, page);
    hide GoodSegment, FileEnd, End, FileCell, ImageByte;
    if p.prot.write && p.filesz < p.memsz {
      forall a: int | base + p.vaddr + p.filesz <= a < base + FileEnd(p, page) ensures now(a) == Some(Cell(0, p.prot)) {
        WritableCell(was, base, file, page, p, a);
      }
    }
  }

  lemma WritableCell(was: Cells, base: int, file: seq<byte>, page: nat, p: Phdr, a: int)
    requires page > 0 && FilePages(was, base, file, page, p) && Writable(was, a)
    requires base + p.vaddr <= a < base + FileEnd(p, page)
    ensures Stored(was(a), 0) == Some(Cell(0, p.prot))
  {
  }

  /** The part after the file mapping: pages of zeros, and zeros to the end of the last file page. */
  method MapTail(mem: Memory, page: nat, p: Phdr, va: int, mis: nat, ghost base: int, denied: bool) returns (ok: bool)
    requires page > 0 && Aligned(base, page) && p.filesz < p.memsz
    requires va + mis == base + p.vaddr >= 0
    modifies mem
    ensures !denied && Clearable(old(mem.cells), base, page, p) ==> ok
    ensures ok ==> Clearable(old(mem.cells), base, page, p) && TailMapped(old(mem.cells), mem.cells, base, page, p)
  {
    ghost var was := mem.cells;
    FileEndIsWithin(p, page);
    PageUpMoves(p.vaddr + p.filesz, base, page);
    hide PageUp;
    var fe := va + mis + p.filesz;
    var pe := PageUp(fe, page);
    var me := va + mis + p.memsz;
    assert pe == base + FileEnd(p, page);
    hide Clearable, TailMapped;
    if pe < me {
      if denied { return false; }
      LastPage(p, page);
      mem.cells := ZeroMapped(mem.cells, page, pe, me - pe, p.prot);
    } else {
      NoLastPage(p, page);
    }
    ghost var mid := mem.cells;
    assert ZeroPages(was, mid, base, page, p);
    ok := true;
    if p.prot.write { ok := mem.Zero(fe, pe - fe); }
    ZeroedTail(was, mid, base, page, p);
    if ok { TailIsMapped(was, mid, mem.cells, base, page, p); }
  }

  lemma ZeroedTail(was: Cells, mid: Cells, base: int, page: nat, p: Phdr)
    requires page > 0 && p.filesz < p.memsz && ZeroPages(was, mid, base, page, p)
    ensures p.prot.write ==>
      (Clearable(was, base, page, p) <==>
        forall a: int :: base + p.vaddr + p.filesz <= a < base + FileEnd(p, page) ==> Writable(mid, a))
  {
    hide FileEnd, End;
    forall a: int | a < base + FileEnd(p, page) ensures Writable(mid, a) <==> Writable(was, a) {
      assert mid(a) == was(a);
    }
  }

  lemma TailIsMapped(was: Cells, mid: Cells, now: Cells, base: int, page: nat, p: Phdr)
    requires page > 0 && p.filesz < p.memsz && ZeroPages(was, mid, base, page, p)
    requires if p.prot.write then Cleared(mid, now, base + p.vaddr + p.filesz, base + FileEnd(p, page)) else now == mid
    ensures TailMapped(was, now, base, page, p)
  {
    hide FileEnd, End;
  }


  lemma LastPage(p: Phdr, page: nat)
    requires page > 0 && FileEnd(p, page) < p.vaddr + p.memsz
    ensures FileEnd(p, page) + PageUp(p.vaddr + p.memsz - FileEnd(p, page), page) == End(p, page)
  {
    PageUpIs(p.vaddr + p.filesz, page);
    PageUpMoves(p.vaddr + p.memsz - FileEnd(p, page), FileEnd(p, page), page);
  }

  lemma NoLastPage(p: Phdr, page: nat)
    requires page > 0 && p.filesz <= p.memsz && p.vaddr + p.memsz <= FileEnd(p, page)
    ensures FileEnd(p, page) == End(p, page)
  {
    FileEndIsWithin(p, page);
    PageUpIs(p.vaddr + p.filesz, page);
    PageUpIsNext(p.vaddr + p.memsz, FileEnd(p, page), page);
  }

  // ---- the whole loop ------------------------------------------------------------------------

  /** Segments in ascending order on pages of their own, within half the address space. */
  ghost predicate GoodImage(phs: seq<Phdr>, file: seq<byte>, page: nat)
    requires page > 0
  {
    && (forall i :: 0 <= i < |phs| && phs[i].load ==>
        GoodSegment(phs[i], file, page) && phs[i].vaddr + phs[i].memsz <= HALF)
    && (forall i, j :: 0 <= i < j < |phs| && phs[i].load && phs[j].load ==> End(phs[i], page) <= Begin(phs[j], page))
  }

  /** The index of the first loaded segment, or the number of headers. */
  function First(phs: seq<Phdr>): (n: nat)
    ensures n <= |phs| && (n < |phs| ==> phs[n].load) && forall i :: 0 <= i < n ==> !phs[i].load
  {
    if phs == [] || phs[0].load then 0 else 1 + First(phs[1..])
  }

  /** How far the image is moved when its first page is mapped at `place`. */
  function Moved(phs: seq<Phdr>, page: nat, place: nat): int
    requires page > 0
  {
    if First(phs) == |phs| then 0 else place - Begin(phs[First(phs)], page)
  }

  predicate IsMax(phs: seq<Phdr>, vmax: nat) {
    && (forall i :: 0 <= i < |phs| && phs[i].load ==> phs[i].vaddr + phs[i].memsz <= vmax)
    && (vmax == 0 || exists i :: 0 <= i < |phs| && phs[i].load && phs[i].vaddr + phs[i].memsz == vmax)
  }

  /** The kernel put the whole image where it fits: at a page boundary, below half the address space. */
  ghost predicate Fits(phs: seq<Phdr>, page: nat, place: nat)
    requires page > 0
  {
    && Aligned(place, page) && page <= HALF
    && forall i :: 0 <= i < |phs| && phs[i].load ==> 0 <= Moved(phs, page, place) + End(phs[i], page) <= HALF
  }

  /** A sum that wraps around 64 bits is the sum when the sum is an address. */
  lemma WrapsTo(base: nat, delta: int, x: int)
    requires base == delta % WRAP && 0 <= delta + x < WRAP
    ensures (base + x) % WRAP == delta + x
  {
    var q, r := delta / WRAP, (base + x) / WRAP;
    assert delta == WRAP * q + base;
    assert base + x == (delta + x) - WRAP * q;
  }

  /** A segment changes its own pages only. */
  ghost predicate SameOutside(was: Cells, now: Cells, delta: int, page: nat, p: Phdr)
    requires page > 0
  {
    forall a: int :: a < delta + Begin(p, page) || a >= delta + End(p, page) ==> now(a) == was(a)
  }

  /** From `lo` on there is what the mapping of the whole image, made for its first segment, put there. */
  ghost predicate Ahead(cells: Cells, delta: int, file: seq<byte>, page: nat, f: Phdr, lo: int, vmax: nat)
    requires page > 0
  {
    forall a: int :: delta + lo <= a < delta + PageUp(vmax, page) && a - delta >= Begin(f, page) ==>
      cells(a) == Some(FileCell(file, page, FirstOffset(f, page, a - delta), f.prot))
  }

  /** A hollow segment that is not the first. */
  predicate LaterHollow(phs: seq<Phdr>, page: nat, i: nat)
    requires page > 0 && i < |phs| && phs[i].load
  {
    First(phs) < i && Hollow(phs[i], page)
  }

  /** What the loop leaves of the segment of header `i`. */
  ghost predicate DescribedAt(cells: Cells, delta: int, file: seq<byte>, page: nat, phs: seq<Phdr>, i: nat)
    requires page > 0 && i < |phs| && phs[i].load
  {
    if LaterHollow(phs, page, i) then
      var f := phs[First(phs)];
      Begin(f, page) <= phs[i].vaddr && HollowDescribed(cells, delta, file, page, f, phs[i])
    else
      Described(cells, delta, file, page, phs[i])
  }

  /** Clearing the bytes of a later hollow segment does not fault: it clears none, or they are
      writable as part of the first segment and in the file. */
  predicate Survives(phs: seq<Phdr>, file: seq<byte>, page: nat, i: nat)
    requires page > 0 && i < |phs| && phs[i].load
  {
    LaterHollow(phs, page, i) && phs[i].prot.write ==>
      var f := phs[First(phs)];
      Begin(f, page) <= phs[i].vaddr && f.prot.write && InFile(file, page, f, phs[i])
  }

  lemma DescribedStays(was: Cells, now: Cells, delta: int, file: seq<byte>, page: nat, phs: seq<Phdr>, j: nat,
                       next: Phdr)
    requires page > 0 && j < |phs| && phs[j].load && phs[j].filesz <= phs[j].memsz
    requires DescribedAt(was, delta, file, page, phs, j)
    requires SameOutside(was, now, delta, page, next) && End(phs[j], page) <= Begin(next, page)
    ensures DescribedAt(now, delta, file, page, phs, j)
  {
    FileEndIsWithin(phs[j], page);
    hide FileEnd, End, Begin, FileCell, ImageByte, FirstOffset, Hollow;
  }

  lemma FirstPages(cells: Cells, file: seq<byte>, page: nat, p: Phdr, place: nat, vmax: nat)
    requires page > 0 && GoodSegment(p, file, page) && p.vaddr + p.memsz <= vmax
    ensures Begin(p, page) == p.vaddr - p.offset % page
    ensures FilePages(
        FileMapped(cells, file, page, place, vmax - Begin(p, page), p.prot, PageDown(p.offset, page)),
        place - Begin(p, page), file, page, p)
  {
    PageDownIs(p.vaddr, page);
    var begin: int := Begin(p, page);
    FileEndIsWithin(p, page);
    PageUpMoves(vmax, 0 - begin, page) by {
      ModBasics(begin, page);
      AlignedSum(0, begin, page);
    }
    PageUpIs(vmax, page);
    PageUpIsNext(p.vaddr + p.filesz, PageUp(vmax, page), page);
  }

  /** The first mapping has the whole image. */
  lemma FirstAhead(cells: Cells, file: seq<byte>, page: nat, p: Phdr, place: nat, vmax: nat)
    requires page > 0 && GoodSegment(p, file, page) && p.vaddr + p.memsz <= vmax
    ensures Ahead(
        FileMapped(cells, file, page, place, vmax - Begin(p, page), p.prot, PageDown(p.offset, page)),
        place - Begin(p, page), file, page, p, Begin(p, page), vmax)
  {
    PageDownIs(p.vaddr, page);
    var begin: int := Begin(p, page);
    PageUpMoves(vmax, 0 - begin, page) by {
      ModBasics(begin, page);
      AlignedSum(0, begin, page);
    }
  }

  lemma LaterPages(cells: Cells, file: seq<byte>, page: nat, p: Phdr, delta: int)
    requires page > 0 && GoodSegment(p, file, page) && delta + Begin(p, page) >= 0
    ensures Begin(p, page) == p.vaddr - p.offset % page
    ensures var now := FileMapped(cells, file, page, delta + Begin(p, page), p.filesz + p.offset % page, p.prot,
      PageDown(p.offset, page));
      FilePages(now, delta, file, page, p) && SameOutside(cells, now, delta, page, p)
  {
    PageDownIs(p.vaddr, page);
    var begin := Begin(p, page);
    PageUpMoves(p.filesz + p.offset % page, begin, page);
    FileEndIsWithin(p, page);
  }

  lemma NoPages(cells: Cells, file: seq<byte>, page: nat, p: Phdr, delta: int)
    requires page > 0 && GoodSegment(p, file, page) && p.filesz == 0 && !Hollow(p, page)
    ensures p.memsz > 0 ==> FilePages(cells, delta, file, page, p)
  {
    PageDownIs(p.vaddr, page);
    if p.memsz > 0 { PageUpIsNext(p.vaddr, p.vaddr, page); }
  }

  method Highest(phs: seq<Phdr>) returns (vmax: nat)
    ensures IsMax(phs, vmax)
  {
    vmax := 0;
    for i := 0 to |phs|
      invariant IsMax(phs[..i], vmax)
    {
      var v := phs[i].vaddr + phs[i].memsz;
      ghost var before := vmax;
      if phs[i].load && v > vmax { vmax := v; }
      MaxNext(phs, i, before, vmax);
    }
    assert phs[..|phs|] == phs;
  }

  lemma MaxNext(phs: seq<Phdr>, i: nat, before: nat, now: nat)
    requires i < |phs| && IsMax(phs[..i], before)
    requires now == if phs[i].load && phs[i].vaddr + phs[i].memsz > before then phs[i].vaddr + phs[i].memsz else before
    ensures IsMax(phs[..i + 1], now)
  {
    var a, b := phs[..i], phs[..i + 1];
    assert b == a + [phs[i]];
    if now == before && before != 0 {
      var j :| 0 <= j < |a| && a[j].load && a[j].vaddr + a[j].memsz == before;
      assert b[j].load && b[j].vaddr + b[j].memsz == now;
    } else if now != 0 {
      assert b[i].load && b[i].vaddr + b[i].memsz == now;
    }
  }

  /** The file mapping of one segment: of the whole image for the first, of its own pages for a
      later one, and none for a later one without contents. */
  method MapFile(mem: Memory, file: seq<byte>, page: nat, p: Phdr, va: int, mis: nat, first: bool, vmax: nat,
                 place: nat, ghost delta: int, denied: bool)
    returns (r: Option<int>)
    requires page > 0 && GoodSegment(p, file, page) && p.vaddr + p.memsz <= vmax && mis == p.offset % page
    requires if first then va == Begin(p, page) && delta == place - va else va == delta + Begin(p, page) >= 0
    modifies mem
    ensures r.None? ==> denied || (first && vmax == Begin(p, page))
    ensures r.Some? ==> r.value == delta + Begin(p, page)
    ensures r.Some? && (first || p.filesz != 0) ==> FilePages(mem.cells, delta, file, page, p)
    ensures r.Some? && first ==> Ahead(mem.cells, delta, file, page, p, Begin(p, page), vmax)
    ensures !first && p.filesz == 0 ==> r.Some? && mem.cells == old(mem.cells)
    ensures r.Some? && !first ==> SameOutside(old(mem.cells), mem.cells, delta, page, p)
  {
    hide GoodSegment, PageUp, FileCell, FilePages, Ahead, FirstOffset;
    if first {
      FirstPages(mem.cells, file, page, p, place, vmax);
      FirstAhead(mem.cells, file, page, p, place, vmax);
      if denied || vmax == va { return None; }
      mem.cells := FileMapped(mem.cells, file, page, place, vmax - va, p.prot, p.offset - mis);
      return Some(place);
    } else if p.filesz != 0 {
      LaterPages(mem.cells, file, page, p, delta);
      if denied { return None; }
      mem.cells := FileMapped(mem.cells, file, page, va, p.filesz + mis, p.prot, p.offset - mis);
    }
    return Some(va);
  }

  lemma SegmentAt(phs: seq<Phdr>, file: seq<byte>, page: nat, place: nat, vmax: nat, i: nat)
    requires page > 0 && GoodImage(phs, file, page) && Fits(phs, page, place) && IsMax(phs, vmax) && i < |phs| &&
      phs[i].load
    ensures var p, delta := phs[i], Moved(phs, page, place);
      && GoodSegment(p, file, page) && p.vaddr + p.memsz <= vmax && p.vaddr + p.memsz <= HALF
      && Begin(p, page) == p.vaddr - p.offset % page && First(phs) <= i
      && (First(phs) == i ==> delta == place - Begin(p, page))
      && Begin(phs[First(phs)], page) <= Begin(p, page)
      && Aligned(delta, page) && 0 <= delta + Begin(p, page) <= HALF && delta + End(p, page) <= HALF
  {
    var f := First(phs);
    PageDownIs(phs[i].vaddr, page);
    PageDownIs(phs[f].vaddr, page);
    FileEndIsWithin(phs[f], page);
    AlignedSum(place, Begin(phs[f], page), page);
    if f < i { assert End(phs[f], page) <= Begin(phs[i], page); }
  }

  /** A segment that only describes itself again once it has been mapped. */
  lemma NothingInMemory(cells: Cells, delta: int, file: seq<byte>, page: nat, p: Phdr)
    requires page > 0 && p.filesz == 0 == p.memsz
    ensures Described(cells, delta, file, page, p)
  {
  }

  lemma EarlierStay(was: Cells, now: Cells, phs: seq<Phdr>, file: seq<byte>, page: nat, delta: int, i: nat)
    requires page > 0 && GoodImage(phs, file, page) && i < |phs| && phs[i].load
    requires SameOutside(was, now, delta, page, phs[i])
    requires forall j :: 0 <= j < i && phs[j].load ==> DescribedAt(was, delta, file, page, phs, j)
    ensures forall j :: 0 <= j < i && phs[j].load ==> DescribedAt(now, delta, file, page, phs, j)
  {
    forall j | 0 <= j < i && phs[j].load ensures DescribedAt(now, delta, file, page, phs, j) {
      assert GoodSegment(phs[j], file, page);
      hide DescribedAt, Begin, End, SameOutside;
      DescribedStays(was, now, delta, file, page, phs, j, phs[i]);
    }
  }

  /** The address that the wrapping sum of the base and the segment comes to. */
  lemma SegmentVa(base: nat, delta: int, fixed: bool, vaddr: nat, mis: nat)
    requires mis <= vaddr <= HALF && base == if fixed then delta % WRAP else 0
    requires fixed ==> 0 <= delta + vaddr - mis < WRAP
    ensures (base + vaddr - mis) % WRAP == if fixed then delta + vaddr - mis else vaddr - mis
  {
    if fixed { WrapsTo(base, delta, vaddr - mis); }
  }

  /** The base the first mapping gives: what is added to every address of the image. */
  lemma FirstBase(begin: nat, place: nat)
    requires begin < WRAP
    ensures ((0 - begin) % WRAP + place) % WRAP == (place - begin) % WRAP
  {
    var b := (0 - begin) % WRAP;
    assert b == if begin == 0 then 0 else WRAP - begin;
    WrapAgain(place - begin);
  }

  lemma WrapAgain(x: int)
    ensures (x + WRAP) % WRAP == x % WRAP
  {
  }

  /** The first `i` headers have been dealt with. */
  ghost predicate Done(cells: Cells, phs: seq<Phdr>, file: seq<byte>, page: nat, delta: int, i: nat)
    requires page > 0
  {
    forall j :: 0 <= j < i <= |phs| && phs[j].load ==> DescribedAt(cells, delta, file, page, phs, j)
  }

  /** The pages of the other segments are as the first mapping left them. */
  ghost predicate AheadFrom(cells: Cells, phs: seq<Phdr>, file: seq<byte>, page: nat, delta: int, i: nat, vmax: nat)
    requires page > 0 && i <= |phs|
  {
    First(phs) < i ==>
      forall j :: i <= j < |phs| && phs[j].load ==>
        Ahead(cells, delta, file, page, phs[First(phs)], Begin(phs[j], page), vmax)
  }

  predicate BaseIs(phs: seq<Phdr>, base: nat, fixed: bool, delta: int, i: nat) {
    (fixed <==> First(phs) < i) && base < WRAP && base == if fixed then delta % WRAP else 0
  }

  lemma DoneNext(was: Cells, now: Cells, phs: seq<Phdr>, file: seq<byte>, page: nat, delta: int, i: nat, first: bool)
    requires page > 0 && GoodImage(phs, file, page) && i < |phs| && phs[i].load && Done(was, phs, file, page, delta, i)
    requires DescribedAt(now, delta, file, page, phs, i)
    requires if first then i == First(phs) else SameOutside(was, now, delta, page, phs[i])
    ensures Done(now, phs, file, page, delta, i + 1)
  {
    hide DescribedAt, GoodImage, SameOutside, Begin, End;
    if !first { EarlierStay(was, now, phs, file, page, delta, i); }
  }

  lemma AheadStays(mid: Cells, now: Cells, delta: int, file: seq<byte>, page: nat, f: Phdr, p: Phdr, from: int,
                   lo: int, vmax: nat)
    requires page > 0 && Ahead(mid, delta, file, page, f, from, vmax) && from <= lo && End(p, page) <= lo
    requires forall a: int :: a >= delta + End(p, page) ==> now(a) == mid(a)
    ensures Ahead(now, delta, file, page, f, lo, vmax)
  {
    hide FileCell, FirstOffset, End, Begin;
  }

  /** Ahead of a segment nothing is changed by it. */
  lemma AheadNext(was: Cells, mid: Cells, now: Cells, phs: seq<Phdr>, file: seq<byte>, page: nat, delta: int, i: nat,
                  vmax: nat)
    requires page > 0 && GoodImage(phs, file, page) && i < |phs| && phs[i].load
    requires if i == First(phs) then Ahead(mid, delta, file, page, phs[i], Begin(phs[i], page), vmax)
      else SameOutside(was, mid, delta, page, phs[i]) && AheadFrom(was, phs, file, page, delta, i, vmax)
    requires forall a: int :: a >= delta + End(phs[i], page) ==> now(a) == mid(a)
    ensures AheadFrom(now, phs, file, page, delta, i + 1, vmax)
  {
    var p, f := phs[i], phs[First(phs)];
    BeginsBeforeEnd(p, file, page);
    forall j | i + 1 <= j < |phs| && phs[j].load ensures Ahead(now, delta, file, page, f, Begin(phs[j], page), vmax) {
      assert End(p, page) <= Begin(phs[j], page);
      if i == First(phs) {
        hide Ahead, Begin, End, GoodImage;
        AheadStays(mid, now, delta, file, page, f, p, Begin(p, page), Begin(phs[j], page), vmax);
      } else {
        assert Ahead(was, delta, file, page, f, Begin(phs[j], page), vmax);
        hide Ahead, Begin, End, GoodImage;
        AheadStays(was, now, delta, file, page, f, p, Begin(phs[j], page), Begin(phs[j], page), vmax);
      }
    }
  }

  lemma BeginsBeforeEnd(p: Phdr, file: seq<byte>, page: nat)
    requires page > 0 && GoodSegment(p, file, page)
    ensures Begin(p, page) <= End(p, page)
  {
    FileEndIsWithin(p, page);
    PageDownIs(p.vaddr, page);
  }

  /** The bytes of a later hollow segment before it is cleared, and what clearing them leaves. */
  lemma HollowTail(was: Cells, now: Cells, delta: int, file: seq<byte>, page: nat, f: Phdr, p: Phdr, vmax: nat)
    requires page > 0 && GoodSegment(p, file, page) && Hollow(p, page) && Begin(f, page) <= Begin(p, page)
    requires p.vaddr + p.memsz <= vmax && Ahead(was, delta, file, page, f, Begin(p, page), vmax)
    ensures Begin(f, page) <= p.vaddr
    ensures Clearable(was, delta, page, p) <==> (p.prot.write ==> f.prot.write && InFile(file, page, f, p))
    ensures Clearable(was, delta, page, p) && TailMapped(was, now, delta, page, p) ==>
      HollowDescribed(now, delta, file, page, f, p)
  {
    FileEndIsWithin(p, page);
    PageDownIs(p.vaddr, page);
    OffPage(p, page);
    PageUpIs(vmax, page);
    PageUpIsNext(p.vaddr + p.memsz, PageUp(vmax, page), page);
    hide GoodSegment, Begin, End, FileEnd, FirstOffset, PageUp, Hollow;
    forall a: int | delta + p.vaddr <= a < delta + FileEnd(p, page)
      ensures was(a) == Some(FileCell(file, page, FirstOffset(f, page, a - delta), f.prot))
      ensures Writable(was, a) <==> f.prot.write && InFile(file, page, f, p)
    {
      OnePage(file, page, f, p, a - delta);
      FileCellIsThere(file, page, FirstOffset(f, page, a - delta), f.prot);
    }
    assert delta + p.vaddr < delta + FileEnd(p, page);
    assert Writable(was, delta + p.vaddr) <==> f.prot.write && InFile(file, page, f, p);
    hide FileCell, InFile, Ahead;
    if Clearable(was, delta, page, p) && TailMapped(was, now, delta, page, p) {
      forall a: int | delta + p.vaddr <= a < delta + FileEnd(p, page)
        ensures now(a) == Some(
            if p.prot.write then Cell(0, f.prot) else FileCell(file, page, FirstOffset(f, page, a - delta), f.prot))
      {
        if p.prot.write {
          assert Writable(was, a);
          FileCellStored(file, page, FirstOffset(f, page, a - delta), f.prot, was, a);
        }
      }
    }
  }

  lemma FileCellIsThere(file: seq<byte>, page: nat, o: nat, prot: Prot)
    requires page > 0
    ensures FileCell(file, page, o, prot).Cell? <==> o < PageUp(|file|, page)
    ensures FileCell(file, page, o, prot).prot == prot
  {
    PageUpIs(|file|, page);
  }

  lemma FileCellStored(file: seq<byte>, page: nat, o: nat, prot: Prot, was: Cells, a: int)
    requires page > 0 && was(a) == Some(FileCell(file, page, o, prot)) && Writable(was, a)
    ensures Stored(was(a), 0) == Some(Cell(0, prot))
  {
  }

  lemma BaseNext(phs: seq<Phdr>, base: nat, fixed: bool, delta: int, i: nat, va: nat, place: nat)
    requires i < |phs| && phs[i].load && BaseIs(phs, base, fixed, delta, i) && First(phs) <= i
    requires !fixed ==> delta == place - va && va < WRAP && base == 0
    ensures BaseIs(phs, if fixed then base else ((base - va) % WRAP + place) % WRAP, true, delta, i + 1)
  {
    if !fixed { FirstBase(va, place); }
  }

  lemma OutsideBoth(was: Cells, mid: Cells, now: Cells, delta: int, page: nat, p: Phdr)
    requires page > 0 && p.filesz <= p.memsz && TailMapped(mid, now, delta, page, p)
    ensures forall a: int :: a >= delta + End(p, page) ==> now(a) == mid(a)
    ensures SameOutside(was, mid, delta, page, p) ==> SameOutside(was, now, delta, page, p)
  {
    PageDownIs(p.vaddr, page);
    FileEndIsWithin(p, page);
    hide FileEnd, End;
  }

  /** One segment, mapped and cleared. */
  lemma SegmentDescribed(mid: Cells, now: Cells, phs: seq<Phdr>, file: seq<byte>, page: nat, delta: int, i: nat,
                         vmax: nat)
    requires page > 0 && i < |phs| && phs[i].load && GoodSegment(phs[i], file, page) &&
      phs[i].vaddr + phs[i].memsz <= vmax
    requires i == First(phs) || phs[i].filesz != 0 ==> FilePages(mid, delta, file, page, phs[i])
    requires Begin(phs[First(phs)], page) <= Begin(phs[i], page)
    requires LaterHollow(phs, page, i) ==> Ahead(mid, delta, file, page, phs[First(phs)], Begin(phs[i], page), vmax)
    ensures Clearable(mid, delta, page, phs[i]) <==> Survives(phs, file, page, i)
    ensures Clearable(mid, delta, page, phs[i]) && TailMapped(mid, now, delta, page, phs[i]) ==>
      DescribedAt(now, delta, file, page, phs, i)
  {
    var p, f := phs[i], phs[First(phs)];
    hide GoodSegment, Begin, FilePages, Described, HollowDescribed, Hollow, Ahead, Clearable, TailMapped, InFile;
    if LaterHollow(phs, page, i) {
      HollowTail(mid, now, delta, file, page, f, p, vmax);
    } else {
      FullTail(mid, now, delta, file, page, p, i == First(phs));
    }
  }

  lemma FullTail(mid: Cells, now: Cells, delta: int, file: seq<byte>, page: nat, p: Phdr, first: bool)
    requires page > 0 && GoodSegment(p, file, page) && (!first ==> !Hollow(p, page))
    requires first || p.filesz != 0 ==> FilePages(mid, delta, file, page, p)
    ensures Clearable(mid, delta, page, p)
    ensures TailMapped(mid, now, delta, page, p) ==> Described(now, delta, file, page, p)
  {
    if !first && p.filesz == 0 { NoPages(mid, file, page, p, delta); }
    hide Described, TailMapped, FilePages, Hollow;
    if !first && p.filesz == 0 == p.memsz {
      NothingInMemory(now, delta, file, page, p);
    } else {
      FileContents(mid, delta, file, page, p);
      if TailMapped(mid, now, delta, page, p) { TailDescribed(mid, now, delta, file, page, p); }
    }
  }

  /** A segment without contents of its own finds what the first mapping left. */
  lemma AheadHere(was: Cells, mid: Cells, phs: seq<Phdr>, file: seq<byte>, page: nat, delta: int, i: nat, vmax: nat)
    requires page > 0 && i < |phs| && phs[i].load && First(phs) < i && AheadFrom(was, phs, file, page, delta, i, vmax)
    requires phs[i].filesz == 0 ==> mid == was
    ensures phs[i].filesz == 0 ==> Ahead(mid, delta, file, page, phs[First(phs)], Begin(phs[i], page), vmax)
  {
  }

  /** Everything that holds once a segment is mapped. */
  lemma SegmentNext(was: Cells, mid: Cells, now: Cells, phs: seq<Phdr>, file: seq<byte>, page: nat, delta: int,
                    i: nat, vmax: nat)
    requires page > 0 && GoodImage(phs, file, page) && i < |phs| && phs[i].load && phs[i].vaddr + phs[i].memsz <= vmax
    requires Begin(phs[First(phs)], page) <= Begin(phs[i], page)
    requires i == First(phs) || phs[i].filesz != 0 ==> FilePages(mid, delta, file, page, phs[i])
    requires i == First(phs) || phs[i].filesz == 0 ==>
      Ahead(mid, delta, file, page, phs[First(phs)], Begin(phs[i], page), vmax)
    requires i == First(phs) || (SameOutside(was, mid, delta, page, phs[i]) &&
      AheadFrom(was, phs, file, page, delta, i, vmax))
    requires Clearable(mid, delta, page, phs[i]) && TailMapped(mid, now, delta, page, phs[i])
    requires Done(was, phs, file, page, delta, i)
    ensures Survives(phs, file, page, i) && Done(now, phs, file, page, delta, i + 1)
    ensures AheadFrom(now, phs, file, page, delta, i + 1, vmax)
  {
    var p := phs[i];
    assert GoodSegment(p, file, page);
    hide GoodImage, GoodSegment, FilePages, SameOutside, Begin, End, First, Done, Ahead, Survives, AheadFrom;
    hide TailMapped, Clearable, DescribedAt, Hollow;
    SegmentDescribed(mid, now, phs, file, page, delta, i, vmax);
    OutsideBoth(was, mid, now, delta, page, p);
    DoneNext(was, now, phs, file, page, delta, i, i == First(phs));
    AheadNext(was, mid, now, phs, file, page, delta, i, vmax);
  }

  /** Everything about one loaded segment. */
  method MapSegment(mem: Memory, file: seq<byte>, phs: seq<Phdr>, i: nat, page: nat, place: nat, vmax: nat,
                    base: nat, fixed: bool, calls: nat, denied: set<nat>) returns (r: Option<(nat, nat)>)
    requires page > 0 && GoodImage(phs, file, page) && Fits(phs, page, place) && IsMax(phs, vmax)
    requires i < |phs| && phs[i].load
    requires BaseIs(phs, base, fixed, Moved(phs, page, place), i)
    requires Done(mem.cells, phs, file, page, Moved(phs, page, place), i)
    requires AheadFrom(mem.cells, phs, file, page, Moved(phs, page, place), i, vmax)
    modifies mem
    ensures r.None? ==>
      denied != {} || (i == First(phs) && vmax == Begin(phs[i], page)) || !Survives(phs, file, page, i)
    ensures r.Some? ==> Survives(phs, file, page, i)
    ensures r.Some? ==> BaseIs(phs, r.value.0, true, Moved(phs, page, place), i + 1)
    ensures r.Some? ==> Done(mem.cells, phs, file, page, Moved(phs, page, place), i + 1)
    ensures r.Some? ==> AheadFrom(mem.cells, phs, file, page, Moved(phs, page, place), i + 1, vmax)
  {
    SegmentAt(phs, file, page, place, vmax, i);
    ghost var delta, was := Moved(phs, page, place), mem.cells;
    var p, mis := phs[i], phs[i].offset % page;
    hide GoodImage, Fits, IsMax, GoodSegment, FilePages, SameOutside, Begin, End, First, Moved, Aligned, Done, Ahead,
      Survives;
    SegmentVa(base, delta, fixed, p.vaddr, mis);
    var va := (base + p.vaddr - mis) % WRAP;
    BaseNext(phs, base, fixed, delta, i, va, place);
    var mapped := MapFile(mem, file, page, p, va, mis, !fixed, vmax, place, delta, calls in denied);
    if mapped.None? { return None; }
    var newBase := if fixed then base else ((base - va) % WRAP + mapped.value) % WRAP;
    ghost var mid := mem.cells;
    if fixed { AheadHere(was, mid, phs, file, page, delta, i, vmax); }
    hide AheadFrom;
    if p.memsz > p.filesz {
      var ok := MapTail(mem, page, p, mapped.value, mis, delta, calls + 1 in denied);
      if !ok {
        SegmentDescribed(mid, mid, phs, file, page, delta, i, vmax);
        return None;
      }
    } else {
      Untailed(mid, delta, page, p);
    }
    SegmentNext(was, mid, mem.cells, phs, file, page, delta, i, vmax);
    return Some((newBase, calls + if p.memsz <= p.filesz then 1 else 2));
  }

  lemma Untailed(cells: Cells, delta: int, page: nat, p: Phdr)
    requires page > 0 && p.memsz <= p.filesz
    ensures Clearable(cells, delta, page, p) && TailMapped(cells, cells, delta, page, p)
  {
  }

  /** `map_interp`: with the segments on pages of their own and in order, every byte of every
      segment ends up as described, wherever the kernel put the image. `denied` are the calls of
      `mmap` that the kernel refuses, at which the original exits. Where they all succeed, the
      run ends early only by a store that faults, in a segment that does not survive.
   */
  method MapInterp(mem: Memory, file: seq<byte>, phs: seq<Phdr>, page: nat, place: nat, denied: set<nat>)
    returns (r: Option<nat>)
    requires page > 0 && GoodImage(phs, file, page) && Fits(phs, page, place)
    modifies mem
    ensures r.None? ==>
      || |phs| > 32 || denied != {} || (First(phs) < |phs| && IsMax(phs, Begin(phs[First(phs)], page)))
      || exists i :: 0 <= i < |phs| && phs[i].load && !Survives(phs, file, page, i)
    ensures r.Some? ==> r.value == Moved(phs, page, place) % WRAP
    ensures r.Some? ==> forall i :: 0 <= i < |phs| && phs[i].load ==>
      Survives(phs, file, page, i) && DescribedAt(mem.cells, Moved(phs, page, place), file, page, phs, i)
  {
    if |phs| > 32 { return None; }
    var vmax := Highest(phs);
    var base, fixed, calls := 0, false, 0;
    ghost var delta := Moved(phs, page, place);
    for i := 0 to |phs|
      invariant BaseIs(phs, base, fixed, delta, i)
      invariant Done(mem.cells, phs, file, page, delta, i)
      invariant AheadFrom(mem.cells, phs, file, page, delta, i, vmax)
      invariant forall j :: 0 <= j < i && phs[j].load ==> Survives(phs, file, page, j)
    {
      hide GoodImage, Fits, IsMax, DescribedAt, Moved, Survives, Ahead;
      if phs[i].load {
        var mapped := MapSegment(mem, file, phs, i, page, place, vmax, base, fixed, calls, denied);
        if mapped.None? { return None; }
        base, calls := mapped.value.0, mapped.value.1;
        fixed := true;
      }
    }
    return Some(base);
  }

  // ---- where the image is not the right one ------------------------------------------------

  const READ_ONLY: Prot := Prot(true, false, false)
  const READ_WRITE: Prot := Prot(true, true, false)

  lemma FirstAndSecondPage(page: nat)
    requires page > 1
    ensures PageDown(0, page) == 0 == PageDown(1, page) && PageUp(1, page) == page == PageUp(2, page)
    ensures PageDown(page + 1, page) == page && PageUp(page + 2, page) == page + page
    ensures 1 % page == (page + 1) % page == 1
  {
    Multiple(0, page);
    Multiple(1, page);
    Multiple(2, page);
    assert page * 0 == 0 && page * 1 == page && page * 2 == page + page;
    PageDownIs(0, page);
    PageDownIs(1, page);
    PageDownIs(page + 1, page);
    PageUpIs(1, page);
    PageUpIs(2, page);
    PageUpIs(page + 2, page);
    AlignedClose(PageDown(0, page), 0, page);
    AlignedClose(PageDown(1, page), 0, page);
    AlignedClose(PageDown(page + 1, page), page, page);
    AlignedClose(PageUp(1, page), page, page);
    AlignedClose(PageUp(2, page), page, page);
    AlignedClose(PageUp(page + 2, page), page + page, page);
  }

  /** A segment that may only be read, and a writable one without contents that starts inside a
      page: its byte is in the mapping of the first, and clearing it faults. */
  lemma HollowFaults(file: seq<byte>, page: nat)
    requires |file| == 1 < page <= 0x10000
    ensures var phs := [Phdr(true, READ_ONLY, 0, 0, 1, 1), Phdr(true, READ_WRITE, 1, page + 1, 0, 1)];
      GoodImage(phs, file, page) && !Survives(phs, file, page, 1)
  {
    var phs := [Phdr(true, READ_ONLY, 0, 0, 1, 1), Phdr(true, READ_WRITE, 1, page + 1, 0, 1)];
    FirstAndSecondPage(page);
    assert 0 % page == 0 by { PageDownIs(0, page); }
    hide PageUp, PageDown, InFile;
    assert First(phs) == 0;
    assert LaterHollow(phs, page, 1);
    assert GoodSegment(phs[0], file, page) && GoodSegment(phs[1], file, page);
    assert End(phs[0], page) == page == Begin(phs[1], page);
    hide First, Begin, End, GoodSegment, Hollow;
  }

  /** A segment that may only be read keeps the byte that follows its contents in the file. */
  lemma ReadOnlyTailIsKept(cells: Cells, page: nat)
    requires 1 < page <= 0x10000
    requires Described(cells, 0, [1, 2], page, Phdr(true, READ_ONLY, 0, 0, 1, 2))
    ensures GoodImage([Phdr(true, READ_ONLY, 0, 0, 1, 2)], [1, 2], page)
    ensures !Loaded(cells, 0, [1, 2], Phdr(true, READ_ONLY, 0, 0, 1, 2))
  {
    var file: seq<byte>, p := [1, 2], Phdr(true, READ_ONLY, 0, 0, 1, 2);
    FirstAndSecondPage(page);
    assert FileEnd(p, page) == page && file[1] != 0;
    assert GoodSegment(p, file, page);
    assert !ZeroInFile(file, page, p);
    hide PageUp, PageDown, FileEnd, Described, Loaded, GoodSegment;
    LoadedExactly(cells, 0, file, page, p);
  }
}
