/**
 * A user process of the Nachos kernel: its page table over the machine's
 * physical memory, the copy routines between user memory and kernel
 * buffers, program loading with the argument page, allocation and release
 * of physical pages against the kernel's free list, and the 16-slot file
 * descriptor table behind the open, creat, read, write and close calls.
 */
module UserProg {
  import opened JavaInt
  import opened Wrappers
  import opened Processor
  import opened Layout

  /** Slots in a process's descriptor table. */
  const MaxOpenCount: int := 16
  /** The longest file name the file system calls read from user memory. */
  const MaxStringLength: int := 256

  /** An open file of the file system, as an opaque handle. */
  type FileId = nat

  /** What a system call hands back: its int result, or the exception that ends it. */
  datatype Outcome = Returned(value: int) | IndexOutOfBounds

  function Min(a: int, b: int): int
  {
    if a <= b then a else b
  }

  /** The number of occupied slots of a descriptor table. */
  function CountOpen(fs: seq<Option<FileId>>): (c: nat)
    ensures c <= |fs|
  {
    if fs == [] then 0 else CountOpen(fs[..|fs| - 1]) + (if fs[|fs| - 1].Some? then 1 else 0)
  }

  /** Storing `x` in slot k changes the count by what leaves and what arrives. */
  lemma {:induction false} CountOpenUpdate(fs: seq<Option<FileId>>, k: nat, x: Option<FileId>)
    requires k < |fs|
    ensures CountOpen(fs[k := x]) + (if fs[k].Some? then 1 else 0) == CountOpen(fs) + (if x.Some? then 1 else 0)
  {
    var n := |fs| - 1;
    if k < n {
      assert fs[k := x][..n] == fs[..n][k := x];
      CountOpenUpdate(fs[..n], k, x);
    } else {
      assert fs[k := x][..n] == fs[..n];
    }
  }

  /** The zero bytes of a freshly allocated Java array. */
  function Zeros(n: nat): (z: seq<Byte>)
    ensures |z| == n && forall i :: 0 <= i < n ==> z[i] == 0
  {
    seq(n, _ => 0)
  }

  /**
   * The machine and kernel state every process shares: physical memory,
   * the list of free physical pages and the next process id.
   */
  class Kernel {
    const numPhysPages: nat
    const memory: array<Byte>
    var freePhysicalPages: seq<int>
    var nextProcessID: int32

    predicate Valid()
      reads this
    {
      memory.Length == numPhysPages * PageSize && numPhysPages * PageSize < 0x8000_0000
    }

    /** A machine with `numPhysPages` zeroed frames, all of them free. */
    constructor(numPhysPages: nat)
      requires numPhysPages * PageSize < 0x8000_0000
      ensures Valid() && this.numPhysPages == numPhysPages && fresh(memory)
      ensures freePhysicalPages == Range(0, numPhysPages) && nextProcessID == 0
    {
      this.numPhysPages := numPhysPages;
      memory := new Byte[numPhysPages * PageSize];
      freePhysicalPages := Range(0, numPhysPages);
      nextProcessID := 0;
    }
  }

  class UserProcess {
    const kernel: Kernel
    const files: array<Option<FileId>>
    var openCount: int
    var pageTable: array<TranslationEntry>
    var numPages: int
    var processID: int32
    var initialPC: int
    var initialSP: int32
    var argc: int
    var argv: int

    /**
     * The descriptor table has its 16 slots, and openCount, the index the
     * next open stores at, is at least the number of occupied slots and at
     * most 16.
     */
    predicate FilesValid()
      reads this, files
    {
      files.Length == MaxOpenCount && CountOpen(files[..]) <= openCount <= MaxOpenCount
    }

    /** The page table covers numPages pages of a well-formed machine. */
    predicate MemoryValid()
      reads this, kernel
    {
      kernel.Valid() && pageTable.Length == numPages
    }

    /**
     * A new process: the next process id, stdin and stdout from the console
     * in slots 0 and 1, and no pages yet.
     */
    constructor(kernel: Kernel, consoleIn: FileId, consoleOut: FileId)
      modifies kernel
      ensures this.kernel == kernel && fresh(files) && fresh(pageTable)
      ensures processID == old(kernel.nextProcessID) && kernel.nextProcessID == ToInt32(old(kernel.nextProcessID) + 1)
      ensures kernel.freePhysicalPages == old(kernel.freePhysicalPages)
      ensures files[..] == [Some(consoleIn), Some(consoleOut)] + Closed(14) && openCount == 2
      ensures FilesValid() && numPages == 0 && (kernel.Valid() ==> MemoryValid())
    {
      this.kernel := kernel;
      files := new Option<FileId>[MaxOpenCount](_ => None);
      pageTable := new TranslationEntry[0](Placeholder);
      numPages := 0;
      openCount := 0;
      processID := 0;
      initialPC, initialSP, argc, argv := 0, 0, 0, 0;
      new;
      processID := kernel.nextProcessID;
      kernel.nextProcessID := ToInt32(kernel.nextProcessID + 1);
      files[openCount] := Some(consoleIn);
      openCount := openCount + 1;
      files[openCount] := Some(consoleOut);
      openCount := openCount + 1;
      assert files[..] == [Some(consoleIn), Some(consoleOut)] + Closed(14);
      ConsoleTableCount(consoleIn, consoleOut);
    }

    // -------------------------------------------------------------------
    // Address translation and the copy routines
    // -------------------------------------------------------------------

    /**
     * The physical address the copy routines start at for `vaddr`, or None
     * when they return 0 at once: the page lies beyond numPages, its entry
     * is invalid (or, for a write, read-only), or the frame address falls
     * outside physical memory.
     */
    function Translate(vaddr: int32, writing: bool): (r: Option<nat>)
      requires MemoryValid()
      reads this, kernel, pageTable
      ensures r.Some? ==> r.value < kernel.memory.Length
    {
      var vpn := PageFromAddress(vaddr);
      if vpn >= numPages then None
      else
        var e := pageTable[vpn];
        if !e.valid || (writing && e.readOnly) then None
        else
          var paddr := ToInt32(e.ppn * PageSize + OffsetFromAddress(vaddr));
          if paddr < 0 || paddr >= kernel.memory.Length then None else Some(paddr as nat)
    }

    /** Where a copy of up to `length` bytes at `vaddr` starts in physical memory (0 when none). */
    function Base(vaddr: int32, writing: bool): nat
      requires MemoryValid()
      reads this, kernel, pageTable
    {
      match Translate(vaddr, writing)
      case None => 0
      case Some(p) => p
    }

    /** How many bytes a copy of `length` bytes at `vaddr` moves. */
    function Amount(vaddr: int32, length: nat, writing: bool): (n: nat)
      requires MemoryValid()
      reads this, kernel, pageTable
      ensures n <= length && Base(vaddr, writing) + n <= kernel.memory.Length
    {
      match Translate(vaddr, writing)
      case None => 0
      case Some(p) => Min(length, kernel.memory.Length - p)
    }

    /** The physical bytes a read of `length` bytes at `vaddr` delivers. */
    function Window(vaddr: int32, length: nat): (w: seq<Byte>)
      requires MemoryValid()
      reads this, kernel, pageTable, kernel.memory
      ensures |w| == Amount(vaddr, length, false)
    {
      kernel.memory[Base(vaddr, false)..Base(vaddr, false) + Amount(vaddr, length, false)]
    }

    /** A copy moves nothing exactly when translation fails or nothing was asked for. */
    lemma AmountZero(vaddr: int32, length: nat, writing: bool)
      requires MemoryValid()
      ensures Amount(vaddr, length, writing) == 0 <==> Translate(vaddr, writing).None? || length == 0
    {
    }

    /**
     * A copy is not re-translated at the page boundary: the byte that
     * follows the last byte of vaddr's page comes from the frame after
     * vaddr's frame, whatever the page table maps the next page to.
     */
    lemma CopyCrossesIntoNextFrame(vaddr: int32, length: nat)
      requires MemoryValid()
      requires Translate(vaddr, false).Some?
      requires 0 <= pageTable[PageFromAddress(vaddr)].ppn
      requires (pageTable[PageFromAddress(vaddr)].ppn + 1) * PageSize < kernel.memory.Length
      requires OffsetFromAddress(vaddr) + length > PageSize
      ensures var k := PageSize - OffsetFromAddress(vaddr);
        k < |Window(vaddr, length)|
        && Window(vaddr, length)[k] == kernel.memory[(pageTable[PageFromAddress(vaddr)].ppn + 1) * PageSize]
    {
      var e := pageTable[PageFromAddress(vaddr)];
      var off := OffsetFromAddress(vaddr);
      assert Base(vaddr, false) == e.ppn * PageSize + off;
    }

    /**
     * readVirtualMemory(vaddr, data, offset, length): copy Amount bytes from
     * the translated address into data[offset..], leaving the rest of data
     * alone, and return that count.
     */
    method ReadVirtualMemory(vaddr: int32, data: array<Byte>, offset: int32, length: int32) returns (n: int32)
      requires 0 <= offset && 0 <= length && offset as int + length as int <= data.Length
      requires MemoryValid()
      modifies data
      ensures n as int == old(Amount(vaddr, length as nat, false))
      ensures data[..] == Overwrite(old(data[..]), offset as int, old(Window(vaddr, length as nat)))
    {
      var pageID := PageFromAddress(vaddr);
      if pageID >= numPages {
        return 0;
      }
      var tmp := pageTable[pageID];
      if !tmp.valid {
        return 0;
      }
      var pageOffset := OffsetFromAddress(vaddr);
      var paddr: int32 := ToInt32(tmp.ppn * PageSize + pageOffset);
      if paddr < 0 || paddr >= kernel.memory.Length {
        return 0;
      }
      var amount: int32 := Min(length as int, kernel.memory.Length - paddr);
      ArrayCopy(kernel.memory, paddr as nat, data, offset as nat, amount as nat);
      return amount;
    }

    /**
     * writeVirtualMemory(vaddr, data, offset, length): copy Amount bytes of
     * data[offset..] to the translated address; nothing else in memory
     * changes, and a result of 0 leaves memory as it was.
     */
    method WriteVirtualMemory(vaddr: int32, data: array<Byte>, offset: int32, length: int32) returns (n: int32)
      requires 0 <= offset && 0 <= length && offset as int + length as int <= data.Length
      requires MemoryValid()
      modifies kernel.memory
      ensures n as int == old(Amount(vaddr, length as nat, true))
      ensures kernel.memory[..] == Overwrite(old(kernel.memory[..]), old(Base(vaddr, true)), old(data[offset..offset as int + n as int]))
      ensures n == 0 ==> kernel.memory[..] == old(kernel.memory[..])
    {
      var pageID := PageFromAddress(vaddr);
      if pageID >= numPages {
        return 0;
      }
      var tmp := pageTable[pageID];
      if tmp.readOnly || !tmp.valid {
        return 0;
      }
      var pageOffset := OffsetFromAddress(vaddr);
      var paddr: int32 := ToInt32(tmp.ppn * PageSize + pageOffset);
      if paddr < 0 || paddr >= kernel.memory.Length {
        return 0;
      }
      var amount: int32 := Min(length as int, kernel.memory.Length - paddr);
      ArrayCopy(data, offset as nat, kernel.memory, paddr as nat, amount as nat);
      return amount;
    }

    /** writeVirtualMemory(vaddr, data): the whole array. */
    method WriteVirtualMemoryAll(vaddr: int32, data: array<Byte>) returns (n: int32)
      requires data.Length < 0x8000_0000
      requires MemoryValid()
      modifies kernel.memory
      ensures n as int == old(Amount(vaddr, data.Length, true))
      ensures kernel.memory[..] == Overwrite(old(kernel.memory[..]), old(Base(vaddr, true)), old(data[..n]))
    {
      n := WriteVirtualMemory(vaddr, data, 0, data.Length as int32);
    }

    /**
     * readVirtualMemoryString(vaddr, maxLength): read up to maxLength+1
     * bytes and return the C string among the bytes actually read, or None
     * when they hold no NUL.
     */
    method ReadVirtualMemoryString(vaddr: int32, maxLength: int32) returns (s: Option<seq<Byte>>)
      requires 0 <= maxLength < 0x7fff_ffff
      requires MemoryValid()
      ensures s == old(CStringOf(Window(vaddr, maxLength as nat + 1)))
      ensures s.Some? ==> |s.value| <= maxLength as int && 0 !in s.value
    {
      ghost var w := Window(vaddr, maxLength as nat + 1);
      var bytes := new Byte[maxLength + 1];
      var bytesRead := ReadVirtualMemory(vaddr, bytes, 0, maxLength + 1);
      assert bytes[..bytesRead] == w by {
        ghost var read := bytes[..];
        assert read[0..bytesRead] == w;
      }
      s := StringBeforeNul(bytes, bytesRead);
    }

    // -------------------------------------------------------------------
    // Loading a program
    // -------------------------------------------------------------------

    /**
     * load(name, args), from the point where the executable has been
     * opened and parsed (`coff` is None when that failed). It succeeds
     * exactly when the sections tile pages 0.. in order, the arguments fit
     * in one page and loadSections finds enough physical and free pages.
     * Then the address space is the section pages, 8 stack pages and one
     * argument page; the stack pointer starts at the top of the stack; and
     * the argument page holds the argv table and the packed strings.
     */
    method Load(coff: Option<seq<CoffSection>>, entryPoint: int, args: seq<seq<Byte>>) returns (ok: bool)
      requires kernel.Valid()
      modifies this, kernel, kernel.memory
      ensures openCount == old(openCount) && processID == old(processID)
      ensures kernel.nextProcessID == old(kernel.nextProcessID)
      ensures ok <==> (coff.Some? && Contiguous(coff.value) && ArgsSize(args) <= PageSize
        && SumLengths(coff.value) + StackPages + 1 <= kernel.numPhysPages
        && SumLengths(coff.value) + StackPages + 1 <= |old(kernel.freePhysicalPages)|)
      ensures !ok ==> (pageTable == old(pageTable) && kernel.freePhysicalPages == old(kernel.freePhysicalPages)
        && argc == old(argc) && argv == old(argv) && kernel.memory[..] == old(kernel.memory[..]))
      ensures ok ==> fresh(pageTable) && MemoryValid()
      ensures ok ==> var sectionPages := SumLengths(coff.value);
        numPages == sectionPages + StackPages + 1
        && initialSP as int == (sectionPages + StackPages) * PageSize && initialPC == entryPoint
        && pageTable[..] == LoadedTable(PagesOf(coff.value), old(kernel.freePhysicalPages), numPages)
        && kernel.freePhysicalPages == old(kernel.freePhysicalPages)[..|old(kernel.freePhysicalPages)| - sectionPages]
        && argc == |args| && argv == (numPages - 1) * PageSize
        && argv + |ArgPage(args, argv)| <= kernel.memory.Length
        && kernel.memory[..] == Overwrite(old(kernel.memory[..]), argv, ArgPage(args, argv))
    {
      if coff.None? {
        return false;
      }
      var ss := coff.value;
      var contiguous, pages := CheckContiguous(ss);
      numPages := pages;
      if !contiguous {
        return false;
      }
      var argsSize := ArgumentsSize(args);
      if argsSize > PageSize {
        return false;
      }
      ok := LoadChecked(ss, entryPoint, args);
    }

    /**
     * The rest of load once the sections are known to be contiguous and the
     * arguments to fit: the entry point, the stack pointer at the top of the
     * stack pages, the pages themselves and then the argument page.
     */
    method LoadChecked(ss: seq<CoffSection>, entryPoint: int, args: seq<seq<Byte>>) returns (ok: bool)
      requires kernel.Valid() && Contiguous(ss) && numPages == SumLengths(ss) && ArgsSize(args) <= PageSize
      modifies this, kernel, kernel.memory
      ensures openCount == old(openCount) && processID == old(processID)
      ensures kernel.nextProcessID == old(kernel.nextProcessID)
      ensures ok <==> (SumLengths(ss) + StackPages + 1 <= kernel.numPhysPages
        && SumLengths(ss) + StackPages + 1 <= |old(kernel.freePhysicalPages)|)
      ensures !ok ==> (pageTable == old(pageTable) && kernel.freePhysicalPages == old(kernel.freePhysicalPages)
        && argc == old(argc) && argv == old(argv) && kernel.memory[..] == old(kernel.memory[..]))
      ensures ok ==> fresh(pageTable) && MemoryValid()
      ensures ok ==> var sectionPages := SumLengths(ss);
        numPages == sectionPages + StackPages + 1
        && initialSP as int == (sectionPages + StackPages) * PageSize && initialPC == entryPoint
        && pageTable[..] == LoadedTable(PagesOf(ss), old(kernel.freePhysicalPages), numPages)
        && kernel.freePhysicalPages == old(kernel.freePhysicalPages)[..|old(kernel.freePhysicalPages)| - sectionPages]
        && argc == |args| && argv == (numPages - 1) * PageSize
        && argv + |ArgPage(args, argv)| <= kernel.memory.Length
        && kernel.memory[..] == Overwrite(old(kernel.memory[..]), argv, ArgPage(args, argv))
    {
      initialPC := entryPoint;
      numPages := numPages + StackPages;
      initialSP := ToInt32(numPages * PageSize);
      numPages := numPages + 1;
      ok := LoadSections(ss);
      if !ok {
        return false;
      }
      assert PagesOf(ss)[..Min(SumLengths(ss), numPages)] == PagesOf(ss);
      LastPageFits(numPages, kernel.numPhysPages);
      assert initialSP as int == (numPages - 1) * PageSize;
      var entryOffset := (numPages - 1) * PageSize;
      argc := |args|;
      argv := entryOffset;
      StoreArguments(args, entryOffset);
    }

    /**
     * The argument page as load leaves it before writing the arguments: the
     * last of numPages pages starts at `base`, lies inside physical memory,
     * and its entry is still the placeholder mapping it to the frame of the
     * same number.
     */
    predicate ArgPageAt(base: int)
      reads this, kernel, pageTable
    {
      MemoryValid() && 1 <= numPages <= kernel.numPhysPages
      && pageTable[numPages - 1] == Placeholder(numPages - 1)
      && base == (numPages - 1) * PageSize && 0 <= base && base + PageSize <= kernel.memory.Length
    }

    /**
     * The argument loop of load: for each argument, its pointer into the
     * table at the page start, then its bytes and a NUL after the table.
     * Every write lands in the argument page, which maps to itself, so each
     * writes all its bytes.
     */
    method StoreArguments(args: seq<seq<Byte>>, base: int)
      requires ArgPageAt(base) && ArgsSize(args) <= PageSize
      modifies kernel.memory
      ensures base + |ArgPage(args, base)| <= kernel.memory.Length
      ensures kernel.memory[..] == Overwrite(old(kernel.memory[..]), base, ArgPage(args, base))
    {
      ghost var m0 := kernel.memory[..];
      assert base + 4 * |args| <= |m0| by {
        ArgsSizeIsArea(args, base);
      }
      StagedNone(m0, base, args);
      var stringStart := base + 4 * |args|;
      var entryOffset := base;
      var stringOffset := stringStart;
      var i := 0;
      while i < |args|
        invariant 0 <= i <= |args|
        invariant entryOffset == base + 4 * i
        invariant stringOffset == stringStart + |Packed(args[..i])| <= |m0|
        invariant kernel.memory[..] == Staged(m0, base, args, i)
        invariant ArgPageAt(base)
      {
        ArgStep(m0, base, stringStart, args, i, entryOffset, stringOffset);
        StoreArgument(base, entryOffset, stringOffset, args[i]);
        entryOffset := entryOffset + 4;
        stringOffset := stringOffset + |args[i]| + 1;
        i := i + 1;
      }
      StagedAll(m0, base, args);
    }

    /**
     * One turn of load's argument loop: the address of the string as four
     * bytes at entryOffset, the string at stringOffset, and a NUL after it,
     * each write moving all its bytes.
     */
    method StoreArgument(base: int, entryOffset: int, stringOffset: int, arg: seq<Byte>)
      requires ArgPageAt(base)
      requires base <= entryOffset && entryOffset + 4 <= stringOffset && stringOffset + |arg| + 1 <= base + PageSize
      modifies kernel.memory
      ensures ArgPageAt(base)
      ensures kernel.memory[..] == Overwrite(Overwrite(Overwrite(old(kernel.memory[..]), entryOffset, BytesFromInt(stringOffset)),
        stringOffset, arg), stringOffset + |arg|, [0])
    {
      var stringOffsetBytes := BytesFromInt(stringOffset);
      var n := WriteSeq(base, entryOffset, stringOffsetBytes);
      assert n == 4;
      n := WriteSeq(base, stringOffset, arg);
      assert n == |arg|;
      n := WriteSeq(base, stringOffset + |arg|, [0]);
      assert n == 1;
    }

    /**
     * One writeVirtualMemory(vaddr, bytes) inside the argument page: it
     * moves every byte, to physical address vaddr.
     */
    method WriteSeq(base: int, vaddr: int, bytes: seq<Byte>) returns (n: int32)
      requires ArgPageAt(base)
      requires base <= vaddr < base + PageSize && vaddr + |bytes| <= base + PageSize
      modifies kernel.memory
      ensures ArgPageAt(base)
      ensures n as int == |bytes|
      ensures kernel.memory[..] == Overwrite(old(kernel.memory[..]), vaddr, bytes)
    {
      var data := new Byte[|bytes|](k requires 0 <= k < |bytes| => bytes[k]);
      ArgPageMapsToItself(base, vaddr as int32, |bytes|);
      n := WriteVirtualMemoryAll(vaddr as int32, data);
      assert data[..n] == bytes;
    }

    /** Addresses in the argument page reach the same physical address: its entry is still a placeholder. */
    lemma ArgPageMapsToItself(base: int, vaddr: int32, length: nat)
      requires ArgPageAt(base) && base <= vaddr < base + PageSize && vaddr as int + length <= base + PageSize
      ensures Translate(vaddr, true) == Some(vaddr as nat) && Base(vaddr, true) == vaddr as int
      ensures Amount(vaddr, length, true) == length
    {
      AddressSplit(numPages - 1, vaddr as int - base);
    }

    /**
     * loadSections(): fail, taking nothing, when numPages exceeds the
     * physical pages or the free list; otherwise build a table of numPages
     * placeholders and give each section page in turn the first unused
     * entry, its vpn and read-only flag, and the frame removed from the end
     * of the free list.
     */
    method LoadSections(ss: seq<CoffSection>) returns (ok: bool)
      requires kernel.Valid() && numPages >= 0
      modifies this, kernel
      ensures numPages == old(numPages) && openCount == old(openCount) && processID == old(processID)
      ensures initialPC == old(initialPC) && initialSP == old(initialSP) && argc == old(argc) && argv == old(argv)
      ensures kernel.nextProcessID == old(kernel.nextProcessID)
      ensures ok <==> numPages <= kernel.numPhysPages && numPages <= |old(kernel.freePhysicalPages)|
      ensures !ok ==> pageTable == old(pageTable) && kernel.freePhysicalPages == old(kernel.freePhysicalPages)
      ensures ok ==> fresh(pageTable) && MemoryValid()
      ensures ok ==> var k := Min(SumLengths(ss), numPages);
        pageTable[..] == LoadedTable(PagesOf(ss)[..k], old(kernel.freePhysicalPages), numPages)
        && kernel.freePhysicalPages == old(kernel.freePhysicalPages)[..|old(kernel.freePhysicalPages)| - k]
    {
      if numPages > kernel.numPhysPages {
        return false;
      }
      if numPages > |kernel.freePhysicalPages| {
        return false;
      }
      ghost var free0 := kernel.freePhysicalPages;
      pageTable := new TranslationEntry[numPages](Placeholder);
      assert pageTable[..] == LoadedTable([], free0, numPages);
      ghost var done: seq<PageInfo> := [];
      var s := 0;
      while s < |ss|
        invariant 0 <= s <= |ss| && done == PagesOf(ss[..s])
        invariant Loading(done, free0) && kernel.nextProcessID == old(kernel.nextProcessID)
        modifies pageTable, kernel
      {
        assert ss[..s + 1][..s] == ss[..s];
        LoadSection(ss[s], done, free0);
        done := done + SectionPages(ss[s]);
        s := s + 1;
      }
      assert ss[..s] == ss;
      return true;
    }

    /** The pages of one section in turn, each given an entry and a frame by AllocatePage. */
    method LoadSection(c: CoffSection, ghost done: seq<PageInfo>, ghost free0: seq<int>)
      requires Loading(done, free0)
      modifies pageTable, kernel
      ensures Loading(done + SectionPages(c), free0)
      ensures kernel.nextProcessID == old(kernel.nextProcessID)
    {
      ghost var now := done;
      var i := 0;
      while i < c.length
        invariant 0 <= i <= c.length
        invariant now == done + SectionPages(c)[..i]
        invariant Loading(now, free0) && kernel.nextProcessID == old(kernel.nextProcessID)
      {
        var vpn := c.firstVPN + i;
        AllocatePageStep(vpn, c.readOnly, now, free0);
        SectionPagesSnoc(c, i);
        now := now + [PageInfo(vpn, c.readOnly)];
        i := i + 1;
      }
      assert SectionPages(c)[..i] == SectionPages(c);
    }

    /**
     * The state loadSections keeps while it walks the section pages: the
     * first min(|done|, numPages) pages visited have taken entries and
     * frames, in order, and nothing else has changed.
     */
    ghost predicate Loading(done: seq<PageInfo>, free0: seq<int>)
      reads this, kernel, pageTable
    {
      var k := Min(|done|, numPages);
      pageTable.Length == numPages && 0 <= numPages <= |free0|
      && pageTable[..] == LoadedTable(done[..k], free0, numPages)
      && kernel.freePhysicalPages == free0[..|free0| - k]
    }

    /** AllocatePage, stated as one more page visited by loadSections. */
    method AllocatePageStep(vpn: int, readOnly: bool, ghost now: seq<PageInfo>, ghost free0: seq<int>)
      requires Loading(now, free0)
      modifies pageTable, kernel
      ensures Loading(now + [PageInfo(vpn, readOnly)], free0)
      ensures kernel.nextProcessID == old(kernel.nextProcessID)
    {
      PrefixOfSnoc(now, PageInfo(vpn, readOnly), numPages);
      AllocatePage(vpn, readOnly, now[..Min(|now|, numPages)], free0);
    }

    /**
     * One section page of loadSections: find the first unused entry, fill
     * in vpn, read-only flag and used bit, and give it the last free frame.
     * With no unused entry left nothing happens.
     */
    method AllocatePage(vpn: int, readOnly: bool, ghost placed: seq<PageInfo>, ghost free0: seq<int>)
      requires pageTable.Length == numPages && |placed| <= numPages <= |free0|
      requires pageTable[..] == LoadedTable(placed, free0, numPages)
      requires kernel.freePhysicalPages == free0[..|free0| - |placed|]
      modifies pageTable, kernel
      ensures var now := if |placed| < numPages then placed + [PageInfo(vpn, readOnly)] else placed;
        pageTable[..] == LoadedTable(now, free0, numPages)
        && kernel.freePhysicalPages == free0[..|free0| - |now|]
      ensures kernel.nextProcessID == old(kernel.nextProcessID)
    {
      var j := 0;
      while j < numPages
        invariant 0 <= j <= numPages && j <= |placed|
        invariant pageTable[..] == old(pageTable[..]) && kernel.freePhysicalPages == old(kernel.freePhysicalPages)
        invariant kernel.nextProcessID == old(kernel.nextProcessID)
      {
        if !pageTable[j].used {
          var e := pageTable[j].(vpn := vpn, readOnly := readOnly, used := true);
          var free := kernel.freePhysicalPages;
          e := e.(ppn := free[|free| - 1]);
          kernel.freePhysicalPages := free[..|free| - 1];
          pageTable[j] := e;
          assert pageTable[..] == LoadedTable(placed + [PageInfo(vpn, readOnly)], free0, numPages);
          return;
        }
        j := j + 1;
      }
    }

    /**
     * unloadSections(): hand every entry's frame back to the end of the
     * free list, in slot order, and reset each entry to its placeholder.
     */
    method UnloadSections()
      requires MemoryValid()
      modifies kernel, pageTable
      ensures kernel.freePhysicalPages == old(kernel.freePhysicalPages) + Ppns(old(pageTable[..]))
      ensures pageTable[..] == seq(numPages, Placeholder)
      ensures kernel.nextProcessID == old(kernel.nextProcessID)
    {
      var i := 0;
      while i < numPages
        invariant 0 <= i <= numPages
        invariant kernel.freePhysicalPages == old(kernel.freePhysicalPages) + Ppns(old(pageTable[..])[..i])
        invariant forall j :: 0 <= j < i ==> pageTable[j] == Placeholder(j)
        invariant forall j :: i <= j < numPages ==> pageTable[j] == old(pageTable[j])
        invariant kernel.nextProcessID == old(kernel.nextProcessID)
      {
        assert old(pageTable[..])[..i + 1][..i] == old(pageTable[..])[..i];
        kernel.freePhysicalPages := kernel.freePhysicalPages + [pageTable[i].ppn];
        pageTable[i] := Placeholder(i);
        i := i + 1;
      }
      assert old(pageTable[..])[..i] == old(pageTable[..]);
    }

    // -------------------------------------------------------------------
    // The descriptor table
    // -------------------------------------------------------------------

    /** A read or write may go ahead: fd names a slot, count is not negative and the slot is open. */
    predicate Usable(fd: int32, count: int32)
      requires FilesValid()
      reads this, files
    {
      0 <= fd < MaxOpenCount && count >= 0 && files[fd].Some?
    }

    /**
     * handleOpen(name), given what the file system's open returned: the
     * name is read from user memory as a string of at most 256 bytes; the
     * result is -1 when open returned nothing, otherwise the old openCount,
     * with the file stored at that slot only when openCount is below 16.
     */
    method HandleOpen(name: int32, found: Option<FileId>) returns (fd: int, fname: Option<seq<Byte>>)
      requires FilesValid() && MemoryValid()
      modifies this, files
      ensures fname == old(CStringOf(Window(name, MaxStringLength + 1)))
      ensures FilesValid() && Unchanged()
      ensures found.None? ==> fd == -1 && openCount == old(openCount) && files[..] == old(files[..])
      ensures found.Some? ==> fd == old(openCount)
      ensures found.Some? && old(openCount) < MaxOpenCount ==>
        openCount == old(openCount) + 1 && files[..] == old(files[..])[fd := found]
      ensures found.Some? && old(openCount) >= MaxOpenCount ==>
        openCount == old(openCount) && files[..] == old(files[..])
    {
      fname := ReadVirtualMemoryString(name, MaxStringLength);
      if found.None? {
        return -1, fname;
      }
      fd := Install(found);
    }

    /**
     * Store a file returned by the file system: the slot openCount receives
     * it and openCount advances, unless all 16 slots have been handed out;
     * the old openCount is the descriptor either way.
     */
    method Install(f: Option<FileId>) returns (fd: int)
      requires FilesValid()
      modifies this, files
      ensures FilesValid() && Unchanged()
      ensures fd == old(openCount)
      ensures old(openCount) < MaxOpenCount ==> openCount == old(openCount) + 1 && files[..] == old(files[..])[fd := f]
      ensures old(openCount) >= MaxOpenCount ==> openCount == old(openCount) && files[..] == old(files[..])
    {
      fd := openCount;
      if openCount < MaxOpenCount {
        CountOpenUpdate(files[..], openCount, f);
        files[openCount] := f;
        openCount := openCount + 1;
      }
    }

    /**
     * handleCreate(name), given what open without and with creation
     * returned: the name is read like handleOpen reads it; the existing
     * file if there is one, else the created one (possibly nothing), is
     * stored like handleOpen does; the result is always the old openCount,
     * never -1.
     */
    method HandleCreate(name: int32, existing: Option<FileId>, created: Option<FileId>) returns (fd: int, fname: Option<seq<Byte>>)
      requires FilesValid() && MemoryValid()
      modifies this, files
      ensures fname == old(CStringOf(Window(name, MaxStringLength + 1)))
      ensures FilesValid() && Unchanged()
      ensures fd == old(openCount)
      ensures var stored := if existing.Some? then existing else created;
        old(openCount) < MaxOpenCount ==> openCount == old(openCount) + 1 && files[..] == old(files[..])[fd := stored]
      ensures old(openCount) >= MaxOpenCount ==> openCount == old(openCount) && files[..] == old(files[..])
    {
      fname := ReadVirtualMemoryString(name, MaxStringLength);
      var nfile := existing;
      if nfile.None? {
        nfile := created;
      }
      fd := Install(nfile);
    }

    /**
     * handleClose(fd): -1 for fd above 16 or negative; fd 16 passes the
     * check and indexes past the table; -1 for an empty slot; otherwise the
     * slot is emptied, openCount drops by one and the result is 0.
     */
    method HandleClose(fd: int32) returns (r: Outcome)
      requires FilesValid()
      modifies this, files
      ensures FilesValid() && Unchanged()
      ensures (fd > MaxOpenCount || fd < 0) ==> r == Returned(-1)
      ensures fd == MaxOpenCount ==> r == IndexOutOfBounds
      ensures 0 <= fd < MaxOpenCount && old(files[fd]).None? ==> r == Returned(-1)
      ensures 0 <= fd < MaxOpenCount && old(files[fd]).Some? ==>
        r == Returned(0) && files[..] == old(files[..])[fd := None] && openCount == old(openCount) - 1
      ensures r != Returned(0) ==> files[..] == old(files[..]) && openCount == old(openCount)
    {
      if fd > MaxOpenCount || fd < 0 {
        return Returned(-1);
      }
      if fd == MaxOpenCount {
        return IndexOutOfBounds;
      }
      var closedFile := files[fd];
      if files[fd].None? {
        return Returned(-1);
      }
      CountOpenUpdate(files[..], fd as nat, None);
      files[fd] := None;
      openCount := openCount - 1;
      return Returned(0);
    }

    /** The fields the descriptor calls leave alone. */
    twostate predicate Unchanged()
      reads this
    {
      pageTable == old(pageTable) && numPages == old(numPages) && processID == old(processID)
      && initialPC == old(initialPC) && initialSP == old(initialSP) && argc == old(argc) && argv == old(argv)
    }

    /**
     * handleRead(fd, bva, count), given what the file's read returned (None
     * for -1, else the bytes read, at most count): -1 for a bad fd, a
     * negative count, an empty slot or a failed read; otherwise the count
     * bytes of the buffer, the bytes read followed by zeros, are written at
     * bva, and the result is -1 when that write moved nothing and the
     * number of bytes read when it moved anything.
     */
    method HandleRead(fd: int32, bva: int32, count: int32, got: Option<seq<Byte>>) returns (r: int)
      requires FilesValid() && MemoryValid()
      requires got.Some? && count >= 0 ==> |got.value| <= count as int
      modifies kernel.memory
      ensures !Usable(fd, count) || got.None? ==> r == -1 && kernel.memory[..] == old(kernel.memory[..])
      ensures Usable(fd, count) && got.Some? ==>
        var buffer := got.value + Zeros(count as int - |got.value|);
        var n := old(Amount(bva, count as nat, true));
        kernel.memory[..] == Overwrite(old(kernel.memory[..]), old(Base(bva, true)), buffer[..n])
        && r == (if n == 0 then -1 else |got.value|)
    {
      if fd < 0 || fd >= MaxOpenCount {
        return -1;
      }
      if count < 0 {
        return -1;
      }
      var readFile := files[fd];
      if readFile.None? {
        return -1;
      }
      if got.None? {
        return -1;
      }
      var bytes := got.value;
      var check := CopyOut(bva, bytes, count);
      if check == 0 {
        return -1;
      }
      return |bytes|;
    }

    /**
     * The copy-out step of handleRead: the bytes read, padded with zeros to
     * count bytes, written to user memory at bva.
     */
    method CopyOut(bva: int32, bytes: seq<Byte>, count: int32) returns (n: int32)
      requires MemoryValid() && 0 <= count && |bytes| <= count as int
      modifies kernel.memory
      ensures n as int == old(Amount(bva, count as nat, true))
      ensures kernel.memory[..]
        == Overwrite(old(kernel.memory[..]), old(Base(bva, true)), (bytes + Zeros(count as int - |bytes|))[..n])
    {
      ghost var amount := Amount(bva, count as nat, true);
      ghost var at := Base(bva, true);
      ghost var m0 := kernel.memory[..];
      var bufferBytes := ReadBuffer(bytes, count as nat);
      ghost var buffer := bufferBytes[..];
      n := WriteVirtualMemory(bva, bufferBytes, 0, count);
      assert n as int == amount && kernel.memory[..] == Overwrite(m0, at, buffer[..n]);
    }

    /**
     * handleWrite(fd, bva, count), given what the file's write returns:
     * -1 for a bad fd, a negative count or an empty slot; -1 when fewer
     * than count bytes could be read from bva; otherwise exactly those
     * count bytes go to the file, and the result is count, or -1 when the
     * file's write reported -1.
     */
    method HandleWrite(fd: int32, bva: int32, count: int32, written: int) returns (r: int, sent: Option<seq<Byte>>)
      requires FilesValid() && MemoryValid()
      ensures !Usable(fd, count) ==> r == -1 && sent == None
      ensures Usable(fd, count) && old(|Window(bva, count as nat)|) != count as int ==> r == -1 && sent == None
      ensures Usable(fd, count) && old(|Window(bva, count as nat)|) == count as int ==>
        sent == old(Some(Window(bva, count as nat))) && r == (if written == -1 then -1 else count as int)
    {
      if fd < 0 || fd >= MaxOpenCount {
        return -1, None;
      }
      if count < 0 {
        return -1, None;
      }
      var writeFile := files[fd];
      if writeFile.None? {
        return -1, None;
      }
      var bufferBytes := new Byte[count];
      var numberBytes := ReadVirtualMemory(bva, bufferBytes, 0, count);
      if numberBytes == 0 && count != 0 {
        return -1, None;
      }
      if numberBytes != count {
        return -1, None;
      }
      assert bufferBytes[..] == bufferBytes[..][0..count];
      sent := Some(bufferBytes[..]);
      var check := written;
      if check == -1 {
        return -1, sent;
      }
      return numberBytes as int, sent;
    }
  }

  /** Sixteen empty slots, or any number. */
  function Closed(n: nat): seq<Option<FileId>>
  {
    seq(n, _ => None)
  }

  lemma {:induction false} CountOpenClosed(n: nat)
    ensures CountOpen(Closed(n)) == 0
  {
    if n > 0 {
      assert Closed(n)[..n - 1] == Closed(n - 1);
      CountOpenClosed(n - 1);
    }
  }

  /** Section page i comes right after the first i of them. */
  lemma SectionPagesSnoc(c: CoffSection, i: nat)
    requires i < c.length
    ensures SectionPages(c)[..i + 1] == SectionPages(c)[..i] + [PageInfo(c.firstVPN + i, c.readOnly)]
  {
  }

  /** The first min(|xs| + 1, n) elements of xs + [x]: one more than of xs, while there is room. */
  lemma PrefixOfSnoc<T>(xs: seq<T>, x: T, n: nat)
    ensures var k := Min(|xs|, n);
      (xs + [x])[..Min(|xs| + 1, n)] == if k < n then xs[..k] + [x] else xs[..k]
  {
    var k := Min(|xs|, n);
    if k < n {
      assert xs[..k] == xs;
    }
  }

  /**
   * The first loop of load: walk the sections, adding up their lengths,
   * and stop at the first one that does not start where the previous ones
   * end.
   */
  method CheckContiguous(ss: seq<CoffSection>) returns (ok: bool, pages: nat)
    ensures ok <==> Contiguous(ss)
    ensures ok ==> pages == SumLengths(ss)
  {
    pages := 0;
    var s := 0;
    while s < |ss|
      invariant 0 <= s <= |ss| && pages == SumLengths(ss[..s])
      invariant forall k :: 0 <= k < s ==> ss[k].firstVPN == SumLengths(ss[..k])
    {
      if ss[s].firstVPN != pages {
        return false, pages;
      }
      assert ss[..s + 1][..s] == ss[..s];
      pages := pages + ss[s].length;
      s := s + 1;
    }
    assert ss[..s] == ss;
    return true, pages;
  }

  /** The second loop of load: the bytes the arguments need, pointers and NULs included. */
  method ArgumentsSize(args: seq<seq<Byte>>) returns (argsSize: nat)
    ensures argsSize == ArgsSize(args)
  {
    argsSize := 0;
    var i := 0;
    while i < |args|
      invariant 0 <= i <= |args| && argsSize == ArgsSize(args[..i])
    {
      assert args[..i + 1][..i] == args[..i];
      argsSize := argsSize + 4 + |args[i]| + 1;
      i := i + 1;
    }
    assert args[..i] == args;
  }

  /** The loop of readVirtualMemoryString: the bytes before the first NUL among the first `bytesRead`. */
  method StringBeforeNul(bytes: array<Byte>, bytesRead: int32) returns (s: Option<seq<Byte>>)
    requires 0 <= bytesRead as int <= bytes.Length
    ensures s == CStringOf(bytes[..bytesRead])
  {
    ghost var w := bytes[..bytesRead];
    var length := 0;
    while length < bytesRead
      invariant 0 <= length <= bytesRead
      invariant 0 !in w[..length]
    {
      if bytes[length] == 0 {
        CStringAtFirstNul(w, length as nat);
        assert w[..length] == bytes[..length];
        return Some(bytes[..length]);
      }
      assert w[..length + 1] == w[..length] + [w[length]];
      length := length + 1;
    }
    assert w[..length] == w;
    return None;
  }

  /** The last of n pages lies inside a memory of at least n pages. */
  lemma LastPageFits(n: int, pages: nat)
    requires 1 <= n <= pages
    ensures 0 <= (n - 1) * PageSize && (n - 1) * PageSize + PageSize == n * PageSize <= pages * PageSize
  {
  }

  /**
   * The buffer handleRead hands to the file's read: count bytes, zero
   * except for the bytes the read returned at its front.
   */
  method ReadBuffer(bytes: seq<Byte>, count: nat) returns (buffer: array<Byte>)
    requires |bytes| <= count
    ensures fresh(buffer) && buffer[..] == bytes + Zeros(count - |bytes|)
  {
    buffer := new Byte[count](_ => 0);
    forall k | 0 <= k < |bytes| {
      buffer[k] := bytes[k];
    }
    assert buffer[..] == bytes + Zeros(count - |bytes|);
  }

  /**
   * Because handleOpen stores at openCount rather than at a free slot, a
   * close followed by an open overwrites a slot that is still open: after
   * opening files 10 and 11 (slots 2 and 3) and closing slot 2, the next
   * open (file 12) is given slot 3 and file 11 is no longer in the table.
   */
  method ReopenAfterClose() returns (fd: int, slot2: Option<FileId>, slot3: Option<FileId>)
    ensures fd == 3 && slot2 == None && slot3 == Some(12)
  {
    var k := new Kernel(0);
    var p := new UserProcess(k, 0, 1);
    var a, name := p.HandleOpen(0, Some(10));
    var b, name' := p.HandleOpen(0, Some(11));
    var closed := p.HandleClose(2);
    fd, name := p.HandleOpen(0, Some(12));
    slot2, slot3 := p.files[2], p.files[3];
  }

  /** A table holding only the two console files has two open slots. */
  lemma ConsoleTableCount(consoleIn: FileId, consoleOut: FileId)
    ensures CountOpen([Some(consoleIn), Some(consoleOut)] + Closed(14)) == 2
  {
    CountOpenClosed(16);
    assert [None, None] + Closed(14) == Closed(16);
    CountOpenUpdate([None, None] + Closed(14), 0, Some(consoleIn));
    assert ([None, None] + Closed(14))[0 := Some(consoleIn)] == [Some(consoleIn), None] + Closed(14);
    CountOpenUpdate([Some(consoleIn), None] + Closed(14), 1, Some(consoleOut));
    assert ([Some(consoleIn), None] + Closed(14))[1 := Some(consoleOut)] == [Some(consoleIn), Some(consoleOut)] + Closed(14);
  }

  /** System.arraycopy: as if through a temporary copy, so source and destination may be the same array. */
  method ArrayCopy(src: array<Byte>, srcPos: nat, dest: array<Byte>, destPos: nat, length: nat)
    requires srcPos + length <= src.Length && destPos + length <= dest.Length
    modifies dest
    ensures dest[..] == Overwrite(old(dest[..]), destPos, old(src[srcPos..srcPos + length]))
  {
    var chunk := src[srcPos..srcPos + length];
    ghost var before := dest[..];
    forall i | destPos <= i < destPos + length {
      dest[i] := chunk[i - destPos];
    }
    assert dest[..] == Overwrite(before, destPos, chunk);
  }
}
