/**
 * The arithmetic of loading a program into a user process: the COFF
 * sections that must tile the address space from page 0, the pages they
 * contribute, the page table loadSections builds from the free-page list,
 * and the argument page with its argv pointer table and packed strings.
 */
module Layout {
  import opened JavaInt
  import opened Processor
  import opened Wrappers

  /** Pages reserved for the user stack, after the sections. */
  const StackPages: nat := 8

  /** A COFF section as load sees it: first virtual page, length in pages, read-only flag. */
  datatype CoffSection = CoffSection(firstVPN: int, length: nat, readOnly: bool)

  /** Total pages of the sections, summed in file order. */
  function SumLengths(ss: seq<CoffSection>): nat
  {
    if ss == [] then 0 else SumLengths(ss[..|ss| - 1]) + ss[|ss| - 1].length
  }

  /** Every section starts where the ones before it end, the first at page 0. */
  predicate Contiguous(ss: seq<CoffSection>)
  {
    forall k :: 0 <= k < |ss| ==> ss[k].firstVPN == SumLengths(ss[..k])
  }

  /** Contiguity is a property of every prefix too. */
  lemma {:induction false} ContiguousPrefix(ss: seq<CoffSection>, n: nat)
    requires Contiguous(ss) && n <= |ss|
    ensures Contiguous(ss[..n])
  {
    forall k | 0 <= k < n
      ensures ss[..n][k].firstVPN == SumLengths(ss[..n][..k])
    {
      assert ss[..n][..k] == ss[..k];
    }
  }

  /** The virtual page and protection of one page that a section brings. */
  datatype PageInfo = PageInfo(vpn: int, readOnly: bool)

  function SectionPages(c: CoffSection): seq<PageInfo>
  {
    seq(c.length, i => PageInfo(c.firstVPN + i, c.readOnly))
  }

  /** The section pages in the order loadSections visits them. */
  function PagesOf(ss: seq<CoffSection>): (ps: seq<PageInfo>)
    ensures |ps| == SumLengths(ss)
  {
    if ss == [] then [] else PagesOf(ss[..|ss| - 1]) + SectionPages(ss[|ss| - 1])
  }

  /** In a contiguous executable the i-th page visited is virtual page i. */
  lemma {:induction false} ContiguousPagesAreIdentity(ss: seq<CoffSection>)
    requires Contiguous(ss)
    ensures forall j :: 0 <= j < |PagesOf(ss)| ==> PagesOf(ss)[j].vpn == j
  {
    if ss != [] {
      var init := ss[..|ss| - 1];
      ContiguousPrefix(ss, |ss| - 1);
      ContiguousPagesAreIdentity(init);
      assert ss[|ss| - 1].firstVPN == SumLengths(init);
    }
  }

  /**
   * The page table after the first |placed| unused slots of a fresh
   * table of n placeholders received the pages in `placed`, each taking
   * the frame at the current end of `free`; the other slots stay placeholders.
   */
  function LoadedTable(placed: seq<PageInfo>, free: seq<int>, n: nat): seq<TranslationEntry>
    requires |placed| <= n && |placed| <= |free|
  {
    seq(n, j requires 0 <= j < n =>
      if j < |placed| then
        TranslationEntry(placed[j].vpn, free[|free| - 1 - j], true, placed[j].readOnly, true, false)
      else Placeholder(j))
  }

  /** The frame numbers a page table holds, in slot order. */
  function Ppns(t: seq<TranslationEntry>): (r: seq<int>)
    ensures |r| == |t| && forall j :: 0 <= j < |t| ==> r[j] == t[j].ppn
  {
    if t == [] then [] else Ppns(t[..|t| - 1]) + [t[|t| - 1].ppn]
  }

  /** The consecutive integers lo, lo+1, ..., hi-1. */
  function Range(lo: int, hi: int): seq<int>
    requires lo <= hi
  {
    seq(hi - lo, j => lo + j)
  }

  /** The elements of s, last first. */
  function Reverse(s: seq<int>): seq<int>
  {
    seq(|s|, j requires 0 <= j < |s| => s[|s| - 1 - j])
  }

  /** Reversing keeps every element, with its multiplicity. */
  lemma {:induction false} ReverseSameElements(s: seq<int>)
    ensures multiset(Reverse(s)) == multiset(s)
  {
    if s != [] {
      var init := s[..|s| - 1];
      ReverseSameElements(init);
      assert Reverse(s) == [s[|s| - 1]] + Reverse(init);
      assert s == init + [s[|s| - 1]];
    }
  }

  /**
   * Releasing a loaded table hands back the frames taken from the free list
   * and, in addition, the placeholder frame numbers |placed| .. n-1 of the
   * stack and argument pages, which were never taken from it.
   */
  lemma ReleasedFrames(placed: seq<PageInfo>, free: seq<int>, n: nat)
    requires |placed| <= n && |placed| <= |free|
    ensures var k := |placed|;
      multiset(free[..|free| - k] + Ppns(LoadedTable(placed, free, n))) == multiset(free) + multiset(Range(k, n))
  {
    var k := |placed|;
    var taken := free[|free| - k..];
    LoadedFrames(placed, free, n);
    ReverseSameElements(taken);
    assert free == free[..|free| - k] + taken;
  }

  /** The frames of a loaded table: the taken ones in reverse order, then the placeholder numbers. */
  lemma LoadedFrames(placed: seq<PageInfo>, free: seq<int>, n: nat)
    requires |placed| <= n && |placed| <= |free|
    ensures Ppns(LoadedTable(placed, free, n)) == Reverse(free[|free| - |placed|..]) + Range(|placed|, n)
  {
    var k := |placed|;
    var t := LoadedTable(placed, free, n);
    var rev := Reverse(free[|free| - k..]);
    var rng := Range(k, n);
    var lhs := Ppns(t);
    forall j | 0 <= j < n
      ensures lhs[j] == (rev + rng)[j]
    {
      if j < k {
        assert (rev + rng)[j] == rev[j];
      } else {
        assert (rev + rng)[j] == rng[j - k];
      }
    }
    assert |lhs| == |rev + rng|;
  }

  /**
   * Unloading hands back the placeholder frame of every entry no section
   * page took, even when that frame is still on the free list: with free
   * frames 0, 1, 2 and a two-page table of which one page was loaded (into
   * frame 2), the free list after unloading holds frame 1 twice.
   */
  lemma UnloadDuplicatesFrame()
    ensures var free := [0, 1, 2];
      var t := LoadedTable([PageInfo(0, false)], free, 2);
      free[..2] + Ppns(t) == [0, 1, 2, 1]
  {
    var t := LoadedTable([PageInfo(0, false)], [0, 1, 2], 2);
    assert t[0].ppn == 2 && t[1].ppn == 1;
  }

  // ---------------------------------------------------------------------
  // The argument page
  // ---------------------------------------------------------------------

  /** Bytes load reserves for the arguments: a 4-byte pointer, the string and its NUL, each. */
  function ArgsSize(args: seq<seq<Byte>>): nat
  {
    if args == [] then 0 else ArgsSize(args[..|args| - 1]) + 4 + |args[|args| - 1]| + 1
  }

  /** The strings back to back, each followed by a NUL byte. */
  function Packed(args: seq<seq<Byte>>): seq<Byte>
  {
    if args == [] then [] else Packed(args[..|args| - 1]) + args[|args| - 1] + [0]
  }

  /** The argv table: pointer i holds the address where string i starts. */
  function Pointers(args: seq<seq<Byte>>, stringStart: int): (r: seq<Byte>)
    ensures |r| == 4 * |args|
  {
    if args == [] then []
    else Pointers(args[..|args| - 1], stringStart) + BytesFromInt(stringStart + |Packed(args[..|args| - 1])|)
  }

  /** The whole argument area written at `entryStart`: pointer table, then packed strings. */
  function ArgPage(args: seq<seq<Byte>>, entryStart: int): seq<Byte>
  {
    Pointers(args, entryStart + 4 * |args|) + Packed(args)
  }

  /** The size load checks is exactly the size of the area written. */
  lemma {:induction false} ArgsSizeIsArea(args: seq<seq<Byte>>, entryStart: int)
    ensures ArgsSize(args) == |ArgPage(args, entryStart)| == 4 * |args| + |Packed(args)|
  {
    if args != [] {
      ArgsSizeIsArea(args[..|args| - 1], entryStart);
    }
  }

  lemma {:induction false} PackedPrefix(args: seq<seq<Byte>>, m: nat)
    requires m <= |args|
    ensures |Packed(args[..m])| <= |Packed(args)|
    ensures Packed(args)[..|Packed(args[..m])|] == Packed(args[..m])
  {
    if m < |args| {
      var init := args[..|args| - 1];
      assert init[..m] == args[..m];
      PackedPrefix(init, m);
    } else {
      assert args[..m] == args;
    }
  }

  lemma {:induction false} PointersPrefix(args: seq<seq<Byte>>, stringStart: int, m: nat)
    requires m <= |args|
    ensures Pointers(args, stringStart)[..4 * m] == Pointers(args[..m], stringStart)
  {
    if m < |args| {
      var init := args[..|args| - 1];
      assert init[..m] == args[..m];
      PointersPrefix(init, stringStart, m);
    } else {
      assert args[..m] == args;
    }
  }

  /** Pointer i encodes the start of string i. */
  lemma PointerEntry(args: seq<seq<Byte>>, stringStart: int, i: nat)
    requires i < |args|
    ensures Pointers(args, stringStart)[4 * i..4 * i + 4] == BytesFromInt(stringStart + |Packed(args[..i])|)
  {
    PointersPrefix(args, stringStart, i + 1);
    PrefixSnoc(args, stringStart, i);
    var whole := Pointers(args, stringStart);
    var p := Pointers(args[..i + 1], stringStart);
    assert whole[..4 * i + 4] == p;
    assert whole[4 * i..4 * i + 4] == p[4 * i..];
  }

  /** String i with its NUL sits right after the earlier strings and their NULs. */
  lemma PackedEntry(args: seq<seq<Byte>>, i: nat)
    requires i < |args|
    ensures var at := |Packed(args[..i])|;
      at + |args[i]| + 1 <= |Packed(args)| && Packed(args)[at..at + |args[i]| + 1] == args[i] + [0]
  {
    PackedPrefix(args, i + 1);
    var pre := args[..i + 1];
    assert pre[..i] == args[..i];
  }

  /** Where string i starts in the argument page: after the table and the earlier strings. */
  function StringOffset(args: seq<seq<Byte>>, i: nat): nat
    requires i <= |args|
  {
    4 * |args| + |Packed(args[..i])|
  }

  /**
   * Reading the argument area as the started program does: pointer i is
   * the encoded address of string i, and the C string found there is
   * argument i, provided the argument itself holds no NUL.
   */
  lemma ArgvRoundTrip(args: seq<seq<Byte>>, entryStart: int, i: nat)
    requires i < |args| && 0 !in args[i]
    ensures var page := ArgPage(args, entryStart);
      page[4 * i..4 * i + 4] == BytesFromInt(entryStart + StringOffset(args, i))
      && StringOffset(args, i) < |page| && CStringOf(page[StringOffset(args, i)..]) == Some(args[i])
  {
    PointerCell(args, entryStart, i);
    assert entryStart + StringOffset(args, i) == entryStart + 4 * |args| + |Packed(args[..i])|;
    ArgString(args, Pointers(args, entryStart + 4 * |args|), i);
  }

  /** After any 4|args|-byte table, the C string at string i's slot is argument i. */
  lemma ArgString(args: seq<seq<Byte>>, table: seq<Byte>, i: nat)
    requires i < |args| && 0 !in args[i] && |table| == 4 * |args|
    ensures StringOffset(args, i) < |table + Packed(args)|
    ensures CStringOf((table + Packed(args))[StringOffset(args, i)..]) == Some(args[i])
  {
    PackedEntry(args, i);
    TerminatedAfter(table, Packed(args), |Packed(args[..i])|, StringOffset(args, i), args[i]);
  }

  /** A terminated string inside the second part of a page is the C string found at its start. */
  lemma TerminatedAfter(table: seq<Byte>, packed: seq<Byte>, at: nat, start: nat, arg: seq<Byte>)
    requires 0 !in arg && at + |arg| + 1 <= |packed| && packed[at..at + |arg| + 1] == arg + [0]
    requires start == |table| + at
    ensures start < |table + packed| && CStringOf((table + packed)[start..]) == Some(arg)
  {
    var rest := (table + packed)[start..];
    assert rest[..|arg| + 1] == packed[at..at + |arg| + 1];
    assert rest == arg + [0] + rest[|arg| + 1..];
    CStringOfTerminated(arg, rest[|arg| + 1..]);
  }

  lemma PointerCell(args: seq<seq<Byte>>, entryStart: int, i: nat)
    requires i < |args|
    ensures ArgPage(args, entryStart)[4 * i..4 * i + 4]
      == BytesFromInt(entryStart + 4 * |args| + |Packed(args[..i])|)
  {
    var stringStart := entryStart + 4 * |args|;
    var table := Pointers(args, stringStart);
    SliceOfFront(table, Packed(args), 4 * i, 4 * i + 4);
    PointerEntry(args, stringStart, i);
  }

  // ---------------------------------------------------------------------
  // Writing the argument page, one argument at a time
  // ---------------------------------------------------------------------

  /** The layout of the first i+1 arguments extends that of the first i by argument i. */
  lemma PrefixSnoc(args: seq<seq<Byte>>, stringStart: int, i: nat)
    requires i < |args|
    ensures Packed(args[..i + 1]) == Packed(args[..i]) + args[i] + [0]
    ensures Pointers(args[..i + 1], stringStart)
      == Pointers(args[..i], stringStart) + BytesFromInt(stringStart + |Packed(args[..i])|)
  {
    var pre := args[..i + 1];
    assert pre[..i] == args[..i];
  }

  /**
   * Extending the pointer area by one cell and the string area by one
   * terminated string, each in place, in the order load writes them: the
   * cell at c, right after the pointers, the argument at a, right after
   * the strings, and its NUL at z, right after the argument.
   */
  lemma TwoAreasStep(m: seq<Byte>, e: int, ptrs: seq<Byte>, cell: seq<Byte>, s: int, strs: seq<Byte>, arg: seq<Byte>,
                     c: int, a: int, z: int)
    requires 0 <= e && e + |ptrs| + |cell| <= s && s + |strs| + |arg| + 1 <= |m|
    requires c == e + |ptrs| && a == s + |strs| && z == a + |arg|
    ensures Overwrite(Overwrite(Overwrite(Overwrite(Overwrite(m, e, ptrs), s, strs), c, cell), a, arg), z, [0])
      == Overwrite(Overwrite(m, e, ptrs + cell), s, strs + arg + [0])
  {
    var withPtrs := Overwrite(m, e, ptrs);
    var withCell := Overwrite(m, e, ptrs + cell);
    var x1 := Overwrite(Overwrite(withPtrs, s, strs), c, cell);
    assert x1 == Overwrite(withCell, s, strs) by {
      OverwriteDisjoint(withPtrs, c, cell, s, strs);
      OverwriteAdjacent(m, e, ptrs, cell);
    }
    var x2 := Overwrite(x1, a, arg);
    assert x2 == Overwrite(withCell, s, strs + arg) by {
      OverwriteAdjacent(withCell, s, strs, arg);
    }
    assert Overwrite(x2, z, [0]) == Overwrite(withCell, s, strs + arg + [0]) by {
      OverwriteAdjacent(withCell, s, strs + arg, [0]);
    }
  }

  /** Memory `m` once the first i arguments are written at `base`: their pointers and their strings. */
  ghost function Staged(m: seq<Byte>, base: int, args: seq<seq<Byte>>, i: nat): seq<Byte>
    requires i <= |args| && 0 <= base && base + 4 * |args| + |Packed(args[..i])| <= |m|
  {
    Overwrite(Overwrite(m, base, Pointers(args[..i], base + 4 * |args|)), base + 4 * |args|, Packed(args[..i]))
  }

  /** Before any argument is written, memory is as it was. */
  lemma StagedNone(m: seq<Byte>, base: int, args: seq<seq<Byte>>)
    requires 0 <= base && base + 4 * |args| <= |m|
    ensures args[..0] == [] && Staged(m, base, args, 0) == m
  {
    assert args[..0] == [];
    assert Overwrite(m, base, []) == m;
  }

  /**
   * One turn of load's argument loop, with the strings starting at s: the
   * pointer cell at e = base + 4i, then argument i at `at`, the end of the
   * strings so far, then its NUL at z, all inside the area ArgsSize
   * reserves.
   */
  lemma ArgStep(m: seq<Byte>, base: int, s: int, args: seq<seq<Byte>>, i: nat, e: int, at: int)
    requires i < |args| && 0 <= base && base + ArgsSize(args) <= |m|
    requires s == base + 4 * |args| && e == base + 4 * i && at == s + |Packed(args[..i])|
    ensures at + |args[i]| + 1 == s + |Packed(args[..i + 1])| <= base + ArgsSize(args) <= |m|
    ensures Overwrite(Overwrite(Overwrite(Staged(m, base, args, i), e, BytesFromInt(at)), at, args[i]), at + |args[i]|, [0])
      == Staged(m, base, args, i + 1)
  {
    ArgStepTo(m, base, s, args, i, e, at, at + |args[i]|);
  }

  /** ArgStep, with the address of the NUL after argument i given as z. */
  lemma ArgStepTo(m: seq<Byte>, base: int, s: int, args: seq<seq<Byte>>, i: nat, e: int, at: int, z: int)
    requires i < |args| && 0 <= base && base + ArgsSize(args) <= |m|
    requires s == base + 4 * |args| && e == base + 4 * i && at == s + |Packed(args[..i])| && z == at + |args[i]|
    ensures z + 1 == s + |Packed(args[..i + 1])| <= base + ArgsSize(args) <= |m|
    ensures Overwrite(Overwrite(Overwrite(Staged(m, base, args, i), e, BytesFromInt(at)), at, args[i]), z, [0])
      == Staged(m, base, args, i + 1)
  {
    ArgStepBounds(base, s, args, i, at, z);
    PrefixSnoc(args, s, i);
    var ptrs, strs, cell := Pointers(args[..i], s), Packed(args[..i]), BytesFromInt(at);
    StagedIs(m, base, s, args, i, ptrs, strs);
    StagedIs(m, base, s, args, i + 1, ptrs + cell, strs + args[i] + [0]);
    TwoAreasStep(m, base, ptrs, cell, s, strs, args[i], e, at, z);
  }

  /** Argument i and its NUL end where the packed strings of the first i+1 arguments end, inside the area. */
  lemma ArgStepBounds(base: int, s: int, args: seq<seq<Byte>>, i: nat, at: int, z: int)
    requires i < |args| && s == base + 4 * |args| && at == s + |Packed(args[..i])| && z == at + |args[i]|
    ensures z + 1 == s + |Packed(args[..i + 1])| <= base + ArgsSize(args)
  {
    ArgsSizeIsArea(args, base);
    PackedPrefix(args, i + 1);
    PrefixSnoc(args, s, i);
  }

  lemma StagedIs(m: seq<Byte>, base: int, s: int, args: seq<seq<Byte>>, i: nat, ptrs: seq<Byte>, strs: seq<Byte>)
    requires i <= |args| && 0 <= base && s == base + 4 * |args| && s + |Packed(args[..i])| <= |m|
    requires ptrs == Pointers(args[..i], s) && strs == Packed(args[..i])
    ensures Staged(m, base, args, i) == Overwrite(Overwrite(m, base, ptrs), s, strs)
  {
  }

  /** Once every argument is written, memory holds the whole argument area at `base`. */
  lemma StagedAll(m: seq<Byte>, base: int, args: seq<seq<Byte>>)
    requires 0 <= base && base + ArgsSize(args) <= |m|
    ensures base + |ArgPage(args, base)| <= |m| && base + 4 * |args| + |Packed(args[..|args|])| <= |m|
    ensures Staged(m, base, args, |args|) == Overwrite(m, base, ArgPage(args, base))
  {
    ArgsSizeIsArea(args, base);
    assert args[..|args|] == args;
    OverwriteAdjacent(m, base, Pointers(args, base + 4 * |args|), Packed(args));
  }

  lemma SliceOfFront<T>(a: seq<T>, b: seq<T>, lo: nat, hi: nat)
    requires lo <= hi <= |a|
    ensures (a + b)[lo..hi] == a[lo..hi]
  {
  }
}
