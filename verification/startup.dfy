/** The early page tables of startup.S: compute_indices, populate_entries and map_memory, and what
    the hardware makes of the tables they leave behind. */
module Startup {
  import opened Words
  import opened HardwareWalk

  /** Words [first, first + n) of memory replaced by value, value + 4096, value + 2 * 4096, ... */
  function Run(m: seq<u64>, first: nat, n: nat, value: nat): (r: seq<u64>)
    requires first + n <= |m| && value + 4096 * (n - 1) < TWO64
    ensures |r| == |m|
  {
    seq(|m|, j requires 0 <= j < |m| =>
      if first <= j < first + n then value + 4096 * (j - first) else m[j])
  }

  /** What one map_memory call describes. Addresses from the page of vstart to the page of last are
      mapped, consecutively, to the pages from phys on; the tables start at tbl. */
  datatype EarlyMap = EarlyMap(tbl: u64, vstart: u64, last: u64, flags: u64, phys: u64) {

    /** How many entries the level holds, and so how many tables the next level has. */
    function Count(level: int): int
      requires -1 <= level <= 3
    {
      Prefix(last, level) - Prefix(vstart, level) + 1
    }

    /** Address of the first table of a level; level 4 stands for the end of the tables. */
    function Base(level: nat): int
      requires level <= 4
    {
      if level == 0 then tbl else Base(level - 1) + 4096 * Count(level - 2)
    }

    function PageOfPhys(): nat {
      phys - phys % 4096
    }

    /** The map covers part of one 48-bit half, and its tables and pages have 48-bit addresses
        (the tables lie inside a memory of the given number of words, no larger than the physical
        address size; the pages may lie beyond it). */
    predicate Valid(words: nat) {
      && tbl % 4096 == 0
      && vstart <= last && Prefix(vstart, -1) == Prefix(last, -1)
      && Base(4) <= 8 * words <= PHYSICAL_SIZE
      && PageOfPhys() + 4096 * Count(3) <= TWO48
      && AttributeBits(flags)
    }

    /** Index of the memory word of the level's entry for prefix q: the level's tables are one flat
        array that begins at the entry for 512 * Prefix(vstart, level - 1). */
    function EntryWord(level: nat, q: int): int
      requires level <= 3
    {
      Base(level) / 8 + q - 512 * Prefix(vstart, level - 1)
    }

    function EntryValue(level: nat, q: int): int
      requires level <= 3
    {
      if level < 3 then Base(level + 1) + 4096 * (q - Prefix(vstart, level)) + 3
      else PageOfPhys() + 4096 * (q - Prefix(vstart, level)) + flags
    }

    predicate InRange(level: nat, q: int)
      requires level <= 3
    {
      Prefix(vstart, level) <= q <= Prefix(last, level)
    }

    /** Memory after the level's entries have been written. */
    function Level(m: seq<u64>, level: nat): (r: seq<u64>)
      requires Valid(|m|) && level <= 3
      ensures |r| == |m|
    {
      LevelFits(|m|, level);
      Run(m, EntryWord(level, Prefix(vstart, level)), Count(level), EntryValue(level, Prefix(vstart, level)))
    }

    /** Memory after the whole map_memory. */
    function Tables(m: seq<u64>): (r: seq<u64>)
      requires Valid(|m|)
      ensures |r| == |m|
    {
      Level(Level(Level(Level(m, 0), 1), 2), 3)
    }

    lemma CountPositive(level: int)
      requires vstart <= last && -1 <= level <= 3
      ensures Count(level) >= 1
    {
      PrefixMonotone(vstart, last, level);
    }

    lemma TablesCounted()
      requires vstart <= last
      ensures Count(-1) >= 1 && Count(0) >= 1 && Count(1) >= 1 && Count(2) >= 1 && Count(3) >= 1
    {
      hide EarlyMap.Count;
      CountPositive(-1);
      CountPositive(0);
      CountPositive(1);
      CountPositive(2);
      CountPositive(3);
    }

    lemma BaseFirst()
      ensures Base(0) == tbl
    {
    }

    lemma BaseStep(level: nat)
      requires level <= 3
      ensures Base(level + 1) == Base(level) + 4096 * Count(level - 1)
    {
    }

    lemma {:induction false} TablesAligned(level: nat)
      requires level <= 4 && tbl % 4096 == 0
      ensures Base(level) % 4096 == 0
    {
      hide EarlyMap.Base, EarlyMap.Count;
      if level == 0 {
        BaseFirst();
      } else {
        TablesAligned(level - 1);
        BaseStep(level - 1);
        Divides(Base(level), 4096, Base(level - 1) / 4096 + Count(level - 2), 0);
      }
    }

    lemma BasesOrdered(words: nat, level: nat)
      requires Valid(words) && level <= 3
      ensures 0 <= Base(level) && Base(level) % 4096 == 0
      ensures Base(level) + 4096 * Count(level - 1) == Base(level + 1) <= 8 * words <= PHYSICAL_SIZE
      ensures Count(level) >= 1 && Count(level - 1) >= 1
    {
      hide EarlyMap.Base, EarlyMap.Count, Prefix;
      assert vstart <= last && Base(4) <= 8 * words <= PHYSICAL_SIZE;
      TablesCounted();
      BaseStep(0);
      BaseStep(1);
      BaseStep(2);
      BaseStep(3);
      assert Base(0) == tbl by { BaseFirst(); }
      TablesAligned(level);
      assert level == 0 || level == 1 || level == 2 || level == 3;
    }

    lemma {:induction false} BasesMonotone(words: nat, level: nat, above: nat)
      requires Valid(words) && level <= above <= 4
      ensures Base(level) <= Base(above)
      decreases above
    {
      if level == above {
      } else {
        BasesOrdered(words, above - 1);
        BasesMonotone(words, level, above - 1);
      }
    }

    /** Entries of a level lie inside the tables of that level. */
    lemma EntryInLevel(words: nat, level: nat, q: int)
      requires Valid(words) && level <= 3 && InRange(level, q)
      ensures Base(level) <= 8 * EntryWord(level, q) < Base(level + 1) <= 8 * words
    {
      hide EarlyMap.Valid, EarlyMap.Base, Prefix;
      BasesOrdered(words, level);
      PrefixNests(vstart, level);
      PrefixNests(last, level);
      FlatBounds(Base(level), q, Prefix(vstart, level - 1), Prefix(last, level - 1));
    }

    lemma EndsInRange(words: nat, level: nat)
      requires Valid(words) && level <= 3
      ensures InRange(level, Prefix(vstart, level)) && InRange(level, Prefix(last, level))
    {
      PrefixMonotone(vstart, last, level);
    }

    lemma EntrySpan(level: nat)
      requires level <= 3
      ensures EntryWord(level, Prefix(vstart, level)) + Count(level) == EntryWord(level, Prefix(last, level)) + 1
    {
    }

    lemma LevelFits(words: nat, level: nat)
      requires Valid(words) && level <= 3
      ensures Count(level) >= 1
      ensures 0 <= EntryWord(level, Prefix(vstart, level))
      ensures EntryWord(level, Prefix(vstart, level)) + Count(level) <= words
      ensures 0 <= EntryValue(level, Prefix(vstart, level))
      ensures EntryValue(level, Prefix(vstart, level)) + 4096 * (Count(level) - 1) < TWO64
    {
      hide EarlyMap.Valid, EarlyMap.Base, EarlyMap.Count, EarlyMap.EntryValue, Prefix, AttributeBits, Target,
        EntryFlags;
      BasesOrdered(words, level);
      EndsInRange(words, level);
      EntryInLevel(words, level, Prefix(vstart, level));
      EntryInLevel(words, level, Prefix(last, level));
      EntrySpan(level);
      LevelArguments(this, level, words);
      EntriesFit(Target(this, level), Count(level), EntryFlags(this, level));
    }

    /** The level's entries hold what map_memory means them to hold. */
    ghost predicate LevelLaid(m: seq<u64>, level: nat)
      requires level <= 3
    {
      forall q :: InRange(level, q) ==>
        0 <= EntryWord(level, q) < |m| && m[EntryWord(level, q)] == EntryValue(level, q)
    }

    ghost predicate Laid(m: seq<u64>) {
      LevelLaid(m, 0) && LevelLaid(m, 1) && LevelLaid(m, 2) && LevelLaid(m, 3)
    }

    /** Word j is one of the entries of the level. */
    predicate WrittenAt(level: nat, j: int)
      requires level <= 3
    {
      EntryWord(level, Prefix(vstart, level)) <= j <= EntryWord(level, Prefix(last, level))
    }

    predicate Written(j: int) {
      WrittenAt(0, j) || WrittenAt(1, j) || WrittenAt(2, j) || WrittenAt(3, j)
    }

    lemma LevelEffect(m: seq<u64>, level: nat)
      requires Valid(|m|) && level <= 3
      ensures LevelLaid(Level(m, level), level)
      ensures forall j | 0 <= j < |m| && !WrittenAt(level, j) :: Level(m, level)[j] == m[j]
    {
      LevelFits(|m|, level);
    }

    /** A level's tables lie apart from those of every other level. */
    lemma LevelsApart(words: nat, level: nat, other: nat, j: int)
      requires Valid(words) && level <= 3 && other <= 3 && level != other
      requires Base(level) <= 8 * j < Base(level + 1)
      ensures !WrittenAt(other, j)
    {
      hide EarlyMap.Valid, EarlyMap.Base, EarlyMap.EntryWord, Prefix;
      BasesOrdered(words, other);
      EntryInLevel(words, other, Prefix(vstart, other));
      EntryInLevel(words, other, Prefix(last, other));
      if other < level {
        BasesMonotone(words, other + 1, level);
      } else {
        BasesMonotone(words, level + 1, other);
      }
    }

    /** Writing one level does not disturb another. */
    lemma LevelKept(m: seq<u64>, level: nat, other: nat)
      requires Valid(|m|) && level <= 3 && other <= 3 && level != other
      requires LevelLaid(m, level)
      ensures LevelLaid(Level(m, other), level)
    {
      LevelEffect(m, other);
      forall q | InRange(level, q)
        ensures Level(m, other)[EntryWord(level, q)] == EntryValue(level, q)
      {
        EntryInLevel(|m|, level, q);
        LevelsApart(|m|, level, other, EntryWord(level, q));
      }
    }

    /** All four levels are in place at the end, and nothing else has changed. */
    lemma TablesLaid(m: seq<u64>)
      requires Valid(|m|)
      ensures Laid(Tables(m))
      ensures forall j | 0 <= j < |m| && !Written(j) :: Tables(m)[j] == m[j]
    {
      var m0 := Level(m, 0);
      var m1 := Level(m0, 1);
      var m2 := Level(m1, 2);
      LevelEffect(m, 0);
      LevelEffect(m0, 1);
      LevelEffect(m1, 2);
      LevelEffect(m2, 3);
      LevelKept(m0, 0, 1);
      LevelKept(m1, 0, 2);
      LevelKept(m2, 0, 3);
      LevelKept(m1, 1, 2);
      LevelKept(m2, 1, 3);
      LevelKept(m2, 2, 3);
    }

    /** The table of the given level through which the walk for va passes. */
    function TableFor(va: u64, level: nat): int
      requires level <= 3
    {
      Base(level) + 4096 * (Prefix(va, level - 1) - Prefix(vstart, level - 1))
    }

    /** The telescoping step: the entry the walk fetches in that table is the flat entry of va. */
    lemma WalkFetches(words: nat, va: u64, level: nat)
      requires Valid(words) && level <= 3
      requires Prefix(vstart, level - 1) <= Prefix(va, level - 1) <= Prefix(last, level - 1)
      ensures 0 <= TableFor(va, level) && TableFor(va, level) % 4096 == 0
      ensures TableFor(va, level) / 8 + Prefix(va, level) % 512 == EntryWord(level, Prefix(va, level))
      ensures Base(level) <= 8 * EntryWord(level, Prefix(va, level)) < Base(level + 1) <= 8 * words
    {
      hide EarlyMap.Valid, EarlyMap.Base, Prefix;
      BasesOrdered(words, level);
      PrefixNests(va, level);
      FlatIndex(Base(level), Prefix(va, level), Prefix(va, level - 1), Prefix(vstart, level - 1));
      FlatBounds(Base(level), Prefix(va, level), Prefix(vstart, level - 1), Prefix(last, level - 1));
    }

    lemma MemoryBound(words: nat)
      requires Valid(words)
      ensures 8 * words <= PHYSICAL_SIZE
    {
    }

    lemma InRangeAbove(va: u64, level: nat)
      requires level <= 3 && InRange(level, Prefix(va, level))
      ensures Prefix(vstart, level - 1) <= Prefix(va, level - 1) <= Prefix(last, level - 1)
    {
      PrefixNests(vstart, level);
      PrefixNests(va, level);
      PrefixNests(last, level);
    }

    lemma TableBelow48(words: nat, va: u64, level: nat)
      requires Valid(words) && level <= 2 && InRange(level, Prefix(va, level))
      ensures 0 <= TableFor(va, level + 1) < TWO48 && TableFor(va, level + 1) % 4096 == 0
      ensures EntryValue(level, Prefix(va, level)) == TableFor(va, level + 1) + 3
    {
      hide EarlyMap.Valid, EarlyMap.Base, Prefix;
      BasesOrdered(words, level + 1);
      PagesAligned(Base(level + 1), Prefix(va, level) - Prefix(vstart, level));
    }

    lemma WalkDescends(m: seq<u64>, va: u64, level: nat)
      requires Valid(|m|) && level <= 2 && LevelLaid(m, level)
      requires InRange(level, Prefix(va, level))
      ensures TableFor(va, level) >= 0 && TableFor(va, level + 1) >= 0
      ensures TableWalk(m, TableFor(va, level), va, level) == TableWalk(m, TableFor(va, level + 1), va, level + 1)
    {
      hide EarlyMap.Valid, EarlyMap.Base, EarlyMap.Count, EarlyMap.TableFor, EarlyMap.EntryWord,
        EarlyMap.EntryValue, Prefix, TableWalk;
      TableBelow48(|m|, va, level);
      InRangeAbove(va, level);
      WalkFetches(|m|, va, level);
      MemoryBound(|m|);
      WalkStep(m, TableFor(va, level), va, level, TableFor(va, level + 1));
    }

    /** The flags make each level 3 entry a page with its access flag set. */
    predicate PageFlags() {
      flags % 4 == 3 && flags / 1024 % 2 == 1
    }

    predicate Covers(va: u64) {
      InRange(3, Prefix(va, 3))
    }

    /** The physical page of va. */
    function PageFor(va: u64): int {
      PageOfPhys() + 4096 * (Prefix(va, 3) - Prefix(vstart, 3))
    }

    lemma PageBelow48(words: nat, va: u64)
      requires Valid(words) && Covers(va)
      ensures 0 <= PageFor(va) < TWO48 && PageFor(va) % 4096 == 0
      ensures EntryValue(3, Prefix(va, 3)) == PageFor(va) + flags
      ensures PageFor(va) + va % 4096 == PageOfPhys() + va - (vstart - vstart % 4096)
    {
      hide EarlyMap.Base;
    }

    lemma WalkReachesPage(m: seq<u64>, va: u64)
      requires Valid(|m|) && PageFlags() && LevelLaid(m, 3) && Covers(va)
      ensures TableFor(va, 3) >= 0
      ensures TableWalk(m, TableFor(va, 3), va, 3)
              == Reach(PageOfPhys() + va - (vstart - vstart % 4096), AttributesOf(flags))
    {
      PageBelow48(|m|, va);
      assert AttributeBits(flags);
      hide EarlyMap.Valid, EarlyMap.Base, EarlyMap.Count, EarlyMap.TableFor, EarlyMap.EntryWord,
        EarlyMap.EntryValue, EarlyMap.PageFor, EarlyMap.PageOfPhys, Prefix, TableWalk, AttributesOf;
      InRangeAbove(va, 3);
      WalkFetches(|m|, va, 3);
      MemoryBound(|m|);
      WalkEnds(m, TableFor(va, 3), va, PageFor(va), flags);
    }

    lemma {:induction false} WalkFrom(m: seq<u64>, va: u64, level: nat)
      requires Valid(|m|) && PageFlags() && Laid(m) && Covers(va)
      requires level <= 3 && InRange(level, Prefix(va, level))
      requires forall l: nat | level <= l <= 3 :: InRange(l, Prefix(va, l))
      ensures TableFor(va, level) >= 0
      ensures TableWalk(m, TableFor(va, level), va, level)
              == Reach(PageOfPhys() + va - (vstart - vstart % 4096), AttributesOf(flags))
      decreases 3 - level
    {
      if level == 3 {
        WalkReachesPage(m, va);
      } else {
        assert level <= 2 && LevelLaid(m, level);
        WalkDescends(m, va, level);
        WalkFrom(m, va, level + 1);
      }
    }

    /** The hardware walk sends every address of the map to its place in physical memory, however
        many tables each level needed. */
    lemma WalkMapped(m: seq<u64>, va: u64)
      requires Valid(|m|) && PageFlags() && Laid(m) && Covers(va)
      ensures TableWalk(m, tbl, va, 0)
              == Reach(PageOfPhys() + va - (vstart - vstart % 4096), AttributesOf(flags))
    {
      hide EarlyMap.Valid, EarlyMap.Laid, EarlyMap.PageOfPhys, EarlyMap.InRange, EarlyMap.Covers,
        EarlyMap.TableFor, Prefix, TableWalk, Reach, AttributesOf;
      CoveredAbove(|m|, va);
      WalkFrom(m, va, 0);
    }

    lemma CoveredAbove(words: nat, va: u64)
      requires Valid(words) && Covers(va)
      ensures InRange(0, Prefix(va, 0)) && InRange(1, Prefix(va, 1))
      ensures InRange(2, Prefix(va, 2)) && InRange(3, Prefix(va, 3))
      ensures TableFor(va, 0) == tbl
    {
      InRangeAbove(va, 3);
      InRangeAbove(va, 2);
      InRangeAbove(va, 1);
      InRangeAbove(va, 0);
      assert Prefix(vstart, -1) == Prefix(last, -1);
      hide EarlyMap.Valid, Prefix;
    }

    /** The words of the tables other than the entries written are zero. */
    ghost predicate RestZero(m: seq<u64>) {
      forall j :: 0 <= j < |m| && tbl <= 8 * j < Base(4) && !Written(j) ==> m[j] == 0
    }

    lemma OutsideEveryRun(words: nat, level: nat, j: int)
      requires Valid(words) && level <= 3 && Base(level) <= 8 * j < Base(level + 1) && !WrittenAt(level, j)
      ensures !Written(j) && tbl <= 8 * j < Base(4)
    {
      if level != 0 { LevelsApart(words, level, 0, j); }
      if level != 1 { LevelsApart(words, level, 1, j); }
      if level != 2 { LevelsApart(words, level, 2, j); }
      if level != 3 { LevelsApart(words, level, 3, j); }
      BasesMonotone(words, 0, level);
      BasesMonotone(words, level + 1, 4);
    }

    lemma WalkMeetsHole(m: seq<u64>, va: u64, level: nat)
      requires Valid(|m|) && level <= 3 && RestZero(m) && !InRange(level, Prefix(va, level))
      requires Prefix(vstart, level - 1) <= Prefix(va, level - 1) <= Prefix(last, level - 1)
      ensures TableFor(va, level) >= 0
      ensures TableWalk(m, TableFor(va, level), va, level) == Fault
    {
      hide EarlyMap.Valid, EarlyMap.Base, EarlyMap.Count, Prefix;
      WalkFetches(|m|, va, level);
      var j := EntryWord(level, Prefix(va, level));
      assert m[j] == 0 by {
        OutsideEveryRun(|m|, level, j);
      }
    }

    lemma {:induction false} WalkFaults(m: seq<u64>, va: u64, level: nat)
      requires Valid(|m|) && level <= 3 && Laid(m) && RestZero(m) && !Covers(va)
      requires Prefix(vstart, level - 1) <= Prefix(va, level - 1) <= Prefix(last, level - 1)
      ensures TableFor(va, level) >= 0
      ensures TableWalk(m, TableFor(va, level), va, level) == Fault
      decreases 3 - level
    {
      hide EarlyMap.Valid, EarlyMap.Base, EarlyMap.Count, EarlyMap.TableFor, EarlyMap.RestZero, EarlyMap.LevelLaid,
        Prefix, TableWalk;
      if !InRange(level, Prefix(va, level)) {
        WalkMeetsHole(m, va, level);
      } else {
        assert level == 0 || level == 1 || level == 2;
        WalkDescends(m, va, level);
        WalkFaults(m, va, level + 1);
      }
    }

    /** Every word of the tables is zero. */
    ghost predicate Blank(m: seq<u64>) {
      forall j :: 0 <= j < |m| && tbl <= 8 * j < Base(4) ==> m[j] == 0
    }

    lemma TablesRestZero(m: seq<u64>)
      requires Valid(|m|) && Blank(m)
      ensures RestZero(Tables(m))
    {
      TablesLaid(m);
    }

    lemma LaidTranslation(m: seq<u64>, va: u64)
      requires Valid(|m|) && PageFlags() && Laid(m) && RestZero(m)
      requires Prefix(va, -1) == Prefix(vstart, -1)
      ensures TableWalk(m, tbl, va, 0)
              == if Covers(va) then Reach(PageOfPhys() + va - (vstart - vstart % 4096), AttributesOf(flags))
                 else Fault
    {
      if Covers(va) {
        WalkMapped(m, va);
      } else {
        assert TableFor(va, 0) == tbl;
        WalkFaults(m, va, 0);
      }
    }

    /** map_memory on zeroed tables, seen through the hardware: exactly the pages from vstart to last
        are mapped, and every other address of that 48-bit half faults. */
    lemma Translation(m: seq<u64>, va: u64)
      requires Valid(|m|) && PageFlags() && Blank(m)
      requires Prefix(va, -1) == Prefix(vstart, -1)
      ensures TableWalk(Tables(m), tbl, va, 0)
              == if Covers(va) then Reach(PageOfPhys() + va - (vstart - vstart % 4096), AttributesOf(flags))
                 else Fault
    {
      TablesLaid(m);
      TablesRestZero(m);
      LaidTranslation(Tables(m), va);
    }
  }

  /** What compute_indices leaves in its three result registers. */
  datatype Indices = Indices(istart: u64, iend: u64, count: u64)

  /** compute_indices, in 64-bit registers: count enters as the number of extra entries of the level
      above and leaves as that of this level. Every table has 512 entries. */
  function ComputeIndices(vstart: u64, vend: u64, level: nat, count: u64): Indices
    requires level <= 3
  {
    var iend := Wrap64(Prefix(vend, level) % 512 + 512 * count);
    var istart := Prefix(vstart, level) % 512;
    Indices(istart, iend, Wrap64(iend - istart))
  }

  /** The scaled end index telescopes: both indices count entries from the first entry of the first
      table of the level. */
  lemma IndicesTelescope(vstart: u64, vend: u64, level: nat)
    requires level <= 3 && Prefix(vstart, level - 1) <= Prefix(vend, level - 1)
    requires 512 * Prefix(vstart, level - 1) <= Prefix(vend, level)
    requires Prefix(vend, level) - 512 * Prefix(vstart, level - 1) < TWO48
    ensures var above := Prefix(vend, level - 1) - Prefix(vstart, level - 1);
            above < TWO64 &&
            var r := ComputeIndices(vstart, vend, level, above);
            && r.istart == Prefix(vstart, level) - 512 * Prefix(vstart, level - 1)
            && r.iend == Prefix(vend, level) - 512 * Prefix(vstart, level - 1)
            && r.count == Wrap64(Prefix(vend, level) - Prefix(vstart, level))
  {
    hide Prefix, Wrap64;
    PrefixNests(vstart, level);
    PrefixNests(vend, level);
    var above := Prefix(vend, level - 1) - Prefix(vstart, level - 1);
    NoWrap(Prefix(vend, level) % 512 + 512 * above);
  }

  /** How often the bottom-tested loop of populate_entries stores an entry. */
  function Passes(index: u64, eindex: u64): nat {
    if index <= eindex then eindex - index + 1 else 1
  }

  lemma EntriesFit(rtbl: u64, n: nat, flags: u64)
    requires rtbl % 4096 == 0 && rtbl + 4096 * n <= TWO48 && n >= 1
    requires AttributeBits(flags)
    ensures rtbl + flags + 4096 * (n - 1) < TWO64
  {
    SplitAttributes(flags);
  }

  lemma RunExtends(m: seq<u64>, first: nat, n: nat, value: nat)
    requires first + n < |m| && value + 4096 * n < TWO64
    ensures Run(m, first, n + 1, value) == Run(m, first, n, value)[first + n := value + 4096 * n]
  {
  }

  /** str value, [tbl, index, lsl #3] */
  method Store(mem: array<u64>, tbl: u64, index: u64, value: u64)
    requires tbl % 8 == 0 && tbl / 8 + index < mem.Length
    modifies mem
    ensures mem[..] == old(mem[..])[tbl / 8 + index := value]
  {
    Divides(tbl + 8 * index, 8, tbl / 8 + index, 0);
    mem[(tbl + 8 * index) / 8] := value;
  }

  /** populate_entries: store rtbl | flags, step rtbl by a page and the index by one, and go round
      again while the index is not above eindex. */
  method PopulateEntries(mem: array<u64>, tbl: u64, rtbl: u64, index: u64, eindex: u64, flags: u64)
    returns (next: u64)
    requires tbl % 8 == 0 && tbl / 8 + index + Passes(index, eindex) <= mem.Length
    requires 8 * mem.Length <= TWO48
    requires rtbl % 4096 == 0 && rtbl + 4096 * Passes(index, eindex) <= TWO48
    requires AttributeBits(flags)
    modifies mem
    ensures rtbl + flags + 4096 * (Passes(index, eindex) - 1) < TWO64
    ensures mem[..] == Run(old(mem[..]), tbl / 8 + index, Passes(index, eindex), rtbl + flags)
    ensures next == rtbl + 4096 * Passes(index, eindex)
  {
    EntriesFit(rtbl, Passes(index, eindex), flags);
    hide AttributeBits, Run, Passes, Wrap64, Or;
    ghost var m, n := mem[..], 0;
    var r, i := rtbl, index;
    RunOfNone(m, tbl / 8 + index, rtbl + flags);
    while true
      invariant i == index + n && n < Passes(index, eindex)
      invariant r == rtbl + 4096 * n
      invariant mem[..] == Run(m, tbl / 8 + index, n, rtbl + flags)
      decreases Passes(index, eindex) - n
    {
      PassEnds(index, eindex, n);
      StoreEntry(mem, tbl, r, i, flags, m, tbl / 8 + index, n, rtbl);
      NoWrap(r + 4096);
      NoWrap(i + 1);
      r := Wrap64(r + 4096);
      i := Wrap64(i + 1);
      n := n + 1;
      if i > eindex { break; }
    }
    next := r;
  }

  /** The store of one pass: entry number n of the run. */
  method StoreEntry(mem: array<u64>, tbl: u64, rtbl: u64, index: u64, flags: u64,
                    ghost m: seq<u64>, ghost first: nat, ghost n: nat, ghost start: nat)
    requires tbl % 8 == 0 && tbl / 8 + index == first + n < mem.Length == |m| && 8 * mem.Length <= TWO48
    requires start % 4096 == 0 && rtbl == start + 4096 * n < TWO48 && AttributeBits(flags)
    requires start + flags + 4096 * n < TWO64 && mem[..] == Run(m, first, n, start + flags)
    modifies mem
    ensures mem[..] == Run(m, first, n + 1, start + flags)
  {
    hide AttributeBits, Run, Or;
    PagesAligned(start, n);
    OrIntoAddress(rtbl, flags);
    Store(mem, tbl, index, Or64(rtbl, flags));
    RunExtends(m, first, n, start + flags);
  }

  lemma RunOfNone(m: seq<u64>, first: nat, value: nat)
    requires first <= |m| && value < TWO64
    ensures Run(m, first, 0, value) == m
  {
  }

  /** The test at the bottom of the loop fails after the last pass and not before. */
  lemma PassEnds(index: u64, eindex: u64, n: nat)
    requires n < Passes(index, eindex)
    ensures index + n + 1 > eindex <==> n + 1 == Passes(index, eindex)
  {
  }

  /** The last address that ends up mapped: vend - 1, or vstart itself when the range is empty, since
      populate_entries always stores one entry. */
  function LastMapped(vstart: u64, vend: u64): u64 {
    if vend == vstart then vstart else Wrap64(vend - 1)
  }

  function Planned(tbl: u64, vstart: u64, vend: u64, flags: u64, phys: u64): EarlyMap {
    EarlyMap(tbl, vstart, LastMapped(vstart, vend), flags, phys)
  }

  /** An empty range that does not start on a 2 MB boundary has, above the page level, the indices of
      a range of one byte. */
  lemma EmptyRangeIndices(vstart: u64)
    requires vstart % 0x20_0000 != 0
    ensures Prefix(vstart - 1, 2) == Prefix(vstart, 2)
    ensures Prefix(vstart - 1, 1) == Prefix(vstart, 1)
    ensures Prefix(vstart - 1, 0) == Prefix(vstart, 0)
    ensures Prefix(vstart - 1, -1) == Prefix(vstart, -1)
    ensures Prefix(vstart - 1, 3) == Prefix(vstart, 3) - (if vstart % 4096 == 0 then 1 else 0)
    ensures vstart % 4096 == 0 ==> Prefix(vstart, 3) % 512 != 0
  {
    var q, r := vstart / 0x20_0000, vstart % 0x20_0000;
    var p, t := vstart / 4096, vstart % 4096;
    Divides(vstart - 1, 0x20_0000, q, r - 1);
    BlockOfPage(vstart);
    BlockOfPage(vstart - 1);
    if t == 0 {
      Divides(vstart - 1, 4096, p - 1, 4095);
    } else {
      Divides(vstart - 1, 4096, p, t - 1);
    }
    hide Prefix;
    PrefixSteps(vstart);
    PrefixSteps(vstart - 1);
    assert r == 4096 * (p % 512) + t by { Divides(vstart, 0x20_0000, p / 512, 4096 * (p % 512) + t); }
  }

  lemma PrefixSteps(va: nat)
    ensures Prefix(va, 3) == va / 4096 && Prefix(va, 2) == va / 4096 / 512
    ensures Prefix(va, 1) == Prefix(va, 2) / 512 && Prefix(va, 0) == Prefix(va, 1) / 512
    ensures Prefix(va, -1) == Prefix(va, 0) / 512
  {
  }

  lemma BlockOfPage(va: nat)
    ensures va / 4096 / 512 == va / 0x20_0000
  {
    var p := va / 4096;
    Divides(va, 0x20_0000, p / 512, 4096 * (p % 512) + va % 4096);
  }

  /** What the register arithmetic of one level must deliver. */
  ghost predicate LevelReady(p: EarlyMap, level: nat, r: Indices)
    requires level <= 3
  {
    && r.istart == Prefix(p.vstart, level) - 512 * Prefix(p.vstart, level - 1)
    && Passes(r.istart, r.iend) == p.Count(level)
    && (level <= 2 ==> r.count == p.Count(level) - 1)
  }

  lemma IndexBounds(p: EarlyMap, level: nat, words: nat)
    requires level <= 3 && p.Valid(words)
    ensures Prefix(p.vstart, level - 1) <= Prefix(p.last, level - 1)
    ensures 512 * Prefix(p.vstart, level - 1) <= Prefix(p.vstart, level) <= Prefix(p.last, level)
    ensures Prefix(p.last, level) - 512 * Prefix(p.vstart, level - 1) < TWO48
    ensures 0 <= p.Count(level - 1) - 1 < TWO64
  {
    p.BasesOrdered(words, level);
    p.EntryInLevel(words, level, Prefix(p.last, level));
    p.CountPositive(level);
    PrefixNests(p.vstart, level);
  }

  lemma NonemptyLevel(p: EarlyMap, level: nat, words: nat)
    requires level <= 3 && p.Valid(words)
    ensures 0 <= p.Count(level - 1) - 1 < TWO64
    ensures LevelReady(p, level, ComputeIndices(p.vstart, p.last, level, p.Count(level - 1) - 1))
  {
    hide EarlyMap.Valid, EarlyMap.Base, Prefix, ComputeIndices;
    IndexBounds(p, level, words);
    IndicesTelescope(p.vstart, p.last, level);
    var from, to := Prefix(p.vstart, level), Prefix(p.last, level);
    assert Wrap64(to - from) == to - from;
  }

  lemma CountOfOne(p: EarlyMap, level: int)
    requires -1 <= level <= 3 && p.last == p.vstart
    ensures p.Count(level) == 1
  {
  }

  /** Only the end's index enters compute_indices. */
  lemma SameIndex(x: u64, y: u64, level: nat)
    requires level <= 3 && Prefix(x, level) == Prefix(y, level)
    ensures forall start: u64, count: u64 ::
              ComputeIndices(start, x, level, count) == ComputeIndices(start, y, level, count)
  {
    hide Prefix, Wrap64;
  }

  lemma EmptyLevel(p: EarlyMap, level: nat, words: nat)
    requires level <= 2 && p.Valid(words)
    requires p.last == p.vstart && p.vstart % 0x20_0000 != 0
    ensures LevelReady(p, level, ComputeIndices(p.vstart, p.vstart - 1, level, 0))
  {
    hide EarlyMap.Valid, EarlyMap.Base, EarlyMap.Count, Prefix, Wrap64, ComputeIndices, LevelReady;
    EmptyRangeIndices(p.vstart);
    assert p.Count(level - 1) == 1 by { CountOfOne(p, level - 1); }
    NonemptyLevel(p, level, words);
    assert level == 0 || level == 1 || level == 2;
    SameIndex(p.vstart - 1, p.vstart, level);
  }

  lemma EmptyPageLevel(p: EarlyMap, words: nat)
    requires p.Valid(words)
    requires p.last == p.vstart && p.vstart % 0x20_0000 != 0
    ensures LevelReady(p, 3, ComputeIndices(p.vstart, p.vstart - 1, 3, 0))
  {
    EmptyRangeIndices(p.vstart);
    PrefixNests(p.vstart, 3);
    EmptyPageRange(p.vstart);
  }

  lemma LevelIndices(p: EarlyMap, vend: u64, level: nat, words: nat)
    requires level <= 3 && p.Valid(words)
    requires p.last == LastMapped(p.vstart, vend) && (vend == p.vstart ==> p.vstart % 0x20_0000 != 0)
    ensures 0 <= p.Count(level - 1) - 1 < TWO64
    ensures LevelReady(p, level, ComputeIndices(p.vstart, Wrap64(vend - 1), level, p.Count(level - 1) - 1))
  {
    hide EarlyMap.Valid, EarlyMap.Base, EarlyMap.Count, Prefix, Wrap64, ComputeIndices, LevelReady;
    if vend != p.vstart {
      NonemptyLevel(p, level, words);
    } else {
      CountOfOne(p, level - 1);
      NoWrap(p.vstart - 1);
      if level <= 2 { EmptyLevel(p, level, words); } else { EmptyPageLevel(p, words); }
    }
  }

  method LevelRegisters(ghost p: EarlyMap, vstart: u64, vend: u64, level: nat, count: u64, ghost words: nat)
    returns (r: Indices)
    requires level <= 3 && p.Valid(words) && p.vstart == vstart
    requires p.last == LastMapped(vstart, vend) && (vend == vstart ==> vstart % 0x20_0000 != 0)
    requires count == p.Count(level - 1) - 1
    ensures LevelReady(p, level, r)
  {
    LevelIndices(p, vend, level, words);
    r := ComputeIndices(vstart, Wrap64(vend - 1), level, count);
  }

  /** The rtbl and flags operands of populate_entries at each level. */
  function Target(p: EarlyMap, level: nat): int
    requires level <= 3
  {
    if level <= 2 then p.Base(level + 1) else p.PageOfPhys()
  }

  function EntryFlags(p: EarlyMap, level: nat): u64 {
    if level <= 2 then 3 else p.flags
  }

  lemma LevelArguments(p: EarlyMap, level: nat, words: nat)
    requires level <= 3 && p.Valid(words)
    ensures 0 <= p.Base(level) && p.Base(level) % 8 == 0
    ensures 8 * words <= TWO48 && AttributeBits(EntryFlags(p, level))
    ensures 0 <= Target(p, level) && Target(p, level) % 4096 == 0
    ensures Target(p, level) + 4096 * p.Count(level) <= TWO48
    ensures p.EntryValue(level, Prefix(p.vstart, level)) == Target(p, level) + EntryFlags(p, level)
    ensures level <= 2 ==> p.Base(level + 2) == Target(p, level) + 4096 * p.Count(level)
  {
    LastLevelArguments(p, words);
    hide EarlyMap.Valid, EarlyMap.Base, EarlyMap.Count, EarlyMap.PageOfPhys, Prefix, AttributeBits;
    p.BasesOrdered(words, level);
    Divides(p.Base(level), 8, 512 * (p.Base(level) / 4096), 0);
    if level <= 2 { p.BasesOrdered(words, level + 1); }
  }

  lemma LastLevelArguments(p: EarlyMap, words: nat)
    requires p.Valid(words)
    ensures AttributeBits(3) && AttributeBits(p.flags)
    ensures p.PageOfPhys() % 4096 == 0 && p.PageOfPhys() + 4096 * p.Count(3) <= TWO48
  {
    hide EarlyMap.Base, EarlyMap.Count, Prefix;
    Divides(p.PageOfPhys(), 4096, p.phys / 4096, 0);
  }

  lemma LevelStart(p: EarlyMap, level: nat, words: nat, r: Indices)
    requires level <= 3 && p.Valid(words) && LevelReady(p, level, r)
    ensures p.EntryWord(level, Prefix(p.vstart, level)) == p.Base(level) / 8 + r.istart
  {
    hide EarlyMap.Valid, EarlyMap.Base, EarlyMap.Count, Prefix, Passes;
  }

  /** One level of the tables: compute_indices, then populate_entries with table descriptors (or, at
      level 3, page descriptors). */
  method MapLevel(mem: array<u64>, ghost p: EarlyMap, tbl: u64, rtbl: u64, vend: u64, vstart: u64,
                  level: nat, count: u64, flags: u64)
    returns (next: u64, extra: u64)
    requires level <= 3 && p.Valid(mem.Length) && p.vstart == vstart
    requires p.last == LastMapped(vstart, vend) && (vend == vstart ==> vstart % 0x20_0000 != 0)
    requires tbl == p.Base(level) && count == p.Count(level - 1) - 1
    requires rtbl == Target(p, level) && flags == EntryFlags(p, level)
    modifies mem
    ensures mem[..] == p.Level(old(mem[..]), level)
    ensures level <= 2 ==> next == p.Base(level + 2) && extra == p.Count(level) - 1
  {
    hide EarlyMap.Valid, EarlyMap.Base, EarlyMap.Count, EarlyMap.EntryWord, EarlyMap.EntryValue, LastMapped,
      Target, EntryFlags, Prefix, AttributeBits, Passes, Run;
    LevelArguments(p, level, mem.Length);
    p.LevelFits(mem.Length, level);
    var r := LevelRegisters(p, vstart, vend, level, count, mem.Length);
    LevelStart(p, level, mem.Length, r);
    next := PopulateEntries(mem, tbl, rtbl, r.istart, r.iend, flags);
    extra := r.count;
  }

  /** map_memory: four levels, each written with the indices its predecessor made room for. */
  method MapMemory(mem: array<u64>, tbl: u64, vstart: u64, vend: u64, flags: u64, phys: u64)
    requires vend == vstart ==> vstart % 0x20_0000 != 0
    requires Planned(tbl, vstart, vend, flags, phys).Valid(mem.Length)
    modifies mem
    ensures mem[..] == Planned(tbl, vstart, vend, flags, phys).Tables(old(mem[..]))
  {
    ghost var p := Planned(tbl, vstart, vend, flags, phys);
    MapStart(p, mem.Length);
    hide EarlyMap.Valid, EarlyMap.Base, EarlyMap.Count, EarlyMap.PageOfPhys, EarlyMap.Level;
    var rtbl := Wrap64(tbl + 4096);
    var t, sv, count := tbl, rtbl, 0;
    rtbl, count := MapLevel(mem, p, t, rtbl, vend, vstart, 0, count, 3);
    t, sv := sv, rtbl;
    rtbl, count := MapLevel(mem, p, t, rtbl, vend, vstart, 1, count, 3);
    t, sv := sv, rtbl;
    rtbl, count := MapLevel(mem, p, t, rtbl, vend, vstart, 2, count, 3);
    t := sv;
    rtbl, count := MapLevel(mem, p, t, phys - phys % 4096, vend, vstart, 3, count, flags);
  }

  lemma MapStart(p: EarlyMap, words: nat)
    requires p.Valid(words)
    ensures p.Base(0) == p.tbl && p.Base(1) == Wrap64(p.tbl + 4096) && p.Count(-1) == 1
    ensures p.PageOfPhys() == p.phys - p.phys % 4096
  {
    p.BasesOrdered(words, 0);
    NoWrap(p.tbl + 4096);
    hide Wrap64;
  }

  /** The count with which map_memory enters a level. */
  function ExtraEntries(vstart: u64, vend: u64, level: nat): u64
    requires level <= 3
  {
    if level == 0 then 0
    else ComputeIndices(vstart, Wrap64(vend - 1), level - 1, ExtraEntries(vstart, vend, level - 1)).count
  }

  lemma EmptyRangeExtras(vstart: u64, level: nat)
    requires level <= 3 && vstart % 0x20_0000 != 0
    ensures ExtraEntries(vstart, vstart, level) == 0
  {
    hide ComputeIndices, Prefix, Wrap64;
    if level > 0 {
      EmptyRangeExtras(vstart, level - 1);
      EmptyRangeStep(vstart, level - 1);
    }
  }

  lemma EmptyRangeStep(vstart: u64, level: nat)
    requires level <= 2 && vstart % 0x20_0000 != 0
    ensures ComputeIndices(vstart, Wrap64(vstart - 1), level, 0).count == 0
  {
    assert Wrap64(vstart - 1) == vstart - 1;
    EmptyRangeIndices(vstart);
    hide Prefix, ComputeIndices, Wrap64;
    assert level == 0 || level == 1 || level == 2;
    SameIndices(vstart, vstart - 1, level);
  }

  lemma SameIndices(vstart: u64, vend: u64, level: nat)
    requires level <= 3 && Prefix(vend, level) == Prefix(vstart, level)
    ensures ComputeIndices(vstart, vend, level, 0).count == 0
  {
    hide Prefix;
    var i := Prefix(vstart, level) % 512;
    assert Wrap64(i + 512 * 0) == i && Wrap64(i - i) == 0;
  }

  lemma WrapBelowZero()
    ensures Wrap64(-1) == TWO64 - 1
  {
    Divides(-1, TWO64, -1, TWO64 - 1);
  }

  lemma AlignedStart(vstart: u64)
    requires vstart % 0x20_0000 == 0
    ensures Prefix(vstart, 3) % 512 == 0 && Prefix(Wrap64(vstart - 1), 3) % 512 == 511
  {
    hide Wrap64;
    var k := vstart / 0x20_0000;
    Divides(vstart, 4096, 512 * k, 0);
    Divides(512 * k, 512, k, 0);
    if k > 0 {
      NoWrap(vstart - 1);
      Divides(vstart - 1, 4096, 512 * (k - 1) + 511, 4095);
      Divides(512 * (k - 1) + 511, 512, k - 1, 511);
    } else {
      WrapBelowZero();
      Divides(TWO64 - 1, 4096, 0xF_FFFF_FFFF_FFFF, 4095);
      Divides(0xF_FFFF_FFFF_FFFF, 512, 0x7FF_FFFF_FFFF, 511);
    }
  }

  lemma EmptyPageRange(vstart: u64)
    requires vstart % 0x20_0000 != 0
    ensures var r := ComputeIndices(vstart, vstart - 1, 3, 0);
            Passes(r.istart, r.iend) == 1
  {
    EmptyRangeIndices(vstart);
    var q := Prefix(vstart, 3);
    var e := Prefix(vstart - 1, 3);
    hide Prefix, Wrap64;
    if vstart % 4096 == 0 { Divides(e, 512, q / 512, q % 512 - 1); }
    NoWrap(e % 512);
  }

  lemma AlignedEmptyRange(vstart: u64, count: u64)
    requires vstart % 0x20_0000 == 0
    ensures var r := ComputeIndices(vstart, Wrap64(vstart - 1), 3, count);
            Passes(r.istart, r.iend) != 1
  {
    AlignedStart(vstart);
    OddIndex(count);
  }

  /** An empty range still maps one page, exactly when it does not start on a 2 MB boundary; from a
      boundary the scaled end index is odd, so the page loop runs past the first entry. */
  lemma EmptyRangeMapsOnePage(vstart: u64)
    ensures var r := ComputeIndices(vstart, Wrap64(vstart - 1), 3, ExtraEntries(vstart, vstart, 3));
            Passes(r.istart, r.iend) == 1 <==> vstart % 0x20_0000 != 0
  {
    hide Prefix, ComputeIndices, ExtraEntries, Passes;
    var count := ExtraEntries(vstart, vstart, 3);
    if vstart % 0x20_0000 != 0 {
      EmptyRangeExtras(vstart, 3);
      EmptyPageRange(vstart);
    } else {
      AlignedEmptyRange(vstart, count);
    }
  }

  lemma OddIndex(count: u64)
    ensures Wrap64(511 + 512 * count) % 2 == 1
  {
    var x := 511 + 512 * count;
    var q := x / TWO64;
    Divides(Wrap64(x), 2, 255 + 256 * count - 0x8000_0000_0000_0000 * q, 1);
  }

  /** The tables take one page for level 0 and one page per entry of the levels above the last. */
  lemma PagesUsed(p: EarlyMap)
    requires Prefix(p.vstart, -1) == Prefix(p.last, -1)
    ensures p.Base(4) == p.tbl + 4096 * (1 + p.Count(0) + p.Count(1) + p.Count(2))
  {
    assert p.Base(1) == p.tbl + 4096 * p.Count(-1) && p.Count(-1) == 1;
    assert p.Base(2) == p.Base(1) + 4096 * p.Count(0);
    assert p.Base(3) == p.Base(2) + 4096 * p.Count(1);
  }

  /** kernel.lds.S reserves 3 + 8 pages for the image tables: an image inside one 1 GB region fits
      them exactly when it touches at most eight 2 MB blocks. */
  lemma ImageFitsReserved(p: EarlyMap)
    requires Prefix(p.vstart, 1) == Prefix(p.last, 1)
    ensures p.Base(4) <= p.tbl + 4096 * 3 + 4096 * 8 <==> Prefix(p.last, 2) - Prefix(p.vstart, 2) + 1 <= 8
  {
    PrefixNests(p.vstart, 1);
    PrefixNests(p.last, 1);
    PrefixNests(p.vstart, 0);
    PrefixNests(p.last, 0);
    PagesUsed(p);
  }

  /** The four pages reserved for the identity map suffice exactly for a range in one 2 MB block. */
  lemma IdentityFitsReserved(p: EarlyMap)
    requires p.vstart <= p.last && Prefix(p.vstart, -1) == Prefix(p.last, -1)
    ensures p.Base(4) <= p.tbl + 4096 * 4 <==> Prefix(p.vstart, 2) == Prefix(p.last, 2)
  {
    PagesUsed(p);
    p.CountPositive(0);
    p.CountPositive(1);
    p.CountPositive(2);
    PrefixNests(p.vstart, 2);
    PrefixNests(p.last, 2);
    PrefixNests(p.vstart, 1);
    PrefixNests(p.last, 1);
  }

  /** The walk follows a table descriptor to the next level. */
  lemma WalkStep(m: seq<u64>, table: nat, va: u64, level: nat, next: nat)
    requires level <= 2 && next % 4096 == 0 && next < TWO48
    requires table / 8 + Prefix(va, level) % 512 < |m| && 8 * |m| <= PHYSICAL_SIZE
    requires m[table / 8 + Prefix(va, level) % 512] == next + 3
    ensures TableWalk(m, table, va, level) == TableWalk(m, next, va, level + 1)
  {
    hide Prefix;
    TableDescriptor(next, next + 3);
  }

  /** A page descriptor ends the walk. */
  lemma WalkEnds(m: seq<u64>, table: nat, va: u64, page: nat, flags: u64)
    requires page % 4096 == 0 && page < TWO48 && AttributeBits(flags)
    requires flags % 4 == 3 && flags / 1024 % 2 == 1
    requires table / 8 + Prefix(va, 3) % 512 < |m| && 8 * |m| <= PHYSICAL_SIZE
    requires m[table / 8 + Prefix(va, 3) % 512] == page + flags
    ensures TableWalk(m, table, va, 3) == Reach(page + va % 4096, AttributesOf(flags))
  {
    hide Prefix, AttributesOf, PageAddress, IsValid, IsTableOrPage, AttributeBits, TableWalk, Reach, Leaf;
    PageKind(flags);
    PageDescriptor(page, flags);
    WalkEndsAtPage(m, table, va, page + flags);
    LeafPage(page + flags, va, page);
  }

  lemma PageKind(flags: u64)
    requires flags % 4 == 3
    ensures IsValid(flags) && IsTableOrPage(flags)
  {
    Divides(flags, 2, 2 * (flags / 4) + 1, 1);
  }

  lemma LeafPage(d: u64, va: u64, page: nat)
    requires d / 1024 % 2 == 1 && PageAddress(d) == page
    ensures Leaf(d, va, 3) == Reach(page + va % 4096, AttributesOf(d))
  {
    hide PageAddress, AttributesOf, Reach;
  }

  lemma WalkEndsAtPage(m: seq<u64>, table: nat, va: u64, d: u64)
    requires table / 8 + Prefix(va, 3) % 512 < |m| && 8 * |m| <= PHYSICAL_SIZE
    requires m[table / 8 + Prefix(va, 3) % 512] == d && IsValid(d) && IsTableOrPage(d)
    ensures TableWalk(m, table, va, 3) == Leaf(d, va, 3)
  {
    hide Prefix, Leaf, IsValid, IsTableOrPage;
  }

  lemma PagesAligned(base: nat, pages: nat)
    requires base % 4096 == 0
    ensures (base + 4096 * pages) % 4096 == 0
  {
    Divides(base + 4096 * pages, 4096, base / 4096 + pages, 0);
  }

  lemma FlatIndex(base: nat, q: nat, above: int, start: int)
    requires base % 4096 == 0 && start <= above && q - 512 * above == q % 512
    ensures (base + 4096 * (above - start)) / 8 + q % 512 == base / 8 + q - 512 * start
    ensures (base + 4096 * (above - start)) % 4096 == 0
  {
    var b := base / 4096;
    var table := 4096 * (b + above - start);
    Divides(base, 8, 512 * b, 0);
    Divides(table, 8, 512 * (b + above - start), 0);
    Divides(table, 4096, b + above - start, 0);
  }

  lemma FlatBounds(base: nat, q: int, start: int, end: int)
    requires base % 4096 == 0 && 512 * start <= q < 512 * end + 512
    ensures base <= 8 * (base / 8 + q - 512 * start) < base + 4096 * (end - start + 1)
  {
    Divides(base, 8, 512 * (base / 4096), 0);
  }

  lemma TableDescriptor(t: nat, d: u64)
    requires t % 4096 == 0 && t < TWO48 && d == t + 3
    ensures IsValid(d) && IsTableOrPage(d) && PageAddress(d) == t
  {
    SplitFields(t / 4096, 0, 3);
  }

  lemma PageDescriptor(page: nat, flags: u64)
    requires page % 4096 == 0 && page < TWO48 && AttributeBits(flags)
    ensures page + flags < TWO64
    ensures IsValid(page + flags) == IsValid(flags) && IsTableOrPage(page + flags) == IsTableOrPage(flags)
    ensures (page + flags) / 1024 % 2 == flags / 1024 % 2
    ensures PageAddress(page + flags) == page && AttributesOf(page + flags) == AttributesOf(flags)
  {
    SplitAttributes(flags);
    SplitFields(page / 4096, flags / TWO48, flags % 4096);
    SplitFields(0, flags / TWO48, flags % 4096);
  }

  /** The fields of a descriptor with page number k, upper attributes h and low twelve bits l. */
  lemma SplitFields(k: nat, h: nat, l: nat)
    requires k < 0x10_0000_0000 && h < 0x1_0000 && l < 4096
    ensures var d := h * TWO48 + 4096 * k + l;
            d < TWO64 && d % 4096 == l && d % 4 == l % 4 && d % 2 == l % 2 && d / 1024 % 2 == l / 1024 % 2
            && d / 4096 % 0x10_0000_0000 == k && d / 0x4_0000_0000_0000 == h / 4
  {
    var d := h * TWO48 + 4096 * k + l;
    var n := h * 0x10_0000_0000 + k;
    Divides(d, 4096, n, l);
    Divides(n, 0x10_0000_0000, h, k);
    LowBits(n, l);
    ParityBit(n, l);
    AccessFlagBit(n, l);
    Divides(d, 0x4_0000_0000_0000, h / 4, TWO48 * (h % 4) + 4096 * k + l);
  }

  lemma LowBits(n: nat, l: nat)
    ensures (4096 * n + l) % 4 == l % 4
  {
    Divides(4096 * n + l, 4, 1024 * n + l / 4, l % 4);
  }

  lemma ParityBit(n: nat, l: nat)
    ensures (4096 * n + l) % 2 == l % 2
  {
    Divides(4096 * n + l, 2, 2048 * n + l / 2, l % 2);
  }

  lemma AccessFlagBit(n: nat, l: nat)
    ensures (4096 * n + l) / 1024 % 2 == l / 1024 % 2
  {
    Divides(4096 * n + l, 1024, 4 * n + l / 1024, l % 1024);
    EvenPart(n, l / 1024);
  }

  lemma EvenPart(n: nat, a: nat)
    ensures (4 * n + a) % 2 == a % 2
  {
    Divides(4 * n + a, 2, 2 * n + a / 2, a % 2);
  }
}
