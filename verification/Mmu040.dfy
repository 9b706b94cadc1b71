// The 68040 memory manager: free-frame stack, mapping windows, and the
// operations on address spaces.
module Mmu040 {
  import opened Bytes
  import opened Descriptors
  import opened Ownership
  import opened Translation
  import opened Growth
  import opened Mapping
  import opened Lifetimes
  import opened UserCopy
  import opened Boot
  import opened Errno

  const MAPPER_PAGES := 10

  // A kernel pointer into a mapping window.
  datatype Pointer = Pointer(page: nat, offset: nat)

  // MmuUserspaceHandle: the user root pointer of an address space.
  class Userspace {
    var word: Word

    constructor ()
      ensures word == NULL
    {
      word := NULL;
    }

    // The handle names root table r.
    ghost predicate Names(r: nat)
      reads this
    {
      word.low == ZERO && word.page == r
    }
  }

  class Mmu {
    // Physical memory and the two root pointer registers.
    var mem: Memory
    var urp: Word
    const srp: Word

    // _mem_layout
    var freeFrames: nat
    var totalFrames: nat
    var freeFrame: Word

    // _mapper: the page descriptors of the windows and the stack depth.
    const window: array<Word>
    var mapping: nat

    // Who owns each frame.
    ghost var own: map<nat, Role>
    ghost var free: seq<nat>
    ghost var dead: set<(nat, nat)>

    ghost function St(): State
      reads this`mem, this`own, this`free, this`dead
    {
      State(mem, own, free, dead, srp.page)
    }

    ghost predicate Valid()
      reads this
    {
      && window.Length == MAPPER_PAGES
      && mapping <= MAPPER_PAGES
      && Wf(St())
      && freeFrame == Link(free)
      && freeFrames <= |free|
    }

    // The windows in use are the same, and map the same frames, as before.
    twostate predicate WindowsKept()
      reads this`mapping, window
    {
      && mapping == old(mapping)
      && mapping <= window.Length
      && forall m {:trigger window[m]} :: 0 <= m < mapping ==> window[m] == old(window[m])
    }

    // ---- Mapping windows ----

    method MappingPush(ph: Word) returns (page: nat)
      requires window.Length == MAPPER_PAGES && mapping < MAPPER_PAGES
      modifies this`mapping, window
      ensures page == old(mapping) && mapping == old(mapping) + 1
      ensures window[page].page == ph.page && window[page].low == ZERO.(t := 1, s := true)
      ensures forall m :: 0 <= m < MAPPER_PAGES && m != page ==> window[m] == old(window[m])
    {
      page := mapping;
      window[page] := SetType(SetSupervisor(SetPageAddress(NULL, ph), true), PAGE_RESIDENT);
      mapping := mapping + 1;
    }

    method MappingPop()
      modifies this`mapping
      ensures mapping == if old(mapping) > 0 then old(mapping) - 1 else 0
    {
      if mapping > 0 {
        mapping := mapping - 1;
      }
    }

    // The x-th word of the table a pointer points to.
    function Load(p: Pointer, x: nat): Word
      requires p.page < window.Length
      reads this`mem, window
    {
      Read(mem, window[p.page].page, p.offset / 4 + x)
    }

    method Store(p: Pointer, x: nat, w: Word)
      requires p.page < window.Length
      modifies this`mem
      ensures mem == Write(old(mem), window[p.page].page, p.offset / 4 + x, w)
    {
      mem := Write(mem, window[p.page].page, p.offset / 4 + x, w);
    }

    // Clear a mapped frame, four long words at a time.
    method Zero4k(page: nat)
      requires page < window.Length && window[page].page in mem
      modifies this`mem
      ensures mem == old(mem)[window[page].page := ZeroFrame()]
    {
      var x := 0;
      var f := window[page].page;
      while x < FRAME_WORDS
        invariant x <= FRAME_WORDS && x % 4 == 0
        invariant f in mem && mem == old(mem)[f := mem[f]]
        invariant forall y | 0 <= y < x :: mem[f][y] == NULL
      {
        Store(Pointer(page, 0), x, NULL);
        Store(Pointer(page, 0), x + 1, NULL);
        Store(Pointer(page, 0), x + 2, NULL);
        Store(Pointer(page, 0), x + 3, NULL);
        x := x + 4;
      }
      assert mem[f] == ZeroFrame();
    }

    // ---- The free-frame stack ----

    method AllocFrame() returns (ph: Word)
      requires Valid() && mapping < MAPPER_PAGES
      modifies this`mem, this`own, this`free, this`freeFrame, this`freeFrames, this`mapping, window
      ensures Valid() && WindowsKept()
      ensures old(freeFrames) == 0 ==> ph == NULL && St() == old(St()) && freeFrames == 0
      ensures old(freeFrames) > 0 ==>
        && ph == old(freeFrame)
        && ph == AddressOf(old(free[|free| - 1]))
        && FIRST_FRAME <= ph.page < LIMIT_FRAME
        && freeFrames == old(freeFrames) - 1
        && St() == old(Take(St()))
    {
      if freeFrames == 0 {
        return NULL;
      }
      assert Linked(St(), |free| - 1);
      assert Managed(St(), free[|free| - 1]);
      TakeKeepsWf(St());
      freeFrames := freeFrames - 1;
      ph := freeFrame;
      var frame := MappingPush(ph);
      freeFrame := Load(Pointer(frame, 0), 0);
      Zero4k(frame);
      MappingPop();
      own, free := own[ph.page := Held], free[..|free| - 1];
    }

    method FreeFrame(ph: Word)
      requires Valid() && mapping < MAPPER_PAGES
      requires ph.low == ZERO
      requires ph.page in own && !own[ph.page].Free? && ph.page != srp.page
      requires Childless(St(), ph.page)
      modifies this`mem, this`own, this`free, this`dead, this`freeFrame, this`mapping, window
      ensures Valid() && WindowsKept()
      ensures St() == old(Give(St(), ph.page))
    {
      GiveKeepsWf(St(), ph.page);
      ghost var st := Give(St(), ph.page);
      var page := MappingPush(ph);
      Store(Pointer(page, 0), 0, freeFrame);
      freeFrame := ph;
      MappingPop();
      own, free, dead := st.own, st.free, st.dead;
    }
  
    // ---- Tearing down an address space ----

    // The pointer reaches table q through a window in use.
    ghost predicate Maps(p: Pointer, q: nat)
      reads this`mapping, window
    {
      p.page < mapping && mapping <= window.Length && p.offset == 0 && window[p.page].page == q
    }

    // Give back every page of page table t.
    method ClearPageTable(pageTable: Pointer, ghost t: nat)
      requires Valid() && mapping < MAPPER_PAGES && Maps(pageTable, t)
      requires IsTable(St(), t) && own[t].level == TABLE
      requires forall d {:trigger d in dead} :: d in dead ==> d.0 != t
      modifies this`mem, this`own, this`free, this`dead, this`freeFrame, this`mapping, window
      ensures Valid() && WindowsKept() && old(dead) <= dead
      ensures Freed(old(St()), St(), old(own[t].root), PAGE)
      ensures own[t] == old(own[t]) && Childless(St(), t)
      ensures forall d {:trigger d in dead} :: d in dead ==> d in old(dead) || d.0 == t
    {
      ghost var r := own[t].root;
      FreedNothing(St(), r, PAGE);
      var k := 0;
      while k < PAGE_ENTRIES
        invariant k <= PAGE_ENTRIES
        invariant Valid() && WindowsKept() && Maps(pageTable, t)
        invariant t in own && own[t] == old(own[t]) && old(dead) <= dead
        invariant Freed(old(St()), St(), r, PAGE)
        invariant forall d {:trigger d in dead} :: d in dead ==> d in old(dead) || (d.0 == t && d.1 < k)
        invariant forall x: nat {:trigger Live(St(), t, x)} :: x < k ==> !Live(St(), t, x)
      {
        var w := Load(pageTable, k);
        if PageResident(w) {
          EntryLeads(St(), t, k);
          ghost var before := St();
          FreedByGive(before, w.page, r, PAGE);
          FreeFrame(PageAddress(w));
          FreedChain(old(St()), before, St(), r, PAGE, PAGE, PAGE);
          forall x: nat | x <= k ensures !Live(St(), t, x) {
            assert x < k ==> !Live(before, t, x);
          }
        }
        k := k + 1;
      }
    }
  
    // Give back page table t, named by entry j of pointer table p, and its pages.
    method ClearPointerEntry(pointerTable: Pointer, j: nat, ghost p: nat)
      requires Valid() && mapping + 1 < MAPPER_PAGES && Maps(pointerTable, p)
      requires Live(St(), p, j) && own[p].level == POINTERS && DeadBelow(St(), p, j)
      modifies this`mem, this`own, this`free, this`dead, this`freeFrame, this`mapping, window
      ensures Valid() && WindowsKept()
      ensures Freed(old(St()), St(), old(own[p].root), TABLE)
      ensures own[p] == old(own[p]) && mem[p] == old(mem[p]) && old(dead) <= dead && (p, j) in dead
      ensures DeadBelow(St(), p, j + 1)
    {
      hide Offset, LastByte;
      ghost var before := St();
      EntryLeads(before, p, j);
      var tablePh := PointerTableAddress(Load(pointerTable, j));
      ghost var t := tablePh.page;
      var page := MappingPush(tablePh);
      ClearPageTable(Pointer(page, Offset(tablePh)), t);
      PointerEntryCleared(before, St(), p, j);
      MappingPop();
      FreeFrame(tablePh);
    }

    // Give back every page table under pointer table p, with its pages.
    method ClearPointerTable(pointerTable: Pointer, ghost p: nat)
      requires Valid() && mapping + 1 < MAPPER_PAGES && Maps(pointerTable, p)
      requires IsTable(St(), p) && own[p].level == POINTERS && DeadBelow(St(), p, 0)
      modifies this`mem, this`own, this`free, this`dead, this`freeFrame, this`mapping, window
      ensures Valid() && WindowsKept()
      ensures Freed(old(St()), St(), old(own[p].root), TABLE)
      ensures own[p] == old(own[p]) && Childless(St(), p)
      ensures DeadBelow(St(), p, POINTER_ENTRIES)
    {
      ghost var r := own[p].root;
      FreedNothing(St(), r, TABLE);
      var j := 0;
      while j < POINTER_ENTRIES
        invariant j <= POINTER_ENTRIES
        invariant Valid() && WindowsKept() && Maps(pointerTable, p)
        invariant p in own && own[p] == old(own[p])
        invariant Freed(old(St()), St(), r, TABLE)
        invariant DeadBelow(St(), p, j)
        invariant forall x: nat {:trigger Live(St(), p, x)} :: x < j ==> !Live(St(), p, x)
      {
        if UpperResident(Load(pointerTable, j)) {
          ghost var before := St();
          ClearPointerEntry(pointerTable, j, p);
          FreedChain(old(St()), before, St(), r, TABLE, TABLE, TABLE);
          forall x: nat | x <= j ensures !Live(St(), p, x) {
            assert x < j ==> !Live(before, p, x);
          }
        }
        j := j + 1;
      }
    }

    // Give back pointer table p, named by entry i of the root table, with
    // everything under it.
    method FreeRootEntry(rootTable: Pointer, i: nat, ghost r: nat)
      requires Valid() && mapping + 2 < MAPPER_PAGES && Maps(rootTable, r)
      requires IsRoot(St(), r) && r != srp.page && Live(St(), r, i) && DeadBelow(St(), r, 0)
      modifies this`mem, this`own, this`free, this`dead, this`freeFrame, this`mapping, window
      ensures Valid() && WindowsKept()
      ensures Freed(old(St()), St(), r, POINTERS) && IsRoot(St(), r) && mem[r] == old(mem[r])
      ensures DeadOnly(St(), r, i) && (r, i) in dead
    {
      hide Offset, LastByte;
      ghost var before := St();
      EntryLeads(before, r, i);
      var pointerPh := RootTableAddress(Load(rootTable, i));
      ghost var p := pointerPh.page;
      var page := MappingPush(pointerPh);
      ClearPointerTable(Pointer(page, Offset(pointerPh)), p);
      RootEntryCleared(before, St(), r, i);
      MappingPop();
      FreeFrame(pointerPh);
    }

    // Mark entry i of a root table invalid.
    method InvalidateRootEntry(rootTable: Pointer, i: nat, ghost r: nat) returns (w: Word)
      requires Valid() && Maps(rootTable, r) && IsRoot(St(), r) && !Live(St(), r, i) && i < ROOT_ENTRIES
      modifies this`mem, this`dead
      ensures Valid() && !UpperResident(Read(mem, r, i))
      ensures St() == old(Erase(St(), r, i, w))
    {
      w := SetType(Load(rootTable, i), UPPER_INVALID);
      EraseKeepsWf(St(), r, i, w);
      assert Managed(St(), r);
      Store(rootTable, i, w);
      dead := dead - {(r, i)};
    }

    // Clear entry i of the root table.
    method ClearRootEntry(rootTable: Pointer, i: nat, ghost r: nat)
      requires Valid() && mapping + 2 < MAPPER_PAGES && Maps(rootTable, r)
      requires IsRoot(St(), r) && r != srp.page && Live(St(), r, i) && DeadBelow(St(), r, 0)
      modifies this`mem, this`own, this`free, this`dead, this`freeFrame, this`mapping, window
      ensures Valid() && WindowsKept()
      ensures Torn(old(St()), St(), r) && DeadBelow(St(), r, 0)
      ensures !UpperResident(Read(mem, r, i))
      ensures forall x: nat {:trigger Read(mem, r, x)} :: x != i ==> Read(mem, r, x) == Read(old(mem), r, x)
    {
      ghost var before := St();
      assert Managed(before, r);
      FreeRootEntry(rootTable, i, r);
      ghost var cleared := St();
      var w := InvalidateRootEntry(rootTable, i, r);
      TornByErase(before, cleared, r, i, w);
    }

    // Return every pointer table, page table and page of an address space to
    // the free stack and keep only its root table.
    method ClearUserspace(userspace: Userspace)
      requires Valid() && dead == {} && mapping + 3 < MAPPER_PAGES
      requires userspace.word.low == ZERO && IsRoot(St(), userspace.word.page) && userspace.word.page != srp.page
      modifies this`mem, this`own, this`free, this`dead, this`freeFrame, this`mapping, window
      ensures Valid() && dead == {} && WindowsKept()
      ensures TreeGone(old(St()), St(), userspace.word.page, true)
      ensures IsRoot(St(), userspace.word.page) && EmptyFrom(mem, userspace.word.page, ROOT, 0)
    {
      hide TreeGone;
      var rootPh := RootTableAddress(userspace.word);
      ghost var r := rootPh.page;
      var page := MappingPush(rootPh);
      var rootTable := Pointer(page, Offset(rootPh));
      TornNothing(St(), r);
      var i := 0;
      while i < ROOT_ENTRIES
        invariant i <= ROOT_ENTRIES
        invariant Valid() && mapping == old(mapping) + 1 && Maps(rootTable, r)
        invariant forall m {:trigger window[m]} :: 0 <= m < old(mapping) ==> window[m] == old(window[m])
        invariant Torn(old(St()), St(), r)
        invariant DeadBelow(St(), r, 0)
        invariant forall x: nat {:trigger Read(mem, r, x)} :: x < i ==> !UpperResident(Read(mem, r, x))
      {
        if UpperResident(Load(rootTable, i)) {
          ghost var before := St();
          ClearRootEntry(rootTable, i, r);
          TornChain(old(St()), before, St(), r);
        }
        i := i + 1;
      }
      MappingPop();
      SettleKeepsWf(St());
      TornThenSettled(old(St()), St(), r);
      dead := {};
      TornAndEmpty(old(St()), St(), r);
    }
  
    // ---- Cloning an address space ----

    // memcpy of one page between two windows, from its last word to its first.
    method CopyFrame(pageTo: nat, pageFrom: nat)
      requires pageTo < window.Length && pageFrom < window.Length
      requires window[pageTo].page in mem && window[pageFrom].page in mem
      modifies this`mem
      ensures mem == old(mem)[window[pageTo].page := old(mem)[window[pageFrom].page]]
    {
      ghost var f, g := window[pageTo].page, window[pageFrom].page;
      var n := FRAME_WORDS;
      while n > 0
        invariant 0 <= n <= FRAME_WORDS
        invariant f in mem && mem == old(mem)[f := mem[f]]
        invariant forall x | n <= x < FRAME_WORDS :: mem[f][x] == old(mem)[g][x]
        invariant forall x | 0 <= x < n :: mem[f][x] == old(mem)[f][x]
      {
        n := n - 1;
        Store(Pointer(pageTo, 0), n, Load(Pointer(pageFrom, 0), n));
      }
      assert mem[f] == old(mem)[g];
    }

    // Copy a page descriptor and point it at another frame.
    method CopyDescriptor(tableFrom: Pointer, tableTo: Pointer, k: nat, ph: Word, ghost a: nat, ghost b: nat)
      requires Maps(tableFrom, a) && Maps(tableTo, b) && a in mem && b in mem && k < PAGE_ENTRIES
      modifies this`mem
      ensures mem == Write(old(mem), b, k, SetPageAddress(Read(old(mem), a, k), ph))
    {
      ghost var w := Read(mem, a, k);
      Store(tableTo, k, Load(tableFrom, k));
      Store(tableTo, k, SetPageAddress(Load(tableTo, k), ph));
      assert old(mem)[b][k := w][k := SetPageAddress(w, ph)] == old(mem)[b][k := SetPageAddress(w, ph)];
    }

    // Point entry k of b at frame ph, with the attributes entry k of a has, and
    // copy the page.
    method CopyMapping(tableFrom: Pointer, tableTo: Pointer, k: nat, ph: Word, ghost a: nat, ghost b: nat)
      requires window.Length == MAPPER_PAGES && mapping + 1 < MAPPER_PAGES && Maps(tableFrom, a) && Maps(tableTo, b)
      requires a in mem && b in mem && ph.page in mem && Child(mem, a, k) in mem && k < PAGE_ENTRIES
      requires a != b && Child(mem, a, k) != b
      modifies this`mem, this`mapping, window
      ensures WindowsKept()
      ensures var copied := Write(old(mem), b, k, SetPageAddress(Read(old(mem), a, k), ph));
        mem == copied[ph.page := old(mem)[Child(old(mem), a, k)]]
    {
      var pageTo := MappingPush(ph);
      CopyDescriptor(tableFrom, tableTo, k, ph, a, b);
      var pageFrom := MappingPush(PageAddress(Load(tableFrom, k)));
      CopyFrame(pageTo, pageFrom);
      MappingPop();
      MappingPop();
    }

    // Copy the page that entry k of page table a names into entry k of b.
    method ClonePage(tableFrom: Pointer, tableTo: Pointer, k: nat, ghost a: nat, ghost b: nat) returns (ok: bool)
      requires Valid() && dead == {} && mapping + 1 < MAPPER_PAGES && Maps(tableFrom, a) && Maps(tableTo, b)
      requires k < PAGE_ENTRIES && a != b
      requires IsTable(St(), a) && own[a].level == TABLE && IsTable(St(), b) && own[b].level == TABLE
      requires PageResident(Load(tableFrom, k)) && !PageResident(Load(tableTo, k))
      modifies this`mem, this`own, this`free, this`freeFrame, this`freeFrames, this`mapping, window
      ensures Valid() && WindowsKept()
      ensures ok <==> old(freeFrames) > 0
      ensures !ok ==> freeFrames == 0 && St() == old(St())
      ensures ok ==> freeFrames == old(freeFrames) - 1 && Grown(old(St()), St(), b) && PageCopied(mem, a, b, k)
      ensures ok ==> forall x: nat {:trigger Read(mem, b, x)} :: x != k ==> Read(mem, b, x) == Read(old(mem), b, x)
    {
      hide PageCopied, Wf;
      ghost var st := St();
      var ph := AllocFrame();
      if ph == NULL {
        return false;
      }
      CopyPageWorks(st, a, b, k);
      CopyMapping(tableFrom, tableTo, k, ph, a, b);
      own := CopyPage(st, a, b, k).own;
      assert St() == CopyPage(st, a, b, k);
      return true;
    }
  
    // Mark entry x of page table q invalid.
    method InvalidatePage(table: Pointer, x: nat, ghost q: nat)
      requires Valid() && dead == {} && Maps(table, q) && x < PAGE_ENTRIES
      requires IsTable(St(), q) && own[q].level == TABLE && !PageResident(Load(table, x))
      modifies this`mem
      ensures Valid() && Grown(old(St()), St(), q) && !PageResident(Read(mem, q, x))
      ensures forall y: nat {:trigger Read(mem, q, y)} :: y != x ==> Read(mem, q, y) == Read(old(mem), q, y)
    {
      var w := SetType(Load(table, x), PAGE_INVALID);
      EraseKeepsWf(St(), q, x, w);
      GrownByErase(St(), q, x, w);
      assert Managed(St(), q);
      ghost var st := Erase(St(), q, x, w);
      Store(table, x, w);
      assert St() == st;
    }

    // Copy entry k of page table a to page table b.
    method ClonePageEntry(tableFrom: Pointer, tableTo: Pointer, k: nat, ghost a: nat, ghost b: nat) returns (ok: bool)
      requires Valid() && dead == {} && mapping + 1 < MAPPER_PAGES && Maps(tableFrom, a) && Maps(tableTo, b)
      requires k < PAGE_ENTRIES && a != b
      requires IsTable(St(), a) && own[a].level == TABLE && IsTable(St(), b) && own[b].level == TABLE
      requires !PageResident(Load(tableTo, k))
      modifies this`mem, this`own, this`free, this`freeFrame, this`freeFrames, this`mapping, window
      ensures Valid() && WindowsKept() && dead == {}
      ensures ok ==> Grown(old(St()), St(), b) && PageCopied(mem, a, b, k)
      ensures ok ==> freeFrames == old(freeFrames) - if PageResident(old(Load(tableFrom, k))) then 1 else 0
      ensures ok ==> forall x: nat {:trigger Read(mem, b, x)} :: x != k ==> Read(mem, b, x) == Read(old(mem), b, x)
      ensures !ok ==> freeFrames == old(freeFrames) == 0 && PageResident(old(Load(tableFrom, k))) && St() == old(St())
    {
      if PageResident(Load(tableFrom, k)) {
        ok := ClonePage(tableFrom, tableTo, k, a, b);
      } else {
        InvalidatePage(tableTo, k, b);
        assert KeptOrTaken(old(St()), St(), b, a);
        return true;
      }
    }

    // Copy the pages of page table a under page table b.
    method CloneTable(tableFrom: Pointer, tableTo: Pointer, ghost a: nat, ghost b: nat) returns (ok: bool)
      requires Valid() && dead == {} && mapping + 1 < MAPPER_PAGES && Maps(tableFrom, a) && Maps(tableTo, b)
      requires IsTable(St(), a) && own[a].level == TABLE && IsTable(St(), b) && own[b].level == TABLE
      requires a != b && EmptyFrom(mem, b, TABLE, 0)
      modifies this`mem, this`own, this`free, this`freeFrame, this`freeFrames, this`mapping, window
      ensures Valid() && WindowsKept() && Grown(old(St()), St(), b)
      ensures ok ==> PagesCopied(mem, a, b, PAGE_ENTRIES) && freeFrames + PagesFrom(old(mem), a, 0) == old(freeFrames)
      ensures !ok ==> freeFrames == 0 && old(freeFrames) < PagesFrom(old(mem), a, 0)
    {
      hide PageCopied;
      ghost var st0 := St();
      GrownNothing(st0, b);
      assert Managed(st0, a);
      var k := 0;
      while k < PAGE_ENTRIES
        invariant k <= PAGE_ENTRIES
        invariant Valid() && WindowsKept() && Maps(tableFrom, a) && Maps(tableTo, b)
        invariant Grown(st0, St(), b) && own[a] == st0.own[a] && own[b] == st0.own[b]
        invariant a in mem && mem[a] == st0.mem[a]
        invariant PagesCopied(mem, a, b, k) && EmptyFrom(mem, b, TABLE, k)
        invariant freeFrames + PagesFrom(st0.mem, a, 0) == old(freeFrames) + PagesFrom(st0.mem, a, k)
      {
        ghost var before := St();
        ok := ClonePageEntry(tableFrom, tableTo, k, a, b);
        if !ok {
          return;
        }
        PagesCopiedStep(before, St(), a, b, k);
        GrownChain(st0, before, St(), b, b);
        k := k + 1;
      }
      return true;
    }
  
    // Store a table's address and then its type in entry x of table q.
    method StoreTableEntry(table: Pointer, x: nat, level: nat, ph: Word, ghost q: nat)
      requires Maps(table, q) && q in mem && x < 128
      modifies this`mem
      ensures mem == Write(old(mem), q, x, TableEntry(level, Read(old(mem), q, x), ph))
    {
      if level == ROOT {
        Store(table, x, SetRootTableAddress(Load(table, x), ph));
      } else {
        Store(table, x, SetPointerTableAddress(Load(table, x), ph));
      }
      Store(table, x, SetType(Load(table, x), UPPER_RESIDENT));
      assert mem[q] == old(mem)[q][x := TableEntry(level, Read(old(mem), q, x), ph)];
    }

    // Take a frame, map it, and store its address and type in entry x of an
    // upper level table q.
    method AddTable(table: Pointer, x: nat, level: nat, ghost q: nat) returns (ph: Word, page: nat)
      requires Valid() && dead == {} && mapping < MAPPER_PAGES && Maps(table, q)
      requires IsTable(St(), q) && own[q].level == level < TABLE && x < Entries(level) && Owns(St(), q, x)
      requires !UpperResident(Load(table, x))
      modifies this`mem, this`own, this`free, this`freeFrame, this`freeFrames, this`mapping, window
      ensures Valid() && dead == {}
      ensures forall m {:trigger window[m]} :: 0 <= m < old(mapping) ==> window[m] == old(window[m])
      ensures ph == NULL <==> old(freeFrames) == 0
      ensures ph == NULL ==> St() == old(St()) && freeFrames == 0 && mapping == old(mapping)
      ensures ph != NULL ==>
        && freeFrames == old(freeFrames) - 1
        && mapping == old(mapping) + 1 && page == old(mapping) && Maps(Pointer(page, 0), ph.page)
        && TableAdded(old(St()), St(), q, x, ph.page)
    {
      ghost var st := St();
      page := 0;
      ph := AllocFrame();
      if ph == NULL {
        return;
      }
      AddTableWorks(st, q, x);
      page := MappingPush(ph);
      StoreTableEntry(table, x, level, ph, q);
      own := own[ph.page := Node(level + 1, own[q].root, q, x)];
      assert St() == Hang(Take(st), ph.page, q, x, TableEntry(level, Read(st.mem, q, x), ph));
    }

    // Copy the page table that entry j of pointer table a names to table f.
    method FillTable(pointerFrom: Pointer, pageTo: nat, j: nat, ghost a: nat, ghost f: nat) returns (ok: bool)
      requires Valid() && dead == {} && mapping + 2 < MAPPER_PAGES
      requires Maps(pointerFrom, a) && Maps(Pointer(pageTo, 0), f)
      requires PointerTableAddress(Read(mem, a, j)) == AddressOf(Child(mem, a, j))
      requires IsTable(St(), Child(mem, a, j)) && own[Child(mem, a, j)].level == TABLE
      requires IsTable(St(), f) && own[f].level == TABLE && Child(mem, a, j) != f && EmptyFrom(mem, f, TABLE, 0)
      modifies this`mem, this`own, this`free, this`freeFrame, this`freeFrames, this`mapping, window
      ensures Valid() && WindowsKept() && Grown(old(St()), St(), f)
      ensures var t, n := Child(old(mem), a, j), PagesFrom(old(mem), Child(old(mem), a, j), 0);
        && (ok ==> PagesCopied(mem, t, f, PAGE_ENTRIES) && freeFrames + n == old(freeFrames))
        && (!ok ==> freeFrames == 0 && old(freeFrames) < n)
    {
      hide Offset, LastByte, PagesFrom, TablesFrom, PagesCopied, TablesCopied, Grown;
      ghost var t := Child(mem, a, j);
      var from := PointerTableAddress(Load(pointerFrom, j));
      var pageFrom := MappingPush(from);
      ok := CloneTable(Pointer(pageFrom, Offset(from)), Pointer(pageTo, 0), t, f);
      MappingPop();
    }

    // Copy entry j of pointer table a, with the pages under it, to b.
    method CloneTableEntry(pointerFrom: Pointer, pointerTo: Pointer, j: nat, ghost a: nat, ghost b: nat)
      returns (ok: bool)
      requires Valid() && dead == {} && mapping + 3 < MAPPER_PAGES && Maps(pointerFrom, a) && Maps(pointerTo, b)
      requires j < POINTER_ENTRIES && a != b
      requires IsTable(St(), a) && own[a].level == POINTERS && IsTable(St(), b) && own[b].level == POINTERS
      requires UpperResident(Load(pointerFrom, j)) && !UpperResident(Load(pointerTo, j))
      modifies this`mem, this`own, this`free, this`freeFrame, this`freeFrames, this`mapping, window
      ensures Valid() && WindowsKept() && Grown(old(St()), St(), b)
      ensures forall x: nat {:trigger Read(mem, b, x)} :: x != j ==> Read(mem, b, x) == Read(old(mem), b, x)
      ensures ok ==> TableCopied(mem, a, b, j)
      ensures ok ==> freeFrames + 1 + PagesFrom(old(mem), Child(old(mem), a, j), 0) == old(freeFrames)
      ensures !ok ==> freeFrames == 0 && old(freeFrames) < 1 + PagesFrom(old(mem), Child(old(mem), a, j), 0)
    {
      hide PagesFrom, PagesCopied, PageCopied, TableCopied, EmptyFrom;
      ghost var s0 := St();
      GrownNothing(s0, b);
      var ph, pageTo := AddTable(pointerTo, j, POINTERS, b);
      if ph == NULL {
        return false;
      }
      ghost var s1 := St();
      TableEntryReady(s0, s1, a, b, j, ph.page);
      ok := FillTable(pointerFrom, pageTo, j, a, ph.page);
      TableEntryCopied(s0, s1, St(), a, b, j, ph.page);
      MappingPop();
    }
  
    // Mark entry x of an upper level table q invalid.
    method InvalidateTable(table: Pointer, x: nat, ghost q: nat)
      requires Valid() && dead == {} && Maps(table, q) && x < 128
      requires IsTable(St(), q) && own[q].level < TABLE && !UpperResident(Load(table, x))
      modifies this`mem
      ensures Valid() && Grown(old(St()), St(), q) && !UpperResident(Read(mem, q, x))
      ensures forall y: nat {:trigger Read(mem, q, y)} :: y != x ==> Read(mem, q, y) == Read(old(mem), q, y)
    {
      var w := SetType(Load(table, x), UPPER_INVALID);
      EraseKeepsWf(St(), q, x, w);
      GrownByErase(St(), q, x, w);
      assert Managed(St(), q);
      ghost var st := Erase(St(), q, x, w);
      Store(table, x, w);
      assert St() == st;
    }

    method ClonePointerEntry(pointerFrom: Pointer, pointerTo: Pointer, j: nat, ghost a: nat, ghost b: nat)
      returns (ok: bool)
      requires Valid() && dead == {} && mapping + 3 < MAPPER_PAGES && Maps(pointerFrom, a) && Maps(pointerTo, b)
      requires j < POINTER_ENTRIES && a != b
      requires IsTable(St(), a) && own[a].level == POINTERS && IsTable(St(), b) && own[b].level == POINTERS
      requires !UpperResident(Load(pointerTo, j))
      modifies this`mem, this`own, this`free, this`freeFrame, this`freeFrames, this`mapping, window
      ensures Valid() && WindowsKept() && Grown(old(St()), St(), b)
      ensures forall x: nat {:trigger Read(mem, b, x)} :: x != j ==> Read(mem, b, x) == Read(old(mem), b, x)
      ensures ok ==> TableCopied(mem, a, b, j) && freeFrames + TableCost(old(mem), a, j) == old(freeFrames)
      ensures !ok ==> freeFrames == 0 && old(freeFrames) < TableCost(old(mem), a, j)
    {
      if UpperResident(Load(pointerFrom, j)) {
        ok := CloneTableEntry(pointerFrom, pointerTo, j, a, b);
      } else {
        InvalidateTable(pointerTo, j, b);
        assert KeptOrTaken(old(St()), St(), b, a);
        return true;
      }
    }

    // Copy the page tables and pages of pointer table a under pointer table b.
    method ClonePointerTable(pointerFrom: Pointer, pointerTo: Pointer, ghost a: nat, ghost b: nat) returns (ok: bool)
      requires Valid() && dead == {} && mapping + 3 < MAPPER_PAGES && Maps(pointerFrom, a) && Maps(pointerTo, b)
      requires IsTable(St(), a) && own[a].level == POINTERS && IsTable(St(), b) && own[b].level == POINTERS
      requires a != b && EmptyFrom(mem, b, POINTERS, 0)
      modifies this`mem, this`own, this`free, this`freeFrame, this`freeFrames, this`mapping, window
      ensures Valid() && WindowsKept() && Grown(old(St()), St(), b)
      ensures ok ==> TablesCopied(mem, a, b, POINTER_ENTRIES)
      ensures ok ==> freeFrames + TablesFrom(old(mem), a, 0) == old(freeFrames)
      ensures !ok ==> freeFrames == 0 && old(freeFrames) < TablesFrom(old(mem), a, 0)
    {
      ghost var s0 := St();
      GrownNothing(s0, b);
      var j := 0;
      while j < POINTER_ENTRIES
        invariant j <= POINTER_ENTRIES
        invariant Valid() && WindowsKept() && Maps(pointerFrom, a) && Maps(pointerTo, b)
        invariant Grown(s0, St(), b) && own[a] == s0.own[a] && own[b] == s0.own[b]
        invariant TablesCopied(mem, a, b, j) && EmptyFrom(mem, b, POINTERS, j)
        invariant freeFrames + TablesFrom(s0.mem, a, 0) == old(freeFrames) + TablesFrom(s0.mem, a, j)
      {
        ghost var before := St();
        TableCostSame(s0, before, a, b, j);
        ok := ClonePointerEntry(pointerFrom, pointerTo, j, a, b);
        GrownChain(s0, before, St(), b, b);
        if !ok {
          return;
        }
        TablesCopiedStep(before, St(), a, b, j);
        j := j + 1;
      }
      return true;
    }
  
    // Copy the pointer table that entry i of root table a names to table f.
    method FillPointerTable(rootFrom: Pointer, pageTo: nat, i: nat, ghost a: nat, ghost f: nat) returns (ok: bool)
      requires Valid() && dead == {} && mapping + 4 < MAPPER_PAGES
      requires Maps(rootFrom, a) && Maps(Pointer(pageTo, 0), f)
      requires RootTableAddress(Read(mem, a, i)) == AddressOf(Child(mem, a, i))
      requires IsTable(St(), Child(mem, a, i)) && own[Child(mem, a, i)].level == POINTERS
      requires IsTable(St(), f) && own[f].level == POINTERS && Child(mem, a, i) != f && EmptyFrom(mem, f, POINTERS, 0)
      modifies this`mem, this`own, this`free, this`freeFrame, this`freeFrames, this`mapping, window
      ensures Valid() && WindowsKept() && Grown(old(St()), St(), f)
      ensures var p, n := Child(old(mem), a, i), TablesFrom(old(mem), Child(old(mem), a, i), 0);
        && (ok ==> TablesCopied(mem, p, f, POINTER_ENTRIES) && freeFrames + n == old(freeFrames))
        && (!ok ==> freeFrames == 0 && old(freeFrames) < n)
    {
      hide Offset, LastByte, PagesFrom, TablesFrom, PagesCopied, TablesCopied, Grown;
      ghost var p := Child(mem, a, i);
      var from := RootTableAddress(Load(rootFrom, i));
      var pageFrom := MappingPush(from);
      ok := ClonePointerTable(Pointer(pageFrom, Offset(from)), Pointer(pageTo, 0), p, f);
      MappingPop();
    }

    // Copy entry i of root table a, with everything under it, to b.
    method CloneSubtree(rootFrom: Pointer, rootTo: Pointer, i: nat, ghost a: nat, ghost b: nat) returns (ok: bool)
      requires Valid() && dead == {} && mapping + 5 < MAPPER_PAGES && Maps(rootFrom, a) && Maps(rootTo, b)
      requires i < ROOT_ENTRIES && UserRoots(St(), a, b)
      requires UpperResident(Load(rootFrom, i)) && !UpperResident(Load(rootTo, i))
      modifies this`mem, this`own, this`free, this`freeFrame, this`freeFrames, this`mapping, window
      ensures Valid() && WindowsKept() && Grown(old(St()), St(), b)
      ensures forall x: nat {:trigger Read(mem, b, x)} :: x != i ==> Read(mem, b, x) == Read(old(mem), b, x)
      ensures ok ==> SubtreeCopied(mem, a, b, i) && freeFrames + SubtreeCost(old(mem), a, i) == old(freeFrames)
      ensures !ok ==> freeFrames == 0 && old(freeFrames) < SubtreeCost(old(mem), a, i)
    {
      hide TablesFrom, TablesCopied, SubtreeCopied, EmptyFrom, Wf;
      ghost var s0 := St();
      GrownNothing(s0, b);
      var ph, pageTo := AddTable(rootTo, i, ROOT, b);
      if ph == NULL {
        return false;
      }
      ghost var s1 := St();
      SubtreeEntryReady(s0, s1, a, b, i, ph.page);
      ok := FillPointerTable(rootFrom, pageTo, i, a, ph.page);
      SubtreeEntryCopied(s0, s1, St(), a, b, i, ph.page);
      MappingPop();
    }

    method CloneRootEntry(rootFrom: Pointer, rootTo: Pointer, i: nat, ghost a: nat, ghost b: nat) returns (ok: bool)
      requires Valid() && dead == {} && mapping + 5 < MAPPER_PAGES && Maps(rootFrom, a) && Maps(rootTo, b)
      requires i < ROOT_ENTRIES && UserRoots(St(), a, b)
      requires !UpperResident(Load(rootTo, i))
      modifies this`mem, this`own, this`free, this`freeFrame, this`freeFrames, this`mapping, window
      ensures Valid() && WindowsKept() && Grown(old(St()), St(), b)
      ensures forall x: nat {:trigger Read(mem, b, x)} :: x != i ==> Read(mem, b, x) == Read(old(mem), b, x)
      ensures ok ==> SubtreeCopied(mem, a, b, i) && freeFrames + SubtreeCost(old(mem), a, i) == old(freeFrames)
      ensures !ok ==> freeFrames == 0 && old(freeFrames) < SubtreeCost(old(mem), a, i)
    {
      if UpperResident(Load(rootFrom, i)) {
        ok := CloneSubtree(rootFrom, rootTo, i, a, b);
      } else {
        InvalidateTable(rootTo, i, b);
        assert KeptOrTaken(old(St()), St(), b, a);
        return true;
      }
    }

    // Copy every mapping of root table a to the empty root table b.
    method CloneRootTable(rootFrom: Pointer, rootTo: Pointer, ghost a: nat, ghost b: nat) returns (ok: bool)
      requires Valid() && dead == {} && mapping + 5 < MAPPER_PAGES && Maps(rootFrom, a) && Maps(rootTo, b)
      requires UserRoots(St(), a, b) && EmptyFrom(mem, b, ROOT, 0)
      modifies this`mem, this`own, this`free, this`freeFrame, this`freeFrames, this`mapping, window
      ensures Valid() && WindowsKept() && Grown(old(St()), St(), b)
      ensures ok ==> SubtreesCopied(mem, a, b, ROOT_ENTRIES)
      ensures ok ==> freeFrames + FramesFrom(old(mem), a, 0) == old(freeFrames)
      ensures !ok ==> freeFrames == 0 && old(freeFrames) < FramesFrom(old(mem), a, 0)
    {
      hide SubtreeCost;
      ghost var s0 := St();
      GrownNothing(s0, b);
      var i := 0;
      while i < ROOT_ENTRIES
        invariant i <= ROOT_ENTRIES
        invariant Valid() && WindowsKept() && Maps(rootFrom, a) && Maps(rootTo, b)
        invariant RootCopiedSoFar(s0, St(), a, b, i)
        invariant freeFrames + FramesFrom(s0.mem, a, 0) == old(freeFrames) + FramesFrom(s0.mem, a, i)
      {
        ghost var before := St();
        SubtreeCostSame(s0, before, a, b, i);
        ok := CloneRootEntry(rootFrom, rootTo, i, a, b);
        if !ok {
          GrownChain(s0, before, St(), b, b);
          return;
        }
        RootCopiedStep(s0, before, St(), a, b, i);
        i := i + 1;
      }
      return true;
    }
  
    // ---- Mapping a page ----

    // Go to the table that entry x of q names, hanging a fresh one if there is none.
    method Descend(table: Pointer, x: nat, level: nat, ghost q: nat) returns (next: Pointer)
      requires Valid() && dead == {} && mapping + 1 < MAPPER_PAGES && Maps(table, q)
      requires IsTable(St(), q) && own[q].level == level < TABLE && x < Entries(level) && Owns(St(), q, x)
      requires UpperResident(Load(table, x)) || freeFrames > 0
      modifies this`mem, this`own, this`free, this`freeFrame, this`freeFrames, this`mapping, window
      ensures Valid() && Descended(old(St()), St(), q, x)
      ensures mapping == old(mapping) + 1 && next.page == old(mapping) && Maps(next, Child(mem, q, x))
      ensures forall m {:trigger window[m]} :: 0 <= m < old(mapping) ==> window[m] == old(window[m])
      ensures freeFrames == old(freeFrames) - if UpperResident(old(Load(table, x))) then 0 else 1
    {
      if UpperResident(Load(table, x)) {
        EntryLeads(St(), q, x);
        var w := Load(table, x);
        var ph := if level == ROOT then RootTableAddress(w) else PointerTableAddress(w);
        var page := MappingPush(ph);
        next := Pointer(page, Offset(ph));
      } else {
        var ph, page := AddTable(table, x, level, q);
        next := Pointer(page, 0);
      }
    }

    // Free the page that entry k names, if there is one.
    method FreeOldPage(table: Pointer, k: nat, writeProtected: bool, ghost t: nat)
      requires Valid() && dead == {} && mapping < MAPPER_PAGES && Maps(table, t)
      requires IsTable(St(), t) && own[t].level == TABLE && k < PAGE_ENTRIES
      modifies this`mem, this`own, this`free, this`dead, this`freeFrame, this`mapping, window
      ensures Valid() && WindowsKept()
      ensures St() == old(OldPageFreed(St(), t, k, writeProtected))
    {
      ghost var st := St();
      if PageResident(Load(table, k)) {
        var v := SetWriteProtected(Load(table, k), writeProtected);
        MappedEntryIsResident(Load(table, k), NULL, false, writeProtected);
        FreeMapped(st, t, k, v);
        Store(table, k, v);
        assert St() == Touch(st, t, k, v);
        FreeFrame(PageAddress(Load(table, k)));
      }
    }

    // The five field stores of a new mapping.
    method StoreMapping(table: Pointer, k: nat, frame: Word, supervisor: bool, writeProtected: bool, ghost t: nat)
      requires Maps(table, t) && t in mem && k < PAGE_ENTRIES
      modifies this`mem
      ensures mem == Write(old(mem), t, k, MappedEntry(Read(old(mem), t, k), frame, supervisor, writeProtected))
    {
      ghost var row, w := mem[t], Read(mem, t, k);
      Store(table, k, SetPageAddress(Load(table, k), frame));
      w := SetPageAddress(w, frame);
      assert mem[t] == row[k := w];
      Store(table, k, SetSupervisor(Load(table, k), supervisor));
      w := SetSupervisor(w, supervisor);
      assert mem[t] == row[k := w];
      Store(table, k, SetCacheMode(Load(table, k), COPY_BACK));
      w := SetCacheMode(w, COPY_BACK);
      assert mem[t] == row[k := w];
      Store(table, k, SetWriteProtected(Load(table, k), writeProtected));
      w := SetWriteProtected(w, writeProtected);
      assert mem[t] == row[k := w];
      Store(table, k, SetType(Load(table, k), PAGE_RESIDENT));
      assert mem[t] == row[k := SetType(w, PAGE_RESIDENT)];
    }

    // Map a fresh frame at entry k of page table t.
    method MapPage(table: Pointer, k: nat, supervisor: bool, writeProtected: bool, ghost t: nat) returns (frame: Word)
      requires Valid() && dead == {} && mapping < MAPPER_PAGES && Maps(table, t) && freeFrames > 0
      requires IsTable(St(), t) && own[t].level == TABLE && k < PAGE_ENTRIES
      modifies this`mem, this`own, this`free, this`dead, this`freeFrame, this`freeFrames, this`mapping, window
      ensures Valid() && WindowsKept() && dead == {} && freeFrames == old(freeFrames) - 1 && frame.low == ZERO
      ensures PageMapped(old(St()), St(), t, k, MappedEntry(Read(old(mem), t, k), frame, supervisor, writeProtected))
      ensures PageResident(Read(old(mem), t, k)) ==> frame.page == Child(old(mem), t, k)
    {
      hide Wf;
      ghost var s0 := St();
      FreeOldPage(table, k, writeProtected, t);
      ghost var s1 := St();
      frame := AllocFrame();
      MapPageWorks(s0, t, k, supervisor, writeProtected, frame);
      ghost var s := Hang(Take(s1), frame.page, t, k, MappedEntry(Read(s0.mem, t, k), frame, supervisor,
          writeProtected));
      StoreMapping(table, k, frame, supervisor, writeProtected, t);
      own, dead := s.own, s.dead;
      assert St() == s;
    }
  
    // Map the pointer table and the page table of indices i and j, hanging
    // fresh ones where there is none.
    method FindPageTable(rootTable: Pointer, i: nat, j: nat, ghost r: nat) returns (pageTable: Pointer, ghost s1: State)
      requires Valid() && dead == {} && mapping + 2 < MAPPER_PAGES && Maps(rootTable, r)
      requires Indices(St(), r, i, j, 0) && freeFrames + 1 >= FramesNeeded(mem, r, i, j)
      modifies this`mem, this`own, this`free, this`freeFrame, this`freeFrames, this`mapping, window
      ensures Valid() && WentDown(old(St()), s1, St(), r, i, j)
      ensures mapping == old(mapping) + 2 && Maps(pageTable, Child(mem, Child(s1.mem, r, i), j))
      ensures forall m {:trigger window[m]} :: 0 <= m < old(mapping) ==> window[m] == old(window[m])
      ensures freeFrames + FramesNeeded(old(mem), r, i, j) == old(freeFrames) + 1
    {
      var pointerTable := Descend(rootTable, i, ROOT, r);
      s1 := St();
      ghost var p := Child(mem, r, i);
      EntryLeads(s1, r, i);
      PointerEntryAfterDescent(old(St()), s1, r, i, j);
      pageTable := Descend(pointerTable, j, POINTERS, p);
      EntryLeads(St(), p, j);
    }

    // Map a fresh, zeroed frame at a virtual address, in the current user space
    // or in the supervisor's own part of its space.
    method AllocAt(virt: Word, supervisor: bool, writeProtected: bool) returns (frame: Word)
      requires Valid() && dead == {} && mapping + 3 < MAPPER_PAGES
      requires var rp := if supervisor then srp else urp;
        && rp.low == ZERO && Indices(St(), rp.page, RootIndex(virt.page), PointerIndex(virt.page), PageIndex(virt.page))
        && freeFrames >= FramesNeeded(mem, rp.page, RootIndex(virt.page), PointerIndex(virt.page))
      modifies this`mem, this`own, this`free, this`dead, this`freeFrame, this`freeFrames, this`mapping, window
      ensures Valid() && dead == {} && WindowsKept()
      ensures var r := if supervisor then srp.page else urp.page;
        && MappedAt(old(St()), St(), r, virt.page, frame, supervisor, writeProtected)
        && MovesOnly(old(St()), St(), r, virt.page) && JoinsOnly(old(St()), St(), r)
        && freeFrames == old(freeFrames) - FramesNeeded(old(mem), r, RootIndex(virt.page), PointerIndex(virt.page))
    {
      hide MappedAt, MovesOnly, JoinsOnly, PageMapped, WentDown, FramesNeeded, Wf, RootIndex, PointerIndex, PageIndex;
      var rp := if supervisor then srp else urp;
      var i, j, k := RootIndex(virt.page), PointerIndex(virt.page), PageIndex(virt.page);
      ghost var r := rp.page;
      ghost var s0 := St();
      var ph := RootTableAddress(rp);
      var page := MappingPush(ph);
      ghost var s1;
      var pageTable;
      pageTable, s1 := FindPageTable(Pointer(page, Offset(ph)), i, j, r);
      ghost var s2 := St();
      frame := MapPage(pageTable, k, supervisor, writeProtected, Child(mem, Child(s1.mem, r, i), j));
      MappingPop();
      MappingPop();
      MappingPop();
      AllocAtMaps(s0, s1, s2, St(), r, virt.page, frame, supervisor, writeProtected);
      AllocAtMovesOnly(s0, s1, s2, St(), r, virt.page, frame, supervisor, writeProtected);
      AllocAtJoinsOnly(s0, s1, s2, St(), r, virt.page, frame, supervisor, writeProtected);
    }
  
    // ---- Address spaces ----

    method InitUserspace(userspace: Userspace?) returns (err: int)
      requires Valid() && dead == {} && mapping < MAPPER_PAGES
      modifies this`mem, this`own, this`free, this`freeFrame, this`freeFrames, this`mapping, this`urp, window
      modifies if userspace == null then {} else {userspace}
      ensures Valid() && dead == {} && WindowsKept()
      ensures userspace == null ==>
        err == -EINVAL && St() == old(St()) && urp == old(urp) && freeFrames == old(freeFrames)
      ensures userspace != null && old(freeFrames) == 0 ==>
        err == -ENOMEM && St() == old(St()) && urp == old(urp) && freeFrames == 0 && userspace.word == NULL
      ensures userspace != null && old(freeFrames) > 0 ==>
        && err == 0 && freeFrames == old(freeFrames) - 1
        && userspace.word == old(freeFrame) == urp
        && St() == Plant(old(Take(St())), userspace.word.page)
        && userspace.Names(old(free[|free| - 1]))
        && IsRoot(St(), userspace.word.page) && EmptyFrom(mem, userspace.word.page, ROOT, 0)
    {
      if userspace == null {
        return -EINVAL;
      }
      userspace.word := NULL;
      ghost var st := St();
      var directory := AllocFrame();
      if directory == NULL {
        return -ENOMEM;
      }
      assert directory.page in mem && mem[directory.page] == ZeroFrame();
      PlantKeepsWf(St(), directory.page);
      own := own[directory.page := Node(0, directory.page, directory.page, 0)];
      userspace.word := RootTableAddress(directory);
      urp := userspace.word;
      return 0;
    }

    method FreeUserspace(userspace: Userspace)
      requires Valid() && dead == {} && mapping + 3 < MAPPER_PAGES
      requires userspace.word.low == ZERO && IsRoot(St(), userspace.word.page) && userspace.word.page != srp.page
      modifies this`mem, this`own, this`free, this`dead, this`freeFrame, this`mapping, window
      ensures Valid() && dead == {} && WindowsKept()
      ensures TreeGone(old(St()), St(), userspace.word.page, false)
    {
      hide TreeGone;
      ghost var r := userspace.word.page;
      ClearUserspace(userspace);
      EmptyIsChildless(St(), r);
      RootGivenBack(old(St()), St(), r);
      FreeFrame(RootTableAddress(userspace.word));
    }

    // Copy address space `from` to the empty address space `to`.
    method CloneUserspace(from: Userspace?, to: Userspace?) returns (err: int)
      requires Valid() && dead == {} && mapping + 7 < MAPPER_PAGES
      requires from != null && to != null ==>
        && from.word.low == ZERO && to.word.low == ZERO
        && UserRoots(St(), from.word.page, to.word.page)
        && EmptyFrom(mem, to.word.page, ROOT, 0)
      modifies this`mem, this`own, this`free, this`freeFrame, this`freeFrames, this`mapping, window
      ensures Valid() && dead == {} && WindowsKept()
      ensures from == null || to == null ==> err == -EINVAL && St() == old(St()) && freeFrames == old(freeFrames)
      ensures from != null && to != null ==>
        var a, b, n := from.word.page, to.word.page, FramesFrom(old(mem), from.word.page, 0);
        && Grown(old(St()), St(), b) && UserRoots(St(), a, b)
        && (err == 0 <==> old(freeFrames) >= n)
        && (err == 0 ==> freeFrames == old(freeFrames) - n && SubtreesCopied(mem, a, b, ROOT_ENTRIES))
        && (err != 0 ==> err == -ENOMEM && freeFrames == 0)
    {
      if from == null || to == null {
        return -EINVAL;
      }
      var ph := RootTableAddress(from.word);
      var page := MappingPush(ph);
      var rootFrom := Pointer(page, Offset(ph));
      ph := RootTableAddress(to.word);
      page := MappingPush(ph);
      var rootTo := Pointer(page, Offset(ph));
      var ok := CloneRootTable(rootFrom, rootTo, from.word.page, to.word.page);
      assert KeptOrTaken(old(St()), St(), to.word.page, from.word.page);
      assert KeptOrTaken(old(St()), St(), to.word.page, to.word.page);
      MappingPop();
      MappingPop();
      return if ok then 0 else -ENOMEM;
    }

    method SwitchUserspace(userspace: Userspace?) returns (err: int)
      modifies this`urp
      ensures if userspace == null then err == -EINVAL && urp == old(urp) else err == 0 && urp == userspace.word
    {
      if userspace == null {
        return -EINVAL;
      }
      urp := userspace.word;
      return 0;
    }
  
    // Make entries 0..95 of the supervisor root those of the current user root.
    method MapCurrentUserspace()
      requires Valid() && dead == {} && mapping + 1 < MAPPER_PAGES
      requires srp.low == ZERO && urp.low == ZERO && urp.page != srp.page
      modifies this`mem, this`mapping, window
      ensures Valid() && WindowsKept() && Mirrored(old(St()), St(), urp.page, 96)
    {
      hide Mirrored, Wf;
      var userspaceDescriptors := ROOT_ENTRIES / 4 * 3;
      var ph := RootTableAddress(srp);
      var page := MappingPush(ph);
      var supervisorTable := Pointer(page, Offset(ph));
      ph := RootTableAddress(urp);
      page := MappingPush(ph);
      var userTable := Pointer(page, Offset(ph));
      var i := 0;
      MirrorNothing(St(), urp.page);
      while i < userspaceDescriptors
        invariant i <= 96 && Valid() && Maps(supervisorTable, srp.page) && Maps(userTable, urp.page)
        invariant mapping == old(mapping) + 2
        invariant forall m {:trigger window[m]} :: 0 <= m < old(mapping) ==> window[m] == old(window[m])
        invariant Mirrored(old(St()), St(), urp.page, i)
      {
        MirrorStep(old(St()), St(), urp.page, i);
        Store(supervisorTable, i, Load(userTable, i));
        i := i + 1;
      }
      MappingPop();
      MappingPop();
    }

    // ---- Copying to and from user memory ----

    function LoadByte(p: Pointer): Byte
      requires p.page < window.Length
      reads this`mem, window
    {
      ByteAt(mem, window[p.page].page, p.offset)
    }

    method StoreByte(p: Pointer, b: Byte)
      requires p.page < window.Length
      modifies this`mem
      ensures mem == PutByteAt(old(mem), window[p.page].page, p.offset, b)
    {
      mem := PutByteAt(mem, window[p.page].page, p.offset, b);
    }

    // Map the page of a user address and point at its byte.
    method MapUser(va: Address) returns (p: Pointer)
      requires window.Length == MAPPER_PAGES && mapping < MAPPER_PAGES
      modifies this`mapping, window
      ensures mapping == old(mapping) + 1 && p == Pointer(old(mapping), OffsetOf(va))
      ensures window[p.page].page == FrameAt(mem, urp.page, PageOf(va))
      ensures forall m :: 0 <= m < MAPPER_PAGES && m != p.page ==> window[m] == old(window[m])
    {
      var page := MappingPush(AddressOf(FrameAt(mem, urp.page, PageOf(va))));
      p := Pointer(page, OffsetOf(va));
    }

    method CopyFromUserspace(dst: array<Byte>, src: Address, size: nat)
      requires Valid() && mapping < MAPPER_PAGES && size <= dst.Length
      modifies this`mapping, window, dst
      ensures Valid() && WindowsKept()
      ensures forall n | 0 <= n < size :: dst[n] == UserByte(mem, urp.page, Advance(src, n))
      ensures forall n | size <= n < dst.Length :: dst[n] == old(dst[n])
    {
      if size == 0 {
        return;
      }
      var va, n := src, 0;
      var p := MapUser(va);
      AdvanceNext(src, 0);
      while true
        invariant Valid() && n < size && va == Advance(src, n)
        invariant mapping == old(mapping) + 1 && p.page == old(mapping) && p.offset == OffsetOf(va)
        invariant window[p.page].page == FrameAt(mem, urp.page, PageOf(va))
        invariant forall m {:trigger window[m]} :: 0 <= m < old(mapping) ==> window[m] == old(window[m])
        invariant forall m | 0 <= m < n :: dst[m] == UserByte(mem, urp.page, Advance(src, m))
        invariant forall m | n <= m < dst.Length :: dst[m] == old(dst[m])
        decreases size - n
      {
        dst[n] := LoadByte(p);
        AdvanceNext(src, n);
        NextInPage(va);
        va := Next(va);
        n := n + 1;
        if n == size {
          break;
        }
        if OffsetOf(va) == 0 {
          MappingPop();
          p := MapUser(va);
        } else {
          p := p.(offset := p.offset + 1);
        }
      }
      MappingPop();
    }

    method CopyToUserspace(dst: Address, src: array<Byte>, size: nat)
      requires Valid() && dead == {} && mapping < MAPPER_PAGES && size <= src.Length
      requires IsRoot(St(), urp.page) && urp.page != srp.page
      modifies this`mem, this`mapping, window
      ensures Valid() && WindowsKept()
      ensures mem == PutUserBytes(old(mem), urp.page, dst, src[..size])
    {
      if size == 0 {
        return;
      }
      var va, n := dst, 0;
      var p := MapUser(va);
      assert src[0..size] == src[..size];
      while true
        invariant Valid() && IsRoot(St(), urp.page) && n < size
        invariant mapping == old(mapping) + 1 && p.page == old(mapping) && p.offset == OffsetOf(va)
        invariant window[p.page].page == FrameAt(mem, urp.page, PageOf(va))
        invariant forall m {:trigger window[m]} :: 0 <= m < old(mapping) ==> window[m] == old(window[m])
        invariant PutUserBytes(old(mem), urp.page, dst, src[..size]) == PutUserBytes(mem, urp.page, va, src[n..size])
        decreases size - n
      {
        ghost var st, f := St(), FrameAt(mem, urp.page, PageOf(va));
        FrameAtIsNoTable(st, urp.page, PageOf(va));
        StoreKeepsRoot(st, urp.page, f, OffsetOf(va), src[n]);
        StoreKeepsTranslation(st, urp.page, f, OffsetOf(va), src[n], PageOf(va));
        StoreByte(p, src[n]);
        assert St() == Stored(st, f, OffsetOf(va), src[n]);
        assert src[n..size][1..] == src[n + 1..size];
        NextInPage(va);
        va := Next(va);
        n := n + 1;
        if n == size {
          break;
        }
        if OffsetOf(va) == 0 {
          MappingPop();
          p := MapUser(va);
        } else {
          p := p.(offset := p.offset + 1);
        }
      }
      MappingPop();
    }
  
    // ---- Start-up ----

    // The machine as the boot loader leaves it; the ghost parameter says who
    // owns which boot frame.
    constructor (memory: Memory, srp: Word, urp: Word, ghost boot: map<nat, Role>)
      ensures mem == memory && this.srp == srp && this.urp == urp && own == boot && free == [] && dead == {}
      ensures mapping == 0 && fresh(window) && window.Length == MAPPER_PAGES
    {
      this.mem, this.srp, this.urp := memory, srp, urp;
      this.own, this.free, this.dead := boot, [], {};
      this.window := new Word[MAPPER_PAGES](_ => NULL);
      this.mapping, this.freeFrames, this.totalFrames, this.freeFrame := 0, 0, 0, NULL;
    }

    // mmu040_init.
    method Init()
      requires window.Length == MAPPER_PAGES && mapping + 1 < MAPPER_PAGES && dead == {} && free == [] && Wf(St())
      requires forall f {:trigger Managed(St(), f)} :: FIRST_FRAME <= f < LIMIT_FRAME ==> Managed(St(), f)
      requires var pages := RootsMet(mem, srp.page, 0);
        && NoWrap(pages) && FirstFree(FIRST_FRAME, pages) <= LIMIT_FRAME
        && forall f {:trigger f in own} :: f in own ==> f < FirstFree(FIRST_FRAME, pages)
      modifies this`mem, this`own, this`free, this`freeFrame, this`freeFrames, this`totalFrames, this`mapping, window
      ensures Wf(St()) && dead == {} && WindowsKept() && freeFrame == Link(free)
      ensures var pages := RootsMet(old(mem), srp.page, 0);
        && free == Range(FirstFree(FIRST_FRAME, pages), LIMIT_FRAME)
        && freeFrames == TOTAL_FRAMES - Hits(FIRST_FRAME, pages)
        && (freeFrames == |free| <==> Gapless(FIRST_FRAME, pages))
        && (Valid() <==> Gapless(FIRST_FRAME, pages))
    {
      hide FirstFree, Hits, Gapless, RootsMet, Wf, Range;
      CounterIsExactWithoutGaps(FIRST_FRAME, RootsMet(mem, srp.page, 0));
      totalFrames := TOTAL_FRAMES;
      freeFrames := totalFrames;
      freeFrame := NULL;
      var first := ScanRoot();
      BuildFreeList(first);
    }

    // Pages of the page table at ph.
    method ScanTable(table: Pointer, first: PageNumber, ghost ph: Word) returns (next: PageNumber)
      requires table.page < window.Length && window[table.page].page == ph.page && table.offset == Offset(ph)
      requires freeFrames >= Hits(first, PagesMet(mem, ph, 0))
      modifies this`freeFrames
      ensures next == FirstFree(first, PagesMet(mem, ph, 0))
      ensures freeFrames == old(freeFrames) - Hits(first, PagesMet(mem, ph, 0))
    {
      hide FirstFree, Hits, Offset, PageResident, PagesMet;
      next := first;
      var k := 0;
      while k < PAGE_ENTRIES
        invariant k <= PAGE_ENTRIES
        invariant FirstFree(first, PagesMet(mem, ph, 0)) == FirstFree(next, PagesMet(mem, ph, k))
        invariant freeFrames - Hits(next, PagesMet(mem, ph, k)) == old(freeFrames) - Hits(first, PagesMet(mem, ph, 0))
      {
        PageScanned(mem, ph, k, next);
        var w := Load(table, k);
        if PageResident(w) && w.page >= next {
          next := Bump(w.page);
          freeFrames := freeFrames - 1;
        }
        k := k + 1;
      }
      ScanEnds(mem, ph, 0, next);
    }

    // Pages of the pointer table at ph.
    method ScanPointerTable(table: Pointer, first: PageNumber, ghost ph: Word) returns (next: PageNumber)
      requires window.Length == MAPPER_PAGES && mapping < MAPPER_PAGES
      requires table.page < mapping && window[table.page].page == ph.page && table.offset == Offset(ph)
      requires freeFrames >= Hits(first, TablesMet(mem, ph, 0))
      modifies this`freeFrames, this`mapping, window
      ensures WindowsKept()
      ensures next == FirstFree(first, TablesMet(mem, ph, 0))
      ensures freeFrames == old(freeFrames) - Hits(first, TablesMet(mem, ph, 0))
    {
      hide FirstFree, Hits, Offset, PagesMet, TablesMet, UpperResident, PointerTableAddress;
      next := first;
      var j := 0;
      while j < POINTER_ENTRIES
        invariant j <= POINTER_ENTRIES && WindowsKept()
        invariant FirstFree(first, TablesMet(mem, ph, 0)) == FirstFree(next, TablesMet(mem, ph, j))
        invariant freeFrames - Hits(next, TablesMet(mem, ph, j)) == old(freeFrames) - Hits(first, TablesMet(mem, ph, 0))
      {
        TableScanned(mem, ph, j, next);
        var w := Load(table, j);
        if UpperResident(w) {
          var pages := PointerTableAddress(w);
          var page := MappingPush(pages);
          next := ScanTable(Pointer(page, Offset(pages)), next, pages);
          MappingPop();
        }
        j := j + 1;
      }
      ScanEnds(mem, ph, 0, next);
    }

    // The three nested loops of the scan; the root table is mapped by the boot
    // loader.
    method ScanRoot() returns (next: PageNumber)
      requires window.Length == MAPPER_PAGES && mapping + 1 < MAPPER_PAGES
      requires freeFrames >= Hits(FIRST_FRAME, RootsMet(mem, srp.page, 0))
      modifies this`freeFrames, this`mapping, window
      ensures WindowsKept()
      ensures next == FirstFree(FIRST_FRAME, RootsMet(mem, srp.page, 0))
      ensures freeFrames == old(freeFrames) - Hits(FIRST_FRAME, RootsMet(mem, srp.page, 0))
    {
      hide FirstFree, Hits, Offset, TablesMet, RootsMet, UpperResident, RootTableAddress;
      ghost var r := srp.page;
      next := FIRST_FRAME;
      var i := 0;
      while i < ROOT_ENTRIES
        invariant i <= ROOT_ENTRIES && WindowsKept()
        invariant FirstFree(FIRST_FRAME, RootsMet(mem, r, 0)) == FirstFree(next, RootsMet(mem, r, i))
        invariant freeFrames - Hits(next, RootsMet(mem, r, i)) ==
          old(freeFrames) - Hits(FIRST_FRAME, RootsMet(mem, r, 0))
      {
        RootScanned(mem, r, i, next);
        var w := Read(mem, srp.page, i);
        if UpperResident(w) {
          var tables := RootTableAddress(w);
          var page := MappingPush(tables);
          next := ScanPointerTable(Pointer(page, Offset(tables)), next, tables);
          MappingPop();
        }
        i := i + 1;
      }
      ScanEnds(mem, srp, r, next);
    }

    // Push every frame from `first` to the end of DRAM.
    method BuildFreeList(first: PageNumber)
      requires window.Length == MAPPER_PAGES && mapping < MAPPER_PAGES && totalFrames == TOTAL_FRAMES
      requires Wf(St()) && free == [] && freeFrame == NULL && FIRST_FRAME <= first <= LIMIT_FRAME
      requires forall f {:trigger Managed(St(), f)} :: first <= f < LIMIT_FRAME ==> Managed(St(), f) && f !in own
      modifies this`mem, this`own, this`free, this`freeFrame, this`mapping, window
      ensures WindowsKept() && Wf(St()) && dead == old(dead)
      ensures free == Range(first, LIMIT_FRAME) && freeFrame == Link(free)
    {
      hide Wf;
      var f: nat := first;
      while f < FIRST_FRAME + totalFrames
        invariant first <= f <= LIMIT_FRAME && WindowsKept() && dead == old(dead)
        invariant Wf(St()) && free == Range(first, f) && freeFrame == Link(free)
        invariant forall g {:trigger Managed(St(), g)} :: f <= g < LIMIT_FRAME ==> Managed(St(), g) && g !in own
      {
        ghost var st := St();
        assert Managed(st, f);
        SeedKeepsWf(st, f);
        var page := MappingPush(AddressOf(f));
        Store(Pointer(page, 0), 0, freeFrame);
        freeFrame := AddressOf(f);
        MappingPop();
        own, free := own[f := Free(|free|)], free + [f];
        assert St() == Seed(st, f);
        forall g | f < g < LIMIT_FRAME ensures Managed(St(), g) && g !in own { assert Managed(st, g); }
        f := f + 1;
      }
    }
  }
}
