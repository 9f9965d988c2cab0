/** Access to physical memory through a small cache of mapped windows: 64K windows at
    multiples of 32K, so that at least 32K are mapped ahead of any requested address. */
module PhysMem {
  import opened Arith
  import opened Recency

  const PHYS_CACHE_SIZE: nat := 0x10000
  const HALF: nat := 0x8000            // windows start at multiples of this
  const PHYS_CACHE_COUNT: nat := 8

  type Word = n: nat | n < TWO32
  type Byte = nat

  /** A virtual address: an offset in a mapped window, or NULL. */
  datatype Pointer = Null | At(window: nat, offset: nat)

  /** Physical memory, by word. */
  type Ram = nat -> Word

  /** Byte `a` of physical memory, of a little-endian word. */
  function ByteAt(ram: Ram, a: nat): Byte {
    var w := ram(a / 4);
    match a % 4
    case 0 => w % 256
    case 1 => w / 256 % 256
    case 2 => w / 65536 % 256
    case _ => w / 16777216
  }

  function BytesFrom(ram: Ram, a: nat, n: nat): (s: seq<Byte>)
    ensures |s| == n
  {
    seq<Byte>(n, i requires 0 <= i < n => ByteAt(ram, a + i))
  }

  function Aligned(paddr: nat): (a: nat)
    ensures a <= paddr < a + 4 && a % 4 == 0
  {
    FloorIsMultiple(paddr, 4);
    Floor(paddr, 4)
  }

  /** The base of the window an address is mapped in. */
  function BaseOf(paddr: nat): (b: nat)
    ensures b <= paddr < b + HALF && b % HALF == 0
  {
    FloorIsMultiple(paddr, HALF);
    Floor(paddr, HALF)
  }

  /** Addresses that differ by whole words are as far apart when aligned. */
  lemma AlignedStep(a: nat, n: nat)
    requires n % 4 == 0
    ensures Aligned(a + n) == Aligned(a) + n
  {
    hide Floor;
    FloorSum(a, n, 4);
  }

  /** Aligning an address keeps its word, and stepping by words counts them. */
  lemma AlignedWord(a: nat, n: nat)
    ensures Aligned(a + 4 * n) / 4 == a / 4 + n && Aligned(a + 4 * n) % 4 == 0
  {
    AlignedStep(a, 4 * n);
  }

  lemma BaseIs(paddr: nat)
    ensures BaseOf(paddr) == paddr - paddr % HALF && paddr % HALF < HALF
  {
  }

  /** A pointer to a physical address, with at least 32K of its window ahead. */
  ghost predicate PointsTo(windows: map<nat, nat>, p: Pointer, paddr: nat) {
    p.At? && p.window in windows && windows[p.window] + p.offset == paddr && p.offset + 0x8000 <= 0x10000
  }

  class PhysMap {
    const physBase: array<nat>          // phys_base: 1 marks a free slot
    const physMem: array<nat>           // phys_mem: the window mapped, 0 for none
    var windows: map<nat, nat>          // the windows that exist, and where they map
    var ram: Ram

    // ----- what every run keeps -------------------------------------------------

    ghost predicate Shape() {
      physBase.Length == PHYS_CACHE_COUNT && physMem.Length == PHYS_CACHE_COUNT
    }

    /** The slots are in order, but for what slot `k` says it holds if it is free. */
    ghost predicate Loose(k: int)
      reads this`windows, physBase, physMem
    {
      Shape() && physBase != physMem && LooseSlots(windows, physBase[..], physMem[..], k)
    }

    ghost predicate Valid()
      reads this`windows, physBase, physMem
    {
      Loose(-1)
    }

    /** No mapping has failed: the free slots come last, and no base is in two slots. */
    ghost predicate Packed()
      reads physBase
    {
      PackedSlots(physBase[..])
    }

    /** The bases in the cache, from the front. */
    ghost function Cached(): (l: seq<nat>)
      reads physBase
    {
      UsedOf(physBase[..])
    }

    /** The cache at the start of the program: every slot free. */
    constructor (ram: Ram)
      ensures Valid() && Packed() && Cached() == [] && this.ram == ram
      ensures fresh(physBase) && fresh(physMem)
    {
      physBase := new nat[8](_ => 1);
      physMem := new nat[8](_ => 0);
      windows := map[];
      this.ram := ram;
    }

    // ----- memPhysMap -----------------------------------------------------------

    /** The first slot that is free or has `base`, or -1. */
    method FindSlot(base: nat) returns (slot: int)
      requires Shape()
      ensures -1 <= slot < 8 && (slot >= 0 ==> physBase[slot] == 1 || physBase[slot] == base)
      ensures forall i :: 0 <= i < (if slot == -1 then 8 else slot) ==> physBase[i] != 1 && physBase[i] != base
    {
      slot := -1;
      for i := 0 to PHYS_CACHE_COUNT
        invariant forall k :: 0 <= k < i ==> physBase[k] != 1 && physBase[k] != base
      {
        if physBase[i] == 1 || physBase[i] == base {
          return i;
        }
      }
    }

    /** VirtualFree of the last slot's window. */
    method EvictLast()
      requires Valid() && physBase[7] != 1
      modifies this`windows, physBase
      ensures Loose(7) && physBase[..] == old(physBase[..])[7 := 1]
      ensures windows.Keys <= old(windows).Keys
    {
      windows := windows - {physMem[7]};
      physBase[7] := 1;
    }

    /** The two memmoves: slot `slot` comes to the front, and those before it move up. */
    method MoveToFront(slot: nat)
      requires slot < 8 && Loose(slot)
      modifies physBase, physMem
      ensures Loose(0)
      ensures physBase[..] == Fronted(old(physBase[..]), slot) && physMem[..] == Fronted(old(physMem[..]), slot)
    {
      ghost var bases, mems := physBase[..], physMem[..];
      ToFront(physBase, slot);
      ToFront(physMem, slot);
      FrontedKeepsLoose(windows, bases, mems, slot);
    }

    /** VirtualAlloc: no window, or any address at which there is none now. */
    method VirtualAlloc(reserved: bool) returns (handle: nat)
      ensures handle != 0 <==> reserved
      ensures handle !in windows || handle == 0
    {
      handle := 0;
      if reserved {
        SomeAddressFree(windows);
        handle :| handle != 0 && handle !in windows;
      }
    }

    /** Map a window at `base` in the free slot 0, given whether VirtualAlloc and VirtualCopy succeed. */
    method MapFront(base: nat, reserved: bool, copied: bool)
      requires Loose(0) && physBase[0] == 1 && base % HALF == 0
      modifies this`windows, physBase, physMem
      ensures Valid()
      ensures forall i :: 0 < i < 8 ==> physBase[i] == old(physBase[i])
      ensures if reserved && copied then
                physBase[0] == base && physMem[0] !in old(windows) && windows == old(windows)[physMem[0] := base]
              else physBase[0] == 1 && physMem[0] == 0 && windows == old(windows)
    {
      hide LooseSlots;
      ghost var before, bases, mems := windows, physBase[..], physMem[..];
      var handle := VirtualAlloc(reserved);
      physBase[0] := base;
      physMem[0] := handle;
      if physMem[0] != 0 {
        windows := windows[handle := base];
        if !copied {
          windows := windows - {handle};
          physMem[0] := 0;
        }
      }
      if physMem[0] == 0 {
        physBase[0] := 1;
      }
      if reserved && copied {
        FilledLoose(before, bases, mems, base, handle);
        assert physBase[..] == bases[0 := base] && physMem[..] == mems[0 := handle];
      } else {
        EmptiedLoose(before, bases, mems);
        assert windows == before && physBase[..] == bases && physMem[..] == mems[0 := 0];
      }
    }

    /** The first half of memPhysMap: a slot that has `base`, or a free one, comes to the front. */
    method BringToFront(base: nat) returns (ghost found: int)
      requires Valid()
      modifies this`windows, physBase, physMem
      ensures Loose(0) && windows.Keys <= old(windows).Keys && -1 <= found < 8
      ensures physBase[0] == 1 || (physBase[0] == base && physMem[0] != 0)
      ensures found >= 0 ==> old(physBase[found]) == 1 || old(physBase[found]) == base
      ensures forall i :: 0 <= i < (if found == -1 then 8 else found) ==>
                old(physBase[i]) != 1 && old(physBase[i]) != base
      ensures physBase[..] == if found == -1 then Fronted(old(physBase[..])[7 := 1], 7)
                              else Fronted(old(physBase[..]), found)
    {
      hide LooseSlots, Fronted, Held;
      var slot := FindSlot(base);
      found := slot;
      if slot == -1 {
        slot := PHYS_CACHE_COUNT - 1;
        EvictLast();
      } else {
        LoosenSlot(windows, physBase[..], physMem[..], slot);
      }
      FrontedAt(physBase[..], slot, 0);
      if slot != 0 {
        MoveToFront(slot);
      } else {
        FrontedFirst(physBase[..]);
      }
      FrontSays(windows, physBase[..], physMem[..]);
    }

    /** memPhysMap. */
    method MemPhysMap(paddr0: nat, reserved: bool, copied: bool) returns (p: Pointer)
      requires Valid()
      modifies this`windows, physBase, physMem
      ensures Valid()
      ensures p.At? ==> PointsTo(windows, p, Aligned(paddr0))
      ensures reserved && copied ==> p.At?
      ensures windows.Keys <= old(windows).Keys + if p.At? then {p.window} else {}
      ensures old(Packed()) && p.At? ==>
                Packed() && Cached() == Touch(old(Cached()), BaseOf(Aligned(paddr0)), PHYS_CACHE_COUNT)
    {
      hide Touch, UsedOf, Fronted, PackedSlots, LooseSlots, Remapped, Aligned, BaseOf;
      var paddr := Aligned(paddr0);
      var offs := paddr % HALF;
      var base: nat := paddr - offs;
      BaseIs(paddr);
      ghost var bases := physBase[..];
      ghost var found := BringToFront(base);
      ghost var moved := physBase[..];
      if physBase[0] == 1 {
        MapFront(base, reserved, copied);
      } else {
        LooseIsValid(windows, physBase[..], physMem[..]);
      }
      SlotSays(windows, physBase[..], physMem[..], 0);
      if physMem[0] == 0 {
        return Null;
      }
      if old(Packed()) {
        RemappedIs(bases, found, base, moved);
        assert physBase[..] == moved[0 := base];
        RemappedIsTouch(bases, found, base);
      }
      p := At(physMem[0], offs);
    }

    /** memPhysReset. */
    method MemPhysReset()
      requires Valid()
      modifies this`windows, physBase, physMem
      ensures Valid() && windows == map[] && Packed() && Cached() == []
    {
      hide LooseSlots;
      var i := 0;
      while i < PHYS_CACHE_COUNT
        invariant 0 <= i <= 8 && Valid()
        invariant forall k :: 0 <= k < i ==> physBase[k] == 1
      {
        SlotSays(windows, physBase[..], physMem[..], i);
        if physMem[i] != 0 {
          FreedLoose(windows, physBase[..], physMem[..], i);
          windows := windows - {physMem[i]};
          physMem[i] := 0;
          physBase[i] := 1;
        }
        i := i + 1;
      }
      AllFreed(windows, physBase[..], physMem[..]);
    }

    // ----- filling and writing out ------------------------------------------------

    /** memPhysMap when no mapping fails. */
    method Map(paddr: nat) returns (p: Pointer)
      requires Valid()
      modifies this`windows, physBase, physMem
      ensures Valid() && p.At? && p.window in windows
      ensures windows[p.window] + p.offset == Aligned(paddr) && p.offset + HALF <= PHYS_CACHE_SIZE
    {
      p := MemPhysMap(paddr, true, true);
    }

    /** The physical address behind a virtual one. */
    ghost function Behind(p: Pointer): nat
      reads this`windows
      requires p.At? && p.window in windows
    {
      windows[p.window] + p.offset
    }

    /** memFill: the stores go through the window. */
    method MemFill(p: Pointer, wcount0: nat, value: Word)
      requires p.At? && p.window in windows && Behind(p) % 4 == 0 && p.offset + 4 * wcount0 <= PHYS_CACHE_SIZE
      modifies this`ram
      ensures forall i: nat ::
                ram(i) == if Behind(p) / 4 <= i < Behind(p) / 4 + wcount0 then value else old(ram)(i)
    {
      var wcount, offset := wcount0, p.offset;
      while wcount > 0
        invariant 0 <= wcount <= wcount0 && offset == p.offset + 4 * (wcount0 - wcount)
        invariant forall i: nat ::
                    ram(i) == if Behind(p) / 4 <= i < Behind(p) / 4 + (wcount0 - wcount) then value else old(ram)(i)
      {
        var word := (windows[p.window] + offset) / 4;
        var before := ram;
        ram := (i: nat) => if i == word then value else before(i);
        offset := offset + 4;
        wcount := wcount - 1;
      }
    }

    /** memPhysFill: exactly `wcount` words from the one `paddr` is in take the value, whatever is
        cached and however the chunks cross windows. */
    method MemPhysFill(paddr0: nat, wcount0: nat, value: Word)
      requires Valid() && paddr0 + 4 * wcount0 <= TWO32
      modifies this, physBase, physMem
      ensures Valid()
      ensures forall i: nat :: ram(i) == if paddr0 / 4 <= i < paddr0 / 4 + wcount0 then value else old(ram)(i)
    {
      hide Aligned;
      var paddr, wcount := paddr0, wcount0;
      while wcount > 0
        invariant 0 <= wcount <= wcount0 && paddr == paddr0 + 4 * (wcount0 - wcount)
        invariant Valid()
        invariant forall i: nat ::
                    ram(i) == if paddr0 / 4 <= i < paddr0 / 4 + (wcount0 - wcount) then value else old(ram)(i)
      {
        AlignedWord(paddr0, wcount0 - wcount);
        var vaddr := Map(paddr);
        var words := 8 * 1024;
        if words > wcount {
          words := wcount;
        }
        MemFill(vaddr, words, value);
        wcount := wcount - words;
        paddr := paddr + 4 * words;
      }
    }

    /** memWrite: bytes behind `p` are appended to a file with `room` bytes left on its disk. */
    method MemWrite(file0: seq<Byte>, room0: nat, p: Pointer, size0: nat)
      returns (ok: bool, file: seq<Byte>, room: nat)
      requires p.At? && p.window in windows && p.offset + size0 <= PHYS_CACHE_SIZE
      ensures ok <==> size0 <= room0
      ensures ok ==> room == room0 - size0 && file == file0 + BytesFrom(ram, Behind(p), size0)
      ensures !ok ==> file == file0 + BytesFrom(ram, Behind(p), room0)
    {
      file, room := file0, room0;
      var addr, size := p.offset, size0;
      assert BytesFrom(ram, Behind(p), 0) == [];
      while size > 0
        invariant 0 <= size <= size0 && addr == p.offset + (size0 - size) && room == room0 - (size0 - size)
        invariant file == file0 + BytesFrom(ram, Behind(p), size0 - size)
      {
        var sz := if size > 0x1000 then 0x1000 else size;
        var wc := if room < sz then room else sz;
        BytesJoin(ram, Behind(p), size0 - size, wc);
        file := file + BytesFrom(ram, windows[p.window] + addr, wc);
        room := room - wc;
        if wc != sz {
          return false, file, room;
        }
        addr := addr + sz;
        size := size - sz;
      }
      return true, file, room;
    }

    /** One turn of memPhysWriteFile. */
    method WriteChunk(file0: seq<Byte>, room0: nat, addr: nat, sz: nat) returns (ok: bool, file: seq<Byte>, room: nat)
      requires Valid() && sz <= HALF
      modifies this`windows, physBase, physMem
      ensures Valid() && (ok <==> sz <= room0)
      ensures ok ==> room == room0 - sz
      ensures file == file0 + BytesFrom(ram, Aligned(addr), if ok then sz else room0)
    {
      var vaddr := Map(addr);
      ok, file, room := MemWrite(file0, room0, vaddr, sz);
    }

    /** memPhysWriteFile: the bytes in the file are those from the word `addr` is in. */
    method MemPhysWriteFile(addr0: nat, size0: nat, fopened: bool, room0: nat) returns (ok: bool, file: seq<Byte>)
      requires Valid() && addr0 + size0 <= TWO32
      modifies this`windows, physBase, physMem
      ensures Valid()
      ensures ok <==> fopened && size0 <= room0
      ensures file == if !fopened then [] else BytesFrom(ram, Aligned(addr0), if ok then size0 else room0)
    {
      hide Aligned, BytesFrom;
      file := [];
      if !fopened {
        return false, file;
      }
      var addr, size, room := addr0, size0, room0;
      BytesNone(ram, Aligned(addr0));
      while size > 0
        invariant 0 <= size <= size0 && addr == addr0 + (size0 - size) && room == room0 - (size0 - size)
        invariant size > 0 ==> (size0 - size) % 4 == 0
        invariant Valid()
        invariant file == BytesFrom(ram, Aligned(addr0), size0 - size)
      {
        var sz := if size > 0x8000 then 0x8000 else size;
        AlignedStep(addr0, size0 - size);
        BytesJoin(ram, Aligned(addr0), size0 - size, if sz <= room then sz else room);
        ok, file, room := WriteChunk(file, room, addr, sz);
        if !ok {
          return;
        }
        size := size - sz;
        addr := addr + sz;
      }
      ok := true;
    }
  }

  /** Finitely many windows leave an address free. */
  lemma SomeAddressFree(windows: map<nat, nat>)
    ensures exists h: nat :: h != 0 && h !in windows
  {
    var h := Above(windows.Keys);
    assert h !in windows;
  }

  lemma {:induction false} Above(s: set<nat>) returns (n: nat)
    ensures n != 0 && forall m :: m in s ==> m < n
    decreases |s|
  {
    if s == {} {
      n := 1;
    } else {
      var m :| m in s;
      var rest := s - {m};
      var r := Above(rest);
      n := if r <= m then m + 1 else r;
      assert forall k :: k in s ==> k == m || k in rest;
    }
  }

  lemma BytesNone(ram: Ram, a: nat)
    ensures BytesFrom(ram, a, 0) == []
  {
  }

  lemma BytesJoin(ram: Ram, a: nat, n: nat, m: nat)
    ensures BytesFrom(ram, a, n) + BytesFrom(ram, a + n, m) == BytesFrom(ram, a, n + m)
  {
  }

  /** The bytes written for each word, the lowest first, make up the word. */
  lemma WordBytes(ram: Ram, i: nat, n: nat, j: nat)
    requires j < n
    ensures var s := BytesFrom(ram, 4 * i, 4 * n);
            && s[4 * j] + 0x100 * s[4 * j + 1] + 0x1_0000 * s[4 * j + 2] + 0x100_0000 * s[4 * j + 3] == ram(i + j)
            && forall k :: 4 * j <= k < 4 * j + 4 ==> s[k] < 256
  {
    hide ByteAt;
    BytesOf(ram, i + j);
    var s, a := BytesFrom(ram, 4 * i, 4 * n), 4 * (i + j);
    assert s[4 * j] == ByteAt(ram, a) && s[4 * j + 1] == ByteAt(ram, a + 1);
    assert s[4 * j + 2] == ByteAt(ram, a + 2) && s[4 * j + 3] == ByteAt(ram, a + 3);
    FourBytes(ram(i + j));
  }

  lemma BytesOf(ram: Ram, i: nat)
    ensures ByteAt(ram, 4 * i) == ram(i) % 256 && ByteAt(ram, 4 * i + 1) == ram(i) / 256 % 256
    ensures ByteAt(ram, 4 * i + 2) == ram(i) / 65536 % 256 && ByteAt(ram, 4 * i + 3) == ram(i) / 16777216
  {
    assert 4 * i / 4 == i && (4 * i + 1) / 4 == i && (4 * i + 2) / 4 == i && (4 * i + 3) / 4 == i;
  }

  lemma FourBytes(w: Word)
    ensures w % 256 + 0x100 * (w / 256 % 256) + 0x1_0000 * (w / 65536 % 256) + 0x100_0000 * (w / 16777216) == w
    ensures w / 16777216 < 256
  {
    var a := w / 256;
    var b := a / 256;
    assert w / 65536 == b;
    assert w / 16777216 == b / 256;
  }

  /** The file is the requested range of every memory exactly when the address is word aligned (or
      nothing is requested). */
  lemma RequestedRange(a: nat, n: nat)
    ensures (forall ram: Ram :: BytesFrom(ram, Aligned(a), n) == BytesFrom(ram, a, n)) <==> a % 4 == 0 || n == 0
  {
    if a % 4 == 0 || n == 0 {
      assert forall ram: Ram :: BytesFrom(ram, Aligned(a), n) == BytesFrom(ram, a, n);
    } else {
      var counting: Ram := (i: nat) => 0x03020100;
      assert BytesFrom(counting, a, n)[0] == ByteAt(counting, a) == a % 4;
      assert BytesFrom(counting, Aligned(a), n)[0] == ByteAt(counting, Aligned(a)) == 0;
    }
  }

  /** Of a memory that holds 0, 1, 2, 3, the byte at 1 is asked for and the byte at 0 is written. */
  lemma WrongByte(ram: Ram)
    requires ram(0) == 0x03020100
    ensures BytesFrom(ram, 1, 1) == [1] && BytesFrom(ram, Aligned(1), 1) == [0]
  {
    assert ByteAt(ram, 1) == 1 && ByteAt(ram, 0) == 0;
  }

  /** Window `w` is in some slot. */
  ghost predicate Held(bases: seq<nat>, mems: seq<nat>, w: nat)
    requires |bases| == |mems| == 8
  {
    exists i :: 0 <= i < 8 && bases[i] != 1 && mems[i] == w
  }

  /** Every slot is free, or holds a window of its own mapped where it says; and no window exists but
      in a slot.  Slot `k` may still name a window that is gone. */
  ghost predicate LooseSlots(windows: map<nat, nat>, bases: seq<nat>, mems: seq<nat>, k: int)
    requires |bases| == |mems| == 8
  {
    && 0 !in windows
    && (forall i :: 0 <= i < 8 ==>
          if bases[i] == 1 then i == k || mems[i] == 0
          else bases[i] % HALF == 0 && mems[i] in windows && windows[mems[i]] == bases[i])
    && (forall i, j :: 0 <= i < 8 && 0 <= j < 8 && i != j && bases[i] != 1 && bases[j] != 1 ==> mems[i] != mems[j])
    && (forall w :: w in windows ==> Held(bases, mems, w))
  }

  /** What a slot says of itself. */
  lemma SlotSays(windows: map<nat, nat>, bases: seq<nat>, mems: seq<nat>, i: nat)
    requires |bases| == |mems| == 8 && i < 8 && LooseSlots(windows, bases, mems, -1)
    ensures if bases[i] == 1 then mems[i] == 0
            else bases[i] % HALF == 0 && mems[i] != 0 && mems[i] in windows && windows[mems[i]] == bases[i]
  {
  }

  lemma FrontSays(windows: map<nat, nat>, bases: seq<nat>, mems: seq<nat>)
    requires |bases| == |mems| == 8 && LooseSlots(windows, bases, mems, 0)
    ensures bases[0] == 1 || mems[0] != 0
  {
  }

  lemma LoosenSlot(windows: map<nat, nat>, bases: seq<nat>, mems: seq<nat>, k: nat)
    requires |bases| == |mems| == 8 && LooseSlots(windows, bases, mems, -1)
    ensures LooseSlots(windows, bases, mems, k)
  {
  }

  /** A loose slot that is not free is in order. */
  lemma LooseIsValid(windows: map<nat, nat>, bases: seq<nat>, mems: seq<nat>)
    requires |bases| == |mems| == 8 && bases[0] != 1 && LooseSlots(windows, bases, mems, 0)
    ensures LooseSlots(windows, bases, mems, -1)
  {
  }

  /** A new window in the free front slot. */
  lemma FilledLoose(windows: map<nat, nat>, bases: seq<nat>, mems: seq<nat>, base: nat, handle: nat)
    requires |bases| == |mems| == 8 && bases[0] == 1 && LooseSlots(windows, bases, mems, 0)
    requires base % HALF == 0 && handle != 0 && handle !in windows
    ensures LooseSlots(windows[handle := base], bases[0 := base], mems[0 := handle], -1)
  {
    var windows', bases', mems' := windows[handle := base], bases[0 := base], mems[0 := handle];
    forall w | w in windows' ensures Held(bases', mems', w) {
      if w == handle {
        assert bases'[0] != 1 && mems'[0] == w;
      } else {
        var i :| 0 <= i < 8 && bases[i] != 1 && mems[i] == w;
        assert bases'[i] != 1 && mems'[i] == w;
      }
    }
  }

  /** The free front slot made to name no window. */
  lemma EmptiedLoose(windows: map<nat, nat>, bases: seq<nat>, mems: seq<nat>)
    requires |bases| == |mems| == 8 && bases[0] == 1 && LooseSlots(windows, bases, mems, 0)
    ensures LooseSlots(windows, bases, mems[0 := 0], -1)
  {
    hide Held;
    var mems' := mems[0 := 0];
    forall w | w in windows ensures Held(bases, mems', w) {
      StillHeld(bases, mems, mems', w);
    }
  }

  lemma StillHeld(bases: seq<nat>, mems: seq<nat>, mems': seq<nat>, w: nat)
    requires |bases| == |mems| == |mems'| == 8 && Held(bases, mems, w)
    requires forall i :: 0 <= i < 8 && bases[i] != 1 ==> mems'[i] == mems[i]
    ensures Held(bases, mems', w)
  {
    var i :| 0 <= i < 8 && bases[i] != 1 && mems[i] == w;
    assert bases[i] != 1 && mems'[i] == w;
  }

  /** A slot freed, with its window. */
  lemma FreedLoose(windows: map<nat, nat>, bases: seq<nat>, mems: seq<nat>, i: nat)
    requires |bases| == |mems| == 8 && i < 8 && bases[i] != 1 && LooseSlots(windows, bases, mems, -1)
    ensures LooseSlots(windows - {mems[i]}, bases[i := 1], mems[i := 0], -1)
  {
    var windows', bases', mems' := windows - {mems[i]}, bases[i := 1], mems[i := 0];
    forall w | w in windows' ensures Held(bases', mems', w) {
      var k :| 0 <= k < 8 && bases[k] != 1 && mems[k] == w;
      assert k != i && bases'[k] != 1 && mems'[k] == w;
    }
  }

  lemma AllFreed(windows: map<nat, nat>, bases: seq<nat>, mems: seq<nat>)
    requires |bases| == |mems| == 8 && LooseSlots(windows, bases, mems, -1)
    requires forall k :: 0 <= k < 8 ==> bases[k] == 1
    ensures windows == map[]
  {
    assert forall w :: w !in windows;
  }

  ghost predicate PackedSlots(bases: seq<nat>) {
    && (forall i, j :: 0 <= i < j < |bases| && bases[i] == 1 ==> bases[j] == 1)
    && (forall i, j :: 0 <= i < j < |bases| && bases[i] != 1 ==> bases[i] != bases[j])
  }

  /** The bases up to the first free slot. */
  function UsedOf(bases: seq<nat>): (l: seq<nat>)
    ensures |l| <= |bases| && forall i :: 0 <= i < |l| ==> l[i] == bases[i] != 1
    ensures |l| < |bases| ==> bases[|l|] == 1
  {
    if bases == [] || bases[0] == 1 then [] else [bases[0]] + UsedOf(bases[1..])
  }

  /** The slots after memPhysMap found slot `found` (-1 for none) for `base` and mapped it. */
  function Remapped(bases: seq<nat>, found: int, base: nat): (r: seq<nat>)
    requires |bases| == 8 && -1 <= found < 8
    ensures |r| == 8
  {
    (if found == -1 then Fronted(bases[7 := 1], 7) else Fronted(bases, found))[0 := base]
  }

  lemma RemappedIs(bases: seq<nat>, found: int, base: nat, moved: seq<nat>)
    requires |bases| == 8 && -1 <= found < 8
    requires moved == if found == -1 then Fronted(bases[7 := 1], 7) else Fronted(bases, found)
    ensures Remapped(bases, found, base) == moved[0 := base]
  {
  }

  lemma {:induction false} UsedIs(bases: seq<nat>, l: seq<nat>)
    requires |l| <= |bases| && (forall i :: 0 <= i < |l| ==> l[i] == bases[i] && l[i] != 1)
    requires |l| < |bases| ==> bases[|l|] == 1
    ensures UsedOf(bases) == l
  {
    if l != [] {
      UsedIs(bases[1..], l[1..]);
    }
  }

  lemma RemappedAt(bases: seq<nat>, found: int, base: nat, j: nat)
    requires |bases| == 8 && -1 <= found < 8 && j < 8
    ensures Remapped(bases, found, base)[j] ==
            if j == 0 then base else bases[CameFrom(if found == -1 then 7 else found, j)]
  {
    FrontedAt(bases[7 := 1], 7, j);
    FrontedAt(bases, if found == -1 then 7 else found, j);
  }

  /** `base` was in slot `k`. */
  lemma TouchHit(bases: seq<nat>, k: nat, base: nat)
    requires |bases| == 8 && k < 8 && base != 1 && PackedSlots(bases) && bases[k] == base
    ensures UsedOf(Remapped(bases, k, base)) == Touch(UsedOf(bases), base, 8)
  {
    var l := UsedOf(bases);
    assert k < |l| && Distinct(l);
    WithoutAt(l, k);
    var want := [base] + (l[..k] + l[k + 1..]);
    assert |want| == |l| && Take(want, 8) == want;
    var r := Remapped(bases, k, base);
    forall j: nat | j < |want| ensures r[j] == want[j] && want[j] != 1 {
      RemappedAt(bases, k, base, j);
      WantAt(l, k, base, j);
    }
    if |want| < 8 {
      RemappedAt(bases, k, base, |want|);
    }
    UsedIs(r, want);
  }

  lemma WantAt(l: seq<nat>, k: nat, base: nat, j: nat)
    requires k < |l| && j < |l|
    ensures ([base] + (l[..k] + l[k + 1..]))[j] == if j == 0 then base else l[CameFrom(k, j)]
  {
  }

  /** `base` was nowhere and slot `k` was the first free one, or the last slot was freed for it. */
  lemma TouchMiss(bases: seq<nat>, found: int, base: nat)
    requires |bases| == 8 && -1 <= found < 8 && base != 1 && PackedSlots(bases)
    requires found >= 0 ==> bases[found] == 1
    requires forall i :: 0 <= i < (if found == -1 then 8 else found) ==> bases[i] != 1 && bases[i] != base
    ensures UsedOf(Remapped(bases, found, base)) == Touch(UsedOf(bases), base, 8)
  {
    hide Remapped, Fronted, UsedOf, Touch, Without, CameFrom, Take;
    var m, k := if found == -1 then 8 else found, if found == -1 then 7 else found;
    var l, r := bases[..m], Remapped(bases, found, base);
    UsedIs(bases, l);
    assert base !in l;
    var want := TouchedMiss(l, base);
    forall j: nat | j < |want| ensures r[j] == want[j] && want[j] != 1 {
      RemappedAt(bases, found, base, j);
      CameFromIs(k, j);
    }
    if |want| < 8 {
      RemappedAt(bases, found, base, |want|);
      CameFromIs(k, |want|);
    }
    UsedIs(r, want);
  }

  lemma CameFromIs(slot: nat, j: nat)
    ensures CameFrom(slot, j) == if j == 0 then slot else if j <= slot then j - 1 else j
  {
  }

  /** Touching a list with something that is not in it. */
  lemma TouchedMiss(l: seq<nat>, base: nat) returns (want: seq<nat>)
    requires |l| <= 8 && base !in l
    ensures want == Touch(l, base, 8) && |want| == if |l| == 8 then 8 else |l| + 1
    ensures forall j :: 0 <= j < |want| ==> want[j] == if j == 0 then base else l[j - 1]
  {
    want := Take([base] + l, 8);
  }

  lemma RemappedPacked(bases: seq<nat>, found: int, base: nat)
    requires |bases| == 8 && -1 <= found < 8 && base != 1 && PackedSlots(bases)
    requires found >= 0 ==> bases[found] == 1 || bases[found] == base
    requires forall i :: 0 <= i < (if found == -1 then 8 else found) ==> bases[i] != 1 && bases[i] != base
    ensures PackedSlots(Remapped(bases, found, base))
  {
    hide Remapped, CameFrom;
    var r: seq<nat>, slot: nat := Remapped(bases, found, base), if found == -1 then 7 else found;
    forall j: nat | j < 8 ensures r[j] == if j == 0 then base else if j <= slot then bases[j - 1] else bases[j] {
      RemappedAt(bases, found, base, j);
      CameFromIs(slot, j);
    }
    FrontPacked(bases, r, slot, base);
  }

  lemma FrontPacked(bases: seq<nat>, r: seq<nat>, slot: nat, base: nat)
    requires |bases| == |r| == 8 && slot < 8 && base != 1 && PackedSlots(bases)
    requires forall j: nat {:trigger r[j]} ::
               j < 8 ==> r[j] == if j == 0 then base else if j <= slot then bases[j - 1] else bases[j]
    requires forall i :: 0 <= i < slot ==> bases[i] != 1 && bases[i] != base
    requires forall j :: slot < j < 8 ==> bases[j] != base
    ensures PackedSlots(r)
  {
    forall i: nat, j: nat | i < j < 8 ensures (r[i] == 1 ==> r[j] == 1) && (r[i] != 1 ==> r[i] != r[j]) {
      if i != 0 {
        assert r[i] == if i <= slot then bases[i - 1] else bases[i];
        assert r[j] == if j <= slot then bases[j - 1] else bases[j];
      }
    }
  }

  /** While no mapping has failed, memPhysMap moves the base to the front of the list. */
  lemma RemappedIsTouch(bases: seq<nat>, found: int, base: nat)
    requires |bases| == 8 && -1 <= found < 8 && base != 1 && PackedSlots(bases)
    requires found >= 0 ==> bases[found] == 1 || bases[found] == base
    requires forall i :: 0 <= i < (if found == -1 then 8 else found) ==> bases[i] != 1 && bases[i] != base
    ensures PackedSlots(Remapped(bases, found, base))
    ensures UsedOf(Remapped(bases, found, base)) == Touch(UsedOf(bases), base, 8)
  {
    RemappedPacked(bases, found, base);
    if found >= 0 && bases[found] == base {
      TouchHit(bases, found, base);
    } else {
      TouchMiss(bases, found, base);
    }
  }

  /** Where the element at `j` came from when `slot` moved to the front. */
  function CameFrom(slot: nat, j: nat): nat {
    if j == 0 then slot else if j <= slot then j - 1 else j
  }

  lemma FrontedAt(l: seq<nat>, slot: nat, j: nat)
    requires slot < |l| && j < |l|
    ensures Fronted(l, slot)[j] == l[CameFrom(slot, j)]
  {
  }

  /** The condition on the slots is a matter of their contents, not of their order. */
  lemma FrontedKeepsLoose(windows: map<nat, nat>, bases: seq<nat>, mems: seq<nat>, slot: nat)
    requires |bases| == |mems| == 8 && slot < 8 && LooseSlots(windows, bases, mems, slot)
    ensures LooseSlots(windows, Fronted(bases, slot), Fronted(mems, slot), 0)
  {
    var bases', mems' := Fronted(bases, slot), Fronted(mems, slot);
    forall j: nat | j < 8
      ensures bases'[j] == bases[CameFrom(slot, j)] && mems'[j] == mems[CameFrom(slot, j)]
    {
      FrontedAt(bases, slot, j);
      FrontedAt(mems, slot, j);
    }
    hide Fronted, Held;
    forall w | w in windows ensures Held(bases', mems', w) {
      HeldElsewhere(bases, mems, slot, bases', mems', w);
    }
  }

  lemma HeldElsewhere(bases: seq<nat>, mems: seq<nat>, slot: nat, bases': seq<nat>, mems': seq<nat>, w: nat)
    requires |bases| == |mems| == |bases'| == |mems'| == 8 && slot < 8 && Held(bases, mems, w)
    requires forall j: nat :: j < 8 ==> bases'[j] == bases[CameFrom(slot, j)] && mems'[j] == mems[CameFrom(slot, j)]
    ensures Held(bases', mems', w)
  {
    var i :| 0 <= i < 8 && bases[i] != 1 && mems[i] == w;
    var j := if i < slot then i + 1 else if i == slot then 0 else i;
    assert CameFrom(slot, j) == i;
    assert bases'[j] != 1 && mems'[j] == w;
  }

  /** `l` with element `slot` moved to the front. */
  function Fronted(l: seq<nat>, slot: nat): (r: seq<nat>)
    requires slot < |l|
    ensures |r| == |l|
  {
    [l[slot]] + l[..slot] + l[slot + 1..]
  }

  lemma FrontedFirst(l: seq<nat>)
    requires 0 < |l|
    ensures Fronted(l, 0) == l
  {
  }

  method ToFront(a: array<nat>, slot: nat)
    requires slot < a.Length
    modifies a
    ensures a[..] == Fronted(old(a[..]), slot)
  {
    var tmp := a[slot];
    forall i | 1 <= i <= slot {
      a[i] := a[i - 1];
    }
    a[0] := tmp;
  }
}
