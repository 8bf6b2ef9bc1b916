/**
 The Unibus map and DMA through it. Thirty-two pages of 8 KB of the 18-bit
 Unibus space are relocated to 22-bit physical addresses; block transfers move
 whole page runs at a time and are specified by the byte transfers.
 */
module UnibusMap {
  import opened Words

  const PAGE := 0x2000
  const ENTRIES := 32
  const UNIBUS_SPACE := 0x4_0000
  const PHYSICAL_SPACE := 0x40_0000
  const IO_PAGE := 0x3F_E000

  /** The map registers and whether memory management enables them. */
  datatype Relocation = Relocation(entries: seq<dword>, enabled: bool)

  ghost predicate WellFormed(r: Relocation) {
    |r.entries| == ENTRIES && forall e :: 0 <= e < ENTRIES ==> r.entries[e] < PHYSICAL_SPACE && r.entries[e] % 2 == 0
  }

  /** An 18-bit address always falls in one of the 32 pages, so the source's test for a later page never holds. */
  function Translate(r: Relocation, a: dword): dword
    requires |r.entries| == ENTRIES
  {
    var address := a % UNIBUS_SPACE;
    var entry, offset := address / PAGE, address % PAGE;
    if !r.enabled then address
    else if entry == ENTRIES - 1 then IO_PAGE + offset
    else (r.entries[entry] + offset) % PHYSICAL_SPACE
  }

  /** The address `i` bytes on, in a 32-bit register. */
  function At(a: dword, i: nat): dword {
    (a + i) % DWORD_MOD
  }

  // ----- where a byte lands -----

  /**
   The cell of a Unibus byte, told by page: with the map on, the page's base plus the
   offset around 22 bits, but the last page in the I/O page; with it off, the 18-bit
   address itself, the last page included.
   */
  ghost predicate Lands(entries: seq<dword>, enabled: bool, a: dword, cell: nat)
    requires |entries| == ENTRIES
  {
    var page, offset := a / PAGE % ENTRIES, a % PAGE;
    if !enabled then cell == PAGE * page + offset
    else if page == 31 then cell == PHYSICAL_SPACE - PAGE + offset
    else cell < PHYSICAL_SPACE && (entries[page] + offset - cell) % PHYSICAL_SPACE == 0
  }

  lemma PageAndOffset(a: dword)
    ensures a % UNIBUS_SPACE / PAGE == a / PAGE % ENTRIES && a % UNIBUS_SPACE % PAGE == a % PAGE
    ensures a % UNIBUS_SPACE == PAGE * (a / PAGE % ENTRIES) + a % PAGE
  {
    var q, o := a / PAGE, a % PAGE;
    DivMod(a, PAGE);
    DivMod(q, ENTRIES);
    assert a == UNIBUS_SPACE * (q / ENTRIES) + (PAGE * (q % ENTRIES) + o);
    DivUnique(a, UNIBUS_SPACE, q / ENTRIES, PAGE * (q % ENTRIES) + o);
    DivUnique(a % UNIBUS_SPACE, PAGE, q % ENTRIES, o);
  }

  lemma LandsAtTranslation(r: Relocation, a: dword, cell: nat)
    requires |r.entries| == ENTRIES
    ensures Lands(r.entries, r.enabled, a, cell) <==> cell == Translate(r, a)
  {
    PageAndOffset(a);
    var page := a / PAGE % ENTRIES;
    if r.enabled && page < 31 {
      SameResidue(r.entries[page] + a % PAGE, cell);
    }
  }

  lemma SameResidue(x: nat, cell: nat)
    ensures cell < PHYSICAL_SPACE && (x - cell) % PHYSICAL_SPACE == 0 <==> cell == x % PHYSICAL_SPACE
  {
    if cell < PHYSICAL_SPACE && (x - cell) % PHYSICAL_SPACE == 0 {
      FloorUnique(x, PHYSICAL_SPACE, (x - cell) / PHYSICAL_SPACE, cell);
    }
    if cell == x % PHYSICAL_SPACE {
      FloorUnique(x - cell, PHYSICAL_SPACE, x / PHYSICAL_SPACE, 0);
    }
  }

  /** Two pages with one base: a byte written through one is read through the other exactly when the map is on. */
  lemma SharedBase(r: Relocation, memory: seq<byte>, p: nat, q: nat, offset: nat, v: byte)
    requires |r.entries| == ENTRIES && p < 31 && q < 31 && p != q && offset < PAGE
    requires r.entries[p] == r.entries[q] && (r.entries[p] + offset) % PHYSICAL_SPACE < |memory|
    requires PAGE * q + offset < |memory| && memory[PAGE * q + offset] != v
    ensures Fetch(Put(memory, Translate(r, PAGE * p + offset), v), Translate(r, PAGE * q + offset)) == v <==> r.enabled
  {
    BelowLastPage(r, p, offset);
    BelowLastPage(r, q, offset);
  }

  lemma BelowLastPage(r: Relocation, page: nat, offset: nat)
    requires |r.entries| == ENTRIES && page < 31 && offset < PAGE
    ensures Translate(r, PAGE * page + offset) ==
            if r.enabled then (r.entries[page] + offset) % PHYSICAL_SPACE else PAGE * page + offset
  {
    DivUnique(PAGE * page + offset, PAGE, page, offset);
  }

  // ----- byte transfers along a list of physical addresses -----

  /** The physical addresses of `n` consecutive Unibus bytes. */
  ghost function Addresses(r: Relocation, a: dword, n: nat): (pas: seq<nat>)
    requires |r.entries| == ENTRIES
    ensures |pas| == n
  {
    if n == 0 then [] else Addresses(r, a, n - 1) + [Translate(r, At(a, n - 1))]
  }

  lemma {:induction false} AddressAt(r: Relocation, a: dword, n: nat, i: nat)
    requires |r.entries| == ENTRIES && i < n
    ensures Addresses(r, a, n)[i] == Translate(r, At(a, i))
    ensures Lands(r.entries, r.enabled, At(a, i), Addresses(r, a, n)[i])
    decreases n
  {
    LandsAtTranslation(r, At(a, i), Translate(r, At(a, i)));
    if i < n - 1 {
      AddressAt(r, a, n - 1, i);
    }
  }

  function Fetch(memory: seq<byte>, pa: nat): byte {
    if pa < |memory| then memory[pa] else 0
  }

  /** The first `k` bytes of a buffer are what byte reads at those addresses return. */
  ghost predicate Fetched(target: seq<byte>, memory: seq<byte>, pas: seq<nat>, k: nat) {
    k <= |target| && k <= |pas| && forall i :: 0 <= i < k ==> target[i] == Fetch(memory, pas[i])
  }

  function Put(memory: seq<byte>, pa: nat, v: byte): (m: seq<byte>)
    ensures |m| == |memory|
  {
    if pa < |memory| then memory[pa := v] else memory
  }

  /** Memory after the first `k` of a series of byte writes. */
  ghost function Puts(memory: seq<byte>, pas: seq<nat>, source: seq<byte>, k: nat): (m: seq<byte>)
    requires k <= |pas| && k <= |source|
    ensures |m| == |memory|
    decreases k
  {
    if k == 0 then memory else Put(Puts(memory, pas, source, k - 1), pas[k - 1], source[k - 1])
  }

  /** A byte stored where there is memory, and nowhere else. */
  ghost predicate ByteStored(before: seq<byte>, after: seq<byte>, cell: nat, v: byte) {
    && |after| == |before| && (cell < |after| ==> after[cell] == v)
    && forall i :: 0 <= i < |after| && i != cell ==> after[i] == before[i]
  }

  /** A cell holds the last byte written to it, or what it held. */
  lemma {:induction false} LastWriteStays(memory: seq<byte>, pas: seq<nat>, source: seq<byte>, k: nat,
                                          cell: nat, i: int)
    requires k <= |pas| && k <= |source| && cell < |memory| && -1 <= i < k && (i >= 0 ==> pas[i] == cell)
    requires forall j :: i < j < k ==> pas[j] != cell
    ensures Puts(memory, pas, source, k)[cell] == if i < 0 then memory[cell] else source[i]
    decreases k
  {
    if i < k - 1 {
      LastWriteStays(memory, pas, source, k - 1, cell, i);
    }
  }

  /** The longest prefix of the addresses, known to hold up to `from`, that lies inside memory. */
  ghost function Reach(pas: seq<nat>, size: nat, from: nat): (k: nat)
    requires from <= |pas|
    ensures from <= k <= |pas|
    decreases |pas| - from
  {
    if from == |pas| || pas[from] >= size then from else Reach(pas, size, from + 1)
  }

  lemma {:induction false} ReachIsLongestPrefix(pas: seq<nat>, size: nat, from: nat)
    requires from <= |pas|
    ensures var k := Reach(pas, size, from);
            (forall i :: from <= i < k ==> pas[i] < size) && (k < |pas| ==> pas[k] >= size)
    decreases |pas| - from
  {
    if from < |pas| && pas[from] < size {
      ReachIsLongestPrefix(pas, size, from + 1);
    }
  }

  /** Addresses that stay consecutive in memory. */
  ghost predicate Run(pas: seq<nat>, size: nat, from: nat, n: nat)
    requires from + n <= |pas|
  {
    n > 0 ==> pas[from] + n <= size && forall i :: from <= i < from + n ==> pas[i] == pas[from] + (i - from)
  }

  lemma {:induction false} ReachRun(pas: seq<nat>, size: nat, from: nat, n: nat)
    requires from + n <= |pas| && Run(pas, size, from, n)
    ensures Reach(pas, size, from) == Reach(pas, size, from + n)
    decreases n
  {
    if n > 0 {
      if n > 1 {
        assert pas[from + 1] == pas[from] + 1;
      }
      ReachRun(pas, size, from + 1, n - 1);
    }
  }

  /** `memory` with the `n` bytes of `source` from `k` on copied to `pa`. */
  ghost function Patched(memory: seq<byte>, pa: nat, source: seq<byte>, k: nat, n: nat): (m: seq<byte>)
    requires pa + n <= |memory| && k + n <= |source|
    ensures |m| == |memory|
  {
    seq(|memory|, i requires 0 <= i < |memory| => if pa <= i < pa + n then source[k + (i - pa)] else memory[i])
  }

  /** Byte reads along a run are one block copy. */
  lemma FetchRun(target: seq<byte>, memory: seq<byte>, pas: seq<nat>, k: nat, n: nat)
    requires k + n <= |target| && Fetched(target, memory, pas, k)
    requires k + n <= |pas| && n > 0 && Run(pas, |memory|, k, n)
    ensures var t := Patched(target, k, memory, pas[k], n);
            Fetched(t, memory, pas, k + n) && t[k + n..] == target[k + n..]
  {
    var t := Patched(target, k, memory, pas[k], n);
    forall i | 0 <= i < k + n
      ensures t[i] == Fetch(memory, pas[i])
    {
      if i >= k {
        assert pas[i] == pas[k] + (i - k);
      }
    }
  }

  /** Byte writes along a run are one block copy. */
  lemma {:induction false} PutsRun(memory: seq<byte>, pas: seq<nat>, source: seq<byte>, k: nat, n: nat)
    requires k + n <= |pas| && k + n <= |source| && n > 0 && Run(pas, |memory|, k, n)
    ensures Puts(memory, pas, source, k + n) == Patched(Puts(memory, pas, source, k), pas[k], source, k, n)
    decreases n
  {
    var m, pa := Puts(memory, pas, source, k), pas[k];
    if n > 1 {
      PutsRun(memory, pas, source, k, n - 1);
    } else {
      assert Patched(m, pa, source, k, 0) == m;
    }
    assert pas[k + n - 1] == pa + (n - 1);
    PatchOneMore(m, pa, source, k, n - 1);
  }

  lemma PatchOneMore(m: seq<byte>, pa: nat, source: seq<byte>, k: nat, n: nat)
    requires k + n < |source| && pa + n < |m|
    ensures Put(Patched(m, pa, source, k, n), pa + n, source[k + n]) == Patched(m, pa, source, k, n + 1)
  {
  }

  lemma AtAt(a: dword, i: nat, j: nat)
    ensures At(At(a, i), j) == At(a, i + j)
  {
    var q := (a + i) / DWORD_MOD;
    FloorUnique(At(a, i) + j, DWORD_MOD, (a + i + j) / DWORD_MOD - q, At(a, i + j));
  }

  // ----- transfers by page -----

  /** The `i`-th byte of a transfer lands in a cell. */
  ghost predicate ByteLands(entries: seq<dword>, enabled: bool, start: dword, i: nat, cell: nat)
    requires |entries| == ENTRIES
  {
    Lands(entries, enabled, At(start, i), cell)
  }

  /** A transfer stops at the first byte that lands outside memory, with the map on at the last page. */
  ghost predicate Stops(r: Relocation, size: nat, start: dword, n: nat, done: nat)
    requires |r.entries| == ENTRIES
  {
    && done <= n
    && (forall i: nat, cell: nat :: i < done && ByteLands(r.entries, r.enabled, start, i, cell) ==> cell < size)
    && (forall cell: nat :: done < n && ByteLands(r.entries, r.enabled, start, done, cell) ==> cell >= size)
    && (r.enabled && size <= PHYSICAL_SPACE - PAGE ==> forall i: nat :: i < done ==> At(start, i) / PAGE % ENTRIES < 31)
  }

  lemma TransferStops(r: Relocation, size: nat, start: dword, n: nat)
    requires |r.entries| == ENTRIES
    ensures Stops(r, size, start, n, Reach(Addresses(r, start, n), size, 0))
  {
    var pas := Addresses(r, start, n);
    var done := Reach(pas, size, 0);
    ReachIsLongestPrefix(pas, size, 0);
    forall i: nat, cell: nat | i <= done && i < n && ByteLands(r.entries, r.enabled, start, i, cell)
      ensures cell == pas[i]
    {
      AddressAt(r, start, n, i);
      LandsAtTranslation(r, At(start, i), cell);
    }
    forall i: nat | i < done && r.enabled && size <= PHYSICAL_SPACE - PAGE ensures At(start, i) / PAGE % ENTRIES < 31 {
      AddressAt(r, start, n, i);
    }
  }

  /** Memory after a transfer of `done` bytes into it: each cell holds the last byte that landed there. */
  ghost predicate Deposited(r: Relocation, before: seq<byte>, after: seq<byte>, start: dword, source: seq<byte>,
                            done: nat)
    requires |r.entries| == ENTRIES && done <= |source|
  {
    && |after| == |before|
    && (forall cell: nat, i: nat ::
          cell < |after| && i < done && ByteLands(r.entries, r.enabled, start, i, cell)
          && (forall j: nat :: i < j < done ==> !ByteLands(r.entries, r.enabled, start, j, cell)) ==>
            after[cell] == source[i])
    && (forall cell: nat :: cell < |after| && after[cell] != before[cell] ==>
          exists i: nat :: i < done && ByteLands(r.entries, r.enabled, start, i, cell))
  }

  lemma PutsDeposit(r: Relocation, memory: seq<byte>, start: dword, source: seq<byte>, done: nat)
    requires |r.entries| == ENTRIES && done <= |source|
    ensures Deposited(r, memory, Puts(memory, Addresses(r, start, |source|), source, done), start, source, done)
  {
    var pas := Addresses(r, start, |source|);
    var after := Puts(memory, pas, source, done);
    forall i: nat, cell: nat | i < done ensures ByteLands(r.entries, r.enabled, start, i, cell) <==> pas[i] == cell {
      AddressAt(r, start, |source|, i);
      LandsAtTranslation(r, At(start, i), cell);
    }
    forall cell: nat, i: nat | cell < |after| && i < done && ByteLands(r.entries, r.enabled, start, i, cell)
                               && forall j: nat :: i < j < done ==> !ByteLands(r.entries, r.enabled, start, j, cell)
      ensures after[cell] == source[i]
    {
      forall j: nat | i < j < done ensures pas[j] != cell {
        assert !ByteLands(r.entries, r.enabled, start, j, cell);
      }
      LastWriteStays(memory, pas, source, done, cell, i);
    }
    forall cell: nat | cell < |after| && after[cell] != memory[cell]
      ensures exists i: nat :: i < done && ByteLands(r.entries, r.enabled, start, i, cell)
    {
      if forall i: nat :: i < done ==> !ByteLands(r.entries, r.enabled, start, i, cell) {
        forall j: nat | j < done ensures pas[j] != cell {
          assert !ByteLands(r.entries, r.enabled, start, j, cell);
        }
        LastWriteStays(memory, pas, source, done, cell, -1);
      }
    }
  }

  lemma FetchedLands(r: Relocation, memory: seq<byte>, start: dword, n: nat, target: seq<byte>, done: nat)
    requires |r.entries| == ENTRIES && done <= n && Fetched(target, memory, Addresses(r, start, n), done)
    ensures forall i: nat, cell: nat ::
              i < done && cell < |memory| && ByteLands(r.entries, r.enabled, start, i, cell) ==>
                target[i] == memory[cell]
  {
    forall i: nat, cell: nat | i < done && cell < |memory| && ByteLands(r.entries, r.enabled, start, i, cell)
      ensures target[i] == memory[cell]
    {
      AddressAt(r, start, n, i);
      LandsAtTranslation(r, At(start, i), cell);
    }
  }

  // ----- page runs -----

  /** Inside a page and below the end of memory, consecutive Unibus addresses are consecutive in memory. */
  lemma PageRun(r: Relocation, size: nat, a: dword, i: nat)
    requires |r.entries| == ENTRIES && size <= PHYSICAL_SPACE
    requires i < PAGE - a % PAGE && Translate(r, a) + i < size
    ensures Translate(r, At(a, i)) == Translate(r, a) + i
  {
    SameSpace(a, i);
    PageOfSpace(a);
    SamePage(a % UNIBUS_SPACE, i);
    if r.enabled && a % UNIBUS_SPACE / PAGE < ENTRIES - 1 {
      NoWrap(r.entries[a % UNIBUS_SPACE / PAGE] + a % UNIBUS_SPACE % PAGE, i);
    }
  }

  lemma NoWrap(base: nat, i: nat)
    requires base % PHYSICAL_SPACE + i < PHYSICAL_SPACE
    ensures (base + i) % PHYSICAL_SPACE == base % PHYSICAL_SPACE + i
  {
    FloorUnique(base + i, PHYSICAL_SPACE, base / PHYSICAL_SPACE, base % PHYSICAL_SPACE + i);
  }

  lemma PageOfSpace(a: dword)
    ensures a % UNIBUS_SPACE % PAGE == a % PAGE
  {
    var q := a / UNIBUS_SPACE;
    assert a % UNIBUS_SPACE == a + PAGE * (-32 * q);
    DivShift(a, PAGE, -32 * q);
  }

  lemma SamePage(address: nat, i: nat)
    requires i < PAGE - address % PAGE
    ensures (address + i) / PAGE == address / PAGE && (address + i) % PAGE == address % PAGE + i
  {
    FloorUnique(address + i, PAGE, address / PAGE, address % PAGE + i);
  }

  lemma SameSpace(a: dword, i: nat)
    requires i < PAGE - a % PAGE
    ensures At(a, i) % UNIBUS_SPACE == a % UNIBUS_SPACE + i
  {
    PageOfSpace(a);
    var space, q := a % UNIBUS_SPACE, a / UNIBUS_SPACE;
    var page := space / PAGE;
    assert space + i < UNIBUS_SPACE by {
      assert space == PAGE * page + space % PAGE;
      assert page <= 31;
    }
    var w := (a + i) / DWORD_MOD;
    assert At(a, i) == space + i + UNIBUS_SPACE * (q - 0x4000 * w);
    FloorUnique(At(a, i), UNIBUS_SPACE, q - 0x4000 * w, space + i);
  }

  lemma PageIsRun(r: Relocation, size: nat, start: dword, pas: seq<nat>, from: nat, n: nat)
    requires |r.entries| == ENTRIES && size <= PHYSICAL_SPACE && from + n <= |pas| && n > 0
    requires pas == Addresses(r, start, |pas|)
    requires n <= PAGE - At(start, from) % PAGE && Translate(r, At(start, from)) + n <= size
    ensures Run(pas, size, from, n)
  {
    var a := At(start, from);
    forall i | from <= i < from + n
      ensures pas[i] == pas[from] + (i - from)
    {
      AtAt(start, from, i - from);
      AddressAt(r, start, |pas|, i);
      AddressAt(r, start, |pas|, from);
      PageRun(r, size, a, i - from);
    }
    AddressAt(r, start, |pas|, from);
  }

  // ----- map registers -----

  /** The two words a map entry is read as: bits 15-1, and bits 21-16. */
  function HalfOf(entry: dword, high: bool): word {
    if high then entry / WORD_MOD % 0x40 else entry % WORD_MOD / 2 * 2
  }

  /** The bits of a written word that its half of an entry keeps. */
  function Kept(value: word, high: bool): word {
    if high then value % 0x40 else value / 2 * 2
  }

  function WithByte(w: word, odd: bool, v: byte): word {
    if odd then w % 0x100 + v * 0x100 else w / 0x100 * 0x100 + v
  }

  /** The stored entry: a half replaced, then masked to an even 22-bit address. */
  function Stored(entry: dword, high: bool, value: word): dword {
    var raw := if high then entry % WORD_MOD + value * WORD_MOD else entry / WORD_MOD * WORD_MOD + value;
    raw % PHYSICAL_SPACE / 2 * 2
  }

  lemma StoredHalves(entry: dword, high: bool, value: word)
    requires entry < PHYSICAL_SPACE && entry % 2 == 0
    ensures var s: nat := Stored(entry, high, value);
            && s < PHYSICAL_SPACE && s % 2 == 0
            && HalfOf(s, high) == Kept(value, high)
            && HalfOf(s, !high) == HalfOf(entry, !high)
  {
    var h, l := entry / WORD_MOD, entry % WORD_MOD;
    Halves(h, l);
    if high {
      StoredHigh(h, l, value);
    } else {
      StoredLow(h, l, value);
    }
  }

  lemma StoredHigh(h: nat, l: word, value: word)
    requires h < 0x40 && l % 2 == 0
    ensures (l + value * WORD_MOD) % PHYSICAL_SPACE / 2 * 2 == value % 0x40 * WORD_MOD + l
    ensures var s := value % 0x40 * WORD_MOD + l;
            s < PHYSICAL_SPACE && s % 2 == 0 && HalfOf(s, true) == value % 0x40 && HalfOf(s, false) == l
  {
    FloorUnique(l + value * WORD_MOD, PHYSICAL_SPACE, value / 0x40, value % 0x40 * WORD_MOD + l);
    Halves(value % 0x40, l);
  }

  lemma StoredLow(h: nat, l: word, value: word)
    requires h < 0x40
    ensures (h * WORD_MOD + value) % PHYSICAL_SPACE / 2 * 2 == h * WORD_MOD + value / 2 * 2
    ensures var s := h * WORD_MOD + value / 2 * 2;
            s < PHYSICAL_SPACE && s % 2 == 0 && HalfOf(s, true) == h && HalfOf(s, false) == value / 2 * 2
  {
    SmallMod(h * WORD_MOD + value, PHYSICAL_SPACE);
    Halves(h, value / 2 * 2);
  }

  lemma Halves(h: nat, l: word)
    requires h < 0x40 && l % 2 == 0
    ensures var e := h * WORD_MOD + l;
            e < PHYSICAL_SPACE && e % 2 == 0 && e / 2 * 2 == e && HalfOf(e, true) == h && HalfOf(e, false) == l
  {
    DivUnique(h * WORD_MOD + l, WORD_MOD, h, l);
    SmallMod(h, 0x40);
  }

  /** One of the four bytes of a base address, from the lowest. */
  function ByteOf(entry: dword, i: nat): byte
    requires i < 4
  {
    if i == 0 then entry % 0x100 else if i == 1 then entry / 0x100 % 0x100
    else if i == 2 then entry / 0x1_0000 % 0x100 else entry / 0x100_0000
  }

  lemma EntryBytes(h: word, l: word)
    ensures var e := h * 0x1_0000 + l;
            && e / 0x1_0000 == h && e % 0x1_0000 == l
            && ByteOf(e, 0) == l % 0x100 && ByteOf(e, 1) == l / 0x100
            && ByteOf(e, 2) == h % 0x100 && ByteOf(e, 3) == h / 0x100
  {
    var e := h * 0x1_0000 + l;
    DivUnique(e, 0x1_0000, h, l);
    DivUnique(e, 0x100, 0x100 * h + l / 0x100, l % 0x100);
    DivUnique(0x100 * h + l / 0x100, 0x100, h, l / 0x100);
    DivUnique(e, 0x100_0000, h / 0x100, h % 0x100 * 0x1_0000 + l);
  }

  /** The words of a base address, and their bytes, are its own. */
  lemma HalvesAreOwn(entry: dword, high: bool)
    requires entry < PHYSICAL_SPACE && entry % 2 == 0
    ensures HalfOf(entry, high) == if high then entry / 0x1_0000 else entry % 0x1_0000
    ensures HalfOf(entry, high) % 0x100 == ByteOf(entry, if high then 2 else 0)
    ensures HalfOf(entry, high) / 0x100 == ByteOf(entry, if high then 3 else 1)
  {
    EntryBytes(entry / 0x1_0000, entry % 0x1_0000);
    Halves(entry / 0x1_0000, entry % 0x1_0000);
  }

  /** Bit 0 of a base address and the bits from 22 up stay clear. */
  function Held(v: byte, i: nat): byte {
    if i == 0 then v / 2 * 2 else if i == 1 then v else if i == 2 then v % 0x40 else 0
  }

  lemma Parts(offset: nat)
    ensures (offset / 2 % 2 == 1) == (offset % 4 >= 2) && offset % 2 == offset % 4 % 2
  {
  }

  /** A word written replaces its half, and a byte its byte, apart from the bits that stay clear. */
  lemma StoredWhole(entry: dword, high: bool, value: word)
    requires entry < PHYSICAL_SPACE && entry % 2 == 0
    ensures Stored(entry, high, value) ==
            if high then value % 0x40 * 0x1_0000 + entry % 0x1_0000 else entry / 0x1_0000 * 0x1_0000 + value / 2 * 2
  {
    var h, l := entry / WORD_MOD, entry % WORD_MOD;
    Halves(h, l);
    if high {
      StoredHigh(h, l, value);
    } else {
      StoredLow(h, l, value);
    }
  }

  lemma StoredByte(entry: dword, k: nat, v: byte, i: nat)
    requires entry < PHYSICAL_SPACE && entry % 2 == 0 && k < 4 && i < 4
    ensures var word := WithByte(HalfOf(entry, k >= 2), k % 2 == 1, v);
            ByteOf(Stored(entry, k >= 2, word), i) == if i == k then Held(v, i) else ByteOf(entry, i)
  {
    var w := HalfOf(entry, k >= 2);
    var word := WithByte(w, k % 2 == 1, v);
    StoredWhole(entry, k >= 2, word);
    HalvesAreOwn(entry, k >= 2);
    WithByteParts(w, k % 2 == 1, v);
    if k >= 2 {
      StoredHighBytes(entry, k, v, word, i);
    } else {
      StoredLowBytes(entry, k, v, word, i);
    }
  }

  lemma StoredHighBytes(entry: dword, k: nat, v: byte, word: word, i: nat)
    requires entry < PHYSICAL_SPACE && 2 <= k < 4 && i < 4
    requires word % 0x100 == (if k == 3 then ByteOf(entry, 2) else v)
    requires word / 0x100 == (if k == 3 then v else ByteOf(entry, 3))
    ensures ByteOf(word % 0x40 * 0x1_0000 + entry % 0x1_0000, i) == if i == k then Held(v, i) else ByteOf(entry, i)
  {
    EntryBytes(entry / 0x1_0000, entry % 0x1_0000);
    LowSixBits(word);
    EntryBytes(word % 0x40, entry % 0x1_0000);
  }

  lemma StoredLowBytes(entry: dword, k: nat, v: byte, word: word, i: nat)
    requires entry < PHYSICAL_SPACE && entry % 2 == 0 && k < 2 && i < 4
    requires word % 0x100 == (if k == 1 then ByteOf(entry, 0) else v)
    requires word / 0x100 == (if k == 1 then v else ByteOf(entry, 1))
    ensures ByteOf(entry / 0x1_0000 * 0x1_0000 + word / 2 * 2, i) == if i == k then Held(v, i) else ByteOf(entry, i)
  {
    var h, l := entry / 0x1_0000, entry % 0x1_0000;
    EntryBytes(h, l);
    EvenWord(l);
    EvenWord(word);
    var even: word := word / 2 * 2;
    EntryBytes(h, even);
    assert l / 2 * 2 == l && ByteOf(entry, 0) / 2 * 2 == ByteOf(entry, 0);
    assert even % 0x100 == word % 0x100 / 2 * 2 && even / 0x100 == word / 0x100;
  }

  lemma WithByteParts(w: word, odd: bool, v: byte)
    ensures WithByte(w, odd, v) % 0x100 == (if odd then w % 0x100 else v)
    ensures WithByte(w, odd, v) / 0x100 == if odd then v else w / 0x100
  {
    DivUnique(WithByte(w, odd, v), 0x100, if odd then v else w / 0x100, if odd then w % 0x100 else v);
  }

  lemma LowSixBits(w: word)
    ensures w % 0x40 % 0x100 == w % 0x100 % 0x40 && w % 0x40 / 0x100 == 0
  {
    var q, r := w / 0x100, w % 0x100;
    assert w == 0x40 * (4 * q + r / 0x40) + r % 0x40;
    DivUnique(w, 0x40, 4 * q + r / 0x40, r % 0x40);
  }

  lemma EvenWord(w: word)
    ensures w / 2 * 2 / 0x100 == w / 0x100 && w / 2 * 2 % 0x100 == w % 0x100 / 2 * 2
  {
    DivUnique(w / 2 * 2, 0x100, w / 0x100, w % 0x100 / 2 * 2);
  }

  // ----- the bus -----

  class Bus {
    const unibusMap: array<dword>
    var mapEnabled: bool
    const memory: array<byte>

    ghost predicate Valid()
      reads this, unibusMap, memory
    {
      WellFormed(Map()) && memory.Length <= PHYSICAL_SPACE
    }

    ghost function Map(): Relocation
      reads this, unibusMap
    {
      Relocation(unibusMap[..], mapEnabled)
    }

    constructor (size: nat)
      requires size <= PHYSICAL_SPACE
      ensures Valid() && memory.Length == size && !mapEnabled && fresh(memory) && fresh(unibusMap)
      ensures forall a :: 0 <= a < UNIBUS_SPACE - PAGE ==> Translate(Relocation(unibusMap[..], true), a) == a
    {
      unibusMap := new dword[ENTRIES](i => if 0 <= i < ENTRIES then i * PAGE else 0);
      mapEnabled := false;
      memory := new byte[size](_ => 0);
      new;
      assert forall e :: 0 <= e < ENTRIES ==> unibusMap[e] == e * PAGE;
    }

    /** After a reset every page below the I/O page maps to itself. */
    method ResetMap()
      requires Valid()
      modifies unibusMap
      ensures Valid()
      ensures forall a :: 0 <= a < UNIBUS_SPACE - PAGE ==> Translate(Map(), a) == a
    {
      for i := 0 to ENTRIES
        invariant forall e :: 0 <= e < i ==> unibusMap[e] == e * PAGE
      {
        unibusMap[i] := i * PAGE;
      }
    }

    method ReadMapRegister(offset: nat, byteMode: bool) returns (v: word)
      requires Valid() && offset < 4 * ENTRIES
      ensures var w := HalfOf(unibusMap[offset / 4], offset / 2 % 2 == 1);
              v == if !byteMode then w else if offset % 2 == 1 then w / 0x100 else w % 0x100
      ensures var base := unibusMap[offset / 4];
              v == if byteMode then ByteOf(base, offset % 4)
                   else if offset % 4 >= 2 then base / 0x1_0000 else base % 0x1_0000
    {
      Parts(offset);
      HalvesAreOwn(unibusMap[offset / 4], offset % 4 >= 2);
      var entry, high := offset / 4, offset / 2 % 2 == 1;
      v := HalfOf(unibusMap[entry], high);
      if byteMode {
        v := if offset % 2 == 1 then v / 0x100 else v % 0x100;
      }
    }

    /** Changes one half of one entry; what is read back is what was written, masked. */
    method WriteMapRegister(offset: nat, byteMode: bool, value: word)
      requires Valid() && offset < 4 * ENTRIES && (byteMode ==> value < 0x100)
      modifies unibusMap
      ensures Valid()
      ensures var e, high := offset / 4, offset / 2 % 2 == 1; var before := old(unibusMap[offset / 4]);
              && HalfOf(unibusMap[e], high) ==
                 Kept(if byteMode then WithByte(HalfOf(before, high), offset % 2 == 1, value) else value, high)
              && HalfOf(unibusMap[e], !high) == HalfOf(before, !high)
      ensures forall e :: 0 <= e < ENTRIES && e != offset / 4 ==> unibusMap[e] == old(unibusMap[e])
      ensures !byteMode ==> var base := old(unibusMap[offset / 4]);
        unibusMap[offset / 4] == if offset % 4 >= 2 then value % 0x40 * 0x1_0000 + base % 0x1_0000
                                 else base / 0x1_0000 * 0x1_0000 + value / 2 * 2
      ensures byteMode ==> forall i :: 0 <= i < 4 ==>
        ByteOf(unibusMap[offset / 4], i) ==
        if i == offset % 4 then Held(value, i) else ByteOf(old(unibusMap[offset / 4]), i)
    {
      Parts(offset);
      var entry, high := offset / 4, offset / 2 % 2 == 1;
      var word := HalfOf(unibusMap[entry], high);
      if byteMode {
        word := WithByte(word, offset % 2 == 1, value);
      } else {
        word := value;
      }
      StoredHalves(unibusMap[entry], high, word);
      StoredWhole(unibusMap[entry], high, word);
      if byteMode {
        forall i | 0 <= i < 4
          ensures ByteOf(Stored(unibusMap[entry], high, word), i) ==
                  if i == offset % 4 then Held(value, i) else ByteOf(unibusMap[entry], i)
        {
          StoredByte(unibusMap[entry], offset % 4, value, i);
        }
      }
      unibusMap[entry] := Stored(unibusMap[entry], high, word);
    }

    method TranslateAddress(a: dword) returns (pa: dword)
      requires Valid()
      ensures pa == Translate(Map(), a)
    {
      var address := a % UNIBUS_SPACE;
      var entry, offset := address / PAGE, address % PAGE;
      if !mapEnabled {
        return address;
      }
      if entry == ENTRIES - 1 {
        return IO_PAGE + offset;
      }
      return (unibusMap[entry] + offset) % PHYSICAL_SPACE;
    }

    method ReadByte(a: dword) returns (v: byte)
      requires Valid()
      ensures v == Fetch(memory[..], Translate(Map(), a))
      ensures !mapEnabled ==> v == if a % 0x4_0000 < memory.Length then memory[a % 0x4_0000] else 0
      ensures mapEnabled && a / 0x2000 % 32 < 31 ==>
        var cell := (unibusMap[a / 0x2000 % 32] + a % 0x2000) % 0x40_0000;
        v == if cell < memory.Length then memory[cell] else 0
      ensures mapEnabled && a / 0x2000 % 32 == 31 ==>
        var cell := 0x3F_E000 + a % 0x2000; v == if cell < memory.Length then memory[cell] else 0
    {
      PageAndOffset(a);
      var pa := TranslateAddress(a);
      v := 0;
      if pa < memory.Length {
        v := memory[pa];
      }
    }

    method WriteByte(a: dword, v: byte)
      requires Valid()
      modifies memory
      ensures memory[..] == Put(old(memory[..]), Translate(Map(), a), v)
      ensures !mapEnabled ==> ByteStored(old(memory[..]), memory[..], a % 0x4_0000, v)
      ensures mapEnabled && a / 0x2000 % 32 < 31 ==>
        ByteStored(old(memory[..]), memory[..], (unibusMap[a / 0x2000 % 32] + a % 0x2000) % 0x40_0000, v)
      ensures mapEnabled && a / 0x2000 % 32 == 31 ==>
        ByteStored(old(memory[..]), memory[..], 0x3F_E000 + a % 0x2000, v)
    {
      PageAndOffset(a);
      var pa := TranslateAddress(a);
      if pa < memory.Length {
        memory[pa] := v;
      }
    }

    /** The next piece of a transfer: the rest of the page, cut to the transfer and to memory; none outside memory. */
    method NextRun(start: dword, ghost pas: seq<nat>, done: nat, n: nat) returns (pa: nat, cur: nat)
      requires Valid() && done < n && n == |pas| && pas == Addresses(Map(), start, n)
      ensures pa == pas[done]
      ensures pa >= memory.Length ==> cur == 0
      ensures pa < memory.Length ==> 0 < cur <= n - done && Run(pas, memory.Length, done, cur)
    {
      var a := At(start, done);
      pa := TranslateAddress(a);
      AddressAt(Map(), start, n, done);
      if pa >= memory.Length {
        return pa, 0;
      }
      cur := Min(Min(PAGE - a % PAGE, n - done), memory.Length - pa);
      PageIsRun(Map(), memory.Length, start, pas, done, cur);
    }

    /** Copies exactly what byte reads would return, up to the first address outside memory. */
    method ReadBlock(start: dword, target: array<byte>, n: dword) returns (done: nat)
      requires Valid() && n <= target.Length && target != memory
      modifies target
      ensures done == Reach(Addresses(Map(), start, n), memory.Length, 0)
      ensures Fetched(target[..], memory[..], Addresses(Map(), start, n), done)
      ensures target[..][done..] == old(target[..])[done..]
      ensures Stops(Map(), memory.Length, start, n, done)
      ensures forall i: nat, cell: nat ::
        i < done && cell < memory.Length && ByteLands(unibusMap[..], mapEnabled, start, i, cell) ==>
          target[i] == memory[cell]
    {
      TransferStops(Map(), memory.Length, start, n);
      done := ReadRuns(start, target, n);
      FetchedLands(Map(), memory[..], start, n, target[..], done);
    }

    method ReadRuns(start: dword, target: array<byte>, n: dword) returns (done: nat)
      requires Valid() && n <= target.Length && target != memory
      modifies target
      ensures done == Reach(Addresses(Map(), start, n), memory.Length, 0)
      ensures Fetched(target[..], memory[..], Addresses(Map(), start, n), done)
      ensures target[..][done..] == old(target[..])[done..]
    {
      ghost var pas := Addresses(Map(), start, n);
      ghost var before := target[..];
      done := 0;
      while done < n
        invariant done <= n
        invariant Reach(pas, memory.Length, 0) == Reach(pas, memory.Length, done)
        invariant Fetched(target[..], memory[..], pas, done)
        invariant |target[..]| == |before| && target[..][done..] == before[done..]
      {
        var pa, cur := NextRun(start, pas, done, n);
        if cur == 0 {
          break;
        }
        ReachRun(pas, memory.Length, done, cur);
        CopyOut(target, pa, done, cur, pas);
        done := done + cur;
      }
    }

    /** One run of a block read, which stands for its byte reads. */
    method CopyOut(target: array<byte>, pa: nat, at: nat, n: nat, ghost pas: seq<nat>)
      requires at + n <= target.Length && at + n <= |pas| && target != memory
      requires n > 0 && Run(pas, memory.Length, at, n) && pa == pas[at]
      requires Fetched(target[..], memory[..], pas, at)
      modifies target
      ensures Fetched(target[..], memory[..], pas, at + n)
      ensures target[..][at + n..] == old(target[..])[at + n..]
    {
      ghost var before := target[..];
      FetchRun(before, memory[..], pas, at, n);
      forall i | at <= i < at + n {
        target[i] := memory[pa + (i - at)];
      }
      assert target[..] == Patched(before, at, memory[..], pa, n);
    }

    /** Leaves memory as writing the same bytes one by one would, aliased pages included. */
    method WriteBlock(start: dword, source: seq<byte>) returns (done: nat)
      requires Valid() && |source| < DWORD_MOD
      modifies memory
      ensures done == Reach(Addresses(Map(), start, |source|), memory.Length, 0)
      ensures memory[..] == Puts(old(memory[..]), Addresses(Map(), start, |source|), source, done)
      ensures Stops(Map(), memory.Length, start, |source|, done)
      ensures Deposited(Map(), old(memory[..]), memory[..], start, source, done)
    {
      TransferStops(Map(), memory.Length, start, |source|);
      ghost var before := memory[..];
      done := WriteRuns(start, source);
      PutsDeposit(Map(), before, start, source, done);
    }

    method WriteRuns(start: dword, source: seq<byte>) returns (done: nat)
      requires Valid() && |source| < DWORD_MOD
      modifies memory
      ensures done == Reach(Addresses(Map(), start, |source|), memory.Length, 0)
      ensures memory[..] == Puts(old(memory[..]), Addresses(Map(), start, |source|), source, done)
    {
      ghost var pas := Addresses(Map(), start, |source|);
      ghost var before := memory[..];
      done := 0;
      while done < |source|
        invariant done <= |source|
        invariant Reach(pas, memory.Length, 0) == Reach(pas, memory.Length, done)
        invariant memory[..] == Puts(before, pas, source, done)
      {
        var pa, cur := NextRun(start, pas, done, |source|);
        if cur == 0 {
          break;
        }
        ReachRun(pas, memory.Length, done, cur);
        CopyIn(pa, source, done, cur, before, pas);
        done := done + cur;
      }
    }

    /** One run of a block write, which stands for its byte writes. */
    method CopyIn(pa: nat, source: seq<byte>, at: nat, n: nat, ghost before: seq<byte>, ghost pas: seq<nat>)
      requires at + n <= |pas| && at + n <= |source| && n > 0
      requires |before| == memory.Length && Run(pas, |before|, at, n) && pa == pas[at]
      requires memory[..] == Puts(before, pas, source, at)
      modifies memory
      ensures memory[..] == Puts(before, pas, source, at + n)
    {
      PutsRun(before, pas, source, at, n);
      ghost var was := memory[..];
      forall j | pa <= j < pa + n {
        memory[j] := source[at + (j - pa)];
      }
      assert memory[..] == Patched(was, pa, source, at, n);
    }
  }
}
