/**
 The drive slots and their shared block cache. The SD card is a map from paths
 to image bytes. With `faults` set, any open, seek, read or write of a call may
 fail or fall short; without it none does.
 */
module DiskCache {
  import opened Words

  const BLOCK_BYTES := 8192
  const BLOCK_COUNT := 8
  const DRIVE_COUNT := 7
  const PATH_MAX := 64

  const DRIVE_D := 3
  const DRIVE_RK0 := 4
  const DRIVE_DU0 := 6

  const RK05_IMAGE_BYTES := 2494464
  const RL01_IMAGE_BYTES := 5242880
  const RL02_IMAGE_BYTES := 10485760
  const MIN_IMAGE_BYTES := 100 * 1024
  const RP_MAX_IMAGE_BYTES := 256 * 1024 * 1024
  const DU_MAX_IMAGE_BYTES := 0xFFFF_FE00

  datatype Drive = Drive(mounted: bool, changed: bool, readonly: bool, path: string, size: nat)

  datatype Block = Block(slot: int, offset: nat, length: nat, age: nat, valid: bool)

  type Card = map<string, seq<byte>>

  predicate WithinTolerance(bytes: nat, nominal: nat) {
    var delta := nominal * 20 / 100;
    nominal - delta <= bytes <= nominal + delta
  }

  predicate SizeAccepted(slot: nat, bytes: nat) {
    if slot <= DRIVE_D then WithinTolerance(bytes, RL01_IMAGE_BYTES) || WithinTolerance(bytes, RL02_IMAGE_BYTES)
    else if slot == DRIVE_RK0 then WithinTolerance(bytes, RK05_IMAGE_BYTES)
    else if slot == DRIVE_DU0 then MIN_IMAGE_BYTES <= bytes <= DU_MAX_IMAGE_BYTES
    else MIN_IMAGE_BYTES <= bytes <= RP_MAX_IMAGE_BYTES
  }

  /**
   The image sizes a slot takes, in bytes: a fifth around the two RL packs, a fifth
   around the RK pack, and from 100 KB to 256 MB, or to the end of 32 bits, elsewhere.
   */
  lemma SizesAccepted(slot: nat, bytes: nat)
    ensures slot < 4 ==>
              (SizeAccepted(slot, bytes) <==> 4_194_304 <= bytes <= 6_291_456 || 8_388_608 <= bytes <= 12_582_912)
    ensures slot == 4 ==> (SizeAccepted(slot, bytes) <==> 1_995_572 <= bytes <= 2_993_356)
    ensures slot == 5 ==> (SizeAccepted(slot, bytes) <==> 102_400 <= bytes <= 268_435_456)
    ensures slot == 6 ==> (SizeAccepted(slot, bytes) <==> 102_400 <= bytes <= 4_294_966_784)
  {
  }

  /** A 32-bit count returned through a signed int. */
  function AsInt(bytes: dword): int {
    if bytes < 0x8000_0000 then bytes else bytes - DWORD_MOD
  }

  lemma AsIntIsSigned(bytes: dword)
    ensures (AsInt(bytes) - bytes) % 0x1_0000_0000 == 0 && -0x8000_0000 <= AsInt(bytes) < 0x8000_0000
  {
  }

  /** What a plain read of the mounted file gives: its bytes, then zeros. */
  ghost function ImageByte(card: Card, d: Drive, position: nat): byte
    requires d.mounted ==> d.path in card && d.size <= |card[d.path]|
  {
    if d.mounted && position < d.size then card[d.path][position] else 0
  }

  /** What plain reads give for a range. */
  ghost function ImageBytes(card: Card, d: Drive, position: nat, n: nat): (s: seq<byte>)
    requires d.mounted ==> d.path in card && d.size <= |card[d.path]|
    ensures |s| == n
  {
    seq<byte>(n, k requires 0 <= k < n => ImageByte(card, d, position + k))
  }

  lemma ImageBytesAt(card: Card, d: Drive, position: nat, n: nat)
    requires d.mounted ==> d.path in card && d.size <= |card[d.path]|
    ensures forall k :: 0 <= k < n ==> ImageBytes(card, d, position, n)[k] == ImageByte(card, d, position + k)
  {
  }

  lemma ImageBytesAre(card: Card, d: Drive, position: nat, data: seq<byte>)
    requires d.mounted ==> d.path in card && d.size <= |card[d.path]|
    requires forall k :: 0 <= k < |data| ==> data[k] == ImageByte(card, d, position + k)
    ensures data == ImageBytes(card, d, position, |data|)
  {
  }

  lemma ZerosPastTheEnd(card: Card, d: Drive, position: nat, data: seq<byte>)
    requires d.mounted ==> d.path in card && d.size <= |card[d.path]|
    requires position >= d.size && forall k :: 0 <= k < |data| ==> data[k] == 0
    ensures data == ImageBytes(card, d, position, |data|)
  {
    forall k | 0 <= k < |data| ensures ImageBytes(card, d, position, |data|)[k] == 0 {
      assert ImageByte(card, d, position + k) == 0;
    }
  }

  lemma ImageBytesAppend(card: Card, d: Drive, position: nat, m: nat, n: nat)
    requires d.mounted ==> d.path in card && d.size <= |card[d.path]|
    ensures ImageBytes(card, d, position, m + n) ==
            ImageBytes(card, d, position, m) + ImageBytes(card, d, position + m, n)
  {
    var all, a := ImageBytes(card, d, position, m + n), ImageBytes(card, d, position, m);
    var b := ImageBytes(card, d, position + m, n);
    forall k | m <= k < m + n ensures all[k] == b[k - m] {
      assert position + k == position + m + (k - m);
    }
  }

  lemma ImageBytesExtend(card: Card, d: Drive, position: nat, buf: seq<byte>, m: nat, n: nat)
    requires d.mounted ==> d.path in card && d.size <= |card[d.path]|
    requires m + n <= |buf| && buf[..m] == ImageBytes(card, d, position, m)
    requires buf[m..m + n] == ImageBytes(card, d, position + m, n)
    ensures buf[..m + n] == ImageBytes(card, d, position, m + n)
  {
    ImageBytesAppend(card, d, position, m, n);
    assert buf[..m + n] == buf[..m] + buf[m..m + n];
  }

  ghost predicate DriveOk(card: Card, d: Drive, slot: nat) {
    if d.mounted then
      && 0 < |d.path| < PATH_MAX && d.path in card
      && d.size == |card[d.path]| % DWORD_MOD && d.size <= |card[d.path]|
      && SizeAccepted(slot, d.size)
    else !d.readonly && d.path == "" && d.size == 0
  }

  /** A valid block is the whole of one aligned stretch of a mounted image. */
  ghost predicate BlockOk(b: Block, drives: seq<Drive>, clock: nat)
    requires |drives| == DRIVE_COUNT
  {
    b.valid ==>
      && 0 <= b.slot < DRIVE_COUNT && drives[b.slot].mounted
      && b.offset % BLOCK_BYTES == 0 && b.offset < drives[b.slot].size
      && b.length == Min(BLOCK_BYTES, drives[b.slot].size - b.offset)
      && b.age <= clock
  }

  ghost predicate Distinct(a: Block, b: Block) {
    a.valid && b.valid ==> (a.slot != b.slot || a.offset != b.offset) && a.age != b.age
  }

  /** The bytes a block holds are the bytes of its file range. */
  ghost predicate Holds(data: seq<byte>, b: Block, drives: seq<Drive>, card: Card) {
    b.valid && 0 <= b.slot < |drives| && drives[b.slot].path in card
    && b.offset + b.length <= |card[drives[b.slot].path]| && b.length <= |data|
    ==> data[..b.length] == card[drives[b.slot].path][b.offset..b.offset + b.length]
  }

  ghost predicate DrivesOk(card: Card, drives: seq<Drive>) {
    |drives| == DRIVE_COUNT && forall s :: 0 <= s < DRIVE_COUNT ==> DriveOk(card, drives[s], s)
  }

  ghost predicate BlocksOk(blocks: seq<Block>, drives: seq<Drive>, clock: nat)
    requires |drives| == DRIVE_COUNT
  {
    && |blocks| == BLOCK_COUNT
    && (forall i :: 0 <= i < BLOCK_COUNT ==> BlockOk(blocks[i], drives, clock))
    && (forall i, j :: 0 <= i < j < BLOCK_COUNT ==> Distinct(blocks[i], blocks[j]))
  }

  ghost predicate AllHold(storage: seq<byte>, blocks: seq<Block>, drives: seq<Drive>, card: Card)
    requires |blocks| == BLOCK_COUNT && |storage| == BLOCK_COUNT * BLOCK_BYTES
  {
    forall i :: 0 <= i < BLOCK_COUNT ==> Holds(Region(storage, i), blocks[i], drives, card)
  }

  lemma DropBlock(blocks: seq<Block>, drives: seq<Drive>, clock: nat, i: nat, b: Block)
    requires |drives| == DRIVE_COUNT && BlocksOk(blocks, drives, clock) && i < BLOCK_COUNT && !b.valid
    ensures BlocksOk(blocks[i := b], drives, clock)
  {
  }

  /** Replacing a block by one used just now, keyed as no other block is. */
  lemma TouchBlock(blocks: seq<Block>, drives: seq<Drive>, clock: nat, i: nat, b: Block)
    requires |drives| == DRIVE_COUNT && BlocksOk(blocks, drives, clock) && i < BLOCK_COUNT
    requires b.valid && b.age == clock + 1 && BlockOk(b, drives, clock + 1)
    requires forall j :: 0 <= j < BLOCK_COUNT && j != i ==>
      !(blocks[j].valid && blocks[j].slot == b.slot && blocks[j].offset == b.offset)
    ensures BlocksOk(blocks[i := b], drives, clock + 1)
  {
    var after := blocks[i := b];
    forall j, k | 0 <= j < k < BLOCK_COUNT
      ensures Distinct(after[j], after[k])
    {
      assert Distinct(blocks[j], blocks[k]);
      assert BlockOk(blocks[j], drives, clock) && BlockOk(blocks[k], drives, clock);
    }
    forall j | 0 <= j < BLOCK_COUNT
      ensures BlockOk(after[j], drives, clock + 1)
    {
      assert BlockOk(blocks[j], drives, clock);
    }
  }

  function Region(storage: seq<byte>, i: nat): (data: seq<byte>)
    requires i < BLOCK_COUNT && |storage| == BLOCK_COUNT * BLOCK_BYTES
    ensures |data| == BLOCK_BYTES
  {
    storage[i * BLOCK_BYTES..(i + 1) * BLOCK_BYTES]
  }

  /** A card on which only `path` changed, and kept its length. */
  ghost predicate OnlyRewritten(before: Card, after: Card, path: string) {
    path in before && path in after && after == before[path := after[path]] && |after[path]| == |before[path]|
  }

  /**
   After a change to one image a coherent cache is coherent still exactly when no
   valid block, of whichever slot, covers a changed byte of it.
   */
  lemma RewriteExactly(storage: seq<byte>, blocks: seq<Block>, drives: seq<Drive>, clock: nat,
                       before: Card, after: Card, path: string)
    requires |storage| == BLOCK_COUNT * BLOCK_BYTES && DrivesOk(before, drives) && BlocksOk(blocks, drives, clock)
    requires AllHold(storage, blocks, drives, before) && OnlyRewritten(before, after, path)
    ensures AllHold(storage, blocks, drives, after) <==>
      forall i :: 0 <= i < BLOCK_COUNT && blocks[i].valid && drives[blocks[i].slot].path == path ==>
        Unchanged(before[path], after[path], blocks[i])
  {
    forall i | 0 <= i < BLOCK_COUNT && blocks[i].valid
      ensures Holds(Region(storage, i), blocks[i], drives, after) <==>
        (drives[blocks[i].slot].path == path ==> Unchanged(before[path], after[path], blocks[i]))
    {
      var b := blocks[i];
      assert BlockOk(b, drives, clock) && DriveOk(before, drives[b.slot], b.slot);
      assert Holds(Region(storage, i), b, drives, before);
    }
    if AllHold(storage, blocks, drives, after) {
      forall i | 0 <= i < BLOCK_COUNT && blocks[i].valid && drives[blocks[i].slot].path == path
        ensures Unchanged(before[path], after[path], blocks[i])
      {
        assert Holds(Region(storage, i), blocks[i], drives, after);
      }
    } else {
      var i :| 0 <= i < BLOCK_COUNT && !Holds(Region(storage, i), blocks[i], drives, after);
      assert blocks[i].valid;
    }
  }

  ghost predicate Unchanged(before: seq<byte>, after: seq<byte>, b: Block)
    requires |before| == |after|
  {
    b.offset + b.length <= |before| ==>
      before[b.offset..b.offset + b.length] == after[b.offset..b.offset + b.length]
  }

  /** Drives keep their validity when an image is rewritten in place. */
  lemma RewriteKeepsDrives(before: Card, after: Card, path: string, drives: seq<Drive>)
    requires DrivesOk(before, drives) && OnlyRewritten(before, after, path)
    ensures DrivesOk(after, drives)
  {
    forall s | 0 <= s < DRIVE_COUNT
      ensures DriveOk(after, drives[s], s)
    {
      assert DriveOk(before, drives[s], s);
    }
  }

  /** An image with the bytes from `offset` on replaced. */
  function Spliced(image: seq<byte>, offset: nat, bytes: seq<byte>): (r: seq<byte>)
    requires offset + |bytes| <= |image|
    ensures |r| == |image|
    ensures r[..offset] == image[..offset] && r[offset..offset + |bytes|] == bytes
    ensures r[offset + |bytes|..] == image[offset + |bytes|..]
  {
    image[..offset] + bytes + image[offset + |bytes|..]
  }

  /** Wherever a block overlaps the range written, the image already has the bytes written there. */
  ghost predicate SameOnOverlap(image: seq<byte>, offset: nat, bytes: seq<byte>, b: Block)
    requires offset + |bytes| <= |image|
  {
    forall p :: offset <= p < offset + |bytes| && b.offset <= p < b.offset + b.length ==> image[p] == bytes[p - offset]
  }

  /** Writing leaves a block's range as it was exactly when it writes what is there already. */
  lemma SpliceUnchanged(image: seq<byte>, offset: nat, bytes: seq<byte>, b: Block)
    requires offset + |bytes| <= |image| && b.offset + b.length <= |image|
    ensures Unchanged(image, Spliced(image, offset, bytes), b) <==> SameOnOverlap(image, offset, bytes, b)
  {
    var after := Spliced(image, offset, bytes);
    var from, to := b.offset, b.offset + b.length;
    forall p | 0 <= p < |image|
      ensures after[p] == if offset <= p < offset + |bytes| then bytes[p - offset] else image[p]
    {
    }
    if Unchanged(image, after, b) {
      forall p | offset <= p < offset + |bytes| && from <= p < to ensures image[p] == bytes[p - offset] {
        assert image[from..to][p - from] == after[from..to][p - from];
      }
    } else {
      var k :| 0 <= k < to - from && image[from..to][k] != after[from..to][k];
      assert image[from + k] != after[from + k];
    }
  }

  /**
   After a write to one image a coherent cache is coherent still exactly when no
   valid block, of whichever slot, holds a byte that the write replaced by another.
   */
  lemma StaleExactly(storage: seq<byte>, blocks: seq<Block>, drives: seq<Drive>, clock: nat,
                     card: Card, path: string, offset: nat, bytes: seq<byte>)
    requires |storage| == BLOCK_COUNT * BLOCK_BYTES && DrivesOk(card, drives) && BlocksOk(blocks, drives, clock)
    requires AllHold(storage, blocks, drives, card) && path in card && offset + |bytes| <= |card[path]|
    ensures AllHold(storage, blocks, drives, card[path := Spliced(card[path], offset, bytes)]) <==>
            NoneStale(blocks, drives, card[path], path, offset, bytes)
  {
    var after := card[path := Spliced(card[path], offset, bytes)];
    RewriteExactly(storage, blocks, drives, clock, card, after, path);
    forall i | 0 <= i < BLOCK_COUNT && blocks[i].valid && drives[blocks[i].slot].path == path
      ensures Unchanged(card[path], after[path], blocks[i]) <==> SameOnOverlap(card[path], offset, bytes, blocks[i])
    {
      assert BlockOk(blocks[i], drives, clock) && DriveOk(card, drives[blocks[i].slot], blocks[i].slot);
      SpliceUnchanged(card[path], offset, bytes, blocks[i]);
    }
  }

  ghost predicate NoneStale(blocks: seq<Block>, drives: seq<Drive>, image: seq<byte>, path: string,
                            offset: nat, bytes: seq<byte>)
    requires |blocks| == BLOCK_COUNT && |drives| == DRIVE_COUNT && offset + |bytes| <= |image|
  {
    forall i :: 0 <= i < BLOCK_COUNT && blocks[i].valid && 0 <= blocks[i].slot < DRIVE_COUNT
                && drives[blocks[i].slot].path == path ==>
      SameOnOverlap(image, offset, bytes, blocks[i])
  }

  /** A block of another slot with the written slot's image holds a byte that the write changes. */
  ghost predicate GoesStale(blocks: seq<Block>, drives: seq<Drive>, image: seq<byte>,
                            slot: nat, offset: nat, bytes: seq<byte>)
    requires |blocks| == BLOCK_COUNT && |drives| == DRIVE_COUNT && slot < DRIVE_COUNT && offset + |bytes| <= |image|
  {
    exists i :: 0 <= i < BLOCK_COUNT && blocks[i].valid && blocks[i].slot != slot && 0 <= blocks[i].slot < DRIVE_COUNT
                && drives[blocks[i].slot].path == drives[slot].path && !SameOnOverlap(image, offset, bytes, blocks[i])
  }

  /** Once the slot's own overlapping blocks are dropped, only other slots' blocks can be stale. */
  lemma OthersGoStale(before: seq<Block>, after: seq<Block>, drives: seq<Drive>, image: seq<byte>,
                      slot: nat, offset: nat, bytes: seq<byte>)
    requires |before| == |after| == BLOCK_COUNT && |drives| == DRIVE_COUNT && slot < DRIVE_COUNT
    requires offset + |bytes| <= |image| && Invalidated(before, after, slot, offset, |bytes|)
    ensures NoneStale(after, drives, image, drives[slot].path, offset, bytes) <==>
            !GoesStale(before, drives, image, slot, offset, bytes)
  {
    forall i | 0 <= i < BLOCK_COUNT && after[i].valid && after[i].slot == slot
      ensures SameOnOverlap(image, offset, bytes, after[i])
    {
    }
    if GoesStale(before, drives, image, slot, offset, bytes) {
      var i :| 0 <= i < BLOCK_COUNT && before[i].valid && before[i].slot != slot && 0 <= before[i].slot < DRIVE_COUNT
               && drives[before[i].slot].path == drives[slot].path && !SameOnOverlap(image, offset, bytes, before[i]);
      assert after[i] == before[i];
    }
  }

  /** Exactly the slot's blocks that share a byte with the range are dropped. */
  ghost predicate Invalidated(before: seq<Block>, after: seq<Block>, slot: int, offset: nat, bytes: nat) {
    |after| == |before| && forall i :: 0 <= i < |before| ==>
      after[i] == if before[i].valid && bytes > 0 && Overlaps(before[i], slot, offset, bytes)
                  then before[i].(valid := false) else before[i]
  }

  lemma SpliceKeepsSoleCache(storage: seq<byte>, blocks: seq<Block>, drives: seq<Drive>, clock: nat,
                             card: Card, slot: nat, offset: nat, bytes: seq<byte>)
    requires |storage| == BLOCK_COUNT * BLOCK_BYTES && DrivesOk(card, drives) && BlocksOk(blocks, drives, clock)
    requires AllHold(storage, blocks, drives, card)
    requires slot < DRIVE_COUNT && drives[slot].path in card && offset + |bytes| <= |card[drives[slot].path]|
    requires forall s :: 0 <= s < DRIVE_COUNT && s != slot && drives[s].mounted ==> drives[s].path != drives[slot].path
    requires Untouched(blocks, slot, offset, |bytes|)
    ensures var path := drives[slot].path;
            AllHold(storage, blocks, drives, card[path := Spliced(card[path], offset, bytes)])
  {
    var path := drives[slot].path;
    StaleExactly(storage, blocks, drives, clock, card, path, offset, bytes);
    forall i | 0 <= i < BLOCK_COUNT && blocks[i].valid && drives[blocks[i].slot].path == path
      ensures SameOnOverlap(card[path], offset, bytes, blocks[i])
    {
      assert BlockOk(blocks[i], drives, clock);
    }
  }

  /** The slot has no block left that overlaps the range. */
  ghost predicate Untouched(blocks: seq<Block>, slot: int, offset: nat, bytes: nat)
    requires |blocks| == BLOCK_COUNT
  {
    bytes > 0 ==> forall i :: 0 <= i < BLOCK_COUNT && blocks[i].valid ==> !Overlaps(blocks[i], slot, offset, bytes)
  }

  /** Arbitrary bytes for the part of a range a failing write did not complete. */
  function Leftover(image: seq<byte>, offset: nat, n: nat, rest: seq<byte>): (r: seq<byte>)
    requires offset + n <= |image|
    ensures |r| == n
  {
    if |rest| < n then image[offset..offset + n] else rest[..n]
  }

  lemma RegionFrame(a: seq<byte>, b: seq<byte>, i: nat, j: nat)
    requires |a| == |b| == BLOCK_COUNT * BLOCK_BYTES && i < BLOCK_COUNT && j < BLOCK_COUNT && i != j
    requires forall p :: 0 <= p < |a| && !(i * BLOCK_BYTES <= p < (i + 1) * BLOCK_BYTES) ==> a[p] == b[p]
    ensures Region(a, j) == Region(b, j)
  {
  }

  lemma RegionPrefix(storage: seq<byte>, i: nat, image: seq<byte>, offset: nat, n: nat)
    requires |storage| == BLOCK_COUNT * BLOCK_BYTES && i < BLOCK_COUNT
    requires n <= BLOCK_BYTES && offset + n <= |image|
    requires forall p :: i * BLOCK_BYTES <= p < i * BLOCK_BYTES + n ==>
      storage[p] == image[offset + (p - i * BLOCK_BYTES)]
    ensures Region(storage, i)[..n] == image[offset..offset + n]
  {
    forall k | 0 <= k < n
      ensures Region(storage, i)[..n][k] == image[offset..offset + n][k]
    {
      assert storage[i * BLOCK_BYTES + k] == image[offset + k];
    }
  }

  predicate Overlaps(b: Block, slot: int, begin: nat, bytes: nat) {
    b.slot == slot && begin < b.offset + b.length && b.offset < begin + bytes
  }

  predicate Within(p: nat, from: nat, n: nat) {
    from <= p < from + n
  }

  /** A block overlaps a range of its slot exactly when they share a byte. */
  lemma OverlapsExactly(b: Block, slot: int, begin: nat, bytes: nat)
    ensures Overlaps(b, slot, begin, bytes) && bytes > 0 && b.length > 0 <==>
            b.slot == slot && exists p: nat :: Within(p, begin, bytes) && Within(p, b.offset, b.length)
  {
    if b.slot == slot && begin < b.offset + b.length && b.offset < begin + bytes && bytes > 0 && b.length > 0 {
      var p: nat := if begin <= b.offset then b.offset else begin;
      assert Within(p, begin, bytes) && Within(p, b.offset, b.length);
    }
  }

  // ----- what the cache answers -----

  /** Block `i` holds the whole of a range of the slot, with these bytes. */
  ghost predicate AnswersFrom(blocks: seq<Block>, storage: seq<byte>, i: nat, slot: int, offset: nat, data: seq<byte>)
    requires |blocks| == BLOCK_COUNT && |storage| == BLOCK_COUNT * BLOCK_BYTES && i < BLOCK_COUNT
  {
    var b := blocks[i];
    && b.valid && b.slot == slot && b.length <= BLOCK_BYTES
    && b.offset <= offset && offset + |data| <= b.offset + b.length
    && forall k :: 0 <= k < |data| ==> data[k] == storage[i * BLOCK_BYTES + (offset - b.offset + k)]
  }

  ghost predicate Answers(blocks: seq<Block>, storage: seq<byte>, slot: int, offset: nat, data: seq<byte>)
    requires |blocks| == BLOCK_COUNT && |storage| == BLOCK_COUNT * BLOCK_BYTES
  {
    exists i: nat :: i < BLOCK_COUNT && AnswersFrom(blocks, storage, i, slot, offset, data)
  }

  lemma AnswersByBlock(blocks: seq<Block>, storage: seq<byte>, i: nat, slot: int, offset: nat, data: seq<byte>)
    requires |blocks| == BLOCK_COUNT && |storage| == BLOCK_COUNT * BLOCK_BYTES && i < BLOCK_COUNT
    requires AnswersFrom(blocks, storage, i, slot, offset, data)
    ensures Answers(blocks, storage, slot, offset, data)
  {
  }

  /** An aligned block that holds a position starts where the position's block starts. */
  lemma AlignedStart(start: nat, position: nat)
    requires start % BLOCK_BYTES == 0 && start <= position < start + BLOCK_BYTES
    ensures start == position - position % BLOCK_BYTES
  {
    DivUnique(position, BLOCK_BYTES, start / BLOCK_BYTES, position - start);
  }

  /**
   What a transfer of `got` in full takes from the cache: a range in one block is
   done at once and cached afterwards, and a cached range is answered as it was.
   */
  ghost predicate Settled(one: bool, blocks: seq<Block>, storage: seq<byte>, after: seq<Block>, now: seq<byte>,
                          slot: int, offset: nat, got: seq<byte>, n: int)
    requires |blocks| == |after| == BLOCK_COUNT && |storage| == |now| == BLOCK_COUNT * BLOCK_BYTES
  {
    && (one && n != -1 ==> n == |got| && Answers(after, now, slot, offset, got))
    && forall data: seq<byte> | |data| == |got| && Answers(blocks, storage, slot, offset, data) ::
      n == |got| && got == data
  }

  /** Whatever the cache could answer at a position, block `i` answers now. */
  ghost predicate KeepsAnswers(blocks: seq<Block>, storage: seq<byte>, after: seq<Block>, now: seq<byte>,
                               i: int, slot: int, offset: nat)
    requires |blocks| == |after| == BLOCK_COUNT && |storage| == |now| == BLOCK_COUNT * BLOCK_BYTES
  {
    forall data: seq<byte> | data != [] && Answers(blocks, storage, slot, offset, data) ::
      0 <= i < BLOCK_COUNT && AnswersFrom(after, now, i, slot, offset, data)
  }

  lemma PieceSettles(one: bool, blocks: seq<Block>, storage: seq<byte>, after: seq<Block>, now: seq<byte>,
                     i: nat, slot: int, offset: nat, got: seq<byte>, n: nat)
    requires |blocks| == |after| == BLOCK_COUNT && |storage| == |now| == BLOCK_COUNT * BLOCK_BYTES && i < BLOCK_COUNT
    requires 0 < n <= |got| && AnswersFrom(after, now, i, slot, offset, got[..n])
    requires n == Min(|got|, after[i].offset + after[i].length - offset) && (one ==> n == |got|)
    requires KeepsAnswers(blocks, storage, after, now, i, slot, offset)
    ensures Settled(one, blocks, storage, after, now, slot, offset, got, n)
  {
    assert n == |got| ==> got[..n] == got;
    forall data: seq<byte> | |data| == |got| && Answers(blocks, storage, slot, offset, data)
      ensures n == |got| && got == data
    {
      OneAnswer(after, now, i, slot, offset, data, got[..n]);
    }
  }

  lemma OneAnswer(blocks: seq<Block>, storage: seq<byte>, i: nat, slot: int, offset: nat,
                  data: seq<byte>, other: seq<byte>)
    requires |blocks| == BLOCK_COUNT && |storage| == BLOCK_COUNT * BLOCK_BYTES && i < BLOCK_COUNT
    requires AnswersFrom(blocks, storage, i, slot, offset, data) && AnswersFrom(blocks, storage, i, slot, offset, other)
    ensures |data| == |other| ==> data == other
  {
  }

  /** An answer survives when its block is found under its key and keeps its place. */
  lemma AnswerKept(blocks: seq<Block>, storage: seq<byte>, drives: seq<Drive>, clock: nat, i: int,
                   slot: int, offset: nat, data: seq<byte>, after: seq<Block>, now: seq<byte>)
    requires |drives| == DRIVE_COUNT && BlocksOk(blocks, drives, clock)
    requires |now| == |storage| == BLOCK_COUNT * BLOCK_BYTES
    requires data != [] && Answers(blocks, storage, slot, offset, data) && |after| == BLOCK_COUNT
    requires var start := offset - offset % BLOCK_BYTES;
             Keyed(blocks, slot, start) ==>
               && now == storage
               && 0 <= i < BLOCK_COUNT && blocks[i].valid && blocks[i].slot == slot && blocks[i].offset == start
               && after[i].valid && after[i].slot == slot && after[i].offset == start
               && after[i].length == blocks[i].length
    ensures 0 <= i < BLOCK_COUNT && AnswersFrom(after, now, i, slot, offset, data)
  {
    var j: nat :| j < BLOCK_COUNT && AnswersFrom(blocks, storage, j, slot, offset, data);
    AnswerBlock(blocks, storage, drives, clock, j, slot, offset, data);
    OneKey(blocks, drives, clock, i, j);
  }

  lemma AnswerBlock(blocks: seq<Block>, storage: seq<byte>, drives: seq<Drive>, clock: nat, i: nat,
                    slot: int, offset: nat, data: seq<byte>)
    requires |drives| == DRIVE_COUNT && BlocksOk(blocks, drives, clock) && |storage| == BLOCK_COUNT * BLOCK_BYTES
    requires i < BLOCK_COUNT && AnswersFrom(blocks, storage, i, slot, offset, data) && data != []
    ensures blocks[i].offset == offset - offset % BLOCK_BYTES && Keyed(blocks, slot, offset - offset % BLOCK_BYTES)
  {
    assert BlockOk(blocks[i], drives, clock);
    AlignedStart(blocks[i].offset, offset);
  }

  /** Two blocks with one key are one block. */
  lemma OneKey(blocks: seq<Block>, drives: seq<Drive>, clock: nat, i: nat, j: nat)
    requires |drives| == DRIVE_COUNT && BlocksOk(blocks, drives, clock) && i < BLOCK_COUNT && j < BLOCK_COUNT
    requires blocks[i].valid && blocks[j].valid
    requires blocks[i].slot == blocks[j].slot && blocks[i].offset == blocks[j].offset
    ensures i == j
  {
    assert i < j ==> Distinct(blocks[i], blocks[j]);
    assert j < i ==> Distinct(blocks[j], blocks[i]);
  }

  ghost predicate Keyed(blocks: seq<Block>, slot: int, offset: nat) {
    exists i :: 0 <= i < |blocks| && blocks[i].valid && blocks[i].slot == slot && blocks[i].offset == offset
  }

  // ----- what an operation may do -----

  /** The card, the drives and the cache at one moment; without memory the cache has no bytes. */
  datatype Snap = Snap(card: Card, drives: seq<Drive>, blocks: seq<Block>, storage: seq<byte>)

  /** What an operation comes back with. */
  datatype Answer = Failed | Done | Bytes(data: seq<byte>)

  /** The calls of a run. Closing everything is the first half of a reopening; the mounts that follow are mounts. */
  datatype Op =
    | MountImage(slot: int, path: string, readonly: bool)
    | DismountSlot(slot: int)
    | CloseEverything
    | ReadAt(slot: int, offset: dword, bytes: dword)
    | WriteAt(slot: int, offset: dword, data: seq<byte>)

  predicate OpOk(op: Op) {
    op.WriteAt? ==> |op.data| < DWORD_MOD
  }

  /** Every valid block equals its file range. */
  ghost predicate CoherentAt(s: Snap) {
    |s.blocks| == BLOCK_COUNT && |s.storage| == BLOCK_COUNT * BLOCK_BYTES ==>
      AllHold(s.storage, s.blocks, s.drives, s.card)
  }

  ghost predicate CachedAt(s: Snap, slot: int, offset: nat, data: seq<byte>) {
    && |s.blocks| == BLOCK_COUNT && |s.storage| == BLOCK_COUNT * BLOCK_BYTES
    && Answers(s.blocks, s.storage, slot, offset, data)
  }

  /** No other mounted slot has this slot's image. */
  ghost predicate SoleImage(drives: seq<Drive>, slot: int) {
    0 <= slot < |drives| && drives[slot].mounted ==>
    forall s :: 0 <= s < |drives| && s != slot && drives[s].mounted ==> drives[s].path != drives[slot].path
  }

  predicate MountedAt(drives: seq<Drive>, slot: int) {
    0 <= slot < |drives| && drives[slot].mounted
  }

  /** The range starts in the image and lies in one aligned block of it. */
  predicate InOneBlock(drives: seq<Drive>, slot: int, offset: nat, bytes: nat) {
    && 0 <= slot < |drives| && offset + bytes <= drives[slot].size
    && 0 < bytes && offset % BLOCK_BYTES + bytes <= BLOCK_BYTES
  }

  /** That is, all its bytes are in the image and in the same 8192. */
  lemma InOneBlockExactly(drives: seq<Drive>, slot: nat, offset: nat, bytes: nat)
    requires slot < |drives| && bytes > 0
    ensures InOneBlock(drives, slot, offset, bytes) <==>
            offset + bytes - 1 < drives[slot].size && offset / 8192 == (offset + bytes - 1) / 8192
  {
    DivMod(offset, BLOCK_BYTES);
    if offset % BLOCK_BYTES + bytes <= BLOCK_BYTES {
      DivUnique(offset + bytes - 1, BLOCK_BYTES, offset / BLOCK_BYTES, offset % BLOCK_BYTES + bytes - 1);
    }
  }

  /** The bytes are what the image of the slot holds there, with zeros past its end. */
  ghost predicate ExactAt(s: Snap, slot: int, offset: nat, data: seq<byte>) {
    && 0 <= slot < |s.drives|
    && var d := s.drives[slot];
    && (d.mounted ==> d.path in s.card && d.size <= |s.card[d.path]|)
    && data == ImageBytes(s.card, d, offset, |data|)
  }

  predicate Mountable(card: Card, slot: int, path: string) {
    && 0 <= slot < DRIVE_COUNT && 0 < |path| < PATH_MAX && path in card
    && SizeAccepted(slot, |card[path]| % DWORD_MOD)
  }

  /** Exactly the slot's blocks are dropped. */
  ghost predicate SlotDropped(before: seq<Block>, after: seq<Block>, slot: int) {
    |after| == |before| && forall i :: 0 <= i < |before| ==>
      after[i] == if before[i].valid && before[i].slot == slot then before[i].(valid := false) else before[i]
  }

  /** A refused mount changes nothing; a mount replaces the drive and drops the slot's blocks. */
  ghost predicate MountOk(before: Snap, slot: int, path: string, readonly: bool, faults: bool,
                          got: Answer, after: Snap) {
    && |before.drives| == |after.drives| == DRIVE_COUNT && !got.Bytes?
    && (got.Failed? ==> after == before)
    && (got.Done? ==>
         && Mountable(before.card, slot, path) && (readonly ==> after.drives[slot].readonly)
         && SlotDropped(before.blocks, after.blocks, slot)
         && var d := Drive(true, true, after.drives[slot].readonly, path, |before.card[path]| % DWORD_MOD);
            after == before.(drives := before.drives[slot := d], blocks := after.blocks))
    && (!faults && Mountable(before.card, slot, path) ==> got.Done? && after.drives[slot].readonly == readonly)
  }

  ghost predicate DismountOk(before: Snap, slot: int, got: Answer, after: Snap) {
    && got.Done?
    && if 0 <= slot < |before.drives| then
         && SlotDropped(before.blocks, after.blocks, slot)
         && after == before.(drives := before.drives[slot := Drive(false, true, false, "", 0)], blocks := after.blocks)
       else after == before
  }

  ghost predicate CloseOk(before: Snap, got: Answer, after: Snap) {
    && got.Done? && after == before.(drives := after.drives, blocks := after.blocks)
    && |after.drives| == |before.drives| && |after.blocks| == BLOCK_COUNT
    && (forall s :: 0 <= s < |after.drives| ==> after.drives[s] == Closed(before.drives[s]))
    && forall i :: 0 <= i < BLOCK_COUNT ==> after.blocks[i] == Block(-1, 0, 0, 0, false)
  }

  /**
   A read leaves the card and the drives, and fails on a slot without an image only,
   or by a fault. It returns what the cache holds of the range, and from a coherent
   cache the image's bytes. The length -1 reads as a failure to the caller.
   */
  ghost predicate ReadOk(before: Snap, slot: int, offset: nat, bytes: nat, faults: bool, got: Answer, after: Snap) {
    && after == before.(blocks := after.blocks, storage := after.storage) && !got.Done?
    && (before.storage != [] ==> |after.storage| == |before.storage|)
    && (got.Bytes? ==> MountedAt(before.drives, slot) && |got.data| == bytes)
    && (!faults && MountedAt(before.drives, slot) && bytes != DWORD_MOD - 1 ==> got.Bytes?)
    && (got.Bytes? && CoherentAt(before) ==> ExactAt(before, slot, offset, got.data))
    && (got.Bytes? && after.storage != [] && InOneBlock(before.drives, slot, offset, bytes) ==>
         CachedAt(after, slot, offset, got.data))
    && forall data: seq<byte> | |data| == bytes > 0 && MountedAt(before.drives, slot)
                                && CachedAt(before, slot, offset, data) ::
         got == Bytes(data)
  }

  /** A mount is for one of seven slots, with a path of 1 to 63 characters to an image of a size that the slot takes. */
  lemma MountableExactly(card: Card, slot: int, path: string)
    ensures Mountable(card, slot, path) <==>
            && 0 <= slot < 7 && 1 <= |path| <= 63 && path in card
            && SizeAccepted(slot, |card[path]| % 0x1_0000_0000)
  {
  }

  /** A write is refused when the slot has no image, or a read-only one, or some byte would lie past its end. */
  lemma RefusedExactly(drives: seq<Drive>, slot: int, offset: nat, bytes: nat)
    ensures WriteRefused(drives, slot, offset, bytes) <==>
            !(0 <= slot < |drives| && drives[slot].mounted && !drives[slot].readonly
              && if bytes == 0 then offset <= drives[slot].size else offset + bytes - 1 < drives[slot].size)
  {
  }

  predicate WriteRefused(drives: seq<Drive>, slot: int, offset: nat, bytes: nat) {
    !MountedAt(drives, slot) || drives[slot].readonly || offset + bytes > drives[slot].size
  }

  /** A block of another slot holds a byte that the write changes. */
  ghost predicate StalesAt(s: Snap, slot: int, offset: nat, data: seq<byte>) {
    && |s.blocks| == BLOCK_COUNT && |s.drives| == DRIVE_COUNT && 0 <= slot < DRIVE_COUNT
    && var path := s.drives[slot].path;
    && path in s.card && offset + |data| <= |s.card[path]|
    && GoesStale(s.blocks, s.drives, s.card[path], slot, offset, data)
  }

  /** Only the range of the image may change, and a write that succeeds leaves the data there. */
  ghost predicate RangeWritten(before: Card, after: Card, path: string, offset: nat, data: seq<byte>,
                               r: int, faults: bool)
    requires |data| < DWORD_MOD
  {
    && OnlyRewritten(before, after, path) && offset + |data| <= |after[path]|
    && after[path][..offset] == before[path][..offset]
    && after[path][offset + |data|..] == before[path][offset + |data|..]
    && (r == -1 || r == AsInt(|data|)) && (!faults ==> r == AsInt(|data|))
    && (r != -1 || !faults ==> after[path][offset..offset + |data|] == data)
  }

  /** What a write that is not refused does to the card, the cache and its coherence. */
  ghost predicate Written(before: Snap, slot: int, offset: nat, data: seq<byte>, r: int, faults: bool, after: Snap)
    requires 0 <= slot < |before.drives| && |data| < DWORD_MOD
  {
    var path := before.drives[slot].path;
    && after == before.(card := after.card, blocks := after.blocks)
    && RangeWritten(before.card, after.card, path, offset, data, r, faults)
    && Invalidated(before.blocks, after.blocks, slot, offset, |data|)
    && ((r != -1 || !faults) && CoherentAt(before) ==>
         (CoherentAt(after) <==> !StalesAt(before, slot, offset, data)))
  }

  /** A rewriting of the image after the slot's blocks were dropped is a write. */
  lemma RewriteIsWrite(before: Snap, between: Snap, slot: nat, offset: nat, data: seq<byte>, r: int, faults: bool,
                       after: Snap)
    requires |before.drives| == DRIVE_COUNT && |before.blocks| == BLOCK_COUNT && slot < DRIVE_COUNT
    requires |data| < DWORD_MOD && between == before.(blocks := between.blocks) && after == between.(card := after.card)
    requires Invalidated(before.blocks, between.blocks, slot, offset, |data|)
    requires CoherentAt(before) ==> CoherentAt(between)
    requires Rewritten(between, before.drives[slot].path, offset, data, r, faults, after)
    ensures Written(before, slot, offset, data, r, faults, after)
  {
    var image := before.card[before.drives[slot].path];
    OthersGoStale(before.blocks, between.blocks, before.drives, image, slot, offset, data);
  }

  /** What rewriting a range of an image does to the card and to the cache's coherence. */
  ghost predicate Rewritten(before: Snap, path: string, offset: nat, data: seq<byte>, r: int, faults: bool, after: Snap)
    requires |before.drives| == DRIVE_COUNT && |before.blocks| == BLOCK_COUNT && |data| < DWORD_MOD
  {
    && RangeWritten(before.card, after.card, path, offset, data, r, faults)
    && ((r != -1 || !faults) && CoherentAt(before) ==>
         (CoherentAt(after) <==> NoneStale(before.blocks, before.drives, before.card[path], path, offset, data)))
  }

  ghost predicate WriteOk(before: Snap, slot: int, offset: nat, data: seq<byte>, faults: bool, got: Answer, after: Snap)
    requires |data| < DWORD_MOD
  {
    && !got.Bytes?
    && if WriteRefused(before.drives, slot, offset, |data|) then got.Failed? && after == before
       else Written(before, slot, offset, data, if got.Done? then AsInt(|data|) else -1, faults, after)
  }

  /** A write leaves a coherent cache coherent: no other slot has the image, or none of them holds a byte changed. */
  ghost predicate Harmless(before: Snap, op: Op, got: Answer) {
    op.WriteAt? ==> SoleImage(before.drives, op.slot) || (got.Done? && !StalesAt(before, op.slot, op.offset, op.data))
  }

  ghost predicate StepOk(before: Snap, op: Op, faults: bool, got: Answer, after: Snap)
    requires OpOk(op)
  {
    && (CoherentAt(before) && Harmless(before, op, got) ==> CoherentAt(after))
    && match op
       case MountImage(slot, path, readonly) => MountOk(before, slot, path, readonly, faults, got, after)
       case DismountSlot(slot) => DismountOk(before, slot, got, after)
       case CloseEverything => CloseOk(before, got, after)
       case ReadAt(slot, offset, bytes) => ReadOk(before, slot, offset, bytes, faults, got, after)
       case WriteAt(slot, offset, data) => WriteOk(before, slot, offset, data, faults, got, after)
  }

  /** The moments of a run and what each operation came back with. */
  ghost predicate Trace(seen: seq<Snap>, ops: seq<Op>, faults: seq<bool>, got: seq<Answer>) {
    && |seen| == |ops| + 1 && |faults| == |got| == |ops|
    && forall k :: 0 <= k < |ops| ==> OpOk(ops[k]) && StepOk(seen[k], ops[k], faults[k], got[k], seen[k + 1])
  }

  /** No write before step `n` left a block of another slot stale. */
  ghost predicate HarmlessTo(seen: seq<Snap>, ops: seq<Op>, got: seq<Answer>, n: nat)
    requires |got| == |ops| <= |seen| && n <= |ops|
  {
    forall j :: 0 <= j < n ==> Harmless(seen[j], ops[j], got[j])
  }

  /** Every read returned the image's bytes, as the card and the drive then were. */
  ghost predicate ReadsExact(seen: seq<Snap>, ops: seq<Op>, got: seq<Answer>)
    requires |got| == |ops| <= |seen|
  {
    forall k :: 0 <= k < |ops| && HarmlessTo(seen, ops, got, k) && ops[k].ReadAt? && got[k].Bytes? ==>
      ExactAt(seen[k], ops[k].slot, ops[k].offset, got[k].data)
  }

  lemma {:induction false} TraceStaysCoherent(seen: seq<Snap>, ops: seq<Op>, faults: seq<bool>,
                                              got: seq<Answer>, n: nat)
    requires Trace(seen, ops, faults, got) && n <= |ops| && CoherentAt(seen[0]) && HarmlessTo(seen, ops, got, n)
    ensures CoherentAt(seen[n])
    decreases n
  {
    if n > 0 {
      TraceStaysCoherent(seen, ops, faults, got, n - 1);
      assert Harmless(seen[n - 1], ops[n - 1], got[n - 1]);
      assert StepOk(seen[n - 1], ops[n - 1], faults[n - 1], got[n - 1], seen[n]);
    }
  }

  /** In a run from a coherent cache every read is exact until a write leaves another slot's block stale. */
  lemma TraceReadsExact(seen: seq<Snap>, ops: seq<Op>, faults: seq<bool>, got: seq<Answer>)
    requires Trace(seen, ops, faults, got) && CoherentAt(seen[0])
    ensures ReadsExact(seen, ops, got)
  {
    forall k | 0 <= k < |ops| && HarmlessTo(seen, ops, got, k) && ops[k].ReadAt? && got[k].Bytes?
      ensures ExactAt(seen[k], ops[k].slot, ops[k].offset, got[k].data)
    {
      TraceStaysCoherent(seen, ops, faults, got, k);
      assert StepOk(seen[k], ops[k], faults[k], got[k], seen[k + 1]);
    }
  }

  lemma TraceExtends(seen: seq<Snap>, ops: seq<Op>, faults: seq<bool>, got: seq<Answer>,
                     op: Op, fault: bool, answer: Answer, after: Snap)
    requires Trace(seen, ops, faults, got) && OpOk(op) && StepOk(seen[|ops|], op, fault, answer, after)
    ensures Trace(seen + [after], ops + [op], faults + [fault], got + [answer])
  {
    var longer := seen + [after];
    forall k | 0 <= k < |ops| + 1
      ensures OpOk((ops + [op])[k])
      ensures StepOk(longer[k], (ops + [op])[k], (faults + [fault])[k], (got + [answer])[k], longer[k + 1])
    {
      if k < |ops| {
        assert StepOk(seen[k], ops[k], faults[k], got[k], seen[k + 1]);
      }
    }
  }

  class Disk {
    var card: Card
    const drives: array<Drive>
    const blocks: array<Block>
    var storage: array?<byte>
    var allocationAttempted: bool
    var clock: nat

    ghost predicate Valid()
      reads this, drives, blocks, storage
    {
      && DrivesOk(card, drives[..])
      && BlocksOk(blocks[..], drives[..], clock)
      && (storage != null ==> storage.Length == BLOCK_COUNT * BLOCK_BYTES)
      && (storage == null ==> forall i :: 0 <= i < BLOCK_COUNT ==> !blocks[i].valid)
    }

    /** Every valid block equals its file range. */
    ghost predicate Coherent()
      requires Valid()
      reads this, drives, blocks, storage
    {
      storage != null ==> AllHold(storage[..], blocks[..], drives[..], card)
    }

    ghost function Now(): Snap
      reads this, drives, blocks, storage
    {
      Snap(card, drives[..], blocks[..], if storage == null then [] else storage[..])
    }

    constructor (card: Card)
      ensures Valid() && Coherent() && this.card == card
      ensures fresh(drives) && fresh(blocks) && storage == null
      ensures drives.Length == 7 && blocks.Length == 8 && forall s :: 0 <= s < 7 ==> !drives[s].mounted
    {
      this.card := card;
      drives := new Drive[DRIVE_COUNT](_ => Drive(false, false, false, "", 0));
      blocks := new Block[BLOCK_COUNT](_ => Block(-1, 0, 0, 0, false));
      storage := null;
      allocationAttempted := false;
      clock := 0;
    }

    /** The bytes the card moves: all that were asked for, or fewer when it faults. */
    static method Transferred(want: nat, faults: bool) returns (n: nat)
      ensures n <= want && (!faults ==> n == want)
    {
      var moved: int := *;
      n := if faults && 0 <= moved < want then moved else want;
    }

    // ----- cache helpers -----

    method EnsureCache() returns (ok: bool)
      requires Valid()
      modifies this`storage, this`allocationAttempted
      ensures Valid() && ok == (storage != null)
      ensures storage == old(storage) || (old(storage) == null && storage != null && fresh(storage))
      ensures old(Coherent()) ==> Coherent()
    {
      if storage != null {
        return true;
      }
      if allocationAttempted {
        return false;
      }
      allocationAttempted := true;
      var granted: bool := *;
      if !granted {
        return false;
      }
      Allocate();
      return true;
    }

    /** The cache's memory, when there is enough. */
    method Allocate()
      requires Valid() && storage == null
      modifies this`storage
      ensures Valid() && storage != null && fresh(storage) && storage.Length == 8 * 8192 && Coherent()
    {
      storage := new byte[BLOCK_COUNT * BLOCK_BYTES];
    }

    method InvalidateAll()
      requires Valid()
      modifies this`clock, blocks
      ensures Valid() && Coherent()
      ensures forall i :: 0 <= i < BLOCK_COUNT ==> blocks[i] == Block(-1, 0, 0, 0, false)
      ensures clock == 0
    {
      for i := 0 to BLOCK_COUNT
        invariant forall j :: 0 <= j < i ==> blocks[j] == Block(-1, 0, 0, 0, false)
        invariant clock == old(clock)
      {
        blocks[i] := Block(-1, 0, 0, 0, false);
      }
      clock := 0;
    }

    /** Drops exactly the blocks of a slot. */
    method InvalidateSlot(slot: int)
      requires Valid()
      modifies blocks
      ensures Valid() && (old(Coherent()) ==> Coherent())
      ensures SlotDropped(old(blocks[..]), blocks[..], slot)
    {
      for i := 0 to BLOCK_COUNT
        invariant forall j :: 0 <= j < i ==>
          blocks[j] == if old(blocks[j]).valid && old(blocks[j]).slot == slot
                       then old(blocks[j]).(valid := false) else old(blocks[j])
        invariant forall j :: i <= j < BLOCK_COUNT ==> blocks[j] == old(blocks[j])
      {
        if blocks[i].valid && blocks[i].slot == slot {
          blocks[i] := blocks[i].(valid := false);
        }
      }
    }

    /** Drops exactly the blocks that share a byte with the range. */
    method InvalidateRange(slot: int, offset: dword, bytes: dword)
      requires Valid()
      modifies blocks
      ensures Valid() && (old(Coherent()) ==> Coherent())
      ensures Invalidated(old(blocks[..]), blocks[..], slot, offset, bytes)
    {
      if bytes == 0 {
        return;
      }
      for i := 0 to BLOCK_COUNT
        invariant forall j :: 0 <= j < i ==>
          blocks[j] == if old(blocks[j]).valid && Overlaps(old(blocks[j]), slot, offset, bytes)
                       then old(blocks[j]).(valid := false) else old(blocks[j])
        invariant forall j :: i <= j < BLOCK_COUNT ==> blocks[j] == old(blocks[j])
      {
        var block := blocks[i];
        if block.valid && block.slot == slot {
          if offset < block.offset + block.length && block.offset < offset + bytes {
            blocks[i] := block.(valid := false);
          }
        }
      }
    }

    /** The block keyed by (slot, offset), made the most recently used one; -1 if there is none. */
    method Find(slot: int, offset: nat) returns (found: int)
      requires Valid()
      modifies this`clock, blocks
      ensures Valid() && (old(Coherent()) ==> Coherent())
      ensures -1 <= found < BLOCK_COUNT
      ensures found == -1 ==> blocks[..] == old(blocks[..]) && clock == old(clock)
      ensures found == -1 ==> forall i :: 0 <= i < BLOCK_COUNT ==>
        !(blocks[i].valid && blocks[i].slot == slot && blocks[i].offset == offset)
      ensures found != -1 ==>
        && clock == old(clock) + 1
        && old(blocks[found]).valid && old(blocks[found]).slot == slot && old(blocks[found]).offset == offset
        && blocks[..] == old(blocks[..])[found := old(blocks[found]).(age := clock)]
    {
      for i := 0 to BLOCK_COUNT
        invariant blocks[..] == old(blocks[..]) && clock == old(clock)
        invariant forall j :: 0 <= j < i ==> !(blocks[j].valid && blocks[j].slot == slot && blocks[j].offset == offset)
      {
        var block := blocks[i];
        if block.valid && block.slot == slot && block.offset == offset {
          TouchBlock(blocks[..], drives[..], clock, i, block.(age := clock + 1));
          clock := clock + 1;
          blocks[i] := block.(age := clock);
          assert blocks[..] == old(blocks[..])[i := block.(age := clock)];
          return i;
        }
      }
      return -1;
    }

    /** The block to evict: the first unused one, or else the least recently used one. */
    method Victim() returns (victim: nat)
      requires Valid()
      ensures victim < BLOCK_COUNT
      ensures !blocks[victim].valid ==> forall i :: 0 <= i < victim ==> blocks[i].valid
      ensures blocks[victim].valid ==>
        forall i :: 0 <= i < BLOCK_COUNT && i != victim ==> blocks[i].valid && blocks[victim].age < blocks[i].age
    {
      victim := 0;
      for i := 0 to BLOCK_COUNT
        invariant victim < BLOCK_COUNT && (victim <= i)
        invariant forall j :: 0 <= j < i ==> blocks[j].valid
        invariant forall j :: 0 <= j < i && j != victim ==> blocks[victim].age < blocks[j].age
        invariant i > 0 ==> victim < i
      {
        if !blocks[i].valid {
          return i;
        }
        assert victim < i ==> Distinct(blocks[victim], blocks[i]);
        if blocks[i].age < blocks[victim].age {
          victim := i;
        }
      }
    }

    /** Loads the aligned block at `offset` of a mounted image into cache block `i`. */
    method FillBlock(i: nat, slot: nat, offset: nat, faults: bool) returns (ok: bool)
      requires Valid() && storage != null && i < BLOCK_COUNT && slot < DRIVE_COUNT
      requires drives[slot].mounted && offset % BLOCK_BYTES == 0 && offset < drives[slot].size
      requires forall j :: 0 <= j < BLOCK_COUNT ==>
        !(blocks[j].valid && blocks[j].slot == slot && blocks[j].offset == offset)
      modifies this`clock, blocks, storage
      ensures Valid() && (old(Coherent()) ==> Coherent())
      ensures !faults ==> ok
      ensures !ok ==> !blocks[i].valid && clock == old(clock)
      ensures ok ==>
        && clock == old(clock) + 1
        && blocks[i] == Block(slot, offset, Min(BLOCK_BYTES, drives[slot].size - offset), clock, true)
        && Holds(Region(storage[..], i), blocks[i], drives[..], card)
      ensures forall j :: 0 <= j < BLOCK_COUNT && j != i ==> blocks[j] == old(blocks[j])
    {
      DropBlock(blocks[..], drives[..], clock, i, blocks[i].(valid := false, slot := -1, length := 0));
      ghost var dropped := blocks[..][i := blocks[i].(valid := false, slot := -1, length := 0)];
      blocks[i] := blocks[i].(valid := false, slot := -1, length := 0);
      assert blocks[..] == dropped;
      var fillLen := Min(BLOCK_BYTES, drives[slot].size - offset);
      var seekOk: bool := *;
      if faults && !seekOk {
        return false;
      }
      var n := ReadFile(card[drives[slot].path], offset, fillLen, i, faults);
      if n != fillLen {
        return false;
      }
      Install(i, Block(slot, offset, fillLen, clock + 1, true));
      return true;
    }

    /** Publishes a block whose bytes are in place. */
    method Install(i: nat, b: Block)
      requires Valid() && storage != null && i < BLOCK_COUNT && b.valid && b.age == clock + 1
      requires BlockOk(b, drives[..], clock + 1) && Holds(Region(storage[..], i), b, drives[..], card)
      requires forall j :: 0 <= j < BLOCK_COUNT && j != i ==>
        !(blocks[j].valid && blocks[j].slot == b.slot && blocks[j].offset == b.offset)
      modifies this`clock, blocks
      ensures Valid() && (old(Coherent()) ==> Coherent())
      ensures clock == old(clock) + 1 && blocks[i] == b
      ensures forall j :: 0 <= j < BLOCK_COUNT && j != i ==> blocks[j] == old(blocks[j])
    {
      TouchBlock(blocks[..], drives[..], clock, i, b);
      clock := clock + 1;
      blocks[i] := b;
      assert blocks[..] == old(blocks[..])[i := b];
    }

    /** Reads up to `want` bytes of an image into cache region `i`; the other regions keep their bytes. */
    method ReadFile(image: seq<byte>, offset: nat, want: nat, i: nat, faults: bool) returns (n: nat)
      requires storage != null && storage.Length == BLOCK_COUNT * BLOCK_BYTES && i < BLOCK_COUNT
      requires want <= BLOCK_BYTES && offset + want <= |image|
      modifies storage
      ensures n <= want && (!faults ==> n == want)
      ensures Region(storage[..], i)[..n] == image[offset..offset + n]
      ensures forall j :: 0 <= j < BLOCK_COUNT && j != i ==> Region(storage[..], j) == old(Region(storage[..], j))
    {
      n := Transferred(want, faults);
      ghost var before := storage[..];
      forall k | 0 <= k < n {
        storage[i * BLOCK_BYTES + k] := image[offset + k];
      }
      forall j | 0 <= j < BLOCK_COUNT && j != i
        ensures Region(storage[..], j) == Region(before, j)
      {
        RegionFrame(before, storage[..], i, j);
      }
      RegionPrefix(storage[..], i, image, offset, n);
    }

    // ----- transfers -----

    static method Zero(buf: array<byte>, from: nat, to: nat)
      requires from <= to <= buf.Length
      modifies buf
      ensures forall k :: 0 <= k < buf.Length ==> buf[k] == if from <= k < to then 0 else old(buf[k])
    {
      forall k | from <= k < to {
        buf[k] := 0;
      }
    }

    /** Seek and read without the cache; the bytes past the end of the image read as zeros. */
    method ReadDirect(slot: nat, offset: dword, buf: array<byte>, bytes: dword, faults: bool) returns (r: int)
      requires Valid() && slot < DRIVE_COUNT && drives[slot].mounted && offset < drives[slot].size
      requires bytes <= buf.Length && (storage != null ==> buf != storage)
      modifies buf
      ensures r == -1 || r == AsInt(bytes)
      ensures !faults ==> r == AsInt(bytes)
      ensures r != -1 || !faults ==> forall k :: 0 <= k < bytes ==> buf[k] == ImageByte(card, drives[slot], offset + k)
      ensures forall k :: bytes <= k < buf.Length ==> buf[k] == old(buf[k])
    {
      var d := drives[slot];
      var image := card[d.path];
      var readLen := Min(bytes, d.size - offset);
      var seekOk: bool := *;
      if faults && !seekOk {
        return -1;
      }
      var n := Transferred(readLen, faults);
      forall k | 0 <= k < n {
        buf[k] := image[offset + k];
      }
      if n != readLen {
        return -1;
      }
      if readLen < bytes {
        Zero(buf, readLen, bytes);
      }
      return AsInt(bytes);
    }

    /** A valid block for an aligned offset, from the cache or from the card; -1 if the card fails. */
    method Obtain(slot: nat, offset: nat, faults: bool) returns (i: int)
      requires Valid() && storage != null && slot < DRIVE_COUNT
      requires drives[slot].mounted && offset % BLOCK_BYTES == 0 && offset < drives[slot].size
      modifies this`clock, blocks, storage
      ensures Valid() && (old(Coherent()) ==> Coherent())
      ensures -1 <= i < BLOCK_COUNT && (!faults ==> i != -1)
      ensures i != -1 ==> blocks[i].valid && blocks[i].slot == slot && blocks[i].offset == offset
      ensures old(Keyed(blocks[..], slot, offset)) ==>
        i != -1 && old(blocks[i].valid) && old(blocks[i].slot) == slot && old(blocks[i].offset) == offset
        && storage[..] == old(storage[..]) && blocks[i].length == old(blocks[i].length)
    {
      i := Find(slot, offset);
      if i == -1 {
        i := Victim();
        var ok := FillBlock(i, slot, offset, faults);
        if !ok {
          return -1;
        }
      }
    }

    /** What a coherent cache answers is what the image holds. */
    lemma AnswersTheImage(slot: nat, position: nat, data: seq<byte>)
      requires Valid() && storage != null && Coherent() && slot < DRIVE_COUNT
      requires Answers(blocks[..], storage[..], slot, position, data)
      ensures DriveOk(card, drives[slot], slot) && data == ImageBytes(card, drives[slot], position, |data|)
    {
      var i: nat :| i < BLOCK_COUNT && AnswersFrom(blocks[..], storage[..], i, slot, position, data);
      BlockAnswersTheImage(i, slot, position, data);
    }

    lemma BlockAnswersTheImage(i: nat, slot: nat, position: nat, data: seq<byte>)
      requires Valid() && storage != null && Coherent() && slot < DRIVE_COUNT && i < BLOCK_COUNT
      requires AnswersFrom(blocks[..], storage[..], i, slot, position, data)
      ensures DriveOk(card, drives[slot], slot) && data == ImageBytes(card, drives[slot], position, |data|)
    {
      assert DriveOk(card, drives[slot], slot);
      forall k | 0 <= k < |data| ensures data[k] == ImageByte(card, drives[slot], position + k) {
        BlockSupplies(i, position + k);
      }
      ImageBytesAre(card, drives[slot], position, data);
    }

    lemma MoreOfTheImage(slot: nat, offset: nat, buf: seq<byte>, done: nat, n: nat)
      requires Valid() && storage != null && Coherent() && slot < DRIVE_COUNT && DriveOk(card, drives[slot], slot)
      requires done + n <= |buf| && buf[..done] == ImageBytes(card, drives[slot], offset, done)
      requires Answers(blocks[..], storage[..], slot, offset + done, buf[done..done + n])
      ensures buf[..done + n] == ImageBytes(card, drives[slot], offset, done + n)
    {
      AnswersTheImage(slot, offset + done, buf[done..done + n]);
      ImageBytesExtend(card, drives[slot], offset, buf, done, n);
    }

    /** The bytes a coherent block supplies are the image's. */
    lemma BlockSupplies(i: nat, position: nat)
      requires Valid() && storage != null && Coherent() && i < BLOCK_COUNT && blocks[i].valid
      requires blocks[i].offset <= position < blocks[i].offset + blocks[i].length
      ensures 0 <= blocks[i].slot < DRIVE_COUNT
      ensures storage[i * BLOCK_BYTES + (position - blocks[i].offset)] ==
          ImageByte(card, drives[blocks[i].slot], position)
    {
      var b := blocks[i];
      assert BlockOk(b, drives[..], clock);
      assert DriveOk(card, drives[b.slot], b.slot);
      var image := card[drives[b.slot].path];
      assert Holds(Region(storage[..], i), b, drives[..], card);
      assert Region(storage[..], i)[..b.length][position - b.offset] ==
          image[b.offset..b.offset + b.length][position - b.offset];
    }

    method CopyBlock(i: nat, position: nat, buf: array<byte>, done: nat, n: nat)
      requires storage != null && storage.Length == BLOCK_COUNT * BLOCK_BYTES && blocks.Length == BLOCK_COUNT
      requires i < BLOCK_COUNT && blocks[i].valid && blocks[i].length <= BLOCK_BYTES && buf != storage
      requires blocks[i].offset <= position && position + n <= blocks[i].offset + blocks[i].length
      requires done + n <= buf.Length
      modifies buf
      ensures AnswersFrom(blocks[..], storage[..], i, blocks[i].slot, position, buf[done..done + n])
      ensures forall k :: 0 <= k < buf.Length && !(done <= k < done + n) ==> buf[k] == old(buf[k])
    {
      var start := i * BLOCK_BYTES + (position - blocks[i].offset);
      forall k | done <= k < done + n {
        buf[k] := storage[start + (k - done)];
      }
    }

    /** One block's part of a transfer: the block is found or filled, and its bytes are copied. */
    method ReadPiece(slot: nat, current: nat, buf: array<byte>, done: nat, bytes: nat, faults: bool) returns (n: int)
      requires Valid() && storage != null && buf != storage && slot < DRIVE_COUNT && drives[slot].mounted
      requires current < drives[slot].size && done < bytes <= buf.Length
      modifies this`clock, blocks, storage, buf
      ensures Valid() && (old(Coherent()) ==> Coherent())
      ensures -1 <= n <= bytes - done && n != 0 && (!faults ==> n != -1)
      ensures forall k :: 0 <= k < buf.Length && !(done <= k < done + n) ==> buf[k] == old(buf[k])
      ensures buf[..done] == old(buf[..done])
      ensures n != -1 ==> Answers(blocks[..], storage[..], slot, current, buf[done..done + n])
      ensures Settled(InOneBlock(drives[..], slot, current, bytes - done), old(blocks[..]), old(storage[..]),
                      blocks[..], storage[..], slot, current, buf[done..bytes], n)
    {
      var i := Lookup(slot, current, faults);
      if i == -1 {
        return -1;
      }
      ghost var one, after, now := InOneBlock(drives[..], slot, current, bytes - done), blocks[..], storage[..];
      n := CopyPiece(i, current, buf, done, bytes);
      assert blocks[..] == after && storage[..] == now && after[i].slot == slot;
      assert Answers(after, now, slot, current, buf[done..done + n]);
      assert one ==> n == bytes - done;
      PieceSettles(one, old(blocks[..]), old(storage[..]), after, now, i, slot, current, buf[done..bytes], n);
    }

    /** As much as the block has, or the transfer still wants. */
    method CopyPiece(i: nat, position: nat, buf: array<byte>, done: nat, bytes: nat) returns (n: nat)
      requires storage != null && storage.Length == BLOCK_COUNT * BLOCK_BYTES && blocks.Length == BLOCK_COUNT
      requires i < BLOCK_COUNT && blocks[i].valid && blocks[i].length <= BLOCK_BYTES && buf != storage
      requires blocks[i].offset == position - position % BLOCK_BYTES && position < blocks[i].offset + blocks[i].length
      requires done < bytes <= buf.Length
      modifies buf
      ensures 0 < n <= bytes - done && n == Min(bytes - done, blocks[i].offset + blocks[i].length - position)
      ensures AnswersFrom(blocks[..], storage[..], i, blocks[i].slot, position, buf[done..bytes][..n])
      ensures Answers(blocks[..], storage[..], blocks[i].slot, position, buf[done..done + n])
      ensures forall k :: 0 <= k < buf.Length && !(done <= k < done + n) ==> buf[k] == old(buf[k])
    {
      var inBlock := position % BLOCK_BYTES;
      n := Min(bytes - done, blocks[i].length - inBlock);
      CopyBlock(i, position, buf, done, n);
      AnswersByBlock(blocks[..], storage[..], i, blocks[i].slot, position, buf[done..done + n]);
      assert buf[done..bytes][..n] == buf[done..done + n];
    }

    /** The block a position is in. A range the cache can answer is answered from it as it was. */
    method Lookup(slot: nat, current: nat, faults: bool) returns (i: int)
      requires Valid() && storage != null && slot < DRIVE_COUNT && drives[slot].mounted && current < drives[slot].size
      modifies this`clock, blocks, storage
      ensures Valid() && (old(Coherent()) ==> Coherent())
      ensures -1 <= i < BLOCK_COUNT && (!faults ==> i != -1)
      ensures i != -1 ==>
        var b := blocks[i];
        && b.valid && b.slot == slot && b.offset == current - current % BLOCK_BYTES
        && b.length == Min(BLOCK_BYTES, drives[slot].size - b.offset)
      ensures KeepsAnswers(old(blocks[..]), old(storage[..]), blocks[..], storage[..], i, slot, current)
    {
      i := Obtain(slot, current - current % BLOCK_BYTES, faults);
      if i != -1 {
        assert BlockOk(blocks[i], drives[..], clock);
      }
      forall data: seq<byte> | data != [] && old(Answers(blocks[..], storage[..], slot, current, data))
        ensures i != -1 && AnswersFrom(blocks[..], storage[..], i, slot, current, data)
      {
        AnswerKept(old(blocks[..]), old(storage[..]), drives[..], old(clock), i, slot, current, data,
                   blocks[..], storage[..]);
      }
    }

    /** The same transfer through the cache, block by block. */
    method ReadCached(slot: nat, offset: dword, buf: array<byte>, bytes: dword, faults: bool) returns (r: int)
      requires Valid() && storage != null && buf != storage
      requires slot < DRIVE_COUNT && drives[slot].mounted && offset < drives[slot].size && bytes <= buf.Length
      modifies this`clock, blocks, storage, buf
      ensures Valid() && (old(Coherent()) ==> Coherent())
      ensures r == -1 || r == AsInt(bytes)
      ensures !faults ==> r == AsInt(bytes)
      ensures old(Coherent()) && (r != -1 || !faults) ==>
        forall k :: 0 <= k < bytes ==> buf[k] == ImageByte(card, drives[slot], offset + k)
      ensures forall k :: bytes <= k < buf.Length ==> buf[k] == old(buf[k])
      ensures InOneBlock(drives[..], slot, offset, bytes) && (r != -1 || !faults) ==>
        Answers(blocks[..], storage[..], slot, offset, buf[..bytes])
      ensures bytes > 0 ==>
        forall data: seq<byte> | |data| == bytes && old(Answers(blocks[..], storage[..], slot, offset, data)) ::
          r == AsInt(bytes) && buf[..bytes] == data
    {
      assert DriveOk(card, drives[slot], slot);
      var ok := ReadBlocks(slot, offset, buf, bytes, faults);
      r := if ok then AsInt(bytes) else -1;
      if ok && old(Coherent()) {
        ImageBytesAt(card, drives[slot], offset, bytes);
        assert forall k :: 0 <= k < bytes ==> buf[k] == buf[..bytes][k];
      }
    }

    method ReadBlocks(slot: nat, offset: nat, buf: array<byte>, bytes: nat, faults: bool) returns (ok: bool)
      requires Valid() && storage != null && buf != storage && bytes <= buf.Length
      requires slot < DRIVE_COUNT && drives[slot].mounted && offset < drives[slot].size
      requires DriveOk(card, drives[slot], slot)
      modifies this`clock, blocks, storage, buf
      ensures Valid() && (old(Coherent()) ==> Coherent())
      ensures !faults ==> ok
      ensures forall k :: bytes <= k < buf.Length ==> buf[k] == old(buf[k])
      ensures old(Coherent()) && ok ==> buf[..bytes] == ImageBytes(card, drives[slot], offset, bytes)
      ensures InOneBlock(drives[..], slot, offset, bytes) && ok ==>
        Answers(blocks[..], storage[..], slot, offset, buf[..bytes])
      ensures bytes > 0 ==>
        forall data: seq<byte> | |data| == bytes && old(Answers(blocks[..], storage[..], slot, offset, data)) ::
          ok && buf[..bytes] == data
    {
      var done := 0;
      while done < bytes
        invariant done <= bytes && DriveOk(card, drives[slot], slot)
        invariant Valid() && (old(Coherent()) ==> Coherent())
        invariant old(Coherent()) ==> buf[..done] == ImageBytes(card, drives[slot], offset, done)
        invariant forall k :: bytes <= k < buf.Length ==> buf[k] == old(buf[k])
        invariant done == 0 ==> blocks[..] == old(blocks[..]) && storage[..] == old(storage[..])
        invariant InOneBlock(drives[..], slot, offset, bytes) && done > 0 ==>
          done == bytes && Answers(blocks[..], storage[..], slot, offset, buf[..bytes])
        invariant done > 0 ==>
          forall data: seq<byte> | |data| == bytes && old(Answers(blocks[..], storage[..], slot, offset, data)) ::
            done == bytes && buf[..bytes] == data
      {
        var n := ReadNext(slot, offset, buf, done, bytes, faults);
        if n == -1 {
          return false;
        }
        assert done == 0 ==> buf[done..bytes] == buf[..bytes];
        done := done + n;
      }
      return true;
    }

    /** One turn of the transfer: the rest of a block, or zeros once the image has ended. */
    method ReadNext(slot: nat, offset: nat, buf: array<byte>, done: nat, bytes: nat, faults: bool) returns (n: int)
      requires Valid() && storage != null && buf != storage && slot < DRIVE_COUNT && drives[slot].mounted
      requires done < bytes <= buf.Length && DriveOk(card, drives[slot], slot)
      modifies this`clock, blocks, storage, buf
      ensures Valid() && (old(Coherent()) ==> Coherent())
      ensures -1 <= n <= bytes - done && n != 0 && (!faults ==> n != -1)
      ensures forall k :: bytes <= k < buf.Length ==> buf[k] == old(buf[k])
      ensures n != -1 && old(Coherent()) && old(buf[..done]) == ImageBytes(card, drives[slot], offset, done) ==>
        buf[..done + n] == ImageBytes(card, drives[slot], offset, done + n)
      ensures Settled(InOneBlock(drives[..], slot, offset + done, bytes - done), old(blocks[..]), old(storage[..]),
                      blocks[..], storage[..], slot, offset + done, buf[done..bytes], n)
    {
      if offset + done >= drives[slot].size {
        NoAnswerPastTheEnd(slot, offset + done);
        ZeroTail(slot, offset, buf, done, bytes);
        n := bytes - done;
      } else {
        n := ReadOn(slot, offset, buf, done, bytes, faults);
      }
    }

    /** One block's part of a transfer that has reached `done`. */
    method ReadOn(slot: nat, offset: nat, buf: array<byte>, done: nat, bytes: nat, faults: bool) returns (n: int)
      requires Valid() && storage != null && buf != storage && slot < DRIVE_COUNT && drives[slot].mounted
      requires done < bytes <= buf.Length && DriveOk(card, drives[slot], slot) && offset + done < drives[slot].size
      modifies this`clock, blocks, storage, buf
      ensures Valid() && (old(Coherent()) ==> Coherent())
      ensures -1 <= n <= bytes - done && n != 0 && (!faults ==> n != -1)
      ensures forall k :: bytes <= k < buf.Length ==> buf[k] == old(buf[k])
      ensures n != -1 && old(Coherent()) && old(buf[..done]) == ImageBytes(card, drives[slot], offset, done) ==>
        buf[..done + n] == ImageBytes(card, drives[slot], offset, done + n)
      ensures Settled(InOneBlock(drives[..], slot, offset + done, bytes - done), old(blocks[..]), old(storage[..]),
                      blocks[..], storage[..], slot, offset + done, buf[done..bytes], n)
    {
      n := ReadPiece(slot, offset + done, buf, done, bytes, faults);
      if n != -1 && old(Coherent()) && buf[..done] == ImageBytes(card, drives[slot], offset, done) {
        MoreOfTheImage(slot, offset, buf[..], done, n);
      }
    }

    /** Past the end the image reads as zeros. */
    method ZeroTail(slot: nat, offset: nat, buf: array<byte>, done: nat, bytes: nat)
      requires drives.Length == DRIVE_COUNT && slot < DRIVE_COUNT && DriveOk(card, drives[slot], slot)
      requires done < bytes <= buf.Length && offset + done >= drives[slot].size
      modifies buf
      ensures forall k :: bytes <= k < buf.Length ==> buf[k] == old(buf[k])
      ensures old(buf[..done]) == ImageBytes(card, drives[slot], offset, done) ==>
        buf[..bytes] == ImageBytes(card, drives[slot], offset, bytes)
    {
      Zero(buf, done, bytes);
      assert buf[..done] == old(buf[..done]);
      if buf[..done] == ImageBytes(card, drives[slot], offset, done) {
        ZerosPastTheEnd(card, drives[slot], offset + done, buf[done..bytes]);
        ImageBytesExtend(card, drives[slot], offset, buf[..], done, bytes - done);
      }
    }

    lemma NoAnswerPastTheEnd(slot: nat, offset: nat)
      requires Valid() && slot < DRIVE_COUNT && offset >= drives[slot].size
      ensures storage != null ==>
        forall data: seq<byte> | data != [] :: !Answers(blocks[..], storage[..], slot, offset, data)
    {
      forall data: seq<byte>, i: nat | data != [] && storage != null && i < BLOCK_COUNT
        ensures !AnswersFrom(blocks[..], storage[..], i, slot, offset, data)
      {
        assert BlockOk(blocks[i], drives[..], clock);
      }
    }

    /**
     A successful read returns the image bytes, zero-extended past its end, with or
     without the cache; without faults every read of a mounted slot succeeds. Coherent
     or not, a range the cache holds is answered from it, and a range inside one block
     is in the cache afterwards.
     */
    method DiskRead(slot: int, offset: dword, buf: array?<byte>, bytes: dword, faults: bool) returns (r: int)
      requires Valid() && (buf != null ==> bytes <= buf.Length && buf != storage)
      modifies this`clock, this`storage, this`allocationAttempted, blocks, storage, buf
      ensures Valid() && (old(Coherent()) ==> Coherent())
      ensures storage == old(storage) || (old(storage) == null && fresh(storage))
      ensures !(0 <= slot < DRIVE_COUNT) || !drives[slot].mounted ==> r == -1
      ensures 0 <= slot < DRIVE_COUNT && drives[slot].mounted ==>
        && (r == -1 || r == AsInt(bytes))
        && (bytes != 0 && buf == null ==> r == -1)
        && (!faults && (bytes == 0 || buf != null) ==> r == AsInt(bytes))
        && (old(Coherent()) && buf != null && (r != -1 || !faults) ==>
             forall k :: 0 <= k < bytes ==> buf[k] == ImageByte(card, drives[slot], offset + k))
      ensures buf != null ==> forall k :: bytes <= k < buf.Length ==> buf[k] == old(buf[k])
      ensures buf != null && storage != null && InOneBlock(drives[..], slot, offset, bytes) && (r != -1 || !faults) ==>
        0 <= slot < DRIVE_COUNT && drives[slot].mounted ==> Answers(blocks[..], storage[..], slot, offset, buf[..bytes])
      ensures buf != null && old(storage) != null && 0 <= slot < DRIVE_COUNT && drives[slot].mounted ==>
        forall data: seq<byte> | |data| == bytes > 0 && old(Answers(blocks[..], storage[..], slot, offset, data)) ::
          r == AsInt(bytes) && buf[..bytes] == data
    {
      if !(0 <= slot < DRIVE_COUNT) || !drives[slot].mounted {
        return -1;
      }
      if bytes == 0 {
        return 0;
      }
      if buf == null {
        return -1;
      }
      if offset >= drives[slot].size {
        NoAnswerPastTheEnd(slot, offset);
        Zero(buf, 0, bytes);
        return AsInt(bytes);
      }
      var cached := EnsureCache();
      if !cached {
        r := ReadDirect(slot, offset, buf, bytes, faults);
        return;
      }
      r := ReadCached(slot, offset, buf, bytes, faults);
    }

    /**
     A write is refused without effect, or changes only its byte range of the image
     and drops the slot's blocks there. A completed write leaves a coherent cache
     coherent if and only if it changes no byte that another slot's block holds.
     */
    method DiskWrite(slot: int, offset: dword, data: seq<byte>, faults: bool) returns (r: int)
      requires Valid() && |data| < DWORD_MOD
      modifies this`card, blocks
      ensures Valid() && (old(Coherent()) && SoleImage(drives[..], slot) ==> Coherent())
      ensures WriteRefused(drives[..], slot, offset, |data|) ==> r == -1 && Now() == old(Now())
      ensures !WriteRefused(drives[..], slot, offset, |data|) ==>
        Written(old(Now()), slot, offset, data, r, faults, Now())
    {
      if !(0 <= slot < DRIVE_COUNT) || !drives[slot].mounted {
        return -1;
      }
      var d := drives[slot];
      if d.readonly {
        return -1;
      }
      if offset > d.size || |data| > d.size - offset {
        return -1;
      }
      r := WriteThrough(slot, offset, data, faults);
    }

    method WriteThrough(slot: nat, offset: dword, data: seq<byte>, faults: bool) returns (r: int)
      requires Valid() && |data| < DWORD_MOD && slot < DRIVE_COUNT && drives[slot].mounted
      requires offset + |data| <= drives[slot].size
      modifies this`card, blocks
      ensures Valid() && (old(Coherent()) && SoleImage(drives[..], slot) ==> Coherent())
      ensures Written(old(Now()), slot, offset, data, r, faults, Now())
    {
      var path := drives[slot].path;
      assert DriveOk(card, drives[slot], slot);
      InvalidateRange(slot, offset, |data|);
      ghost var between := Now();
      r := SeekAndWrite(path, slot, offset, data, faults);
      RewriteIsWrite(old(Now()), between, slot, offset, data, r, faults, Now());
    }

    method SeekAndWrite(path: string, ghost slot: nat, offset: nat, data: seq<byte>, faults: bool) returns (r: int)
      requires Valid() && slot < DRIVE_COUNT && drives[slot].mounted && drives[slot].path == path
      requires path in card && offset + |data| <= |card[path]| && |data| < DWORD_MOD
      requires Untouched(blocks[..], slot, offset, |data|)
      modifies this`card
      ensures Valid() && (old(Coherent()) && SoleImage(drives[..], slot) ==> Coherent())
      ensures Rewritten(old(Now()), path, offset, data, r, faults, Now())
    {
      var seekOk: bool := *;
      if faults && !seekOk {
        assert card == card[path := card[path]];
        return -1;
      }
      var n := WriteFile(path, slot, offset, data, faults);
      if n == |data| {
        assert data[..n] == data;
        return AsInt(|data|);
      }
      return -1;
    }

    /** Writes some prefix of the data; what a failing write leaves in the rest of the range is arbitrary. */
    method WriteFile(path: string, ghost slot: nat, offset: nat, data: seq<byte>, faults: bool) returns (n: nat)
      requires Valid() && slot < DRIVE_COUNT && drives[slot].mounted && drives[slot].path == path
      requires path in card && offset + |data| <= |card[path]|
      requires Untouched(blocks[..], slot, offset, |data|)
      modifies this`card
      ensures Valid() && n <= |data| && (!faults ==> n == |data|)
      ensures OnlyRewritten(old(card), card, path)
      ensures card[path][..offset] == old(card)[path][..offset]
      ensures card[path][offset + |data|..] == old(card)[path][offset + |data|..]
      ensures card[path][offset..offset + n] == data[..n]
      ensures old(Coherent()) && SoleImage(drives[..], slot) ==> Coherent()
      ensures old(Coherent()) && n == |data| ==>
        (Coherent() <==> NoneStale(blocks[..], drives[..], old(card)[path], path, offset, data))
    {
      n := Transferred(|data|, faults);
      var rest: seq<byte> := *;
      var middle := data[..n] + Leftover(card[path], offset + n, |data| - n, rest);
      var image := Spliced(card[path], offset, middle);
      RewriteKeepsDrives(card, card[path := image], path, drives[..]);
      if old(Coherent()) && storage != null && SoleImage(drives[..], slot) {
        SpliceKeepsSoleCache(storage[..], blocks[..], drives[..], clock, card, slot, offset, middle);
      }
      assert image[offset..offset + n] == image[offset..offset + |data|][..n] == data[..n];
      if old(Coherent()) && n == |data| {
        assert middle == data;
        NothingStale(path, offset, data);
      }
      card := card[path := image];
    }

    /** The condition under which a completed write keeps the cache coherent. */
    lemma NothingStale(path: string, offset: nat, data: seq<byte>)
      requires Valid() && Coherent() && path in card && offset + |data| <= |card[path]|
      ensures var after := card[path := Spliced(card[path], offset, data)];
              (storage != null ==> AllHold(storage[..], blocks[..], drives[..], after)) <==>
              NoneStale(blocks[..], drives[..], card[path], path, offset, data)
    {
      if storage != null {
        StaleExactly(storage[..], blocks[..], drives[..], clock, card, path, offset, data);
      }
    }

    // ----- mounting -----

    /**
     A refused mount changes nothing. A mount replaces the slot's drive, with the
     image's size, and drops exactly the slot's blocks.
     */
    method Mount(slot: int, path: string, forceReadonly: bool, faults: bool) returns (ok: bool)
      requires Valid()
      modifies drives, blocks
      ensures Valid() && (old(Coherent()) ==> Coherent())
      ensures !ok ==> drives[..] == old(drives[..]) && blocks[..] == old(blocks[..])
      ensures ok ==>
        && Mountable(card, slot, path) && (forceReadonly ==> drives[slot].readonly)
        && drives[slot] == Drive(true, true, drives[slot].readonly, path, |card[path]| % DWORD_MOD)
        && drives[..] == old(drives[..])[slot := drives[slot]]
        && SlotDropped(old(blocks[..]), blocks[..], slot)
      ensures !faults && Mountable(card, slot, path) ==> ok && drives[slot].readonly == forceReadonly
    {
      if !(0 <= slot < DRIVE_COUNT) || path == "" || |path| >= PATH_MAX {
        return false;
      }
      var isOpen, readonly := OpenImage(path, forceReadonly, faults);
      if !isOpen {
        return false;
      }
      var size := |card[path]| % DWORD_MOD;
      if !SizeAccepted(slot, size) {
        return false;
      }
      InvalidateSlot(slot);
      SetDrive(slot, Drive(true, true, readonly, path, size));
      return true;
    }

    /** Read-write unless forced or refused, then read-only. */
    method OpenImage(path: string, forceReadonly: bool, faults: bool) returns (isOpen: bool, readonly: bool)
      ensures isOpen ==> path in card && (forceReadonly ==> readonly)
      ensures !faults && path in card ==> isOpen && readonly == forceReadonly
    {
      readonly := forceReadonly;
      isOpen := false;
      if !forceReadonly {
        isOpen := Open(path, faults);
      }
      if !isOpen {
        isOpen := Open(path, faults);
        readonly := true;
      }
    }

    method Open(path: string, faults: bool) returns (ok: bool)
      ensures ok ==> path in card
      ensures !faults ==> ok == (path in card)
    {
      var refused: bool := *;
      ok := path in card && !(faults && refused);
    }

    method SetDrive(slot: nat, d: Drive)
      requires Valid() && slot < DRIVE_COUNT && DriveOk(card, d, slot)
      requires forall i :: 0 <= i < BLOCK_COUNT ==> !(blocks[i].valid && blocks[i].slot == slot)
      modifies drives
      ensures Valid() && (old(Coherent()) ==> Coherent())
      ensures drives[..] == old(drives[..])[slot := d]
    {
      drives[slot] := d;
      assert drives[..] == old(drives[..])[slot := d];
    }

    method Dismount(slot: int)
      requires Valid()
      modifies drives, blocks
      ensures Valid() && (old(Coherent()) ==> Coherent())
      ensures drives[..] == if 0 <= slot < DRIVE_COUNT then old(drives[..])[slot := Drive(false, true, false, "", 0)]
                            else old(drives[..])
      ensures if 0 <= slot < DRIVE_COUNT then SlotDropped(old(blocks[..]), blocks[..], slot)
              else blocks[..] == old(blocks[..])
    {
      if !(0 <= slot < DRIVE_COUNT) {
        return;
      }
      InvalidateSlot(slot);
      SetDrive(slot, Drive(false, true, false, "", 0));
    }

    /**
     Closes and reopens every mounted image. Each slot ends with its old image or
     empty, and without faults every mounted drive comes back as it was.
     */
    method ReopenAll(faults: bool) returns (allOk: bool)
      requires Valid()
      modifies this`clock, drives, blocks
      ensures Valid() && Coherent()
      ensures forall s :: 0 <= s < DRIVE_COUNT ==> Reopened(old(drives[s]), drives[s])
      ensures allOk <==> forall s :: 0 <= s < DRIVE_COUNT && old(drives[s]).mounted ==> drives[s].mounted
      ensures !faults ==> allOk && forall s :: 0 <= s < DRIVE_COUNT ==>
        drives[s].readonly == old(drives[s]).readonly
    {
      InvalidateAll();
      var saved := drives[..];
      CloseAll();
      allOk := true;
      for s := 0 to DRIVE_COUNT
        invariant Valid() && Coherent()
        invariant ReopenedUpTo(saved, drives[..], s, allOk, faults)
      {
        assert DriveOk(card, saved[s], s);
        var ok := ReopenSlot(s, saved[s], faults);
        allOk := allOk && ok;
      }
    }

    method ReopenSlot(slot: nat, saved: Drive, faults: bool) returns (ok: bool)
      requires Valid() && Coherent() && slot < DRIVE_COUNT
      requires DriveOk(card, saved, slot) && drives[slot] == Closed(saved)
      modifies drives, blocks
      ensures Valid() && Coherent()
      ensures drives[..] == old(drives[..])[slot := drives[slot]]
      ensures Reopened(saved, drives[slot]) && ok == (saved.mounted ==> drives[slot].mounted)
      ensures !faults ==> ok && drives[slot].readonly == saved.readonly
    {
      ok := true;
      if saved.mounted {
        ok := Mount(slot, saved.path, saved.readonly, faults);
      }
    }

    method CloseAll()
      requires Valid() && forall i :: 0 <= i < BLOCK_COUNT ==> !blocks[i].valid
      modifies drives
      ensures Valid() && Coherent()
      ensures forall s :: 0 <= s < DRIVE_COUNT ==> drives[s] == Closed(old(drives[s]))
    {
      for s := 0 to DRIVE_COUNT
        invariant Valid() && Coherent()
        invariant forall t :: 0 <= t < s ==> drives[t] == Closed(old(drives[t]))
        invariant forall t :: s <= t < DRIVE_COUNT ==> drives[t] == old(drives[t])
      {
        SetDrive(s, Closed(drives[s]));
      }
    }

    // ----- whole runs -----

    method Perform(op: Op, faults: bool) returns (got: Answer)
      requires Valid() && OpOk(op)
      modifies this, drives, blocks, storage
      ensures Valid() && (storage == old(storage) || (old(storage) == null && fresh(storage)))
      ensures StepOk(old(Now()), op, faults, got, Now())
    {
      match op {
        case MountImage(slot, path, readonly) =>
          got := PerformMount(slot, path, readonly, faults);
        case DismountSlot(slot) =>
          Dismount(slot);
          got := Done;
        case CloseEverything =>
          InvalidateAll();
          CloseAll();
          got := Done;
        case ReadAt(slot, offset, bytes) =>
          got := PerformRead(slot, offset, bytes, faults);
        case WriteAt(slot, offset, data) =>
          got := PerformWrite(slot, offset, data, faults);
      }
    }

    method PerformMount(slot: int, path: string, readonly: bool, faults: bool) returns (got: Answer)
      requires Valid()
      modifies drives, blocks
      ensures Valid() && StepOk(old(Now()), MountImage(slot, path, readonly), faults, got, Now())
    {
      var ok := Mount(slot, path, readonly, faults);
      got := if ok then Done else Failed;
    }

    method PerformRead(slot: int, offset: dword, bytes: dword, faults: bool) returns (got: Answer)
      requires Valid()
      modifies this, blocks, storage
      ensures Valid() && (storage == old(storage) || (old(storage) == null && fresh(storage)))
      ensures StepOk(old(Now()), ReadAt(slot, offset, bytes), faults, got, Now())
    {
      ghost var was := Now();
      var buf := new byte[bytes](_ => 0);
      var r := DiskRead(slot, offset, buf, bytes, faults);
      got := if r == -1 then Failed else Bytes(buf[..]);
      assert buf[..bytes] == buf[..] && Now() == was.(blocks := Now().blocks, storage := Now().storage);
      if MountedAt(was.drives, slot) {
        if old(Coherent()) && got.Bytes? {
          assert DriveOk(card, drives[slot], slot);
          ImageBytesAre(card, drives[slot], offset, buf[..]);
        }
        forall data: seq<byte> | |data| == bytes > 0 && CachedAt(was, slot, offset, data)
          ensures got == Bytes(data)
        {
          assert old(Answers(blocks[..], storage[..], slot, offset, data));
        }
      }
    }

    method PerformWrite(slot: int, offset: dword, data: seq<byte>, faults: bool) returns (got: Answer)
      requires Valid() && |data| < DWORD_MOD
      modifies this`card, blocks
      ensures Valid() && StepOk(old(Now()), WriteAt(slot, offset, data), faults, got, Now())
    {
      var r := DiskWrite(slot, offset, data, faults);
      got := if r == -1 then Failed else Done;
    }

    /**
     Every run of mounts, dismounts, reopenings, reads and writes, with whatever may
     fail, is a trace: and from a coherent cache every successful read returns
     exactly the image's bytes, until a write leaves a block of another slot stale.
     */
    method PerformAll(ops: seq<Op>, faults: seq<bool>) returns (got: seq<Answer>, ghost seen: seq<Snap>)
      requires Valid() && |faults| == |ops| && forall k :: 0 <= k < |ops| ==> OpOk(ops[k])
      modifies this, drives, blocks, storage
      ensures Valid() && Trace(seen, ops, faults, got) && seen[0] == old(Now()) && seen[|ops|] == Now()
      ensures old(Coherent()) ==> ReadsExact(seen, ops, got)
      ensures old(Coherent()) && HarmlessTo(seen, ops, got, |ops|) ==> Coherent()
    {
      got, seen := [], [Now()];
      for k := 0 to |ops|
        invariant Valid() && Trace(seen, ops[..k], faults[..k], got) && seen[0] == old(Now()) && seen[k] == Now()
        invariant storage == old(storage) || (old(storage) == null && fresh(storage))
      {
        var answer := Perform(ops[k], faults[k]);
        TraceExtends(seen, ops[..k], faults[..k], got, ops[k], faults[k], answer, Now());
        got, seen := got + [answer], seen + [Now()];
        assert ops[..k + 1] == ops[..k] + [ops[k]] && faults[..k + 1] == faults[..k] + [faults[k]];
      }
      assert ops[..|ops|] == ops && faults[..|ops|] == faults;
      if old(Coherent()) {
        TraceReadsExact(seen, ops, faults, got);
        if HarmlessTo(seen, ops, got, |ops|) {
          TraceStaysCoherent(seen, ops, faults, got, |ops|);
        }
      }
    }
  }

  // ----- one image in two slots -----

  const SHARED_PATH := "/shared.dsk"

  /** Slots 0 and 1 get one image. Slot 0 reads a byte, slot 1 writes another over it, and slot 0 reads again. */
  function SharedRun(now: byte): seq<Op> {
    [MountImage(0, SHARED_PATH, false), MountImage(1, SHARED_PATH, false), ReadAt(0, 0, 1), WriteAt(1, 0, [now]),
     ReadAt(0, 0, 1)]
  }

  const NO_FAULTS: seq<bool> := [false, false, false, false, false]

  /** The shared image is in both slots, with a byte at its start. */
  ghost predicate Shared(s: Snap, first: byte) {
    && |s.drives| == DRIVE_COUNT && |s.blocks| == BLOCK_COUNT && |s.storage| == BLOCK_COUNT * BLOCK_BYTES
    && SharedMountable(s.card, first)
    && s.drives[0] == s.drives[1]
    && s.drives[0] == Drive(true, true, false, SHARED_PATH, |s.card[SHARED_PATH]| % DWORD_MOD)
  }

  predicate SharedMountable(card: Card, first: byte) {
    Mountable(card, 0, SHARED_PATH) && card[SHARED_PATH] != [] && card[SHARED_PATH][0] == first
  }

  lemma SharedMounts(before: Snap, between: Snap, after: Snap, first: Answer, second: Answer, was: byte)
    requires |before.blocks| == BLOCK_COUNT && |before.storage| == BLOCK_COUNT * BLOCK_BYTES
    requires SharedMountable(before.card, was)
    requires MountOk(before, 0, SHARED_PATH, false, false, first, between)
    requires MountOk(between, 1, SHARED_PATH, false, false, second, after)
    ensures Shared(after, was)
  {
  }

  lemma SharedRead(before: Snap, got: Answer, after: Snap, was: byte)
    requires Shared(before, was) && CoherentAt(before) && ReadOk(before, 0, 0, 1, false, got, after)
    ensures Shared(after, was) && got == Bytes([was]) && CachedAt(after, 0, 0, [was])
  {
    ImageBytesAt(before.card, before.drives[0], 0, 1);
    assert got.data == [was];
  }

  lemma SharedWrite(before: Snap, got: Answer, after: Snap, was: byte, now: byte)
    requires Shared(before, was) && CoherentAt(before) && CachedAt(before, 0, 0, [was]) && was != now
    requires WriteOk(before, 1, 0, [now], false, got, after)
    ensures Shared(after, now) && CachedAt(after, 0, 0, [was]) && !CoherentAt(after)
  {
    var image := before.card[SHARED_PATH];
    OthersByteIsStale(before.blocks, after.blocks, before.storage, before.drives, image, was, now);
    assert after.card[SHARED_PATH][0..1][0] == now;
  }

  /** The block another slot has cached stays as it is and holds the old byte. */
  lemma OthersByteIsStale(cached: seq<Block>, after: seq<Block>, storage: seq<byte>, drives: seq<Drive>,
                          image: seq<byte>, was: byte, now: byte)
    requires |cached| == |after| == BLOCK_COUNT && |drives| == DRIVE_COUNT && |storage| == BLOCK_COUNT * BLOCK_BYTES
    requires Answers(cached, storage, 0, 0, [was]) && Invalidated(cached, after, 1, 0, 1)
    requires drives[0].path == drives[1].path && image != [] && image[0] == was && was != now
    ensures GoesStale(cached, drives, image, 1, 0, [now]) && Answers(after, storage, 0, 0, [was])
  {
    var i: nat :| i < BLOCK_COUNT && AnswersFrom(cached, storage, i, 0, 0, [was]);
    assert AnswersFrom(after, storage, i, 0, 0, [was]);
    assert image[0] != [now][0];
    assert !SameOnOverlap(image, 0, [now], cached[i]);
  }

  /** Every such run of a disk with cache memory ends with the old byte, while the image holds the new one. */
  lemma SharedRunGoesStale(seen: seq<Snap>, got: seq<Answer>, was: byte, now: byte)
    requires Trace(seen, SharedRun(now), NO_FAULTS, got) && CoherentAt(seen[0]) && was != now
    requires |seen[0].blocks| == BLOCK_COUNT && |seen[0].storage| == BLOCK_COUNT * BLOCK_BYTES
    requires SharedMountable(seen[0].card, was)
    ensures got[2] == got[4] == Bytes([was]) && SharedMountable(seen[4].card, now) && !CoherentAt(seen[4])
  {
    var ops := SharedRun(now);
    assert forall k :: 0 <= k < 5 ==> StepOk(seen[k], ops[k], NO_FAULTS[k], got[k], seen[k + 1]);
    assert StepOk(seen[0], ops[0], false, got[0], seen[1]);
    assert StepOk(seen[1], ops[1], false, got[1], seen[2]);
    SharedMounts(seen[0], seen[1], seen[2], got[0], got[1], was);
    assert StepOk(seen[2], ops[2], false, got[2], seen[3]);
    SharedRead(seen[2], got[2], seen[3], was);
    assert StepOk(seen[3], ops[3], false, got[3], seen[4]);
    SharedWrite(seen[3], got[3], seen[4], was, now);
    assert StepOk(seen[4], ops[4], false, got[4], seen[5]);
    StillAnswered(seen[4], got[4], seen[5], was, now);
  }

  lemma StillAnswered(before: Snap, got: Answer, after: Snap, was: byte, now: byte)
    requires Shared(before, now) && CachedAt(before, 0, 0, [was]) && ReadOk(before, 0, 0, 1, false, got, after)
    ensures got == Bytes([was]) && after.card == before.card
  {
  }

  /** The run on a new disk, in which a read returns a byte that its image no longer holds. */
  method SharedImageGoesStale(image: seq<byte>, now: byte) returns (disk: Disk, got: seq<Answer>, ghost seen: seq<Snap>)
    requires |image| == RL01_IMAGE_BYTES && image[0] != now
    ensures fresh(disk) && disk.Valid() && Trace(seen, SharedRun(now), NO_FAULTS, got)
    ensures seen[0].card == map[SHARED_PATH := image] && seen[5] == disk.Now()
    ensures got[2] == got[4] == Bytes([image[0]]) && SharedMountable(seen[4].card, now) && !CoherentAt(seen[4])
  {
    disk := DiskWithMemory(map[SHARED_PATH := image]);
    got, seen := disk.PerformAll(SharedRun(now), NO_FAULTS);
    SharedRunGoesStale(seen, got, image[0], now);
  }

  method DiskWithMemory(card: Card) returns (disk: Disk)
    ensures fresh(disk) && fresh(disk.drives) && fresh(disk.blocks) && disk.storage != null && fresh(disk.storage)
    ensures disk.Valid() && disk.Coherent() && disk.card == card
  {
    disk := new Disk(card);
    disk.Allocate();
  }

  /** The first `n` slots are done, the others closed. */
  ghost predicate ReopenedUpTo(saved: seq<Drive>, now: seq<Drive>, n: nat, allOk: bool, faults: bool) {
    && |saved| == |now| == DRIVE_COUNT && n <= DRIVE_COUNT
    && (forall t :: 0 <= t < n ==> Reopened(saved[t], now[t]) && (!faults ==> now[t].readonly == saved[t].readonly))
    && (forall t :: n <= t < DRIVE_COUNT ==> now[t] == Closed(saved[t]))
    && (allOk <==> forall t :: 0 <= t < n && saved[t].mounted ==> now[t].mounted)
    && (!faults ==> allOk)
  }

  function Closed(d: Drive): Drive {
    Drive(false, d.changed, false, "", 0)
  }

  /** What reopening may make of a drive. */
  ghost predicate Reopened(before: Drive, after: Drive) {
    if before.mounted && after.mounted then
      && after == before.(changed := true, readonly := after.readonly)
      && (before.readonly ==> after.readonly)
    else after == Closed(before)
  }
}
