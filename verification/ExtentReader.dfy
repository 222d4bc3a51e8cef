/** The ext4 extent reader: a recursive copy out of a disk image, and the per-byte lookup it
    refines. */
module ExtentReader {
  import opened Machine

  /** The install image in memory, g_source_base to g_source_base + g_source_size. */
  type Image = seq<Byte>

  const EXT_MAGIC := 0xf30a
  const EXTENTS_FL := 0x8_0000
  /** Block sizes up to this keep block * g_block_size + size below 2^64. */
  const MAX_BLOCK_SIZE := 0x8000

  function U16At(img: Image, off: nat): U16
    requires off + 2 <= |img|
  {
    var lo: int, hi: int := img[off], img[off + 1];
    lo + 0x100 * hi
  }

  function U32At(img: Image, off: nat): U32
    requires off + 4 <= |img|
  {
    FromLE32(img[off..off + 4])
  }

  /** source_block: the offset of `size` bytes of a block, when they lie in the image. */
  function SourceBlock(img: Image, bs: nat, block: nat, size: nat): Option<nat> {
    if block * bs + size > |img| then None else Some(block * bs)
  }

  // ---------- Nodes of the tree ----------

  predicate HasMagic(img: Image, off: nat)
    requires off + 12 <= |img|
  {
    U16At(img, off) == EXT_MAGIC
  }

  function Entries(img: Image, off: nat): U16
    requires off + 12 <= |img|
  {
    U16At(img, off + 2)
  }

  function Depth(img: Image, off: nat): U16
    requires off + 12 <= |img|
  {
    U16At(img, off + 6)
  }

  /** The header at `off` lies in the image, and if it has the magic so do the entries it announces. */
  predicate InImage(img: Image, off: nat) {
    off + 12 <= |img| && (HasMagic(img, off) ==> off + 12 + 12 * Entries(img, off) <= |img|)
  }

  /** A node whose entries can be read. */
  predicate IsNode(img: Image, off: nat) {
    InImage(img, off) && HasMagic(img, off)
  }

  datatype Extent = Extent(block: U32, len: U16, start: nat)

  function ExtentAt(img: Image, off: nat, i: nat): (e: Extent)
    requires IsNode(img, off) && i < Entries(img, off)
  {
    var p := off + 12 + 12 * i;
    var hi: nat := U16At(img, p + 6);
    Extent(U32At(img, p), U16At(img, p + 4), hi * 0x1_0000_0000 + U32At(img, p + 8))
  }

  function LeafBlock(img: Image, off: nat, i: nat): nat
    requires IsNode(img, off) && i < Entries(img, off)
  {
    var p := off + 12 + 12 * i;
    var hi: nat := U16At(img, p + 8);
    hi * 0x1_0000_0000 + U32At(img, p + 4)
  }

  function Child(img: Image, bs: nat, off: nat, i: nat): Option<nat>
    requires IsNode(img, off) && i < Entries(img, off)
  {
    SourceBlock(img, bs, LeafBlock(img, off, i), bs)
  }

  /** The tree at `off` has at most `h` levels of index nodes, so that the recursion ends, and
      every node lies in the image. Depths need not decrease. */
  predicate WellFormed(img: Image, bs: nat, off: nat, h: nat)
    decreases h, 0
  {
    && InImage(img, off)
    && (IsIndex(img, off) ==> h > 0 && ChildrenWellFormed(img, bs, off, h - 1))
  }

  predicate IsIndex(img: Image, off: nat) {
    IsNode(img, off) && Depth(img, off) > 0
  }

  predicate ChildrenWellFormed(img: Image, bs: nat, off: nat, h: nat)
    requires IsNode(img, off)
    decreases h, 2
  {
    forall i :: 0 <= i < Entries(img, off) ==> ChildWellFormed(img, bs, off, i, h)
  }

  predicate ChildWellFormed(img: Image, bs: nat, off: nat, i: nat, h: nat)
    requires IsNode(img, off) && i < Entries(img, off)
    decreases h, 1
  {
    var c := Child(img, bs, off, i);
    c.Some? ==> WellFormed(img, bs, c.value, h)
  }

  // ---------- The extents of a tree ----------

  function LeafExtents(img: Image, off: nat): (r: seq<Extent>)
    requires IsNode(img, off)
    ensures |r| == Entries(img, off)
  {
    seq(Entries(img, off), i requires 0 <= i < Entries(img, off) => ExtentAt(img, off, i))
  }

  /** All extents of the tree at `off` in the order the copy visits them; None when a node
      lacks the magic or a child lies outside the image. */
  function Leaves(img: Image, bs: nat, off: nat, h: nat): Option<seq<Extent>>
    requires WellFormed(img, bs, off, h)
    decreases h, 0x1_0000
  {
    if !HasMagic(img, off) then None
    else if Depth(img, off) == 0 then
      Some(LeafExtents(img, off))
    else Kids(img, bs, off, Entries(img, off), h)
  }

  /** The extents below the first n children of an index node. */
  function Kids(img: Image, bs: nat, off: nat, n: nat, h: nat): Option<seq<Extent>>
    requires WellFormed(img, bs, off, h) && IsIndex(img, off) && n <= Entries(img, off)
    decreases h, n
  {
    if n == 0 then Some([])
    else
      assert ChildrenWellFormed(img, bs, off, h - 1);
      assert ChildWellFormed(img, bs, off, n - 1, h - 1);
      var before := Kids(img, bs, off, n - 1, h);
      var c := Child(img, bs, off, n - 1);
      if before.None? || c.None? then None
      else
        match Leaves(img, bs, c.value, h - 1)
        case None => None
        case Some(more) => Some(before.value + more)
  }

  // ---------- Copying ----------

  function BlockCount(e: Extent): nat {
    e.len % 0x8000
  }

  predicate Initialised(e: Extent) {
    e.len < 0x8000
  }

  /** The extent contributes bytes to the first `size` bytes of the file. */
  predicate Used(e: Extent, bs: nat, size: nat) {
    Initialised(e) && e.block * bs < size
  }

  function CopyBytes(e: Extent, bs: nat, size: nat): (n: nat)
    requires Used(e, bs, size)
    ensures e.block * bs + n <= size
  {
    if e.block * bs + BlockCount(e) * bs > size then size - e.block * bs else BlockCount(e) * bs
  }

  /** The bytes to copy lie in the image, when there are any. */
  predicate Readable(img: Image, bs: nat, e: Extent, size: nat) {
    Used(e, bs, size) ==> SourceBlock(img, bs, e.start, CopyBytes(e, bs, size)).Some?
  }

  predicate AllReadable(img: Image, bs: nat, exts: seq<Extent>, size: nat) {
    forall k :: 0 <= k < |exts| ==> Readable(img, bs, exts[k], size)
  }

  /** Byte o after copying one extent over `buf`. */
  function PaintedByte(buf: seq<Byte>, img: Image, bs: nat, e: Extent, o: nat): Byte
    requires Readable(img, bs, e, |buf|) && o < |buf|
  {
    if Used(e, bs, |buf|) && e.block * bs <= o < e.block * bs + CopyBytes(e, bs, |buf|)
    then img[e.start * bs + (o - e.block * bs)] else buf[o]
  }

  function PaintOne(buf: seq<Byte>, img: Image, bs: nat, e: Extent): (r: seq<Byte>)
    requires Readable(img, bs, e, |buf|)
    ensures |r| == |buf|
  {
    seq(|buf|, o requires 0 <= o < |buf| => PaintedByte(buf, img, bs, e, o))
  }

  /** The buffer after copying the extents in order. */
  function Paint(buf: seq<Byte>, img: Image, bs: nat, exts: seq<Extent>): (r: seq<Byte>)
    requires AllReadable(img, bs, exts, |buf|)
    ensures |r| == |buf|
  {
    if exts == [] then buf
    else PaintOne(Paint(buf, img, bs, exts[..|exts| - 1]), img, bs, exts[|exts| - 1])
  }

  lemma {:induction false} PaintAppend(buf: seq<Byte>, img: Image, bs: nat, a: seq<Extent>, b: seq<Extent>)
    requires AllReadable(img, bs, a, |buf|) && AllReadable(img, bs, b, |buf|)
    ensures AllReadable(img, bs, a + b, |buf|)
    ensures Paint(buf, img, bs, a + b) == Paint(Paint(buf, img, bs, a), img, bs, b)
  {
    if b == [] {
      assert a + b == a;
    } else {
      var n := |b| - 1;
      assert (a + b)[..|a| + n] == a + b[..n];
      PaintAppend(buf, img, bs, a, b[..n]);
    }
  }

  // ---------- The lookup the copy refines ----------

  /** The initialised extent e maps logical block b. */
  predicate Covers(e: Extent, b: nat) {
    Initialised(e) && e.block <= b < e.block + BlockCount(e)
  }

  lemma MulMono(a: nat, b: nat, c: nat)
    requires a <= b
    ensures a * c <= b * c
  {
  }

  lemma MulDist(a: int, b: int, c: int)
    ensures (a + b) * c == a * c + b * c && (a - b) * c == a * c - b * c
  {
  }

  lemma DivMod(o: nat, bs: nat)
    requires 0 < bs
    ensures o == (o / bs) * bs + o % bs && 0 <= o % bs < bs
  {
  }

  /** Block arithmetic: o lies in blocks [block, block + count) exactly when its byte offset
      lies between their offsets. */
  lemma BlockRange(block: nat, count: nat, bs: nat, o: nat)
    requires 0 < bs
    ensures block <= o / bs < block + count <==> block * bs <= o < block * bs + count * bs
  {
    DivMod(o, bs);
    BlockRangeOf(block, count, bs, o, o / bs, o % bs);
  }

  lemma BlockRangeOf(block: nat, count: nat, bs: nat, o: nat, b: nat, r: nat)
    requires o == b * bs + r && 0 <= r < bs
    ensures block <= b < block + count <==> block * bs <= o < block * bs + count * bs
  {
    MulDist(block, count, bs);
    MulDist(b, 1, bs);
    if block <= b { MulMono(block, b, bs); } else { MulMono(b + 1, block, bs); }
    if b < block + count { MulMono(b + 1, block + count, bs); } else { MulMono(block + count, b, bs); }
  }

  /** Image offset of byte o in the physical block an extent maps o's block to. */
  function Physical(e: Extent, bs: nat, o: nat): nat
    requires 0 < bs && e.block <= o / bs
  {
    (e.start + (o / bs - e.block)) * bs + o % bs
  }

  lemma PhysicalInRun(e: Extent, bs: nat, o: nat)
    requires 0 < bs && e.block <= o / bs
    ensures Physical(e, bs, o) == e.start * bs + (o - e.block * bs)
  {
    DivMod(o, bs);
    MulDist(e.start, o / bs - e.block, bs);
    MulDist(o / bs, e.block, bs);
  }

  /** A used extent copies byte o exactly when it covers o's block, from that block's byte. */
  lemma CoversInside(img: Image, bs: nat, e: Extent, size: nat, o: nat)
    requires 0 < bs && o < size && Readable(img, bs, e, size)
    ensures Covers(e, o / bs) <==>
      Used(e, bs, size) && e.block * bs <= o < e.block * bs + CopyBytes(e, bs, size)
    ensures Covers(e, o / bs) ==> Physical(e, bs, o) == e.start * bs + (o - e.block * bs) < |img|
  {
    BlockRange(e.block, BlockCount(e), bs, o);
    if Covers(e, o / bs) {
      PhysicalInRun(e, bs, o);
    }
  }

  /** Byte o of the file: from the block the last covering extent maps, or 0. */
  function ByteAt(img: Image, bs: nat, exts: seq<Extent>, size: nat, o: nat): Byte
    requires 0 < bs && o < size && AllReadable(img, bs, exts, size)
  {
    if exts == [] then 0
    else
      var e := exts[|exts| - 1];
      if Covers(e, o / bs) then
        CoversInside(img, bs, e, size, o);
        img[Physical(e, bs, o)]
      else ByteAt(img, bs, exts[..|exts| - 1], size, o)
  }

  lemma {:induction false} PaintIsLookup(img: Image, bs: nat, exts: seq<Extent>, size: nat, o: nat)
    requires 0 < bs && o < size && AllReadable(img, bs, exts, size)
    ensures Paint(Zeros(size), img, bs, exts)[o] == ByteAt(img, bs, exts, size, o)
  {
    if exts != [] {
      var n := |exts| - 1;
      PaintIsLookup(img, bs, exts[..n], size, o);
      CoversInside(img, bs, exts[n], size, o);
    }
  }

  /** No logical block is mapped twice. */
  ghost predicate DisjointRanges(exts: seq<Extent>) {
    forall i, j, b :: 0 <= i < j < |exts| ==> !(Covers(exts[i], b) && Covers(exts[j], b))
  }

  /** With disjoint ranges the byte comes from the one extent that maps its block. */
  lemma {:induction false} LookupUnique(img: Image, bs: nat, exts: seq<Extent>, size: nat, o: nat, k: nat)
    requires 0 < bs && o < size && AllReadable(img, bs, exts, size) && DisjointRanges(exts)
    requires k < |exts| && Covers(exts[k], o / bs)
    ensures Physical(exts[k], bs, o) < |img|
    ensures ByteAt(img, bs, exts, size, o) == img[Physical(exts[k], bs, o)]
  {
    hide Physical, Readable, Covers;
    CoversInside(img, bs, exts[k], size, o);
    var n := |exts| - 1;
    if k < n {
      assert !(Covers(exts[k], o / bs) && Covers(exts[n], o / bs));
      LookupUnique(img, bs, exts[..n], size, o, k);
    }
  }

  /** Holes and unwritten extents read as zeros. */
  lemma {:induction false} LookupHole(img: Image, bs: nat, exts: seq<Extent>, size: nat, o: nat)
    requires 0 < bs && o < size && AllReadable(img, bs, exts, size)
    requires forall k :: 0 <= k < |exts| ==> !Covers(exts[k], o / bs)
    ensures ByteAt(img, bs, exts, size, o) == 0
  {
    if exts != [] {
      LookupHole(img, bs, exts[..|exts| - 1], size, o);
    }
  }

  // ---------- The twelve direct blocks ----------

  function DirectBlock(img: Image, inode: nat, i: nat): U32
    requires inode + 128 <= |img| && i < 12
  {
    U32At(img, inode + 40 + 4 * i)
  }

  predicate DirectUsed(img: Image, bs: nat, inode: nat, size: nat, i: nat)
    requires inode + 128 <= |img| && i < 12
  {
    DirectBlock(img, inode, i) != 0 && i * bs < size
  }

  function DirectBytes(bs: nat, size: nat, i: nat): nat
    requires i * bs < size
  {
    if i * bs + bs > size then size - i * bs else bs
  }

  predicate DirectReadable(img: Image, bs: nat, inode: nat, size: nat, i: nat)
    requires inode + 128 <= |img| && i < 12
  {
    DirectUsed(img, bs, inode, size, i) ==>
      SourceBlock(img, bs, DirectBlock(img, inode, i), DirectBytes(bs, size, i)).Some?
  }

  /** Byte o of a file described by direct pointers 0 to n-1. */
  function DirectByte(img: Image, bs: nat, inode: nat, size: nat, n: nat, o: nat): Byte
    requires 0 < bs && o < size && inode + 128 <= |img| && n <= 12
    requires forall i :: 0 <= i < n ==> DirectReadable(img, bs, inode, size, i)
  {
    var b := o / bs;
    if b < n && DirectBlock(img, inode, b) != 0 then DirectSource(img, bs, inode, size, b, o) else 0
  }

  /** The image byte that direct pointer i supplies for byte o. */
  function DirectSource(img: Image, bs: nat, inode: nat, size: nat, i: nat, o: nat): Byte
    requires 0 < bs && o < size && inode + 128 <= |img| && i < 12 && DirectReadable(img, bs, inode, size, i)
    requires o / bs == i && DirectBlock(img, inode, i) != 0
  {
    DirectInside(img, bs, inode, size, i, o);
    img[DirectBlock(img, inode, i) * bs + o % bs]
  }

  lemma DirectInside(img: Image, bs: nat, inode: nat, size: nat, i: nat, o: nat)
    requires 0 < bs && o < size && inode + 128 <= |img| && i < 12 && DirectReadable(img, bs, inode, size, i)
    ensures o / bs == i <==> i * bs <= o < i * bs + bs
    ensures o / bs == i && DirectBlock(img, inode, i) != 0 ==>
      DirectUsed(img, bs, inode, size, i) && o < i * bs + DirectBytes(bs, size, i) && o % bs == o - i * bs &&
      DirectBlock(img, inode, i) * bs + o % bs < |img|
  {
    BlockRange(i, 1, bs, o);
  }

  /** Pointers and extents describe the same file. */
  predicate SameMapping(img: Image, bs: nat, inode: nat, size: nat, exts: seq<Extent>)
    requires inode + 128 <= |img|
  {
    forall b :: 0 <= b < 12 && b * bs < size ==> SameBlock(DirectBlock(img, inode, b), exts, b)
  }

  /** Block b is a hole in both, or every extent that covers it maps it to `pointer`. */
  predicate SameBlock(pointer: U32, exts: seq<Extent>, b: nat) {
    && (pointer == 0 ==> forall k :: 0 <= k < |exts| ==> !Covers(exts[k], b))
    && (pointer != 0 ==> exists k :: 0 <= k < |exts| && Covers(exts[k], b))
    && (forall k :: 0 <= k < |exts| && Covers(exts[k], b) ==> exts[k].start + (b - exts[k].block) == pointer)
  }

  /** Where the extents' blocks can be read, the pointers' can. */
  lemma ReadableAlike(img: Image, bs: nat, inode: nat, size: nat, exts: seq<Extent>, i: nat)
    requires 0 < bs && inode + 128 <= |img| && i < 12
    requires AllReadable(img, bs, exts, size) && SameMapping(img, bs, inode, size, exts)
    ensures DirectReadable(img, bs, inode, size, i)
  {
    var pointer := DirectBlock(img, inode, i);
    if pointer != 0 && i * bs < size {
      assert SameBlock(pointer, exts, i);
      var k: nat :| k < |exts| && Covers(exts[k], i);
      hide Covers, Readable, SameBlock, DirectBlock;
      BlockReadable(img, bs, exts[k], size, i, pointer);
    }
  }

  lemma BlockReadable(img: Image, bs: nat, e: Extent, size: nat, i: nat, pointer: nat)
    requires 0 < bs && i * bs < size && Readable(img, bs, e, size)
    requires Covers(e, i) && pointer == e.start + (i - e.block)
    ensures pointer * bs + DirectBytes(bs, size, i) <= |img|
  {
    var last := i * bs + DirectBytes(bs, size, i) - 1;
    LastOfBlock(i, bs, last);
    CoversInside(img, bs, e, size, last);
    hide Readable;
    assert Physical(e, bs, last) == pointer * bs + last % bs;
  }

  lemma LastOfBlock(i: nat, bs: nat, o: nat)
    requires 0 < bs && i * bs <= o < i * bs + bs
    ensures o / bs == i && o % bs == o - i * bs
  {
    BlockRange(i, 1, bs, o);
    DivMod(o, bs);
  }

  /** A file of at most 12 blocks described both ways, whose extents can be read, can be read through
      its pointers too and reads the same. */
  lemma DirectAgrees(img: Image, bs: nat, inode: nat, size: nat, exts: seq<Extent>, o: nat)
    requires 0 < bs && o < size <= 12 * bs && inode + 128 <= |img|
    requires AllReadable(img, bs, exts, size) && DisjointRanges(exts)
    requires SameMapping(img, bs, inode, size, exts)
    ensures forall i :: 0 <= i < 12 ==> DirectReadable(img, bs, inode, size, i)
    ensures DirectByte(img, bs, inode, size, 12, o) == ByteAt(img, bs, exts, size, o)
  {
    forall i | 0 <= i < 12
      ensures DirectReadable(img, bs, inode, size, i)
    {
      ReadableAlike(img, bs, inode, size, exts, i);
    }
    hide DirectReadable, AllReadable, DisjointRanges, SameMapping;
    BothBytes(img, bs, inode, size, exts, o);
  }

  lemma BothBytes(img: Image, bs: nat, inode: nat, size: nat, exts: seq<Extent>, o: nat)
    requires 0 < bs && o < size <= 12 * bs && inode + 128 <= |img|
    requires AllReadable(img, bs, exts, size) && DisjointRanges(exts)
    requires SameMapping(img, bs, inode, size, exts)
    requires forall i :: 0 <= i < 12 ==> DirectReadable(img, bs, inode, size, i)
    ensures DirectByte(img, bs, inode, size, 12, o) == ByteAt(img, bs, exts, size, o)
  {
    hide DirectReadable;
    var b := o / bs;
    BlockRange(0, 12, bs, o);
    BlockRange(b, 1, bs, o);
    var pointer := DirectBlock(img, inode, b);
    assert SameBlock(pointer, exts, b);
    if pointer == 0 {
      LookupHole(img, bs, exts, size, o);
    } else {
      var k: nat :| k < |exts| && Covers(exts[k], b);
      LookupUnique(img, bs, exts, size, o, k);
    }
  }

  // ---------- The bound on the height ----------

  /** The bound only ends the recursion: every bound gives the same extents. */
  lemma {:induction false} LeavesAlike(img: Image, bs: nat, off: nat, h: nat, g: nat)
    requires WellFormed(img, bs, off, h) && WellFormed(img, bs, off, g)
    ensures Leaves(img, bs, off, h) == Leaves(img, bs, off, g)
    decreases h, 0x1_0000
  {
    hide Kids;
    if IsIndex(img, off) {
      KidsAlike(img, bs, off, Entries(img, off), h, g);
    }
  }

  lemma {:induction false} KidsAlike(img: Image, bs: nat, off: nat, n: nat, h: nat, g: nat)
    requires WellFormed(img, bs, off, h) && WellFormed(img, bs, off, g) && IsIndex(img, off)
    requires n <= Entries(img, off)
    ensures Kids(img, bs, off, n, h) == Kids(img, bs, off, n, g)
    decreases h, n
  {
    hide Leaves, Entries;
    if n > 0 {
      KidsAlike(img, bs, off, n - 1, h, g);
      assert ChildWellFormed(img, bs, off, n - 1, h - 1) && ChildWellFormed(img, bs, off, n - 1, g - 1);
      var c := Child(img, bs, off, n - 1);
      if c.Some? {
        LeavesAlike(img, bs, c.value, h - 1, g - 1);
      }
    }
  }

  // ---------- The reader ----------

  /** memcpy from the image into dest. */
  method CopyInto(img: Image, src: nat, dest: array<Byte>, at: nat, n: nat)
    requires src + n <= |img| && at + n <= dest.Length
    modifies dest
    ensures forall o :: 0 <= o < dest.Length ==>
      dest[o] == if at <= o < at + n then img[src + (o - at)] else old(dest[o])
  {
    var i := 0;
    while i < n
      invariant 0 <= i <= n
      invariant forall o :: 0 <= o < dest.Length ==>
        dest[o] == if at <= o < at + i then img[src + (o - at)] else old(dest[o])
    {
      dest[at + i] := img[src + i];
      i := i + 1;
    }
  }

  /** One round of the leaf loop. */
  method CopyExtent(img: Image, bs: nat, e: Extent, dest: array<Byte>) returns (ok: bool)
    modifies dest
    ensures ok == Readable(img, bs, e, dest.Length)
    ensures ok ==> dest[..] == PaintOne(old(dest[..]), img, bs, e)
  {
    if !Used(e, bs, dest.Length) {
      assert dest[..] == PaintOne(dest[..], img, bs, e);
      return true;
    }
    var n := CopyBytes(e, bs, dest.Length);
    var src := SourceBlock(img, bs, e.start, n);
    if src.None? {
      return false;
    }
    CopyInto(img, src.value, dest, e.block * bs, n);
    assert dest[..] == PaintOne(old(dest[..]), img, bs, e);
    ok := true;
  }

  /** The loop over the extents of a leaf node. */
  method CopyLeaf(img: Image, bs: nat, off: nat, dest: array<Byte>) returns (ok: bool)
    requires IsNode(img, off)
    modifies dest
    ensures ok == AllReadable(img, bs, LeafExtents(img, off), dest.Length)
    ensures ok ==> dest[..] == Paint(old(dest[..]), img, bs, LeafExtents(img, off))
  {
    hide Readable, PaintOne, ExtentAt, Entries;
    ghost var was, exts := dest[..], LeafExtents(img, off);
    var i := 0;
    while i < Entries(img, off)
      invariant 0 <= i <= Entries(img, off) == |exts|
      invariant AllReadable(img, bs, exts[..i], dest.Length)
      invariant dest[..] == Paint(was, img, bs, exts[..i])
    {
      ok := CopyExtent(img, bs, ExtentAt(img, off, i), dest);
      assert exts[i] == ExtentAt(img, off, i);
      if !ok {
        return;
      }
      assert exts[..i + 1][..i] == exts[..i];
      i := i + 1;
    }
    assert exts[..i] == exts;
    ok := true;
  }

  /** ext4_copy_extent_tree: succeeds exactly when every node and every needed block can be
      read, and then paints the tree's extents over dest in order. */
  method CopyExtentTree(img: Image, bs: nat, off: nat, dest: array<Byte>, ghost h: nat) returns (ok: bool)
    requires WellFormed(img, bs, off, h)
    modifies dest
    ensures ok <==> Leaves(img, bs, off, h).Some? && AllReadable(img, bs, Leaves(img, bs, off, h).value, dest.Length)
    ensures ok ==> dest[..] == Paint(old(dest[..]), img, bs, Leaves(img, bs, off, h).value)
    decreases h, 1
  {
    hide AllReadable, Paint, Kids, ChildWellFormed;
    if !HasMagic(img, off) {
      return false;
    }
    if Depth(img, off) == 0 {
      ok := CopyLeaf(img, bs, off, dest);
    } else {
      ok := CopyKids(img, bs, off, dest, h);
    }
  }

  /** The loop over the children of an index node. */
  method CopyKids(img: Image, bs: nat, off: nat, dest: array<Byte>, ghost h: nat) returns (ok: bool)
    requires WellFormed(img, bs, off, h) && IsIndex(img, off)
    modifies dest
    ensures var kids := Kids(img, bs, off, Entries(img, off), h);
      ok <==> kids.Some? && AllReadable(img, bs, kids.value, dest.Length)
    ensures ok ==> dest[..] == Paint(old(dest[..]), img, bs, Kids(img, bs, off, Entries(img, off), h).value)
    decreases h, 0
  {
    hide AllReadable, Paint, Leaves, HasMagic, Depth, Entries, Child, Kids;
    ghost var was := dest[..];
    KidsNone(img, bs, off, h);
    PaintNone(was, img, bs);
    var i := 0;
    while i < Entries(img, off)
      invariant 0 <= i <= Entries(img, off)
      invariant var kids := Kids(img, bs, off, i, h);
        kids.Some? && AllReadable(img, bs, kids.value, dest.Length) && dest[..] == Paint(was, img, bs, kids.value)
    {
      KidsNext(img, bs, off, i, h);
      ghost var kids := Kids(img, bs, off, i, h).value;
      var c := Child(img, bs, off, i);
      if c.None? {
        KidsStop(img, bs, off, i + 1, Entries(img, off), dest.Length, h);
        return false;
      }
      ok := CopyExtentTree(img, bs, c.value, dest, h - 1);
      if !ok {
        KidsUnreadable(img, bs, off, i, dest.Length, h);
        KidsStop(img, bs, off, i + 1, Entries(img, off), dest.Length, h);
        return false;
      }
      PaintAppend(was, img, bs, kids, Leaves(img, bs, c.value, h - 1).value);
      i := i + 1;
    }
    ok := true;
  }

  lemma PaintNone(buf: seq<Byte>, img: Image, bs: nat)
    ensures AllReadable(img, bs, [], |buf|) && Paint(buf, img, bs, []) == buf
  {
  }

  lemma KidsNone(img: Image, bs: nat, off: nat, h: nat)
    requires WellFormed(img, bs, off, h) && IsIndex(img, off)
    ensures Kids(img, bs, off, 0, h) == Some([])
  {
  }

  /** The first n children cannot all be copied. */
  predicate KidsFail(img: Image, bs: nat, off: nat, n: nat, size: nat, h: nat)
    requires WellFormed(img, bs, off, h) && IsIndex(img, off) && n <= Entries(img, off)
  {
    Kids(img, bs, off, n, h).Some? ==> !AllReadable(img, bs, Kids(img, bs, off, n, h).value, size)
  }

  /** The extents below one more child. */
  lemma KidsNext(img: Image, bs: nat, off: nat, n: nat, h: nat)
    requires WellFormed(img, bs, off, h) && IsIndex(img, off) && n < Entries(img, off)
    ensures ChildWellFormed(img, bs, off, n, h - 1)
    ensures (&& Kids(img, bs, off, n, h).Some? && Child(img, bs, off, n).Some?
             && Leaves(img, bs, Child(img, bs, off, n).value, h - 1).Some?) ==>
            Kids(img, bs, off, n + 1, h).Some?
    ensures Kids(img, bs, off, n + 1, h).Some? ==>
      && Kids(img, bs, off, n, h).Some? && Child(img, bs, off, n).Some?
      && Leaves(img, bs, Child(img, bs, off, n).value, h - 1).Some?
      && Kids(img, bs, off, n + 1, h).value ==
        Kids(img, bs, off, n, h).value + Leaves(img, bs, Child(img, bs, off, n).value, h - 1).value
  {
  }

  lemma KidsUnreadable(img: Image, bs: nat, off: nat, i: nat, size: nat, h: nat)
    requires WellFormed(img, bs, off, h) && IsIndex(img, off) && i < Entries(img, off)
    requires ChildWellFormed(img, bs, off, i, h - 1) && Child(img, bs, off, i).Some?
    requires var more := Leaves(img, bs, Child(img, bs, off, i).value, h - 1);
      more.Some? ==> !AllReadable(img, bs, more.value, size)
    ensures KidsFail(img, bs, off, i + 1, size, h)
  {
    hide AllReadable, Kids, Leaves;
    KidsNext(img, bs, off, i, h);
    if Kids(img, bs, off, i + 1, h).Some? {
      UnreadableAppend(img, bs, Kids(img, bs, off, i, h).value,
        Leaves(img, bs, Child(img, bs, off, i).value, h - 1).value, size);
    }
  }

  lemma UnreadableAppend(img: Image, bs: nat, a: seq<Extent>, b: seq<Extent>, size: nat)
    ensures AllReadable(img, bs, a + b, size) ==> AllReadable(img, bs, a, size) && AllReadable(img, bs, b, size)
  {
    hide Readable;
    if AllReadable(img, bs, a + b, size) {
      forall k | 0 <= k < |a|
        ensures Readable(img, bs, a[k], size)
      {
        assert (a + b)[k] == a[k];
      }
      forall k | 0 <= k < |b|
        ensures Readable(img, bs, b[k], size)
      {
        assert (a + b)[|a| + k] == b[k];
      }
    }
  }

  /** A failing child fails the whole node. */
  lemma {:induction false} KidsStop(img: Image, bs: nat, off: nat, i: nat, n: nat, size: nat, h: nat)
    requires WellFormed(img, bs, off, h) && IsIndex(img, off) && i <= n <= Entries(img, off)
    requires KidsFail(img, bs, off, i, size, h)
    ensures KidsFail(img, bs, off, n, size, h)
    decreases n
  {
    hide AllReadable, Kids, Leaves;
    if i < n {
      KidsStop(img, bs, off, i, n - 1, size, h);
      KidsNext(img, bs, off, n - 1, h);
      if Kids(img, bs, off, n, h).Some? {
        UnreadableAppend(img, bs, Kids(img, bs, off, n - 1, h).value,
          Leaves(img, bs, Child(img, bs, off, n - 1).value, h - 1).value, size);
      }
    }
  }

  /** One round of the direct block loop. */
  method CopyDirect(img: Image, bs: nat, inode: nat, i: nat, dest: array<Byte>) returns (ok: bool)
    requires 0 < bs && inode + 128 <= |img| && i < 12
    modifies dest
    ensures ok == DirectReadable(img, bs, inode, dest.Length, i)
    ensures ok ==> forall o :: 0 <= o < dest.Length ==>
      dest[o] == if o / bs == i && DirectBlock(img, inode, i) != 0
        then DirectSource(img, bs, inode, dest.Length, i, o) else old(dest[o])
  {
    hide DirectBlock;
    var block := DirectBlock(img, inode, i);
    if block != 0 && i * bs < dest.Length {
      var n := DirectBytes(bs, dest.Length, i);
      var src := SourceBlock(img, bs, block, n);
      if src.None? {
        return false;
      }
      CopyInto(img, src.value, dest, i * bs, n);
    }
    ok := true;
    forall o | 0 <= o < dest.Length
      ensures dest[o] == if o / bs == i && block != 0
        then DirectSource(img, bs, inode, dest.Length, i, o) else old(dest[o])
    {
      DirectInside(img, bs, inode, dest.Length, i, o);
    }
  }

  /** ext4_copy_direct_blocks. */
  method CopyDirectBlocks(img: Image, bs: nat, inode: nat, dest: array<Byte>) returns (ok: bool)
    requires 0 < bs && inode + 128 <= |img|
    modifies dest
    ensures ok <==> forall i :: 0 <= i < 12 ==> DirectReadable(img, bs, inode, dest.Length, i)
    ensures ok && (forall o :: 0 <= o < dest.Length ==> old(dest[o]) == 0) ==>
      forall o :: 0 <= o < dest.Length ==> dest[o] == DirectByte(img, bs, inode, dest.Length, 12, o)
  {
    hide DirectReadable, DirectSource, DirectBlock;
    ghost var zero := forall o :: 0 <= o < dest.Length ==> dest[o] == 0;
    var i := 0;
    while i < 12
      invariant 0 <= i <= 12
      invariant forall j :: 0 <= j < i ==> DirectReadable(img, bs, inode, dest.Length, j)
      invariant zero ==> forall o :: 0 <= o < dest.Length ==> dest[o] == DirectByte(img, bs, inode, dest.Length, i, o)
    {
      ok := CopyDirect(img, bs, inode, i, dest);
      if !ok {
        return;
      }
      i := i + 1;
    }
    ok := true;
  }

  predicate UsesExtents(img: Image, inode: nat)
    requires inode + 128 <= |img|
  {
    U32At(img, inode + 32) / EXTENTS_FL % 2 == 1
  }

  /** ext4_load_inode_data: every byte of a successful load is the byte its logical block maps
      to, or 0 where nothing does. */
  method LoadInodeData(img: Image, bs: nat, inode: nat, dest: array<Byte>, ghost h: nat) returns (ok: bool)
    requires 0 < bs <= MAX_BLOCK_SIZE && inode + 128 <= |img|
    requires UsesExtents(img, inode) ==> WellFormed(img, bs, inode + 40, h)
    modifies dest
    ensures dest.Length == 0 ==> ok
    ensures dest.Length > 0 && UsesExtents(img, inode) ==>
      (ok <==>
       Leaves(img, bs, inode + 40, h).Some? && AllReadable(img, bs, Leaves(img, bs, inode + 40, h).value, dest.Length))
    ensures dest.Length > 0 && UsesExtents(img, inode) && ok ==>
      forall o :: 0 <= o < dest.Length ==>
        dest[o] == ByteAt(img, bs, Leaves(img, bs, inode + 40, h).value, dest.Length, o)
    ensures dest.Length > 0 && !UsesExtents(img, inode) ==>
      (ok <==> forall i :: 0 <= i < 12 ==> DirectReadable(img, bs, inode, dest.Length, i))
    ensures dest.Length > 0 && !UsesExtents(img, inode) && ok ==>
      forall o :: 0 <= o < dest.Length ==> dest[o] == DirectByte(img, bs, inode, dest.Length, 12, o)
  {
    hide WellFormed, Leaves, AllReadable, DirectReadable, Paint, ByteAt, DirectByte;
    forall o | 0 <= o < dest.Length {
      dest[o] := 0;
    }
    if dest.Length == 0 {
      return true;
    }
    if UsesExtents(img, inode) {
      assert dest[..] == Zeros(dest.Length);
      ok := CopyExtentTree(img, bs, inode + 40, dest, h);
      if ok {
        forall o | 0 <= o < dest.Length
          ensures dest[o] == ByteAt(img, bs, Leaves(img, bs, inode + 40, h).value, dest.Length, o)
        {
          PaintIsLookup(img, bs, Leaves(img, bs, inode + 40, h).value, dest.Length, o);
          assert dest[o] == dest[..][o];
        }
      }
    } else {
      ok := CopyDirectBlocks(img, bs, inode, dest);
    }
  }
}
