/** Extent trees as ext4 lays them out in bytes, and what the reader makes of an image that holds one. */
module ExtentImage {
  import opened Machine
  import opened ExtentReader

  // ---------- Structures in little-endian bytes ----------

  function LE16(x: U16): (b: seq<Byte>)
    ensures |b| == 2
  {
    [x % 0x100, x / 0x100]
  }

  /** eh_magic, eh_entries, eh_max, eh_depth and eh_generation. */
  function HeaderBytes(entries: U16, max: U16, depth: U16, generation: U32): (b: seq<Byte>)
    ensures |b| == 12
  {
    LE16(0xf30a) + LE16(entries) + LE16(max) + LE16(depth) + LE32(generation)
  }

  /** Block numbers of 48 bits. */
  type Block = x: nat | x < 0x1_0000_0000_0000

  /** ee_block, ee_len, ee_start_hi and ee_start_lo. */
  function ExtentBytes(e: Extent): (b: seq<Byte>)
    requires e.start < 0x1_0000_0000_0000
    ensures |b| == 12
  {
    LE32(e.block) + LE16(e.len) + LE16(e.start / 0x1_0000_0000) + LE32(e.start % 0x1_0000_0000)
  }

  /** ei_block, ei_leaf_lo, ei_leaf_hi and ei_unused. */
  function IndexBytes(block: U32, leaf: Block, unused: U16): (b: seq<Byte>)
    ensures |b| == 12
  {
    LE32(block) + LE32(leaf % 0x1_0000_0000) + LE16(leaf / 0x1_0000_0000) + LE16(unused)
  }

  // ---------- Trees ----------

  /** A node with the header fields the reader ignores; a kid is an index entry and the node its
      block starts with. */
  datatype Tree = Leaf(max: U16, generation: U32, extents: seq<Extent>)
                | Index(max: U16, generation: U32, depth: U16, kids: seq<Kid>)
  datatype Kid = Kid(block: U32, at: Block, unused: U16, tree: Tree)

  function ExtentsBytes(es: seq<Extent>): (b: seq<Byte>)
    requires forall i :: 0 <= i < |es| ==> es[i].start < 0x1_0000_0000_0000
    ensures |b| == 12 * |es|
  {
    if es == [] then [] else ExtentBytes(es[0]) + ExtentsBytes(es[1..])
  }

  function KidsBytes(ks: seq<Kid>): (b: seq<Byte>)
    ensures |b| == 12 * |ks|
  {
    if ks == [] then [] else IndexBytes(ks[0].block, ks[0].at, ks[0].unused) + KidsBytes(ks[1..])
  }

  predicate Holds(img: Image, off: nat, b: seq<Byte>) {
    off + |b| <= |img| && img[off..off + |b|] == b
  }

  /** The image holds the tree's root at `off` and every other node at the start of its block. */
  predicate Stored(img: Image, bs: nat, off: nat, t: Tree)
    decreases t, 1
  {
    Holds(img, off, NodeBytes(t)) && Encodable(t) && forall k :: 0 <= k < KidCount(t) ==> KidStored(img, bs, t, k)
  }

  predicate KidStored(img: Image, bs: nat, t: Tree, k: nat)
    requires k < KidCount(t)
    decreases t, 0
  {
    var start := BlockStart(bs, t.kids[k].at);
    start + bs <= |img| && Stored(img, bs, start, t.kids[k].tree)
  }

  function BlockStart(bs: nat, block: nat): nat {
    block * bs
  }

  function KidCount(t: Tree): nat {
    if t.Leaf? then 0 else |t.kids|
  }

  predicate Encodable(t: Tree) {
    match t
    case Leaf(_, _, es) => |es| < 0x1_0000 && forall i :: 0 <= i < |es| ==> es[i].start < 0x1_0000_0000_0000
    case Index(_, _, depth, ks) => |ks| < 0x1_0000 && depth > 0
  }

  /** The header and its entries. */
  function NodeBytes(t: Tree): seq<Byte> {
    if !Encodable(t) then []
    else
      match t
      case Leaf(max, generation, es) => HeaderBytes(|es|, max, 0, generation) + ExtentsBytes(es)
      case Index(max, generation, depth, ks) => HeaderBytes(|ks|, max, depth, generation) + KidsBytes(ks)
  }

  /** The tree's extents from left to right. */
  function Flatten(t: Tree): seq<Extent>
    decreases t, 1, 0
  {
    if t.Leaf? then t.extents else FlattenTo(t, |t.kids|)
  }

  function FlattenTo(t: Tree, n: nat): seq<Extent>
    requires n <= KidCount(t)
    decreases t, 0, n
  {
    if n == 0 then [] else FlattenTo(t, n - 1) + Flatten(t.kids[n - 1].tree)
  }

  /** Levels of index nodes. */
  function Height(t: Tree): nat
    decreases t, 1, 0
  {
    if t.Leaf? then 0 else 1 + HeightTo(t, |t.kids|)
  }

  function HeightTo(t: Tree, n: nat): (h: nat)
    requires n <= KidCount(t)
    ensures forall k :: 0 <= k < n ==> Height(t.kids[k].tree) <= h
    decreases t, 0, n
  {
    if n == 0 then 0
    else
      var a, b := HeightTo(t, n - 1), Height(t.kids[n - 1].tree);
      if a < b then b else a
  }

  // ---------- Reading what was written ----------

  lemma Within(img: Image, off: nat, b: seq<Byte>, i: nat, c: seq<Byte>)
    requires Holds(img, off, b) && i + |c| <= |b| && b[i..i + |c|] == c
    ensures Holds(img, off + i, c)
  {
    forall j | 0 <= j < |c|
      ensures img[off + i + j] == c[j]
    {
      assert img[off..off + |b|][i + j] == b[i + j] && b[i..i + |c|][j] == c[j];
    }
  }

  lemma Read16(img: Image, off: nat, x: U16)
    requires Holds(img, off, LE16(x))
    ensures U16At(img, off) == x
  {
    assert img[off..off + 2][0] == img[off] && img[off..off + 2][1] == img[off + 1];
  }

  lemma Read32(img: Image, off: nat, x: U32)
    requires Holds(img, off, LE32(x))
    ensures U32At(img, off) == x
  {
    hide FromLE32, LE32;
    LE32RoundTrip(x);
  }

  /** The header's fields read back. */
  lemma HeaderRead(img: Image, off: nat, entries: U16, max: U16, depth: U16, generation: U32)
    requires Holds(img, off, HeaderBytes(entries, max, depth, generation))
    ensures HasMagic(img, off) && Entries(img, off) == entries && Depth(img, off) == depth
  {
    hide LE16, LE32;
    var b := HeaderBytes(entries, max, depth, generation);
    Within(img, off, b, 0, LE16(0xf30a));
    Within(img, off, b, 2, LE16(entries));
    Within(img, off, b, 6, LE16(depth));
    Read16(img, off, 0xf30a);
    Read16(img, off + 2, entries);
    Read16(img, off + 6, depth);
  }

  /** The fields of a leaf's entry i read back. */
  lemma ExtentRead(img: Image, off: nat, i: nat, e: Extent)
    requires IsNode(img, off) && i < Entries(img, off) && e.start < 0x1_0000_0000_0000
    requires Holds(img, off + 12 + 12 * i, ExtentBytes(e))
    ensures ExtentAt(img, off, i) == e
  {
    hide IsNode, U16At, U32At, ExtentBytes, Holds, Entries;
    var p := off + 12 + 12 * i;
    FieldsRead(img, p, e);
  }

  lemma FieldsRead(img: Image, p: nat, e: Extent)
    requires e.start < 0x1_0000_0000_0000 && Holds(img, p, ExtentBytes(e))
    ensures p + 12 <= |img| && U32At(img, p) == e.block && U16At(img, p + 4) == e.len
    ensures U16At(img, p + 6) * 0x1_0000_0000 + U32At(img, p + 8) == e.start
  {
    hide LE16, LE32, U16At, U32At;
    var b := ExtentBytes(e);
    var hi, lo := e.start / 0x1_0000_0000, e.start % 0x1_0000_0000;
    Within(img, p, b, 0, LE32(e.block));
    Within(img, p, b, 4, LE16(e.len));
    Within(img, p, b, 6, LE16(hi));
    Within(img, p, b, 8, LE32(lo));
    hide Holds, ExtentBytes;
    Read32(img, p, e.block);
    Read16(img, p + 4, e.len);
    Read16(img, p + 6, hi);
    Read32(img, p + 8, lo);
  }

  /** The block an index entry names reads back. */
  lemma IndexRead(img: Image, off: nat, i: nat, k: Kid)
    requires IsNode(img, off) && i < Entries(img, off)
    requires Holds(img, off + 12 + 12 * i, IndexBytes(k.block, k.at, k.unused))
    ensures LeafBlock(img, off, i) == k.at
  {
    hide IsNode, U16At, U32At, IndexBytes, Holds, Entries;
    LeafFieldRead(img, off + 12 + 12 * i, k);
  }

  lemma LeafFieldRead(img: Image, p: nat, k: Kid)
    requires Holds(img, p, IndexBytes(k.block, k.at, k.unused))
    ensures p + 12 <= |img| && U16At(img, p + 8) * 0x1_0000_0000 + U32At(img, p + 4) == k.at
  {
    hide LE16, LE32, U16At, U32At;
    var b := IndexBytes(k.block, k.at, k.unused);
    var hi, lo := k.at / 0x1_0000_0000, k.at % 0x1_0000_0000;
    Within(img, p, b, 4, LE32(lo));
    Within(img, p, b, 8, LE16(hi));
    hide Holds, IndexBytes;
    Read32(img, p + 4, lo);
    Read16(img, p + 8, hi);
  }

  lemma {:induction false} ExtentsAt(es: seq<Extent>, i: nat)
    requires i < |es| && forall k :: 0 <= k < |es| ==> es[k].start < 0x1_0000_0000_0000
    ensures ExtentsBytes(es)[12 * i..12 * i + 12] == ExtentBytes(es[i])
  {
    var first, more := ExtentBytes(es[0]), ExtentsBytes(es[1..]);
    assert ExtentsBytes(es) == first + more;
    hide ExtentBytes, ExtentsBytes;
    if i == 0 {
      assert (first + more)[..12] == first;
    } else {
      var j := 12 * (i - 1);
      ExtentsAt(es[1..], i - 1);
      assert more[j..j + 12] == ExtentBytes(es[i]);
      Behind(first, more, j);
    }
  }

  /** Entry bytes behind the first entry. */
  lemma Behind(first: seq<Byte>, more: seq<Byte>, j: nat)
    requires |first| == 12 && j + 12 <= |more|
    ensures (first + more)[j + 12..j + 24] == more[j..j + 12]
  {
  }

  lemma {:induction false} KidsAt(ks: seq<Kid>, i: nat)
    requires i < |ks|
    ensures KidsBytes(ks)[12 * i..12 * i + 12] == IndexBytes(ks[i].block, ks[i].at, ks[i].unused)
  {
    var first, more := IndexBytes(ks[0].block, ks[0].at, ks[0].unused), KidsBytes(ks[1..]);
    assert KidsBytes(ks) == first + more;
    hide IndexBytes, KidsBytes;
    if i == 0 {
      assert (first + more)[..12] == first;
    } else {
      KidsAt(ks[1..], i - 1);
      Behind(first, more, 12 * (i - 1));
    }
  }

  lemma BehindHeader(img: Image, off: nat, head: seq<Byte>, body: seq<Byte>, i: nat, entry: seq<Byte>)
    requires |head| == 12 == |entry| && 12 * i + 12 <= |body| && Holds(img, off, head + body)
    requires body[12 * i..12 * i + 12] == entry
    ensures Holds(img, off + 12 + 12 * i, entry)
  {
    assert (head + body)[12 + 12 * i..12 + 12 * i + 12] == body[12 * i..12 * i + 12];
    Within(img, off, head + body, 12 + 12 * i, entry);
  }

  /** A node of `n` entries is one for the reader. */
  lemma NodeRead(img: Image, off: nat, n: U16, max: U16, depth: U16, generation: U32, body: seq<Byte>)
    requires |body| == 12 * n && Holds(img, off, HeaderBytes(n, max, depth, generation) + body)
    ensures IsNode(img, off) && Entries(img, off) == n && Depth(img, off) == depth
  {
    hide HeaderBytes, HasMagic, Entries, Depth;
    Within(img, off, HeaderBytes(n, max, depth, generation) + body, 0, HeaderBytes(n, max, depth, generation));
    HeaderRead(img, off, n, max, depth, generation);
  }

  lemma LeafRead(img: Image, bs: nat, off: nat, t: Tree, h: nat)
    requires t.Leaf? && Stored(img, bs, off, t)
    ensures WellFormed(img, bs, off, h) && Leaves(img, bs, off, h) == Some(t.extents)
  {
    hide HeaderBytes, ExtentsBytes, ExtentBytes, Holds, ExtentAt, Depth, Entries, HasMagic;
    var es := t.extents;
    var head, body := HeaderBytes(|es|, t.max, 0, t.generation), ExtentsBytes(es);
    NodeRead(img, off, |es|, t.max, 0, t.generation, body);
    forall i | 0 <= i < |es|
      ensures ExtentAt(img, off, i) == es[i]
    {
      ExtentsAt(es, i);
      BehindHeader(img, off, head, body, i, ExtentBytes(es[i]));
      ExtentRead(img, off, i, es[i]);
    }
    assert LeafExtents(img, off) == es;
  }

  lemma IndexNode(img: Image, bs: nat, off: nat, t: Tree)
    requires t.Index? && Stored(img, bs, off, t)
    ensures IsIndex(img, off) && Entries(img, off) == |t.kids|
  {
    hide Holds, HeaderBytes, KidsBytes, Entries, HasMagic, Depth, KidStored;
    NodeRead(img, off, |t.kids|, t.max, t.depth, t.generation, KidsBytes(t.kids));
  }

  /** Each index entry leads to its kid. */
  lemma KidRead(img: Image, bs: nat, off: nat, t: Tree, i: nat)
    requires t.Index? && Stored(img, bs, off, t) && IsIndex(img, off) && i < |t.kids| == Entries(img, off)
    ensures Child(img, bs, off, i) == Some(BlockStart(bs, t.kids[i].at))
    ensures Stored(img, bs, BlockStart(bs, t.kids[i].at), t.kids[i].tree)
  {
    var ks := t.kids;
    assert KidStored(img, bs, t, i);
    hide HeaderBytes, KidsBytes, IndexBytes, Holds, LeafBlock, Depth, Entries, HasMagic, Stored;
    var head, body := HeaderBytes(|ks|, t.max, t.depth, t.generation), KidsBytes(ks);
    assert Holds(img, off, head + body) by { StoredBytes(img, bs, off, t); }
    KidsAt(ks, i);
    BehindHeader(img, off, head, body, i, IndexBytes(ks[i].block, ks[i].at, ks[i].unused));
    IndexRead(img, off, i, ks[i]);
  }

  lemma StoredBytes(img: Image, bs: nat, off: nat, t: Tree)
    requires Stored(img, bs, off, t)
    ensures Encodable(t) && Holds(img, off, NodeBytes(t))
  {
  }

  /** The reader visits exactly the extents of a stored tree, from left to right. */
  lemma {:induction false} TreeRead(img: Image, bs: nat, off: nat, t: Tree, h: nat)
    requires Stored(img, bs, off, t) && Height(t) <= h
    ensures WellFormed(img, bs, off, h) && Leaves(img, bs, off, h) == Some(Flatten(t))
    decreases t, 1, 0
  {
    if t.Leaf? {
      LeafRead(img, bs, off, t, h);
    } else {
      hide Holds, Child, HasMagic, Entries, Depth, Stored, FlattenTo, Kids;
      IndexNode(img, bs, off, t);
      KidsFormed(img, bs, off, t, h);
      KidsRead(img, bs, off, t, |t.kids|, h);
    }
  }

  lemma {:induction false} KidsFormed(img: Image, bs: nat, off: nat, t: Tree, h: nat)
    requires t.Index? && Stored(img, bs, off, t) && Height(t) <= h
    requires IsIndex(img, off) && Entries(img, off) == |t.kids|
    ensures WellFormed(img, bs, off, h)
    decreases t, 0, 0
  {
    hide Holds, Child, HasMagic, Entries, Depth, Stored, Leaves;
    var below := h - 1;
    forall i | 0 <= i < |t.kids|
      ensures ChildWellFormed(img, bs, off, i, below)
    {
      KidRead(img, bs, off, t, i);
      TreeRead(img, bs, BlockStart(bs, t.kids[i].at), t.kids[i].tree, below);
    }
    assert ChildrenWellFormed(img, bs, off, below);
  }

  lemma {:induction false} KidsRead(img: Image, bs: nat, off: nat, t: Tree, n: nat, h: nat)
    requires t.Index? && Stored(img, bs, off, t) && Height(t) <= h && n <= |t.kids|
    requires WellFormed(img, bs, off, h) && IsIndex(img, off) && Entries(img, off) == |t.kids|
    ensures Kids(img, bs, off, n, h) == Some(FlattenTo(t, n))
    decreases t, 0, n
  {
    hide Holds, Child, IsIndex, Entries, Leaves, Flatten, WellFormed, Stored;
    if n > 0 {
      KidsRead(img, bs, off, t, n - 1, h);
      KidRead(img, bs, off, t, n - 1);
      TreeRead(img, bs, BlockStart(bs, t.kids[n - 1].at), t.kids[n - 1].tree, h - 1);
      KidsNext(img, bs, off, n - 1, h);
    }
  }

  // ---------- Trees that cannot be read ----------

  /** A node can be read exactly when it has the magic and, above the leaves, every entry's block lies
      in the image and starts a node that can be read. */
  lemma NodeReadableIff(img: Image, bs: nat, off: nat, h: nat)
    requires WellFormed(img, bs, off, h)
    ensures Leaves(img, bs, off, h).Some? <==>
      && HasMagic(img, off)
      && (Depth(img, off) > 0 ==>
            h > 0 && KidsReadable(img, bs, off, Entries(img, off), h - 1))
  {
    hide Kids, KidsReadable;
    if IsIndex(img, off) {
      KidsReadableIff(img, bs, off, Entries(img, off), h);
    }
  }

  predicate KidsReadable(img: Image, bs: nat, off: nat, n: nat, h: nat)
    requires IsNode(img, off) && n <= Entries(img, off)
  {
    forall i :: 0 <= i < n ==> KidReadable(img, bs, off, i, h)
  }

  predicate KidReadable(img: Image, bs: nat, off: nat, i: nat, h: nat)
    requires IsNode(img, off) && i < Entries(img, off)
  {
    && LeafBlock(img, off, i) * bs + bs <= |img|
    && WellFormed(img, bs, BlockStart(bs, LeafBlock(img, off, i)), h)
    && Leaves(img, bs, BlockStart(bs, LeafBlock(img, off, i)), h).Some?
  }

  lemma {:induction false} KidsReadableIff(img: Image, bs: nat, off: nat, n: nat, h: nat)
    requires WellFormed(img, bs, off, h) && IsIndex(img, off) && n <= Entries(img, off)
    ensures h > 0
    ensures Kids(img, bs, off, n, h).Some? <==> KidsReadable(img, bs, off, n, h - 1)
    decreases n
  {
    hide Leaves, LeafBlock, Entries, KidReadable;
    KidsNone(img, bs, off, h);
    if n > 0 {
      var below := h - 1;
      KidsReadableIff(img, bs, off, n - 1, h);
      KidsNext(img, bs, off, n - 1, h);
      OneKid(img, bs, off, n - 1, below);
    }
  }

  lemma OneKid(img: Image, bs: nat, off: nat, i: nat, h: nat)
    requires IsNode(img, off) && i < Entries(img, off) && ChildWellFormed(img, bs, off, i, h)
    ensures KidReadable(img, bs, off, i, h) <==>
      Child(img, bs, off, i).Some? && Leaves(img, bs, Child(img, bs, off, i).value, h).Some?
  {
    hide Leaves, LeafBlock;
  }

  // ---------- Files ----------

  /** The extent maps logical block b: it is initialised and b is one of its blocks. */
  predicate MapsBlock(e: Extent, b: nat) {
    e.len < 0x8000 && e.block <= b < e.block + e.len
  }

  /** Where byte o lies then. */
  function SourceOf(e: Extent, bs: nat, o: nat): nat
    requires 0 < bs && MapsBlock(e, o / bs)
  {
    BlockStart(bs, e.start + (o / bs - e.block)) + o % bs
  }

  lemma CoversIff(e: Extent, bs: nat, o: nat)
    requires 0 < bs
    ensures Covers(e, o / bs) <==> MapsBlock(e, o / bs)
    ensures MapsBlock(e, o / bs) ==> SourceOf(e, bs, o) == Physical(e, bs, o)
  {
  }

  /** The extent's blocks can be read exactly when the image has every byte they supply. */
  lemma ReadableIff(img: Image, bs: nat, e: Extent, size: nat)
    requires 0 < bs && e.len % 0x8000 > 0
    ensures Readable(img, bs, e, size) <==>
      forall o :: 0 <= o < size && MapsBlock(e, o / bs) ==> SourceOf(e, bs, o) < |img|
  {
    hide Readable, SourceOf, MapsBlock;
    if Readable(img, bs, e, size) {
      forall o | 0 <= o < size && MapsBlock(e, o / bs)
        ensures SourceOf(e, bs, o) < |img|
      {
        ByteReadable(img, bs, e, size, o);
      }
    } else {
      LastUnreadable(img, bs, e, size);
    }
  }

  lemma ByteReadable(img: Image, bs: nat, e: Extent, size: nat, o: nat)
    requires 0 < bs && o < size && Readable(img, bs, e, size) && MapsBlock(e, o / bs)
    ensures SourceOf(e, bs, o) < |img|
  {
    hide Readable, SourceOf, Physical;
    CoversIff(e, bs, o);
    CoversInside(img, bs, e, size, o);
  }

  lemma LastUnreadable(img: Image, bs: nat, e: Extent, size: nat)
    requires 0 < bs && e.len % 0x8000 > 0 && !Readable(img, bs, e, size)
    ensures exists o: nat :: o < size && MapsBlock(e, o / bs) && SourceOf(e, bs, o) >= |img|
  {
    CopySize(bs, e, size);
    var o: nat := e.block * bs + CopyBytes(e, bs, size) - 1;
    LastByte(bs, e, size, o);
    hide SourceOf, MapsBlock;
    assert o < size && MapsBlock(e, o / bs) && SourceOf(e, bs, o) >= |img|;
  }

  lemma LastByte(bs: nat, e: Extent, size: nat, o: nat)
    requires 0 < bs && 0 < e.len < 0x8000 && Used(e, bs, size)
    requires o + 1 == e.block * bs + CopyBytes(e, bs, size)
    ensures MapsBlock(e, o / bs) && SourceOf(e, bs, o) + 1 == e.start * bs + CopyBytes(e, bs, size)
  {
    hide Used, CopyBytes;
    CopySize(bs, e, size);
    var n := CopyBytes(e, bs, size);
    ByteOfRun(bs, e, n - 1, o);
  }

  lemma CopySize(bs: nat, e: Extent, size: nat)
    requires 0 < bs && 0 < e.len < 0x8000 && Used(e, bs, size)
    ensures 0 < CopyBytes(e, bs, size) <= e.len * bs
  {
    assert BlockCount(e) == e.len;
    MulMono(1, e.len, bs);
  }

  /** Byte r of an extent's run. */
  lemma ByteOfRun(bs: nat, e: Extent, r: nat, o: nat)
    requires 0 < bs && e.len < 0x8000 && r < e.len * bs && o == e.block * bs + r
    ensures MapsBlock(e, o / bs) && SourceOf(e, bs, o) == e.start * bs + r
  {
    hide SourceOf;
    BlockRange(e.block, e.len, bs, o);
    StartsRun(bs, e, o);
  }

  lemma StartsRun(bs: nat, e: Extent, o: nat)
    requires 0 < bs && MapsBlock(e, o / bs)
    ensures SourceOf(e, bs, o) == e.start * bs + (o - e.block * bs)
  {
    hide SourceOf, Physical;
    PhysicalInRun(e, bs, o);
    CoversIff(e, bs, o);
  }

  /** The EXT4_EXTENTS_FL bit of i_flags chooses the description. */
  lemma FlagRead(img: Image, inode: nat, flags: U32)
    requires inode + 128 <= |img| && Holds(img, inode + 32, LE32(flags))
    ensures UsesExtents(img, inode) <==> flags / 0x8_0000 % 2 == 1
  {
    hide LE32;
    Read32(img, inode + 32, flags);
  }

  /** Byte o of the file is the byte its extent names, and 0 where no extent names one. */
  ghost predicate LoadsByte(img: Image, bs: nat, es: seq<Extent>, size: nat, o: nat)
    requires 0 < bs && o < size && AllReadable(img, bs, es, size)
  {
    && (forall k :: 0 <= k < |es| && MapsBlock(es[k], o / bs) ==>
          SourceOf(es[k], bs, o) < |img| && ByteAt(img, bs, es, size, o) == img[SourceOf(es[k], bs, o)])
    && ((forall k :: 0 <= k < |es| ==> !MapsBlock(es[k], o / bs)) ==> ByteAt(img, bs, es, size, o) == 0)
  }

  /** A file whose inode holds an extent tree: the reader finds the tree's extents, and every byte
      of a load is the one they name. */
  lemma StoredFileLoads(img: Image, bs: nat, inode: nat, t: Tree, size: nat, o: nat)
    requires 0 < bs && o < size && Stored(img, bs, inode + 40, t)
    requires AllReadable(img, bs, Flatten(t), size) && DisjointRanges(Flatten(t))
    ensures WellFormed(img, bs, inode + 40, Height(t))
    ensures Leaves(img, bs, inode + 40, Height(t)) == Some(Flatten(t))
    ensures LoadsByte(img, bs, Leaves(img, bs, inode + 40, Height(t)).value, size, o)
  {
    hide Stored, Flatten, Height, AllReadable, DisjointRanges, WellFormed, Leaves, LoadsByte;
    TreeRead(img, bs, inode + 40, t, Height(t));
    RightByte(img, bs, Flatten(t), size, o);
  }

  lemma RightByte(img: Image, bs: nat, es: seq<Extent>, size: nat, o: nat)
    requires 0 < bs && o < size && AllReadable(img, bs, es, size) && DisjointRanges(es)
    ensures LoadsByte(img, bs, es, size, o)
  {
    hide AllReadable, DisjointRanges, MapsBlock, SourceOf, ByteAt;
    forall k | 0 <= k < |es| && MapsBlock(es[k], o / bs)
      ensures SourceOf(es[k], bs, o) < |img| && ByteAt(img, bs, es, size, o) == img[SourceOf(es[k], bs, o)]
    {
      MappedByte(img, bs, es, size, o, k);
    }
    if forall k :: 0 <= k < |es| ==> !MapsBlock(es[k], o / bs) {
      UnmappedByte(img, bs, es, size, o);
    }
  }

  lemma MappedByte(img: Image, bs: nat, es: seq<Extent>, size: nat, o: nat, k: nat)
    requires 0 < bs && o < size && AllReadable(img, bs, es, size) && DisjointRanges(es)
    requires k < |es| && MapsBlock(es[k], o / bs)
    ensures SourceOf(es[k], bs, o) < |img| && ByteAt(img, bs, es, size, o) == img[SourceOf(es[k], bs, o)]
  {
    hide AllReadable, DisjointRanges, Physical, SourceOf;
    CoversIff(es[k], bs, o);
    LookupUnique(img, bs, es, size, o, k);
  }

  lemma UnmappedByte(img: Image, bs: nat, es: seq<Extent>, size: nat, o: nat)
    requires 0 < bs && o < size && AllReadable(img, bs, es, size)
    requires forall k :: 0 <= k < |es| ==> !MapsBlock(es[k], o / bs)
    ensures ByteAt(img, bs, es, size, o) == 0
  {
    hide AllReadable, Covers, MapsBlock;
    forall k | 0 <= k < |es|
      ensures !Covers(es[k], o / bs)
    {
      CoversIff(es[k], bs, o);
    }
    LookupHole(img, bs, es, size, o);
  }

  /** A witness: one extent of one block. */
  lemma OneBlockFile(img: Image, inode: nat, o: nat)
    requires o < 100 && |img| >= 6 * 1024
    requires Holds(img, inode + 40, [0x0a, 0xf3, 1, 0, 4, 0, 0, 0, 0, 0, 0, 0] + [0, 0, 0, 0, 1, 0, 0, 0, 5, 0, 0, 0])
    ensures WellFormed(img, 1024, inode + 40, 0) && Leaves(img, 1024, inode + 40, 0) == Some([Extent(0, 1, 5)])
    ensures AllReadable(img, 1024, [Extent(0, 1, 5)], 100)
    ensures ByteAt(img, 1024, [Extent(0, 1, 5)], 100, o) == img[5 * 1024 + o]
  {
    hide LE16, LE32, Holds, Leaves, WellFormed, HeaderBytes, ExtentBytes, ExtentsBytes;
    var e := Extent(0, 1, 5);
    var t := Leaf(4, 0, [e]);
    OneBlockBytes(e);
    assert Stored(img, 1024, inode + 40, t);
    hide Stored;
    StoredFileLoads(img, 1024, inode, t, 100, o);
    OneBlockByte(img, e, o);
  }

  lemma OneBlockByte(img: Image, e: Extent, o: nat)
    requires e == Extent(0, 1, 5) && o < 100 && AllReadable(img, 1024, [e], 100) && LoadsByte(img, 1024, [e], 100, o)
    ensures |img| > 5 * 1024 + o && ByteAt(img, 1024, [e], 100, o) == img[5 * 1024 + o]
  {
    hide ByteAt;
    assert MapsBlock([e][0], o / 1024);
  }

  lemma OneBlockBytes(e: Extent)
    requires e == Extent(0, 1, 5)
    ensures HeaderBytes(1, 4, 0, 0) == [0x0a, 0xf3, 1, 0, 4, 0, 0, 0, 0, 0, 0, 0]
    ensures ExtentsBytes([e]) == [0, 0, 0, 0, 1, 0, 0, 0, 5, 0, 0, 0]
  {
    assert ExtentsBytes([e][1..]) == [];
    assert ExtentsBytes([e]) == ExtentBytes(e);
  }

  /** A file described by twelve pointers. */
  lemma PointersLoad(img: Image, bs: nat, inode: nat, ps: seq<U32>, size: nat, o: nat)
    requires 0 < bs && o < size && inode + 128 <= |img| && |ps| == 12 && Holds(img, inode + 40, Words(ps))
    requires forall i :: 0 <= i < 12 ==> DirectReadable(img, bs, inode, size, i)
    ensures forall i :: 0 <= i < 12 ==> DirectBlock(img, inode, i) == ps[i]
    ensures var b := o / bs;
      if b < 12 && ps[b] != 0
      then
        var source := BlockStart(bs, ps[b]) + o % bs;
        source < |img| && DirectByte(img, bs, inode, size, 12, o) == img[source]
      else DirectByte(img, bs, inode, size, 12, o) == 0
  {
    hide DirectReadable, FromLE32, Holds, DirectBlock, DirectSource, BlockStart;
    forall i | 0 <= i < 12
      ensures DirectBlock(img, inode, i) == ps[i]
    {
      PointerRead(img, inode, ps, i);
    }
    if o / bs < 12 && ps[o / bs] != 0 {
      PointedByte(img, bs, inode, size, o / bs, o);
    }
  }

  lemma PointedByte(img: Image, bs: nat, inode: nat, size: nat, i: nat, o: nat)
    requires 0 < bs && o < size && inode + 128 <= |img| && i < 12 && DirectReadable(img, bs, inode, size, i)
    requires o / bs == i && DirectBlock(img, inode, i) != 0
    ensures var source := BlockStart(bs, DirectBlock(img, inode, i)) + o % bs;
      source < |img| && DirectSource(img, bs, inode, size, i, o) == img[source]
  {
    hide DirectReadable, DirectBlock;
    DirectInside(img, bs, inode, size, i, o);
  }

  /** A pointer's block can be read exactly when the image has every byte it supplies. */
  lemma PointerReadableIff(img: Image, bs: nat, inode: nat, size: nat, i: nat)
    requires 0 < bs && inode + 128 <= |img| && i < 12
    ensures DirectReadable(img, bs, inode, size, i) <==>
      forall o :: 0 <= o < size && o / bs == i && DirectBlock(img, inode, i) != 0 ==>
        BlockStart(bs, DirectBlock(img, inode, i)) + o % bs < |img|
  {
    hide DirectBlock;
    var block := DirectBlock(img, inode, i);
    if DirectReadable(img, bs, inode, size, i) {
      forall o | 0 <= o < size && o / bs == i && block != 0
        ensures BlockStart(bs, block) + o % bs < |img|
      {
        DirectInside(img, bs, inode, size, i, o);
      }
    } else {
      var o := i * bs + DirectBytes(bs, size, i) - 1;
      LastOfBlock(i, bs, o);
      assert o < size && o / bs == i && BlockStart(bs, block) + o % bs >= |img|;
    }
  }

  lemma PointerRead(img: Image, inode: nat, ps: seq<U32>, i: nat)
    requires inode + 128 <= |img| && |ps| == 12 && Holds(img, inode + 40, Words(ps)) && i < 12
    ensures DirectBlock(img, inode, i) == ps[i]
  {
    hide FromLE32;
    WordAt(ps, i, []);
    assert Words(ps) + [] == Words(ps);
    Within(img, inode + 40, Words(ps), 4 * i, Words(ps)[4 * i..4 * i + 4]);
  }
}
