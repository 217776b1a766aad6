/**
 * The DOS form of a label: two far pointers, the deleted bit and the red bit
 * in 5 bytes. The lowest offset bit of each pointer is not stored, but found
 * again by looking for the NUL that ends the block before an odd address.
 */
module PackedPointers {

  import opened Common

  datatype Far = Far(seg: Word16, ofs: Word16)

  const NULL := Far(0, 0)

  // All of what segment and offset can reach.
  const MEMORY_SIZE := 0x11_0000

  // The end of DOS conventional memory, in 16-byte paragraphs.
  const CONVENTIONAL_END := 0xa000

  const HEADER_SIZE := 9
  const WIDE_BLOCK_SIZE := 4 + 4 * 128

  // The packed bytes of a label that has neither children nor flags.
  const NO_CHILDREN: seq<Byte> := [0xff, 0xff, 0, 0, 0]

  // A label with a field of its own for everything that is packed.
  datatype Node = Node(left: Far, right: Far, red: bool, deleted: bool, value: seq<Byte>, name: seq<Byte>)

  function Linear(p: Far): (a: nat)
    ensures a < MEMORY_SIZE
  {
    16 * p.seg + p.ofs
  }

  /** RBL_IS_NULL looks at the segment only, so 0000:0001 is null as well. */
  predicate IsNull(p: Far) {
    p.seg == 0
  }

  /** The same pointer to every caller. */
  predicate Same(p: Far, q: Far) {
    p == q || (IsNull(p) && IsNull(q))
  }

  // ----- the arena -----

  ghost predicate EndsABlock(a: nat, blocks: map<Far, nat>) {
    exists b :: b in blocks && Linear(b) + blocks[b] == a
  }

  ghost predicate Follows(b: Far, base: nat, blocks: map<Far, nat>) {
    Linear(b) == base || EndsABlock(Linear(b), blocks)
  }

  ghost predicate Apart(b: Far, c: Far, blocks: map<Far, nat>)
    requires b in blocks && c in blocks
  {
    Linear(b) + blocks[b] <= Linear(c) || Linear(c) + blocks[c] <= Linear(b)
  }

  ghost predicate BlockOk(mem: seq<Byte>, base: nat, free: Far, b: Far, size: nat) {
    && |mem| == MEMORY_SIZE && 1 <= b.seg < CONVENTIONAL_END && b.ofs < 16
    && base <= Linear(b) && 10 <= size && Linear(b) + size <= Linear(free)
    && mem[Linear(b) + size - 1] == 0
  }

  /** Blocks lie next to each other from base on, and each of them ends in a NUL byte. */
  ghost predicate Arena(mem: seq<Byte>, base: nat, free: Far, blocks: map<Far, nat>) {
    && |mem| == MEMORY_SIZE && base % 16 == 0
    && 1 <= free.seg <= CONVENTIONAL_END && free.ofs < 16
    && Follows(free, base, blocks)
    && (forall b {:trigger BlockOk(mem, base, free, b, blocks[b])} ::
          b in blocks ==> BlockOk(mem, base, free, b, blocks[b]))
    && (forall b {:trigger Follows(b, base, blocks)} :: b in blocks ==> Follows(b, base, blocks))
    && (forall b, c {:trigger Apart(b, c, blocks)} :: b in blocks && c in blocks && b != c ==> Apart(b, c, blocks))
  }

  // ----- the packed form -----

  function Bit(b: bool): nat {
    if b then 1 else 0
  }

  /** left_right_ofs: LLLDRRRE. */
  function PackedOffsets(left: Word16, right: Word16, deleted: bool, red: bool): Byte
    requires left < 16 && right < 16
  {
    left / 2 * 32 + Bit(deleted) * 16 + right / 2 * 2 + Bit(red)
  }

  lemma Unpacked(left: Word16, right: Word16, deleted: bool, red: bool)
    requires left < 16 && right < 16
    ensures var b := PackedOffsets(left, right, deleted, red);
            b / 32 == left / 2 && b / 2 % 8 == right / 2 && b / 16 % 2 == Bit(deleted) && b % 2 == Bit(red)
  {
    var b := PackedOffsets(left, right, deleted, red);
    assert b / 2 == left / 2 * 16 + Bit(deleted) * 8 + right / 2;
    assert b / 16 == left / 2 * 2 + Bit(deleted);
  }

  /** Each part can be masked out and replaced without touching the others. */
  lemma Replaced(left: Word16, right: Word16, deleted: bool, red: bool, ofs: Word16, bit: bool)
    requires left < 16 && right < 16 && ofs < 16
    ensures var b := PackedOffsets(left, right, deleted, red);
            && b % 0x20 + ofs / 2 % 8 * 0x20 == PackedOffsets(ofs, right, deleted, red)
            && b / 0x10 * 0x10 + b % 2 + ofs / 2 % 8 * 2 == PackedOffsets(left, ofs, deleted, red)
            && b / 2 * 2 + Bit(bit) == PackedOffsets(left, right, deleted, bit)
            && b / 0x20 * 0x20 + Bit(bit) * 0x10 + b % 0x10 == PackedOffsets(left, right, bit, red)
  {
    var b := PackedOffsets(left, right, deleted, red);
    Unpacked(left, right, deleted, red);
    assert b / 0x10 == left / 2 * 2 + Bit(deleted);
    assert b / 2 == left / 2 * 16 + Bit(deleted) * 8 + right / 2;
    assert b % 0x20 == Bit(deleted) * 16 + right / 2 * 2 + Bit(red);
    assert b % 0x10 == right / 2 * 2 + Bit(red);
    assert ofs / 2 % 8 == ofs / 2;
  }

  ghost predicate Child(p: Far, labels: map<Far, Node>) {
    p in labels || (IsNull(p) && p.ofs <= 1)
  }

  /** The first 5 bytes at p pack the pointers and flags of n; the left segment is big endian and negated. */
  ghost predicate Links(mem: seq<Byte>, p: Far, n: Node) {
    var at := Linear(p);
    && n.left.ofs < 16 && n.right.ofs < 16 && at + 5 <= |mem|
    && mem[at] == 0xff - n.left.seg / 0x100 && mem[at + 1] == 0xff - n.left.seg % 0x100
    && mem[at + 2] == n.right.seg % 0x100 && mem[at + 3] == n.right.seg / 0x100
    && mem[at + 4] == PackedOffsets(n.left.ofs, n.right.ofs, n.deleted, n.red)
  }

  ghost predicate Stored(mem: seq<Byte>, p: Far, n: Node) {
    var at := Linear(p);
    && Links(mem, p, n)
    && |n.value| == 4 && at + 10 + |n.name| <= |mem|
    && mem[at + 5..at + HEADER_SIZE] == n.value
    && mem[at + HEADER_SIZE..at + HEADER_SIZE + |n.name|] == n.name
  }

  ghost predicate LabelOk(mem: seq<Byte>, blocks: map<Far, nat>, labels: map<Far, Node>, p: Far)
    requires p in labels
  {
    && p in blocks && blocks[p] == 10 + |labels[p].name|
    && Stored(mem, p, labels[p])
    && Child(labels[p].left, labels) && Child(labels[p].right, labels)
  }

  ghost predicate Labels(mem: seq<Byte>, blocks: map<Far, nat>, labels: map<Far, Node>) {
    forall p {:trigger LabelOk(mem, blocks, labels, p)} :: p in labels ==> LabelOk(mem, blocks, labels, p)
  }

  /** What RBL_GET_LEFT and RBL_GET_RIGHT make of a segment and an offset without its lowest bit. */
  function Follow(mem: seq<Byte>, seg: Word16, even: Word16): Far
    requires |mem| == MEMORY_SIZE && even < 15
  {
    if mem[16 * seg + even] == 0 then Far(seg, even + 1) else Far(seg, even)
  }

  /** Where a child pointer can lead, and what the byte before an odd one is. */
  lemma ChildPlace(mem: seq<Byte>, base: nat, free: Far, blocks: map<Far, nat>, labels: map<Far, Node>, q: Far)
    requires Arena(mem, base, free, blocks) && Labels(mem, blocks, labels) && Child(q, labels)
    ensures q.ofs < 16 && q.seg < CONVENTIONAL_END && |mem| == MEMORY_SIZE
    ensures q in labels && q.ofs % 2 == 1 ==> mem[Linear(q) - 1] == 0
  {
    hide Stored, Arena;
    if q in labels {
      assert LabelOk(mem, blocks, labels, q);
      BeforeBlock(mem, base, free, blocks, q);
    }
    ArenaSize(mem, base, free, blocks);
  }

  lemma ArenaSize(mem: seq<Byte>, base: nat, free: Far, blocks: map<Far, nat>)
    requires Arena(mem, base, free, blocks)
    ensures |mem| == MEMORY_SIZE
  {
  }

  /** An odd address is not the first one, so there is a block before it. */
  lemma BeforeBlock(mem: seq<Byte>, base: nat, free: Far, blocks: map<Far, nat>, q: Far)
    requires Arena(mem, base, free, blocks) && q in blocks
    ensures q.ofs < 16 && q.seg < CONVENTIONAL_END && |mem| == MEMORY_SIZE
    ensures q.ofs % 2 == 1 ==> mem[Linear(q) - 1] == 0
  {
    hide Arena;
    BlockFacts(mem, base, free, blocks, q);
    if q.ofs % 2 == 1 {
      OddIsNotBase(q, base);
      var b :| b in blocks && Linear(b) + blocks[b] == Linear(q);
      BlockFacts(mem, base, free, blocks, b);
    }
  }

  lemma OddIsNotBase(q: Far, base: nat)
    requires q.ofs % 2 == 1 && base % 16 == 0
    ensures Linear(q) != base
  {
    var k, m := q.ofs / 2, base / 16;
    assert Linear(q) == 2 * (8 * q.seg + k) + 1 && base == 2 * (8 * m);
  }

  lemma BlockFacts(mem: seq<Byte>, base: nat, free: Far, blocks: map<Far, nat>, b: Far)
    requires Arena(mem, base, free, blocks) && b in blocks
    ensures BlockOk(mem, base, free, b, blocks[b]) && Follows(b, base, blocks) && base % 16 == 0
  {
    assert BlockOk(mem, base, free, b, blocks[b]) && Follows(b, base, blocks);
  }

  /** The first byte of a label is never NUL, as its left child is in conventional memory. */
  lemma FirstByteNotNul(mem: seq<Byte>, base: nat, free: Far, blocks: map<Far, nat>, labels: map<Far, Node>, p: Far)
    requires Arena(mem, base, free, blocks) && Labels(mem, blocks, labels) && p in labels
    ensures mem[Linear(p)] != 0
  {
    assert LabelOk(mem, blocks, labels, p);
    ChildPlace(mem, base, free, blocks, labels, labels[p].left);
  }

  /** The dropped bit is found again: pointers to labels are stored without loss. */
  lemma NothingLost(mem: seq<Byte>, base: nat, free: Far, blocks: map<Far, nat>, labels: map<Far, Node>, q: Far)
    requires Arena(mem, base, free, blocks) && Labels(mem, blocks, labels) && Child(q, labels)
    ensures q.ofs < 16 && Same(Follow(mem, q.seg, q.ofs / 2 * 2), q)
    ensures q in labels ==> Follow(mem, q.seg, q.ofs / 2 * 2) == q
  {
    ChildPlace(mem, base, free, blocks, labels, q);
    if q in labels { FirstByteNotNul(mem, base, free, blocks, labels, q); }
    hide Arena, Labels;
  }

  // ----- what writing does -----

  /** m is mem with bytes changed in block p only, and there not in the last byte. */
  ghost predicate WrittenIn(mem: seq<Byte>, m: seq<Byte>, p: Far, size: nat) {
    && |m| == |mem| == MEMORY_SIZE && size >= 1 && Linear(p) + size <= |mem|
    && forall i :: 0 <= i < |mem| && !(Linear(p) <= i < Linear(p) + size - 1) ==> m[i] == mem[i]
  }

  lemma ArenaKept(mem: seq<Byte>, m: seq<Byte>, base: nat, free: Far, blocks: map<Far, nat>, p: Far)
    requires Arena(mem, base, free, blocks) && p in blocks && WrittenIn(mem, m, p, blocks[p])
    ensures Arena(m, base, free, blocks)
  {
    forall b | b in blocks ensures BlockOk(m, base, free, b, blocks[b]) {
      assert BlockOk(mem, base, free, b, blocks[b]);
      if b != p { assert Apart(b, p, blocks); }
    }
  }

  lemma StoredKept(mem: seq<Byte>, m: seq<Byte>, p: Far, n: Node)
    requires Stored(mem, p, n) && |m| == |mem|
    requires forall i :: Linear(p) <= i < Linear(p) + HEADER_SIZE + |n.name| ==> m[i] == mem[i]
    ensures Stored(m, p, n)
  {
    var at := Linear(p);
    assert m[at + 5..at + HEADER_SIZE] == mem[at + 5..at + HEADER_SIZE];
    assert m[at + HEADER_SIZE..at + HEADER_SIZE + |n.name|] == mem[at + HEADER_SIZE..at + HEADER_SIZE + |n.name|];
  }

  /** A write to one label, old or new, leaves all the others alone. */
  lemma LabelsKept(mem: seq<Byte>, m: seq<Byte>, base: nat, free: Far, blocks: map<Far, nat>,
                   labels: map<Far, Node>, p: Far, n: Node)
    requires Arena(mem, base, free, blocks) && Labels(mem, blocks, labels)
    requires p in blocks && WrittenIn(mem, m, p, blocks[p])
    requires blocks[p] == 10 + |n.name| && Stored(m, p, n)
    requires Child(n.left, labels) && Child(n.right, labels)
    ensures Labels(m, blocks, labels[p := n])
  {
    var after := labels[p := n];
    forall q | q in after ensures LabelOk(m, blocks, after, q) {
      if q != p {
        assert LabelOk(mem, blocks, labels, q);
        assert Apart(q, p, blocks);
        StoredKept(mem, m, q, labels[q]);
      }
    }
  }

  /** The same for a write to a block that is no label. */
  lemma OthersKept(mem: seq<Byte>, m: seq<Byte>, base: nat, free: Far, blocks: map<Far, nat>,
                   labels: map<Far, Node>, p: Far)
    requires Arena(mem, base, free, blocks) && Labels(mem, blocks, labels)
    requires p in blocks && p !in labels && WrittenIn(mem, m, p, blocks[p])
    ensures Labels(m, blocks, labels)
  {
    forall q | q in labels ensures LabelOk(m, blocks, labels, q) {
      assert LabelOk(mem, blocks, labels, q);
      assert Apart(q, p, blocks);
      StoredKept(mem, m, q, labels[q]);
    }
  }

  /** A new block after the last one. */
  lemma BlockAdded(mem: seq<Byte>, m: seq<Byte>, base: nat, free: Far, blocks: map<Far, nat>, size: nat, newFree: Far)
    requires Arena(mem, base, free, blocks) && size >= 10 && free.seg < CONVENTIONAL_END
    requires |mem| == |m| == MEMORY_SIZE && newFree.seg <= CONVENTIONAL_END && newFree.ofs < 16
    requires Linear(newFree) == Linear(free) + size
    requires m[Linear(free) + size - 1] == 0
    requires forall i :: 0 <= i < Linear(free) ==> m[i] == mem[i]
    ensures free !in blocks && Arena(m, base, newFree, blocks[free := size])
  {
    assert free in blocks ==> BlockOk(mem, base, free, free, blocks[free]);
    var after := blocks[free := size];
    assert Linear(free) >= base by {
      if Linear(free) != base {
        var b :| b in blocks && Linear(b) + blocks[b] == Linear(free);
        assert BlockOk(mem, base, free, b, blocks[b]);
      }
    }
    forall b | b in after ensures BlockOk(m, base, newFree, b, after[b]) {
      if b != free { assert BlockOk(mem, base, free, b, blocks[b]); }
    }
    forall a: nat | EndsABlock(a, blocks) ensures EndsABlock(a, after) {
      var b :| b in blocks && Linear(b) + blocks[b] == a;
      assert b in after && after[b] == blocks[b];
    }
    assert free in after && Linear(free) + after[free] == Linear(newFree);
    forall b | b in after ensures Follows(b, base, after) {
      assert Follows(b, base, blocks);
    }
    forall b, c | b in after && c in after && b != c ensures Apart(b, c, after) {
      if b != free && c != free {
        assert Apart(b, c, blocks);
      } else if b != free {
        assert BlockOk(mem, base, free, b, blocks[b]);
      } else {
        assert BlockOk(mem, base, free, c, blocks[c]);
      }
    }
  }

  /** Labels do not mind a write beyond the blocks, nor a new block there. */
  lemma LabelsBelow(mem: seq<Byte>, m: seq<Byte>, base: nat, free: Far, blocks: map<Far, nat>,
                    labels: map<Far, Node>, size: nat)
    requires Arena(mem, base, free, blocks) && Labels(mem, blocks, labels) && free !in blocks
    requires |m| == |mem| && forall i :: 0 <= i < Linear(free) && i < |mem| ==> m[i] == mem[i]
    ensures Labels(m, blocks[free := size], labels)
  {
    forall q | q in labels ensures LabelOk(m, blocks[free := size], labels, q) {
      assert LabelOk(mem, blocks, labels, q);
      assert BlockOk(mem, base, free, q, blocks[q]);
      StoredKept(mem, m, q, labels[q]);
    }
  }

  function Overwritten(mem: seq<Byte>, at: nat, bytes: seq<Byte>): seq<Byte>
    requires at + |bytes| <= |mem|
  {
    mem[..at] + bytes + mem[at + |bytes|..]
  }

  lemma OverwrittenSlice(mem: seq<Byte>, at: nat, bytes: seq<Byte>, a: nat, b: nat)
    requires at + |bytes| <= |mem| && a <= b <= |bytes|
    ensures Overwritten(mem, at, bytes)[at + a..at + b] == bytes[a..b]
  {
  }

  lemma OverwrittenTwice(mem: seq<Byte>, at: nat, x: seq<Byte>, y: seq<Byte>)
    requires at + |x| + |y| <= |mem|
    ensures Overwritten(Overwritten(mem, at, x), at + |x|, y) == Overwritten(mem, at, x + y)
  {
  }

  lemma OverwrittenBelow(mem: seq<Byte>, at: nat, bytes: seq<Byte>)
    requires at + |bytes| <= |mem|
    ensures |Overwritten(mem, at, bytes)| == |mem|
    ensures forall i :: 0 <= i < at ==> Overwritten(mem, at, bytes)[i] == mem[i]
  {
  }

  function LabelBytes(value: seq<Byte>, name: seq<Byte>): seq<Byte> {
    NO_CHILDREN + (value + (name + [0]))
  }

  lemma LabelBytesSlices(value: seq<Byte>, name: seq<Byte>)
    requires |value| == 4
    ensures var bytes := LabelBytes(value, name);
            && |bytes| == 10 + |name| && bytes[0..5] == NO_CHILDREN && bytes[5..HEADER_SIZE] == value
            && bytes[HEADER_SIZE..HEADER_SIZE + |name|] == name
            && bytes[HEADER_SIZE + |name|..10 + |name|] == [0]
  {
  }

  lemma NewLinks(m: seq<Byte>, p: Far, n: Node)
    requires Linear(p) + 5 <= |m| && n.left == n.right == NULL && !n.red && !n.deleted
    requires m[Linear(p)..Linear(p) + 5] == NO_CHILDREN
    ensures Links(m, p, n)
  {
    var at := Linear(p);
    assert m[at] == m[at..at + 5][0] && m[at + 1] == m[at..at + 5][1] && m[at + 2] == m[at..at + 5][2]
        && m[at + 3] == m[at..at + 5][3] && m[at + 4] == m[at..at + 5][4];
  }

  /** define_label's bytes are the packed form of a black, childless, present label. */
  lemma FreshLabelStored(mem: seq<Byte>, p: Far, value: seq<Byte>, name: seq<Byte>)
    requires |value| == 4 && Linear(p) + 10 + |name| <= |mem|
    ensures |LabelBytes(value, name)| == 10 + |name|
    ensures var m := Overwritten(mem, Linear(p), LabelBytes(value, name));
            && |m| == |mem| && Stored(m, p, Node(NULL, NULL, false, false, value, name))
            && m[Linear(p) + HEADER_SIZE + |name|] == 0
            && forall i :: 0 <= i < Linear(p) ==> m[i] == mem[i]
  {
    hide Overwritten, LabelBytes, Links;
    LabelBytesSlices(value, name);
    var bytes, at := LabelBytes(value, name), Linear(p);
    var m, end := Overwritten(mem, at, bytes), at + HEADER_SIZE + |name|;
    OverwrittenBelow(mem, at, bytes);
    OverwrittenSlice(mem, at, bytes, 0, 5);
    OverwrittenSlice(mem, at, bytes, 5, HEADER_SIZE);
    OverwrittenSlice(mem, at, bytes, HEADER_SIZE, HEADER_SIZE + |name|);
    OverwrittenSlice(mem, at, bytes, HEADER_SIZE + |name|, 10 + |name|);
    NewLinks(m, p, Node(NULL, NULL, false, false, value, name));
    assert m[at + 5..at + HEADER_SIZE] == value && m[at + HEADER_SIZE..end] == name;
    assert m[end..end + 1] == [0];
    assert m[end] == m[end..end + 1][0];
  }

  // ----- the heap -----

  class Heap {
    const memory: array<Byte>
    const endPara: Word16
    var free: Far

    // The first address, the blocks with their sizes, and what the label blocks hold.
    ghost const base: nat
    ghost var blocks: map<Far, nat>
    ghost var labels: map<Far, Node>

    ghost predicate Valid()
      reads this, memory
    {
      && memory.Length == MEMORY_SIZE && endPara <= CONVENTIONAL_END
      && Arena(memory[..], base, free, blocks)
      && Labels(memory[..], blocks, labels)
    }

    /** malloc_init. */
    constructor (start: Word16, end: Word16)
      requires 1 <= start <= CONVENTIONAL_END && end <= CONVENTIONAL_END
      ensures Valid() && fresh(memory) && blocks == map[] && labels == map[]
    {
      memory := new Byte[MEMORY_SIZE](_ => 0);
      endPara := end;
      free := Far(start, 0);
      base := 16 * start;
      blocks := map[];
      labels := map[];
    }

    /** malloc_far, in the 16-bit arithmetic of its instructions. */
    method Malloc(size: Word16) returns (p: Far)
      requires Valid() && 1 <= size <= 0xfff0
      modifies this`free
      ensures IsNull(p) <==> Linear(old(free)) + size > 16 * endPara
      ensures IsNull(p) ==> p == NULL && free == old(free)
      ensures !IsNull(p) ==> p == old(free) && p.seg < CONVENTIONAL_END
      ensures !IsNull(p) ==> Linear(free) == Linear(p) + size && free.seg <= CONVENTIONAL_END && free.ofs < 16
    {
      var ax := size + free.ofs;
      var dx := ax / 16 + free.seg;
      ax := ax % 16;
      if dx > endPara || (dx == endPara && ax != 0) { return NULL; }
      p := free;
      free := Far(dx, ax);
    }

    /** strcpy_far, and the assignments to the other fields. */
    method CopyTo(at: nat, bytes: seq<Byte>)
      requires at + |bytes| <= memory.Length
      modifies memory
      ensures memory[..] == Overwritten(old(memory[..]), at, bytes)
    {
      var j := 0;
      while j < |bytes|
        invariant j <= |bytes| && memory[..] == Overwritten(old(memory[..]), at, bytes[..j])
      {
        memory[at + j] := bytes[j];
        j := j + 1;
      }
      assert bytes[..j] == bytes;
    }

    /** The bytes of a new label. */
    method Fill(p: Far, name: seq<Byte>, value: seq<Byte>)
      requires memory.Length == MEMORY_SIZE && Linear(p) + 10 + |name| <= MEMORY_SIZE && |value| == 4
      modifies memory
      ensures memory[..] == Overwritten(old(memory[..]), Linear(p), LabelBytes(value, name))
    {
      hide Overwritten;
      var at := Linear(p);
      ghost var mem := memory[..];
      CopyTo(at, NO_CHILDREN);
      CopyTo(at + 5, value);
      CopyTo(at + HEADER_SIZE, name + [0]);
      OverwrittenTwice(Overwritten(mem, at, NO_CHILDREN), at + 5, value, name + [0]);
      OverwrittenTwice(mem, at, NO_CHILDREN, value + (name + [0]));
    }

    /**
     * define_label up to the insertion: a new label at a new address, with no
     * children, black, and not deleted; or NULL and nothing changed.
     */
    method NewLabel(name: seq<Byte>, value: seq<Byte>) returns (p: Far)
      requires Valid() && |name| <= 0xff00 && |value| == 4
      modifies this, memory
      ensures Valid()
      ensures IsNull(p) ==> labels == old(labels) && blocks == old(blocks)
      ensures !IsNull(p) ==> p !in old(blocks) && blocks == old(blocks)[p := 10 + |name|]
      ensures !IsNull(p) ==> labels == old(labels)[p := Node(NULL, NULL, false, false, value, name)]
      ensures IsNull(p) ==> memory[..] == old(memory[..]) && free == old(free)
      ensures !IsNull(p) ==> p == old(free)
      ensures forall i :: 0 <= i < Linear(old(free)) ==> memory[i] == old(memory[i])
    {
      hide Overwritten, LabelBytes, Stored;
      p := Malloc(HEADER_SIZE + 1 + |name|);
      if IsNull(p) { return; }
      Fill(p, name, value);
      FreshLabelStored(old(memory[..]), p, value, name);
      ghost var mem, m, n := old(memory[..]), memory[..], Node(NULL, NULL, false, false, value, name);
      BlockAdded(mem, m, base, p, blocks, 10 + |name|, free);
      LabelsBelow(mem, m, base, p, blocks, labels, 10 + |name|);
      blocks := blocks[p := 10 + |name|];
      LabelsKept(m, m, base, free, blocks, labels, p, n);
      labels := labels[p := n];
    }

    /** add_wide_instr_in_pass_1: a block for 128 positions, and a NUL of its own for the label after it. */
    method NewWideBlock() returns (p: Far)
      requires Valid()
      modifies this, memory
      ensures Valid() && labels == old(labels)
      ensures IsNull(p) ==> blocks == old(blocks)
      ensures !IsNull(p) ==> p !in old(blocks) && blocks == old(blocks)[p := WIDE_BLOCK_SIZE + 1]
      ensures IsNull(p) ==> memory[..] == old(memory[..]) && free == old(free)
      ensures !IsNull(p) ==> p == old(free)
      ensures forall i :: 0 <= i < Linear(old(free)) ==> memory[i] == old(memory[i])
    {
      p := Malloc(WIDE_BLOCK_SIZE + 1);
      if IsNull(p) { return; }
      memory[Linear(p) + WIDE_BLOCK_SIZE] := 0;
      BlockAdded(old(memory[..]), memory[..], base, p, blocks, WIDE_BLOCK_SIZE + 1, free);
      LabelsBelow(old(memory[..]), memory[..], base, p, blocks, labels, WIDE_BLOCK_SIZE + 1);
      blocks := blocks[p := WIDE_BLOCK_SIZE + 1];
    }

    /** Any byte of a wide block's link and positions can be anything. */
    method StoreInWideBlock(p: Far, i: nat, b: Byte)
      requires Valid() && p in blocks && p !in labels && blocks[p] == WIDE_BLOCK_SIZE + 1 && i < WIDE_BLOCK_SIZE
      modifies memory
      ensures Valid()
      ensures forall k :: 0 <= k < memory.Length ==> memory[k] == if k == Linear(p) + i then b else old(memory[k])
    {
      assert BlockOk(memory[..], base, free, p, blocks[p]);
      memory[Linear(p) + i] := b;
      ArenaKept(old(memory[..]), memory[..], base, free, blocks, p);
      OthersKept(old(memory[..]), memory[..], base, free, blocks, labels, p);
    }

    /** After the packed bytes of label p have been rewritten as those of n. */
    ghost method Repacked(mem: seq<Byte>, p: Far, n: Node)
      requires memory.Length == MEMORY_SIZE && endPara <= CONVENTIONAL_END
      requires Arena(mem, base, free, blocks) && Labels(mem, blocks, labels) && p in labels
      requires Links(memory[..], p, n) && n.name == labels[p].name && n.value == labels[p].value
      requires Child(n.left, labels) && Child(n.right, labels)
      requires forall i :: 0 <= i < |mem| && !(Linear(p) <= i < Linear(p) + 5) ==> memory[i] == mem[i]
      modifies this`labels
      ensures Valid() && labels == old(labels)[p := n]
    {
      assert LabelOk(mem, blocks, labels, p);
      assert BlockOk(mem, base, free, p, blocks[p]);
      assert WrittenIn(mem, memory[..], p, blocks[p]);
      ghost var at := Linear(p);
      assert memory[..][at + 5..at + HEADER_SIZE] == mem[at + 5..at + HEADER_SIZE];
      assert memory[..][at + HEADER_SIZE..at + HEADER_SIZE + |n.name|]
          == mem[at + HEADER_SIZE..at + HEADER_SIZE + |n.name|];
      ArenaKept(mem, memory[..], base, free, blocks, p);
      LabelsKept(mem, memory[..], base, free, blocks, labels, p, n);
      labels := labels[p := n];
    }

    method IsLeftNull(p: Far) returns (b: bool)
      requires Valid() && p in labels
      ensures b <==> IsNull(labels[p].left)
    {
      assert LabelOk(memory[..], blocks, labels, p);
      b := memory[Linear(p)] == 0xff && memory[Linear(p) + 1] == 0xff;
    }

    method IsRightNull(p: Far) returns (b: bool)
      requires Valid() && p in labels
      ensures b <==> IsNull(labels[p].right)
    {
      assert LabelOk(memory[..], blocks, labels, p);
      b := memory[Linear(p) + 2] == 0 && memory[Linear(p) + 3] == 0;
    }

    method GetLeft(p: Far) returns (q: Far)
      requires Valid() && p in labels
      ensures Same(q, labels[p].left)
    {
      hide PackedOffsets;
      ghost var n := labels[p];
      assert LabelOk(memory[..], blocks, labels, p);
      NothingLost(memory[..], base, free, blocks, labels, n.left);
      var at := Linear(p);
      Unpacked(n.left.ofs, n.right.ofs, n.deleted, n.red);
      var high: int, low: int, ofs: int := memory[at], memory[at + 1], memory[at + 4];
      q := Follow(memory[..], (0xff - high) * 0x100 + (0xff - low), ofs / 32 * 2);
    }

    method GetRight(p: Far) returns (q: Far)
      requires Valid() && p in labels
      ensures Same(q, labels[p].right)
    {
      hide PackedOffsets;
      ghost var n := labels[p];
      assert LabelOk(memory[..], blocks, labels, p);
      NothingLost(memory[..], base, free, blocks, labels, n.right);
      var at := Linear(p);
      Unpacked(n.left.ofs, n.right.ofs, n.deleted, n.red);
      var low: int, high: int, ofs: int := memory[at + 2], memory[at + 3], memory[at + 4];
      q := Follow(memory[..], high * 0x100 + low, ofs / 2 % 8 * 2);
    }

    method SetLeft(p: Far, q: Far)
      requires Valid() && p in labels && Child(q, labels)
      modifies memory, this`labels
      ensures Valid() && labels == old(labels)[p := old(labels)[p].(left := q)]
      ensures forall i :: 0 <= i < memory.Length && !(Linear(p) <= i < Linear(p) + 5) ==> memory[i] == old(memory[i])
    {
      hide PackedOffsets;
      ghost var n := labels[p];
      assert LabelOk(memory[..], blocks, labels, p);
      ChildPlace(memory[..], base, free, blocks, labels, q);
      Replaced(n.left.ofs, n.right.ofs, n.deleted, n.red, q.ofs, false);
      var at := Linear(p);
      memory[at], memory[at + 1] := 0xff - q.seg / 0x100, 0xff - q.seg % 0x100;
      memory[at + 4] := memory[at + 4] % 0x20 + q.ofs / 2 % 8 * 0x20;
      Repacked(old(memory[..]), p, n.(left := q));
    }

    method SetRight(p: Far, q: Far)
      requires Valid() && p in labels && Child(q, labels)
      modifies memory, this`labels
      ensures Valid() && labels == old(labels)[p := old(labels)[p].(right := q)]
      ensures forall i :: 0 <= i < memory.Length && !(Linear(p) <= i < Linear(p) + 5) ==> memory[i] == old(memory[i])
    {
      hide PackedOffsets;
      ghost var n := labels[p];
      assert LabelOk(memory[..], blocks, labels, p);
      ChildPlace(memory[..], base, free, blocks, labels, q);
      Replaced(n.left.ofs, n.right.ofs, n.deleted, n.red, q.ofs, false);
      var at := Linear(p);
      memory[at + 2], memory[at + 3] := q.seg % 0x100, q.seg / 0x100;
      memory[at + 4] := memory[at + 4] / 0x10 * 0x10 + memory[at + 4] % 2 + q.ofs / 2 % 8 * 2;
      Repacked(old(memory[..]), p, n.(right := q));
    }

    method IsRed(p: Far) returns (b: bool)
      requires Valid() && p in labels
      ensures b == labels[p].red
    {
      hide PackedOffsets;
      assert LabelOk(memory[..], blocks, labels, p);
      Unpacked(labels[p].left.ofs, labels[p].right.ofs, labels[p].deleted, labels[p].red);
      b := memory[Linear(p) + 4] % 2 != 0;
    }

    method SetRed(p: Far, b: bool)
      requires Valid() && p in labels
      modifies memory, this`labels
      ensures Valid() && labels == old(labels)[p := old(labels)[p].(red := b)]
      ensures forall i :: 0 <= i < memory.Length && !(Linear(p) <= i < Linear(p) + 5) ==> memory[i] == old(memory[i])
    {
      hide PackedOffsets;
      ghost var n := labels[p];
      assert LabelOk(memory[..], blocks, labels, p);
      Replaced(n.left.ofs, n.right.ofs, n.deleted, n.red, 0, b);
      var at := Linear(p);
      memory[at + 4] := memory[at + 4] / 2 * 2 + Bit(b);
      Repacked(old(memory[..]), p, n.(red := b));
    }

    method IsDeleted(p: Far) returns (b: bool)
      requires Valid() && p in labels
      ensures b == labels[p].deleted
    {
      hide PackedOffsets;
      assert LabelOk(memory[..], blocks, labels, p);
      Unpacked(labels[p].left.ofs, labels[p].right.ofs, labels[p].deleted, labels[p].red);
      b := memory[Linear(p) + 4] / 0x10 % 2 != 0;
    }

    method SetDeleted(p: Far, b: bool)
      requires Valid() && p in labels
      modifies memory, this`labels
      ensures Valid() && labels == old(labels)[p := old(labels)[p].(deleted := b)]
      ensures forall i :: 0 <= i < memory.Length && !(Linear(p) <= i < Linear(p) + 5) ==> memory[i] == old(memory[i])
    {
      hide PackedOffsets;
      ghost var n := labels[p];
      assert LabelOk(memory[..], blocks, labels, p);
      Replaced(n.left.ofs, n.right.ofs, n.deleted, n.red, 0, b);
      var at := Linear(p);
      memory[at + 4] := memory[at + 4] / 0x20 * 0x20 + Bit(b) * 0x10 + memory[at + 4] % 0x10;
      Repacked(old(memory[..]), p, n.(deleted := b));
    }
  }
}
