/** Regular files of the root file system (kernel/fs/reg_file.c and the block
    allocation of kernel/fs/fs.c). */
module RegFile {
  import opened Basics
  import opened Bitops
  import opened BlockChain

  datatype Inode = Inode(iData: nat, iBlocks: nat, iSize: nat)

  /** The file system as values: every inode points at its chain, the chains are
      separate, and their blocks are allocated. */
  ghost predicate FsOk(mem: seq<Byte>, base: nat, inodes: seq<Inode>, chains: seq<seq<nat>>, used: set<nat>) {
    && |chains| == |inodes| && Separate(chains)
    && (forall f :: 0 <= f < |chains| ==> FileOk(mem, base, inodes[f], chains[f], used))
  }

  ghost predicate FileOk(mem: seq<Byte>, base: nat, inode: Inode, chain: seq<nat>, used: set<nat>) {
    && Linked(mem, base, chain) && inode.iBlocks == |chain| && inode.iData == LinkTo(base, chain, 0)
    && forall k :: 0 <= k < |chain| ==> chain[k] in used
  }

  lemma SeparateOne(chains: seq<seq<nat>>, f: nat)
    requires Separate(chains) && f < |chains|
    ensures NoDup(chains[f])
  {
    forall i, j | 0 <= i < j < |chains[f]| ensures chains[f][i] != chains[f][j] {
      assert chains[f][i] == chains[f][j] ==> SameBlock(chains, f, i, f, j);
    }
  }

  lemma NotInOther(chains: seq<seq<nat>>, f: nat, g: nat, k: nat)
    requires Separate(chains) && f < |chains| && g < |chains| && f != g && k < |chains[f]|
    ensures chains[f][k] !in chains[g]
  {
    forall j | 0 <= j < |chains[g]| ensures chains[g][j] != chains[f][k] {
      assert chains[f][k] == chains[g][j] ==> SameBlock(chains, f, k, g, j);
    }
  }

  /** A write into block k of file f keeps the file system, stores the bytes in
      file f, and leaves every other file alone. */
  lemma PayloadOk(mem: seq<Byte>, base: nat, inodes: seq<Inode>, chains: seq<seq<nat>>, used: set<nat>,
                  f: nat, k: nat, off: nat, bytes: seq<Byte>)
    requires FsOk(mem, base, inodes, chains, used) && f < |chains| && k < |chains[f]| && off + |bytes| <= 120
    ensures chains[f][k] < |mem| / 128 && 128 * chains[f][k] + 8 + off + |bytes| <= |mem|
    ensures var mem' := Patch(mem, 128 * chains[f][k] + 8 + off, bytes);
            && FsOk(mem', base, inodes, chains, used)
            && Flat(mem', chains[f]) == Store(Flat(mem, chains[f]), 120 * k + off, bytes)
            && forall g :: 0 <= g < |chains| && g != f ==> Flat(mem', chains[g]) == Flat(mem, chains[g])
  {
    PayloadKeepsFs(mem, base, inodes, chains, used, f, k, off, bytes);
    SeparateOne(chains, f);
    PayloadStores(mem, chains[f], k, off, bytes);
    forall g | 0 <= g < |chains| && g != f
      ensures Flat(Patch(mem, 128 * chains[f][k] + 8 + off, bytes), chains[g]) == Flat(mem, chains[g])
    {
      PayloadKeepsFile(mem, base, inodes, chains, used, f, k, off, bytes, g);
    }
  }

  lemma PayloadKeepsFs(mem: seq<Byte>, base: nat, inodes: seq<Inode>, chains: seq<seq<nat>>, used: set<nat>,
                       f: nat, k: nat, off: nat, bytes: seq<Byte>)
    requires FsOk(mem, base, inodes, chains, used) && f < |chains| && k < |chains[f]| && off + |bytes| <= 120
    ensures chains[f][k] < |mem| / 128 && InDisk(chains[f], |mem| / 128)
    ensures FsOk(Patch(mem, 128 * chains[f][k] + 8 + off, bytes), base, inodes, chains, used)
  {
    assert FileOk(mem, base, inodes[f], chains[f], used);
    var b := chains[f][k];
    forall g | 0 <= g < |chains|
      ensures FileOk(Patch(mem, 128 * b + 8 + off, bytes), base, inodes[g], chains[g], used) {
      assert FileOk(mem, base, inodes[g], chains[g], used);
      PayloadKeepsLinks(mem, base, chains[g], b, off, bytes);
    }
  }

  lemma PayloadKeepsFile(mem: seq<Byte>, base: nat, inodes: seq<Inode>, chains: seq<seq<nat>>, used: set<nat>,
                         f: nat, k: nat, off: nat, bytes: seq<Byte>, g: nat)
    requires FsOk(mem, base, inodes, chains, used) && f < |chains| && k < |chains[f]| && off + |bytes| <= 120
    requires g < |chains| && g != f && chains[f][k] < |mem| / 128
    ensures InDisk(chains[g], |mem| / 128)
    ensures Flat(Patch(mem, 128 * chains[f][k] + 8 + off, bytes), chains[g]) == Flat(mem, chains[g])
  {
    assert FileOk(mem, base, inodes[g], chains[g], used);
    NotInOther(chains, f, g, k);
    PayloadKeepsOther(mem, chains[g], chains[f][k], off, bytes);
  }

  lemma SeparateAppend(chains: seq<seq<nat>>, f: nat, b: nat)
    requires Separate(chains) && f < |chains| && (forall g :: 0 <= g < |chains| ==> b !in chains[g])
    ensures Separate(chains[f := chains[f] + [b]])
  {
    var cs := chains[f := chains[f] + [b]];
    forall g, i, h, j | SameBlock(cs, g, i, h, j) ensures g == h && i == j {
      assert i < |chains[g]| && j < |chains[h]| ==> SameBlock(chains, g, i, h, j);
      assert i < |chains[g]| ==> cs[g][i] == chains[g][i] && chains[g][i] in chains[g];
      assert j < |chains[h]| ==> cs[h][j] == chains[h][j] && chains[h][j] in chains[h];
    }
  }

  /** Appending an unused block to file f keeps the file system, and the content
      of every file, extended by one block for f. */
  lemma AppendOk(mem: seq<Byte>, base: nat, inodes: seq<Inode>, chains: seq<seq<nat>>, used: set<nat>, f: nat, b: nat)
    requires FsOk(mem, base, inodes, chains, used) && f < |chains| && b < |mem| / 128 && b !in used
    requires base + |mem| < 0x1_0000_0000
    ensures InDisk(chains[f], |mem| / 128)
    ensures var mem', chain := Appended(mem, base, chains[f], b), chains[f] + [b];
            var inode := Inode(LinkTo(base, chain, 0), inodes[f].iBlocks + 1, inodes[f].iSize);
            && FsOk(mem', base, inodes[f := inode], chains[f := chain], used + {b})
            && |mem'| == |mem| && Flat(mem', chain)[..120 * |chains[f]|] == Flat(mem, chains[f])
            && forall g :: 0 <= g < |chains| && g != f ==> Flat(mem', chains[g]) == Flat(mem, chains[g])
  {
    assert FileOk(mem, base, inodes[f], chains[f], used);
    var mem', chain := Appended(mem, base, chains[f], b), chains[f] + [b];
    forall g | 0 <= g < |chains| ensures b !in chains[g] {
      assert FileOk(mem, base, inodes[g], chains[g], used);
    }
    SeparateAppend(chains, f, b);
    SeparateOne(chains, f);
    AppendLinks(mem, base, chains[f], b);
    AppendFlat(mem, base, chains[f], b, chains[f]);
    forall g | 0 <= g < |chains| && g != f
      ensures FileOk(mem', base, inodes[g], chains[g], used + {b}) && Flat(mem', chains[g]) == Flat(mem, chains[g])
    {
      assert FileOk(mem, base, inodes[g], chains[g], used);
      AppendKeepsOther(mem, base, chains, f, g, b);
      AppendFlat(mem, base, chains[f], b, chains[g]);
    }
  }

  lemma AppendKeepsOther(mem: seq<Byte>, base: nat, chains: seq<seq<nat>>, f: nat, g: nat, b: nat)
    requires Separate(chains) && f < |chains| && g < |chains| && f != g && b < |mem| / 128 && b !in chains[g]
    requires InDisk(chains[f], |mem| / 128) && Linked(mem, base, chains[g]) && base + |mem| < 0x1_0000_0000
    ensures Linked(Appended(mem, base, chains[f], b), base, chains[g])
  {
    SetNextKeepsLinks(mem, base, b, 0, chains[g]);
    var n := |chains[f]|;
    if n > 0 {
      NotInOther(chains, f, g, n - 1);
      SetNextKeepsLinks(SetNext(mem, b, 0), base, chains[f][n - 1], BlockAddr(base, b), chains[g]);
    }
  }

  lemma AppendFlat(mem: seq<Byte>, base: nat, chain: seq<nat>, b: nat, other: seq<nat>)
    requires InDisk(chain, |mem| / 128) && b < |mem| / 128 && InDisk(other, |mem| / 128)
    ensures |Appended(mem, base, chain, b)| == |mem|
    ensures Flat(Appended(mem, base, chain, b), other) == Flat(mem, other)
  {
    SetNextKeepsFlat(mem, b, 0, other);
    if chain != [] {
      SetNextKeepsFlat(SetNext(mem, b, 0), chain[|chain| - 1], BlockAddr(base, b), other);
    }
  }

  lemma {:induction false} FullSet(s: set<nat>, n: nat)
    requires forall i: nat :: i < n ==> i in s
    ensures |s| >= n
  {
    if n > 0 {
      FullSet(s - {n - 1}, n - 1);
    }
  }

  /** How many of `size` bytes from `pos` lie inside a content of length n. */
  function Available(n: nat, pos: nat, size: nat): nat {
    if pos + size <= n then size else if pos <= n then n - pos else 0
  }

  /** The state of a read after `done` bytes. */
  ghost predicate ReadSoFar(flat: seq<Byte>, pos: nat, done: int, buf: seq<Byte>, newPos: nat) {
    && done == |buf| && newPos == pos + done && (done > 0 ==> newPos <= |flat|)
    && (newPos <= |flat| ==> buf == flat[pos..newPos])
  }

  lemma ReadMore(flat: seq<Byte>, pos: nat, done: int, buf: seq<Byte>, newPos: nat, bytes: seq<Byte>)
    requires ReadSoFar(flat, pos, done, buf, newPos)
    requires newPos + |bytes| <= |flat| && bytes == flat[newPos..newPos + |bytes|]
    ensures ReadSoFar(flat, pos, done + |bytes|, buf + bytes, newPos + |bytes|)
  {}

  /** The first k bytes of a buffer have been written at a position, nothing else
      has changed, and the content has not grown by a block without need. */
  ghost predicate WroteFirst(before: seq<Byte>, after: seq<Byte>, pos: nat, buf: seq<Byte>, k: nat) {
    && k <= |buf| && (|after| == |before| || |after| < pos + k + 120)
    && if k == 0 then after == before else Wrote(before, after, pos, buf[..k])
  }

  lemma ChunkWrote(before: seq<Byte>, grown: seq<Byte>, pos: nat, bytes: seq<Byte>, n: nat)
    requires |grown| >= |before| && grown[..|before|] == before && 0 < n <= |bytes| && pos + n <= |grown|
    requires |grown| == |before| || |grown| < pos + n + 120
    ensures WroteFirst(before, Store(grown, pos, bytes[..n]), pos, bytes, n)
  {}

  lemma WroteMore(before: seq<Byte>, mid: seq<Byte>, after: seq<Byte>, pos: nat, buf: seq<Byte>, k: nat, at: nat,
                  n: nat, k': nat)
    requires WroteFirst(before, mid, pos, buf, k) && WroteFirst(mid, after, at, buf[k..], n) && at == pos + k
               && k' == k + n
    ensures WroteFirst(before, after, pos, buf, k')
  {
    assert buf[..k'] == buf[..k] + buf[k..][..n];
    if k > 0 && n > 0 {
      WroteTwice(before, mid, after, pos, buf[..k], buf[k..][..n]);
    }
  }

  /** Where a write at `pos` lands in a file of so many blocks: blocks are only
      appended at the end, so a hole is not skipped. */
  function Landing(pos: nat, blocks: nat): nat {
    if pos / 120 >= blocks then 120 * blocks + pos % 120 else pos
  }

  /** A write lands at its own position exactly when it leaves no hole. */
  lemma LandsIff(pos: nat, blocks: nat)
    ensures Landing(pos, blocks) <= pos
    ensures Landing(pos, blocks) == pos <==> pos / 120 <= blocks
    ensures pos / 120 > blocks ==> Landing(pos, blocks) + 120 <= pos
  {}

  /** The part of `size` bytes that fits the block of a position. */
  function ChunkSize(pos: nat, size: nat): (n: nat)
    ensures n <= size && (n == 0 ==> size == 0)
  {
    if size > 120 - pos % 120 then 120 - pos % 120 else size
  }

  /** A chunk lands in one block; a chunk cut off at the end of its block is
      followed by the landing place of the next one; a block appended for a chunk
      is needed. */
  lemma ChunkLands(pos: nat, size: nat, blocks: nat)
    requires size > 0
    ensures var at, n := if pos / 120 >= blocks then blocks else pos / 120, ChunkSize(pos, size);
            var blocks' := if at == blocks then blocks + 1 else blocks;
            && at < blocks' && Landing(pos, blocks) == 120 * at + pos % 120 && pos % 120 + n <= 120
            && (n < size ==> Landing(pos + n, blocks') == Landing(pos, blocks) + n)
            && (at == blocks ==> 120 * blocks' < Landing(pos, blocks) + n + 120)
  {}

  /** How many of n bytes a write at `pos` stores in a file of `have` blocks when
      `free` blocks are left: all of them if they end inside the blocks the file can
      get, and else those up to the end of these. */
  function Stored(pos: nat, n: nat, have: nat, free: nat): nat {
    var land, cap := Landing(pos, have), 120 * (have + free);
    if n == 0 || land + n <= cap then n else if land <= cap then cap - land else 0
  }

  /** The write loop stops with k bytes because all are stored, or because the next
      one lies past a chain that can get no further block. */
  lemma StoredIs(pos: nat, n: nat, have: nat, free: nat, k: nat, blocks: nat)
    requires k <= n && have <= blocks <= have + free
    requires k > 0 ==> Landing(pos, have) + k <= 120 * blocks
    requires k < n ==> blocks == have + free && Landing(pos, have) + k >= 120 * blocks
    ensures k == Stored(pos, n, have, free)
  {}

  /** The size a file should have after k bytes have been stored at a position. */
  function SizeAfter(size: nat, pos: nat, k: nat): nat {
    if k == 0 || pos + k <= size then size else pos + k
  }

  /** When the size recorded by __reg_file_write, which adds the size requested, is
      that of the file: nothing is requested, or the bytes that can be stored end
      where the sum does. */
  predicate SizeRight(size: nat, pos: nat, n: nat, have: nat, free: nat) {
    var k := Stored(pos, n, have, free);
    n == 0 || (k > 0 && pos + k == size + n)
  }

  /** The condition is exact; if there is room for all bytes, it is that the write
      starts at the end of the file. */
  lemma RecordedSizeIff(size: nat, pos: nat, n: nat, have: nat, free: nat)
    ensures size + n == SizeAfter(size, pos, Stored(pos, n, have, free)) <==> SizeRight(size, pos, n, have, free)
    ensures Landing(pos, have) + n <= 120 * (have + free) ==>
              (SizeRight(size, pos, n, have, free) <==> n == 0 || pos == size)
  {}

  lemma {:induction false} InRange(s: set<nat>, n: nat)
    requires forall b :: b in s ==> b < n
    ensures |s| <= n
  {
    if n > 0 {
      InRange(s - {n - 1}, n - 1);
    }
  }

  class RootFs {
    const base: nat // address of rootfs_blks
    const mem: array<Byte>
    const blocks: nat // FS_BLK_CNT
    const bitmap: array<Word>
    var blkCnt: nat
    const inodes: array<Inode>
    ghost var used: set<nat>
    ghost var chains: seq<seq<nat>>

    ghost predicate Valid()
      reads this, mem, bitmap, inodes
    {
      && mem as object != bitmap && mem as object != inodes && bitmap as object != inodes
      && 128 <= base && base + mem.Length < 0x1_0000_0000 && mem.Length == 128 * blocks
      && blocks <= 32 * bitmap.Length
      && (forall i: nat {:trigger BitAt(bitmap[..], i)} :: i < 32 * bitmap.Length ==>
        (BitAt(bitmap[..], i) <==> i in used))
      && (forall b :: b in used ==> b < blocks) && blkCnt == |used|
      && FsOk(mem[..], base, inodes[..], chains, used)
    }

    /** rootfs_init, with every inode as a new regular file: no block is in use. */
    constructor (addr: nat, count: nat, inodeMax: nat)
      requires 128 <= addr && addr + 128 * count < 0x1_0000_0000
      ensures Valid() && base == addr && blocks == count && inodes.Length == inodeMax && blkCnt == 0
      ensures forall f :: 0 <= f < inodeMax ==> Content(f) == [] && chains[f] == [] && inodes[f] == Inode(0, 0, 0)
      ensures fresh(mem) && fresh(bitmap) && fresh(inodes)
    {
      base, blocks, blkCnt, used := addr, count, 0, {};
      mem := new Byte[128 * count](_ => 0);
      bitmap := new Word[(count + 31) / 32](_ => 0);
      inodes := new Inode[inodeMax](_ => Inode(0, 0, 0));
      chains := seq(inodeMax, _ => []);
    }

    /** The content of a file. */
    ghost function Content(f: nat): seq<Byte>
      requires Valid() && f < inodes.Length
      reads this, mem, bitmap, inodes
    {
      assert FileOk(mem[..], base, inodes[f], chains[f], used);
      Flat(mem[..], chains[f])
    }

    /** Assignment to the next field of a block header. */
    method SetHeader(addr: nat, next: nat, ghost b: nat)
      requires 128 * b + 128 <= mem.Length && addr == BlockAddr(base, b)
      modifies mem
      ensures mem[..] == SetNext(old(mem[..]), b, next)
    {
      CopyIn(mem, addr - base, Encode(next, 4));
    }

    /** fs_alloc_block: the first free block, or the block count. */
    method AllocBlock() returns (b: nat)
      requires Valid()
      modifies this`blkCnt, this`used, bitmap
      ensures b < blocks ==> b !in old(used) && used == old(used) + {b} && blkCnt == old(blkCnt) + 1
      ensures b >= blocks ==> used == old(used) && blkCnt == old(blkCnt) && old(blkCnt) >= blocks
      ensures forall i: nat {:trigger BitAt(bitmap[..], i)} :: i < 32 * bitmap.Length ==>
                (BitAt(bitmap[..], i) <==> i in used)
    {
      b := FindFirst(bitmap[..], false, blocks);
      if b < blocks {
        blkCnt := blkCnt + 1;
        BitmapSetBit(bitmap, b);
        used := used + {b};
      } else {
        assert forall i: nat :: i < blocks ==> i in used by {
          forall i: nat | i < blocks ensures i in used {
            assert BitAt(bitmap[..], i);
          }
        }
        FullSet(used, blocks);
      }
    }

    /** fs_file_append_block. */
    method AppendBlock(f: nat) returns (addr: nat)
      requires Valid() && f < inodes.Length
      modifies this`blkCnt, this`used, this`chains, bitmap, mem, inodes
      ensures Valid()
      ensures addr == 0 <==> old(blkCnt) >= blocks
      ensures addr == 0 ==> chains == old(chains) && mem[..] == old(mem[..]) && blkCnt == old(blkCnt)
      ensures addr != 0 ==>
        && blkCnt == old(blkCnt) + 1 && |chains| == |old(chains)| && |chains[f]| == |old(chains[f])| + 1
        && addr == LinkTo(base, chains[f], |old(chains[f])|)
        && Content(f)[..|old(Content(f))|] == old(Content(f))
      ensures forall g :: 0 <= g < inodes.Length && g != f ==>
                chains[g] == old(chains)[g] && Content(g) == old(Content(g))
      ensures inodes[f].iSize == old(inodes[f].iSize)
      ensures forall g :: 0 <= g < inodes.Length && g != f ==> inodes[g] == old(inodes[g])
    {
      if blkCnt >= blocks {
        return 0;
      }
      ghost var chain, was, nodes, taken := chains[f], mem[..], inodes[..], used;
      assert FileOk(was, base, nodes[f], chain, used);
      var b := AllocBlock();
      assert mem[..] == was && inodes[..] == nodes;
      AppendOk(was, base, nodes, chains, taken, f, b);
      SeparateOne(chains, f);
      addr := LinkBlock(f, chain, b);
      chains := chains[f := chain + [b]];
    }

    /** The rest of fs_file_append_block: block b is put at the end of the chain. */
    method LinkBlock(f: nat, ghost chain: seq<nat>, b: nat) returns (addr: nat)
      requires mem as object != inodes && f < inodes.Length && b < mem.Length / 128 && b !in chain && NoDup(chain)
      requires Linked(mem[..], base, chain) && inodes[f].iBlocks == |chain| && inodes[f].iData == LinkTo(base, chain, 0)
      modifies mem, inodes
      ensures addr == BlockAddr(base, b) && mem[..] == Appended(old(mem[..]), base, chain, b)
      ensures inodes[..] == old(inodes[..])[f := Inode(LinkTo(base, chain + [b], 0), |chain| + 1, old(inodes[f].iSize))]
    {
      ghost var was := mem[..];
      addr := BlockAddr(base, b);
      SetHeader(addr, 0, b);
      if inodes[f].iBlocks == 0 {
        inodes[f] := inodes[f].(iData := addr);
      } else {
        var last := WalkToLast(f, chain, was, b);
        SetHeader(last, addr, chain[|chain| - 1]);
      }
      assert mem[..] == Appended(was, base, chain, b);
      inodes[f] := inodes[f].(iBlocks := inodes[f].iBlocks + 1);
    }

    /** The walk of fs_file_append_block to the last block of a file, after the
        header of the new block has been cleared. */
    method WalkToLast(f: nat, ghost chain: seq<nat>, ghost was: seq<Byte>, ghost b: nat) returns (addr: nat)
      requires f < inodes.Length && inodes[f].iBlocks == |chain| > 0 && inodes[f].iData == LinkTo(base, chain, 0)
      requires |was| == mem.Length && Linked(was, base, chain) && b < mem.Length / 128 && b !in chain
      requires mem[..] == SetNext(was, b, 0)
      ensures addr == BlockAddr(base, chain[|chain| - 1])
    {
      SetNextKeepsLinks(was, base, b, 0, chain);
      addr := inodes[f].iData;
      var i := 1;
      while i < inodes[f].iBlocks
        invariant 1 <= i <= |chain| && addr == BlockAddr(base, chain[i - 1])
      {
        assert Next(mem[..], chain[i - 1]) == LinkTo(base, chain, i);
        assert mem[..][addr - base..addr - base + 4] == mem[addr - base..addr - base + 4];
        addr := Decode(mem[addr - base..addr - base + 4]);
        i := i + 1;
      }
    }

    /** rootfs_mem_check, for the block region. */
    predicate Checked(addr: nat) {
      base <= addr <= base + mem.Length
    }

    /** fs_get_block_addr: the address of a block of a file, or NULL past its end,
        where the header of the last block is read again and again. */
    method GetBlockAddr(f: nat, index: nat) returns (addr: nat)
      requires Valid() && f < inodes.Length
      ensures addr == LinkTo(base, chains[f], index)
    {
      ghost var chain := chains[f];
      assert FileOk(mem[..], base, inodes[f], chain, used);
      addr := 0;
      var next := inodes[f].iData;
      var i := 0;
      while i < index + 1
        invariant i <= index + 1 && next == LinkTo(base, chain, i)
        invariant i > 0 ==> addr == LinkTo(base, chain, i - 1)
      {
        addr := next;
        if Checked(addr) {
          assert i < |chain|;
          assert Next(mem[..], chain[i]) == LinkTo(base, chain, i + 1);
          assert mem[..][addr - base..addr - base + 4] == mem[addr - base..addr - base + 4];
          next := Decode(mem[addr - base..addr - base + 4]);
        }
        i := i + 1;
      }
    }

    /** One pass of the read loop: the part of the request inside one block, or a
        failure if the position is past the last block. */
    method ReadChunk(f: nat, pos: nat, max: nat) returns (ok: bool, bytes: seq<Byte>)
      requires Valid() && f < inodes.Length && max > 0
      ensures ok <==> pos < |Content(f)|
      ensures ok ==> 0 < |bytes| <= max && pos + |bytes| <= |Content(f)| && bytes == Content(f)[pos..pos + |bytes|]
    {
      ghost var chain := chains[f];
      assert FileOk(mem[..], base, inodes[f], chain, used);
      var addr := GetBlockAddr(f, pos / 120);
      var blkPos := pos % 120;
      var n := ChunkSize(pos, max);
      if !Checked(addr + 8 + blkPos) {
        return false, [];
      }
      assert pos / 120 < |chain|;
      var at := addr - base + 8 + blkPos;
      FlatChunk(mem[..], chain, pos, n);
      assert mem[at..at + n] == mem[..][at..at + n];
      return true, mem[at..at + n];
    }

    /** __reg_file_read: the bytes of the flat content from `pos`, cut off at the
        end of the last block of the file. */
    method Read(f: nat, pos: nat, size: nat) returns (buf: seq<Byte>, newPos: nat)
      requires Valid() && f < inodes.Length
      ensures |buf| == Available(|Content(f)|, pos, size) && newPos == pos + |buf|
      ensures newPos <= |Content(f)| ==> buf == Content(f)[pos..newPos]
    {
      ghost var flat := Content(f);
      buf, newPos := [], pos;
      var remained := size;
      var ok, bytes := true, [];
      while remained > 0 && ok
        invariant ReadSoFar(flat, pos, size - remained, buf, newPos)
        invariant 0 <= remained <= size && (ok || newPos >= |flat|)
        decreases remained, ok
      {
        ok, bytes := ReadChunk(f, newPos, remained);
        if ok {
          ReadMore(flat, pos, size - remained, buf, newPos, bytes);
          buf := buf + bytes;
          remained := remained - |bytes|;
          newPos := newPos + |bytes|;
        }
      }
    }

    /** The block a chunk goes to: appended when the position is past the last
        block. */
    method BlockFor(f: nat, pos: nat) returns (addr: nat)
      requires Valid() && f < inodes.Length
      modifies this`blkCnt, this`used, this`chains, bitmap, mem, inodes
      ensures Valid()
      ensures addr == 0 ==> old(blkCnt) == blkCnt >= blocks && chains[f] == old(chains[f]) && pos / 120 >= |chains[f]|
      ensures addr == 0 ==> Content(f) == old(Content(f))
      ensures blkCnt - old(blkCnt) == |chains[f]| - |old(chains[f])|
      ensures addr != 0 ==>
        && addr == LinkTo(base, chains[f], if pos / 120 >= |old(chains[f])| then |old(chains[f])| else pos / 120)
        && |chains[f]| == (if pos / 120 >= |old(chains[f])| then |old(chains[f])| + 1 else |old(chains[f])|)
        && Content(f)[..|old(Content(f))|] == old(Content(f))
      ensures forall g :: 0 <= g < inodes.Length && g != f ==> Content(g) == old(Content(g))
      ensures inodes[f].iSize == old(inodes[f].iSize)
      ensures forall g :: 0 <= g < inodes.Length && g != f ==> inodes[g] == old(inodes[g])
    {
      assert FileOk(mem[..], base, inodes[f], chains[f], used);
      if pos / 120 >= inodes[f].iBlocks {
        addr := AppendBlock(f);
      } else {
        addr := GetBlockAddr(f, pos / 120);
      }
    }

    /** One pass of the write loop. */
    method WriteChunk(f: nat, pos: nat, bytes: seq<Byte>) returns (n: nat)
      requires Valid() && f < inodes.Length && |bytes| > 0
      modifies this`blkCnt, this`used, this`chains, bitmap, mem, inodes
      ensures Valid()
      ensures n == 0 ==>
        && blkCnt >= blocks && |chains[f]| == |old(chains[f])|
        && Landing(pos, |chains[f]|) >= 120 * |chains[f]|
      ensures blkCnt - old(blkCnt) == |chains[f]| - |old(chains[f])|
      ensures WroteFirst(old(Content(f)), Content(f), Landing(pos, |old(chains[f])|), bytes, n)
      ensures 0 < n < |bytes| ==> Landing(pos + n, |chains[f]|) == Landing(pos, |old(chains[f])|) + n
      ensures forall g :: 0 <= g < inodes.Length && g != f ==> Content(g) == old(Content(g))
      ensures inodes[f].iSize == old(inodes[f].iSize)
      ensures forall g :: 0 <= g < inodes.Length && g != f ==> inodes[g] == old(inodes[g])
    {
      ghost var len := |chains[f]|;
      var addr := BlockFor(f, pos);
      if addr == 0 {
        return 0;
      }
      n := ChunkSize(pos, |bytes|);
      ChunkLands(pos, |bytes|, len);
      ghost var grown, land, at := Content(f), Landing(pos, len), if pos / 120 >= len then len else pos / 120;
      assert land == 120 * at + pos % 120 && |grown| == 120 * |chains[f]|;
      StorePart(f, at, pos % 120, addr, bytes[..n], land);
      ChunkWrote(old(Content(f)), grown, land, bytes, n);
    }

    /** The driver write of one chunk into block k of a file. */
    method StorePart(f: nat, ghost k: nat, off: nat, addr: nat, part: seq<Byte>, ghost at: nat)
      requires Valid() && f < inodes.Length && k < |chains[f]| && off + |part| <= 120
                 && addr == LinkTo(base, chains[f], k)
      requires at == 120 * k + off
      modifies mem
      ensures Valid() && |Content(f)| == |old(Content(f))| && at + |part| <= |Content(f)|
      ensures Content(f) == Store(old(Content(f)), at, part)
      ensures forall g :: 0 <= g < inodes.Length && g != f ==> Content(g) == old(Content(g))
    {
      PayloadOk(mem[..], base, inodes[..], chains, used, f, k, off, part);
      CopyIn(mem, addr - base + 8 + off, part);
    }

    /** The loop of __reg_file_write. */
    method WriteBytes(f: nat, pos: nat, buf: seq<Byte>) returns (k: nat, newPos: nat)
      requires Valid() && f < inodes.Length
      modifies this`blkCnt, this`used, this`chains, bitmap, mem, inodes
      ensures Valid() && old(blkCnt) <= blocks && k <= |buf| && newPos == pos + k
      ensures k == Stored(pos, |buf|, |old(chains[f])|, blocks - old(blkCnt)) && (k < |buf| ==> blkCnt >= blocks)
      ensures blkCnt - old(blkCnt) == |chains[f]| - |old(chains[f])|
      ensures WroteFirst(old(Content(f)), Content(f), Landing(pos, |old(chains[f])|), buf, k)
      ensures forall g :: 0 <= g < inodes.Length && g != f ==> Content(g) == old(Content(g))
      ensures inodes[f].iSize == old(inodes[f].iSize)
      ensures forall g :: 0 <= g < inodes.Length && g != f ==> inodes[g] == old(inodes[g])
    {
      InRange(used, blocks);
      k, newPos := 0, pos;
      ghost var first, land := Content(f), Landing(pos, |chains[f]|);
      var n := 1;
      while k < |buf| && n > 0
        invariant newPos == pos + k && Valid() && WroteFirst(first, Content(f), land, buf, k)
        invariant k < |buf| && n > 0 ==> Landing(newPos, |chains[f]|) == land + k
        invariant n == 0 ==> blkCnt >= blocks && land + k >= 120 * |chains[f]|
        invariant blkCnt - old(blkCnt) == |chains[f]| - |old(chains[f])| >= 0
        invariant forall g :: 0 <= g < inodes.Length && g != f ==> Content(g) == old(Content(g))
        invariant inodes[f].iSize == old(inodes[f].iSize)
        invariant forall g :: 0 <= g < inodes.Length && g != f ==> inodes[g] == old(inodes[g])
        decreases |buf| - k, n
      {
        n, k, newPos := WriteStep(f, newPos, buf, k, first, land);
      }
      InRange(used, blocks);
      StoredIs(pos, |buf|, |old(chains[f])|, blocks - old(blkCnt), k, |chains[f]|);
    }

    /** A chunk continues the write of a buffer. */
    method WriteStep(f: nat, pos: nat, buf: seq<Byte>, k: nat, ghost first: seq<Byte>, ghost land: nat)
      returns (n: nat, k': nat, pos': nat)
      requires Valid() && f < inodes.Length && k < |buf| && WroteFirst(first, Content(f), land, buf, k)
      requires Landing(pos, |chains[f]|) == land + k
      modifies this`blkCnt, this`used, this`chains, bitmap, mem, inodes
      ensures Valid() && k' == k + n && pos' == pos + n && WroteFirst(first, Content(f), land, buf, k')
      ensures k' < |buf| && n > 0 ==> Landing(pos', |chains[f]|) == land + k'
      ensures n == 0 ==> blkCnt >= blocks && land + k' >= 120 * |chains[f]|
      ensures blkCnt - old(blkCnt) == |chains[f]| - |old(chains[f])| >= 0
      ensures forall g :: 0 <= g < inodes.Length && g != f ==> Content(g) == old(Content(g))
      ensures inodes[f].iSize == old(inodes[f].iSize)
      ensures forall g :: 0 <= g < inodes.Length && g != f ==> inodes[g] == old(inodes[g])
    {
      ghost var before, at := Content(f), Landing(pos, |chains[f]|);
      n := WriteChunk(f, pos, buf[k..]);
      k', pos' := k + n, pos + n;
      WroteMore(first, before, Content(f), land, buf, k, at, n, k');
    }

    /** __reg_file_write on the root file system.  As many bytes are stored as there
        is room for, where the write lands; no other byte of this or any other file
        changes, and no block is appended without need.  The recorded file size
        grows by the size requested, whatever was stored. */
    method Write(f: nat, pos: nat, buf: seq<Byte>) returns (k: nat, newPos: nat)
      requires Valid() && f < inodes.Length
      modifies this`blkCnt, this`used, this`chains, bitmap, mem, inodes
      ensures Valid() && old(blkCnt) <= blocks && k <= |buf| && newPos == pos + k
      ensures k == Stored(pos, |buf|, |old(chains[f])|, blocks - old(blkCnt)) && (k < |buf| ==> blkCnt >= blocks)
      ensures blkCnt - old(blkCnt) == |chains[f]| - |old(chains[f])|
      ensures WroteFirst(old(Content(f)), Content(f), Landing(pos, |old(chains[f])|), buf, k)
      ensures forall g :: 0 <= g < inodes.Length && g != f ==> Content(g) == old(Content(g))
      ensures inodes[f].iSize == old(inodes[f].iSize) + |buf|
      ensures forall g :: 0 <= g < inodes.Length && g != f ==> inodes[g] == old(inodes[g])
      ensures inodes[f].iSize == SizeAfter(old(inodes[f].iSize), pos, k) <==>
                SizeRight(old(inodes[f].iSize), pos, |buf|, |old(chains[f])|, blocks - old(blkCnt))
    {
      ghost var have, left := |chains[f]|, blocks - blkCnt;
      k, newPos := WriteBytes(f, pos, buf);
      RecordedSizeIff(inodes[f].iSize, pos, |buf|, have, left);
      AddSize(f, |buf|);
    }

    method AddSize(f: nat, n: nat)
      requires Valid() && f < inodes.Length
      modifies inodes
      ensures Valid() && inodes[f].iSize == old(inodes[f].iSize) + n
      ensures forall g :: 0 <= g < inodes.Length && g != f ==> inodes[g] == old(inodes[g])
      ensures forall g :: 0 <= g < inodes.Length ==> Content(g) == old(Content(g))
    {
      ghost var nodes := inodes[..];
      inodes[f] := inodes[f].(iSize := inodes[f].iSize + n);
      forall g | 0 <= g < |chains| ensures FileOk(mem[..], base, inodes[..][g], chains[g], used) {
        assert FileOk(mem[..], base, nodes[g], chains[g], used);
      }
    }

    /** What has been written is read back, across block boundaries, exactly when
        the write left no hole. */
    method WriteThenRead(f: nat, pos: nat, buf: seq<Byte>) returns (k: nat, back: seq<Byte>)
      requires Valid() && f < inodes.Length
      modifies this`blkCnt, this`used, this`chains, bitmap, mem, inodes
      ensures Valid() && old(blkCnt) <= blocks
                && k == Stored(pos, |buf|, |old(chains[f])|, blocks - old(blkCnt)) <= |buf|
      ensures back == buf[..k] <==> k == 0 || pos / 120 <= |old(chains[f])|
    {
      LandsIff(pos, |chains[f]|);
      var p, q;
      k, p := Write(f, pos, buf);
      back, q := Read(f, pos, k);
      assert k > 0 && pos / 120 > |old(chains[f])| ==> |back| < k;
    }
  }

  /** One byte written at position 120 of an empty file goes to its first block and
      is not read back. */
  method HoleExample() returns (k: nat, back: seq<Byte>)
    ensures k == 1 && back != [7]
  {
    var fs := new RootFs(128, 2, 1);
    assert |fs.Content(0)| == 0;
    k, back := fs.WriteThenRead(0, 120, [7]);
    assert [7][..1] == [7];
  }

  /** Writing 100 bytes twice to the start of a file leaves a file of 100 bytes with a
      recorded size of 200. */
  method OverwriteExample(buf: seq<Byte>) returns (first: nat, second: nat, size: nat)
    requires |buf| == 100
    ensures first == second == 100 && size == 200 != SizeAfter(100, 0, second)
  {
    var fs := new RootFs(128, 2, 1);
    var p;
    first, p := fs.Write(0, 0, buf);
    second, p := fs.Write(0, 0, buf);
    size := fs.inodes[0].iSize;
  }
}
