/** The ROM image: built on the host by tools/mkromfs/mkromfs.c, read on the
    device by the regular file reader of the kernel.

The builder gives a file consecutive blocks, links them with addresses of the
host, and finally rebases every address to an offset into the image.  Host
headers are one 64-bit word; the kernel takes the low 32 bits of it.
*/
module RomFs {
  import opened Basics
  import opened BlockChain
  import opened RegFile

  /** The number of blocks that hold so many bytes. */
  function Blocks(size: nat): nat {
    size / 120 + if size % 120 > 0 then 1 else 0
  }

  /** The b_next field of block b, as the host sees it. */
  function NextOf(mem: seq<Byte>, b: nat): nat
    requires 128 * b + 128 <= |mem|
  {
    Decode(mem[128 * b..128 * b + 8])
  }

  function SetNextOf(mem: seq<Byte>, b: nat, v: nat): (r: seq<Byte>)
    requires 128 * b + 128 <= |mem|
    ensures |r| == |mem|
  {
    Patch(mem, 128 * b, Encode(v, 8))
  }

  lemma SetNextOfHeaders(mem: seq<Byte>, b: nat, v: nat, c: nat)
    requires 128 * b + 128 <= |mem| && 128 * c + 128 <= |mem| && v < 0x1_0000_0000_0000_0000
    ensures NextOf(SetNextOf(mem, b, v), c) == if c == b then v else NextOf(mem, c)
  {
    var mem' := SetNextOf(mem, b, v);
    if c == b {
      assert mem'[128 * b..128 * b + 8] == Encode(v, 8);
      HeaderRoundTrip(v, 8);
    } else {
      assert mem'[128 * c..128 * c + 8] == mem[128 * c..128 * c + 8];
    }
  }

  /** The address of block b of a file that ends before block `end`. */
  function Link(base: nat, end: nat, b: nat): nat {
    if b < end then base + 128 * b else 0
  }

  ghost predicate Headers(mem: seq<Byte>, base: nat, start: nat, end: nat)
    requires 128 * end <= |mem|
  {
    forall b: nat {:trigger NextOf(mem, b)} :: start <= b < end ==> NextOf(mem, b) == Link(base, end, b + 1)
  }

  /** Where byte p of a file that starts at block `start` is in memory. */
  function Spot(start: nat, p: nat): nat {
    128 * (start + p / 120) + 8 + p % 120
  }

  ghost predicate Holds(mem: seq<Byte>, start: nat, content: seq<Byte>) {
    forall p: nat {:trigger content[p]} :: p < |content| ==> Spot(start, p) < |mem| && mem[Spot(start, p)] == content[p]
  }

  /** A file with its blocks from `start` on, linked by addresses relative to
      `base`. */
  ghost predicate FileAt(mem: seq<Byte>, base: nat, inode: Inode, start: nat, content: seq<Byte>) {
    var end := start + Blocks(|content|);
    && 128 * end <= |mem| && Headers(mem, base, start, end) && Holds(mem, start, content)
    && inode == Inode(Link(base, end, start), Blocks(|content|), |content|)
  }

  lemma SpotInside(start: nat, p: nat, size: nat)
    requires p < size
    ensures 128 * start + 8 <= Spot(start, p) < 128 * (start + Blocks(size))
  {}

  /** A file depends on its own blocks only. */
  lemma FileFrame(mem: seq<Byte>, mem': seq<Byte>, base: nat, inode: Inode, start: nat, content: seq<Byte>)
    requires FileAt(mem, base, inode, start, content) && |mem'| == |mem|
    requires forall j :: 128 * start <= j < 128 * (start + Blocks(|content|)) ==> mem'[j] == mem[j]
    ensures FileAt(mem', base, inode, start, content)
  {
    var end := start + Blocks(|content|);
    forall b: nat | start <= b < end ensures NextOf(mem', b) == NextOf(mem, b) {
      assert mem'[128 * b..128 * b + 8] == mem[128 * b..128 * b + 8];
    }
    forall p: nat | p < |content| ensures mem'[Spot(start, p)] == content[p] {
      SpotInside(start, p, |content|);
    }
  }

  // --------------------------------------------------------------- import

  /** Memory after block b was added to a file: the last header is pointed at it,
      its own header is cleared, and the next part of the content is copied. */
  function BlockPut(mem: seq<Byte>, host: nat, start: nat, b: nat, part: seq<Byte>): (r: seq<Byte>)
    requires start <= b && 128 * b + 128 <= |mem| && |part| <= 120
    ensures |r| == |mem|
  {
    Patch(SetNextOf(Relinked(mem, host, start, b), b, 0), 128 * b + 8, part)
  }

  function Relinked(mem: seq<Byte>, host: nat, start: nat, b: nat): (r: seq<Byte>)
    requires start <= b && 128 * b + 128 <= |mem|
    ensures |r| == |mem|
  {
    if b > start then SetNextOf(mem, b - 1, host + 128 * b) else mem
  }

  lemma BlockPutHeaders(mem: seq<Byte>, host: nat, start: nat, b: nat, part: seq<Byte>)
    requires start <= b && 128 * b + 128 <= |mem| && |part| <= 120 && host + |mem| < 0x1_0000_0000_0000_0000
    requires Headers(mem, host, start, b)
    ensures Headers(BlockPut(mem, host, start, b, part), host, start, b + 1)
  {
    var linked := Relinked(mem, host, start, b);
    var cleared, mem' := SetNextOf(linked, b, 0), BlockPut(mem, host, start, b, part);
    forall c: nat | start <= c < b + 1 ensures NextOf(mem', c) == Link(host, b + 1, c + 1) {
      assert mem'[128 * c..128 * c + 8] == cleared[128 * c..128 * c + 8];
      SetNextOfHeaders(linked, b, 0, c);
      if b > start {
        SetNextOfHeaders(mem, b - 1, host + 128 * b, c);
      }
    }
  }

  lemma HeaderKeepsContent(mem: seq<Byte>, b: nat, v: nat, start: nat, content: seq<Byte>)
    requires 128 * b + 128 <= |mem| && Holds(mem, start, content)
    ensures Holds(SetNextOf(mem, b, v), start, content)
  {
    var mem' := SetNextOf(mem, b, v);
    forall p: nat | p < |content| ensures Spot(start, p) < |mem| && mem'[Spot(start, p)] == content[p] {
      var c := content[p];
    }
  }

  lemma PartHolds(mem: seq<Byte>, start: nat, b: nat, content: seq<Byte>, pos: nat, n: nat)
    requires start <= b && 128 * b + 128 <= |mem| && pos == 120 * (b - start) && n <= 120 && pos + n <= |content|
    requires Holds(mem, start, content[..pos])
    ensures Holds(Patch(mem, 128 * b + 8, content[pos..pos + n]), start, content[..pos + n])
  {
    var mem' := Patch(mem, 128 * b + 8, content[pos..pos + n]);
    forall p: nat | p < pos + n ensures Spot(start, p) < |mem| && mem'[Spot(start, p)] == content[..pos + n][p] {
      if p < pos {
        assert p / 120 < b - start && content[..pos][p] == content[p];
      } else {
        assert p / 120 == b - start && p % 120 == p - pos;
      }
    }
  }

  lemma BlockPutHolds(mem: seq<Byte>, host: nat, start: nat, b: nat, content: seq<Byte>, pos: nat, n: nat)
    requires start <= b && 128 * b + 128 <= |mem| && pos == 120 * (b - start) && n <= 120 && pos + n <= |content|
    requires Holds(mem, start, content[..pos])
    ensures Holds(BlockPut(mem, host, start, b, content[pos..pos + n]), start, content[..pos + n])
  {
    if b > start {
      HeaderKeepsContent(mem, b - 1, host + 128 * b, start, content[..pos]);
    }
    var linked := Relinked(mem, host, start, b);
    HeaderKeepsContent(linked, b, 0, start, content[..pos]);
    PartHolds(SetNextOf(linked, b, 0), start, b, content, pos, n);
  }

  /** The blocks from `start` to `b` have been filled with the first bytes of a
      file, and nothing before them has changed. */
  ghost predicate Filled(was: seq<Byte>, mem: seq<Byte>, host: nat, start: nat, b: nat, content: seq<Byte>, pos: nat) {
    && |mem| == |was| && 128 * b <= |mem| && pos <= |content|
    && Headers(mem, host, start, b) && Holds(mem, start, content[..pos])
    && forall j :: 0 <= j < 128 * start && j < |mem| ==> mem[j] == was[j]
  }

  lemma FillMore(was: seq<Byte>, mem: seq<Byte>, host: nat, start: nat, b: nat, content: seq<Byte>, pos: nat, n: nat)
    requires Filled(was, mem, host, start, b, content, pos) && host + |mem| < 0x1_0000_0000_0000_0000
    requires start <= b && 128 * b + 128 <= |mem| && pos == 120 * (b - start) && n <= 120 && pos + n <= |content|
    ensures Filled(was, BlockPut(mem, host, start, b, content[pos..pos + n]), host, start, b + 1, content, pos + n)
  {
    BlockPutHeaders(mem, host, start, b, content[pos..pos + n]);
    BlockPutHolds(mem, host, start, b, content, pos, n);
  }

  /** How far a file has been copied after so many blocks. */
  ghost predicate CopiedAfter(size: nat, written: nat, pos: nat, remained: nat) {
    if written < Blocks(size) then pos == 120 * written && remained == size - pos > 0 else pos == size
  }

  lemma CopiedStep(size: nat, written: nat, pos: nat, remained: nat)
    requires written < Blocks(size) && CopiedAfter(size, written, pos, remained)
    ensures if remained > 120 then CopiedAfter(size, written + 1, pos + 120, remained - 120)
            else CopiedAfter(size, written + 1, pos + remained, remained) && written + 1 == Blocks(size)
  {}

  datatype Import = Imported | Refused | Overrun

  /** The space guard of romfs_import_file counts whole blocks, headers included.
      It lets a file through that does not fit exactly in this range of sizes. */
  lemma GuardAdmitsOverrun(size: nat, free: nat)
    ensures size <= 128 * free && Blocks(size) > free <==> 120 * free < size <= 128 * free
  {}

  /** The range is never empty while a block is free: here with an empty image of
      100 blocks. */
  lemma OverrunExample()
    ensures 12001 <= 128 * 100 && Blocks(12001) == 101
  {}

  // ----------------------------------------------------------- conversion

  /** The headers of a file of which the blocks below `b` are converted. */
  ghost predicate HalfConverted(mem: seq<Byte>, host: nat, off: nat, start: nat, end: nat, b: nat)
    requires 128 * end <= |mem|
  {
    forall c: nat {:trigger NextOf(mem, c)} :: start <= c < end ==>
      NextOf(mem, c) == Link(if c < b then off else host, end, c + 1)
  }

  /** Byte j of the block array belongs to the header of a block of the file. */
  predicate HeaderByte(start: nat, end: nat, j: int) {
    128 * start <= j < 128 * end && j % 128 < 8
  }

  lemma ConvertStep(mem: seq<Byte>, host: nat, off: nat, start: nat, end: nat, b: nat)
    requires 128 * end <= |mem| && start <= b && b + 1 < end && off + |mem| < 0x1_0000_0000
    requires HalfConverted(mem, host, off, start, end, b)
    ensures HalfConverted(SetNextOf(mem, b, off + 128 * (b + 1)), host, off, start, end, b + 1)
  {
    var mem' := SetNextOf(mem, b, off + 128 * (b + 1));
    forall c: nat | start <= c < end ensures NextOf(mem', c) == Link(if c < b + 1 then off else host, end, c + 1) {
      SetNextOfHeaders(mem, b, off + 128 * (b + 1), c);
    }
  }

  // ------------------------------------------------------------ the image

  /** The image under construction: files below `done` are converted, every file
      is below the next free block, and no two files share a block. */
  ghost predicate ImageOk(mem: seq<Byte>, inodes: seq<Inode>, starts: seq<nat>, contents: seq<seq<Byte>>,
                          host: nat, off: nat, done: nat, blkCnt: nat)
  {
    && |starts| == |contents| == |inodes|
    && (forall f :: 0 <= f < |inodes| ==>
         FileAt(mem, if f < done then off else host, inodes[f], starts[f], contents[f])
           && Below(starts, contents, f, blkCnt))
    && forall f, g {:trigger Apart(starts, contents, f, g)} :: 0 <= f < |starts| && 0 <= g < |starts| && f != g ==>
         Apart(starts, contents, f, g)
  }

  ghost predicate Below(starts: seq<nat>, contents: seq<seq<Byte>>, f: int, blkCnt: nat)
    requires |starts| == |contents| && 0 <= f < |starts|
  {
    starts[f] + Blocks(|contents[f]|) <= blkCnt
  }

  ghost predicate Apart(starts: seq<nat>, contents: seq<seq<Byte>>, f: int, g: int)
    requires |starts| == |contents| && 0 <= f < |starts| && 0 <= g < |starts|
  {
    starts[f] + Blocks(|contents[f]|) <= starts[g] || starts[g] + Blocks(|contents[g]|) <= starts[f]
  }

  /** Blocks taken for a file from `blkCnt` on leave all other files alone. */
  lemma ImportOk(mem: seq<Byte>, mem': seq<Byte>, inodes: seq<Inode>, starts: seq<nat>, contents: seq<seq<Byte>>,
                 host: nat, off: nat, blkCnt: nat, f: nat, inode: Inode, content: seq<Byte>)
    requires ImageOk(mem, inodes, starts, contents, host, off, 0, blkCnt) && f < |inodes| && |mem'| == |mem|
    requires forall j :: 0 <= j < 128 * blkCnt && j < |mem| ==> mem'[j] == mem[j]
    requires FileAt(mem', host, inode, blkCnt, content)
    ensures ImageOk(mem', inodes[f := inode], starts[f := blkCnt], contents[f := content], host, off, 0,
                    blkCnt + Blocks(|content|))
  {
    forall g | 0 <= g < |inodes| && g != f ensures FileAt(mem', host, inodes[g], starts[g], contents[g]) {
      assert Below(starts, contents, g, blkCnt);
      FileFrame(mem, mem', host, inodes[g], starts[g], contents[g]);
    }
    var starts', contents' := starts[f := blkCnt], contents[f := content];
    forall g, h | 0 <= g < |starts| && 0 <= h < |starts| && g != h ensures Apart(starts', contents', g, h) {
      assert Below(starts, contents, g, blkCnt) && Below(starts, contents, h, blkCnt);
      assert Apart(starts, contents, g, h);
    }
    var next := blkCnt + Blocks(|content|);
    forall g | 0 <= g < |inodes| ensures Below(starts', contents', g, next) {
      assert Below(starts, contents, g, blkCnt);
    }
  }

  /** Converting one file leaves all other files alone. */
  lemma ConvertOk(mem: seq<Byte>, mem': seq<Byte>, inodes: seq<Inode>, starts: seq<nat>, contents: seq<seq<Byte>>,
                  host: nat, off: nat, blkCnt: nat, f: nat, inode: Inode)
    requires ImageOk(mem, inodes, starts, contents, host, off, f, blkCnt) && f < |inodes| && |mem'| == |mem|
    requires forall j :: 0 <= j < |mem| && !(128 * starts[f] <= j < 128 * (starts[f] + Blocks(|contents[f]|))) ==>
               mem'[j] == mem[j]
    requires FileAt(mem', off, inode, starts[f], contents[f])
    ensures ImageOk(mem', inodes[f := inode], starts, contents, host, off, f + 1, blkCnt)
  {
    forall g | 0 <= g < |inodes| && g != f
      ensures FileAt(mem', if g < f + 1 then off else host, inodes[g], starts[g], contents[g])
    {
      assert Apart(starts, contents, f, g);
      FileFrame(mem, mem', if g < f then off else host, inodes[g], starts[g], contents[g]);
    }
  }

  /** Block b belongs to no file. */
  ghost predicate OutsideFiles(starts: seq<nat>, contents: seq<seq<Byte>>, b: nat) {
    |starts| == |contents| && forall f :: 0 <= f < |starts| ==> b < starts[f] || starts[f] + Blocks(|contents[f]|) <= b
  }

  /** The directory blocks are taken and belong to no file. */
  ghost predicate DirsApart(dirs: seq<nat>, starts: seq<nat>, contents: seq<seq<Byte>>, blkCnt: nat) {
    forall i {:trigger dirs[i]} :: 0 <= i < |dirs| ==> dirs[i] < blkCnt && OutsideFiles(starts, contents, dirs[i])
  }

  /** A file that gets the next free blocks stays clear of the directories. */
  lemma DirsStayApart(dirs: seq<nat>, starts: seq<nat>, contents: seq<seq<Byte>>, blkCnt: nat, f: nat,
                      content: seq<Byte>)
    requires DirsApart(dirs, starts, contents, blkCnt) && f < |starts| == |contents|
    ensures DirsApart(dirs, starts[f := blkCnt], contents[f := content], blkCnt + Blocks(|content|))
  {}

  /** A block outside all files, or past them, may be overwritten. */
  lemma BesideFiles(mem: seq<Byte>, inodes: seq<Inode>, starts: seq<nat>, contents: seq<seq<Byte>>,
                    host: nat, off: nat, done: nat, blkCnt: nat, b: nat, data: seq<Byte>)
    requires ImageOk(mem, inodes, starts, contents, host, off, done, blkCnt)
    requires |data| == 128 && 128 * b + 128 <= |mem| && (b >= blkCnt || OutsideFiles(starts, contents, b))
    ensures forall cnt: nat :: cnt >= blkCnt ==>
              ImageOk(Patch(mem, 128 * b, data), inodes, starts, contents, host, off, done, cnt)
  {
    var mem' := Patch(mem, 128 * b, data);
    forall f | 0 <= f < |inodes|
      ensures FileAt(mem', if f < done then off else host, inodes[f], starts[f], contents[f]) {
      assert Below(starts, contents, f, blkCnt);
      FileFrame(mem, mem', if f < done then off else host, inodes[f], starts[f], contents[f]);
    }
    forall f, cnt: nat | 0 <= f < |inodes| && cnt >= blkCnt ensures Below(starts, contents, f, cnt) {
      assert Below(starts, contents, f, blkCnt);
    }
  }

  /** The next free block is past all files. */
  lemma PastFiles(mem: seq<Byte>, inodes: seq<Inode>, starts: seq<nat>, contents: seq<seq<Byte>>,
                  host: nat, off: nat, done: nat, blkCnt: nat)
    requires ImageOk(mem, inodes, starts, contents, host, off, done, blkCnt)
    ensures OutsideFiles(starts, contents, blkCnt)
  {
    forall f | 0 <= f < |starts| ensures starts[f] + Blocks(|contents[f]|) <= blkCnt {
      assert Below(starts, contents, f, blkCnt);
    }
  }

  class Builder {
    const host: nat // address of romfs_blk
    const off: nat // size of the super block and the inode table
    const mem: array<Byte> // romfs_blk
    var blkCnt: nat // s_blk_cnt
    const inodes: array<Inode>
    var dirBlocks: seq<nat> // the blocks of directory entries, in order of creation
    ghost var starts: seq<nat>
    ghost var contents: seq<seq<Byte>>

    ghost predicate Valid(done: nat)
      reads this, mem, inodes
    {
      && mem as object != inodes && 0 < host && host + mem.Length < 0x1_0000_0000_0000_0000
      && 0 < off && off + mem.Length < 0x1_0000_0000 && 128 * blkCnt <= mem.Length && mem.Length % 128 == 0
      && ImageOk(mem[..], inodes[..], starts, contents, host, off, done, blkCnt)
      && DirsApart(dirBlocks, starts, contents, blkCnt)
    }

    /** romfs_init, with inodes for so many new files. */
    constructor (addr: nat, offset: nat, blocks: nat, files: nat)
      requires 0 < addr && addr + 128 * blocks < 0x1_0000_0000_0000_0000
      requires 0 < offset && offset + 128 * blocks < 0x1_0000_0000
      ensures Valid(0) && off == offset && mem.Length == 128 * blocks && inodes.Length == files && blkCnt == 0
      ensures contents == seq(files, _ => []) && fresh(mem) && fresh(inodes)
    {
      host, off, blkCnt, dirBlocks := addr, offset, 0, [];
      mem := new Byte[128 * blocks](_ => 0);
      inodes := new Inode[files](_ => Inode(0, 0, 0));
      starts := seq(files, _ => 0);
      contents := seq(files, _ => []);
    }

    /** A block for directory entries, as fs_add_file takes it, without a check: false
        means that it lies past the end of the block array. */
    method TakeDirBlock(data: seq<Byte>) returns (ok: bool)
      requires Valid(0) && |data| == 128
      modifies this`blkCnt, this`dirBlocks, mem
      ensures ok <==> 128 * old(blkCnt) + 128 <= mem.Length
      ensures ok ==> Valid(0) && blkCnt == old(blkCnt) + 1 && dirBlocks == old(dirBlocks) + [old(blkCnt)]
      ensures mem[..] == if ok then Patch(old(mem[..]), 128 * old(blkCnt), data) else old(mem[..])
    {
      if 128 * blkCnt + 128 > mem.Length {
        return false;
      }
      BesideFiles(mem[..], inodes[..], starts, contents, host, off, 0, blkCnt, blkCnt, data);
      PastFiles(mem[..], inodes[..], starts, contents, host, off, 0, blkCnt);
      CopyIn(mem, 128 * blkCnt, data);
      dirBlocks := dirBlocks + [blkCnt];
      blkCnt := blkCnt + 1;
      return true;
    }

    /** A directory block is written again, for a further entry or in the conversion
        of its directory.  No file is touched. */
    method RewriteDirBlock(i: nat, data: seq<Byte>, ghost done: nat)
      requires Valid(done) && |data| == 128 && i < |dirBlocks|
      modifies mem
      ensures Valid(done) && 128 * dirBlocks[i] + 128 <= mem.Length
      ensures mem[..] == Patch(old(mem[..]), 128 * dirBlocks[i], data)
    {
      BesideFiles(mem[..], inodes[..], starts, contents, host, off, done, blkCnt, dirBlocks[i], data);
      CopyIn(mem, 128 * dirBlocks[i], data);
    }

    /** Assignment to the b_next field of a block header. */
    method SetHeader(addr: nat, next: nat, ghost b: nat)
      requires 128 * b + 128 <= mem.Length && addr == host + 128 * b
      modifies mem
      ensures mem[..] == SetNextOf(old(mem[..]), b, next)
    {
      CopyIn(mem, addr - host, Encode(next, 8));
    }

    method LinkLast(ghost start: nat, ghost b: nat, first: bool, last: nat, addr: nat)
      requires start <= b && 128 * b + 128 <= mem.Length && addr == host + 128 * b
      requires first == (b == start) && (!first ==> last == host + 128 * (b - 1))
      modifies mem
      ensures mem[..] == Relinked(old(mem[..]), host, start, b)
    {
      if !first {
        SetHeader(last, addr, b - 1);
      }
    }

    /** Clear the header of a block and copy a part of the content into it. */
    method FillBlock(ghost b: nat, addr: nat, part: seq<Byte>)
      requires 128 * b + 128 <= mem.Length && addr == host + 128 * b && |part| <= 120
      modifies mem
      ensures mem[..] == Patch(SetNextOf(old(mem[..]), b, 0), 128 * b + 8, part)
    {
      SetHeader(addr, 0, b);
      CopyIn(mem, addr + 8 - host, part);
    }

    /** One pass of the import loop: allocate the next block and fill it. */
    method PutBlock(ghost start: nat, first: bool, last: nat, part: seq<Byte>) returns (addr: nat)
      requires start <= blkCnt && 128 * blkCnt + 128 <= mem.Length && |part| <= 120
      requires first == (blkCnt == start) && (!first ==> last == host + 128 * (blkCnt - 1))
      modifies this`blkCnt, mem
      ensures addr == host + 128 * old(blkCnt) && blkCnt == old(blkCnt) + 1
      ensures mem[..] == BlockPut(old(mem[..]), host, start, old(blkCnt), part)
    {
      ghost var b := blkCnt;
      addr := host + 128 * blkCnt;
      LinkLast(start, b, first, last, addr);
      FillBlock(b, addr, part);
      blkCnt := blkCnt + 1;
    }

    /** The same, as progress of the file. */
    method PutPart(ghost was: seq<Byte>, ghost start: nat, first: bool, last: nat, content: seq<Byte>, pos: nat, n: nat)
      returns (addr: nat)
      requires start <= blkCnt && 128 * blkCnt + 128 <= mem.Length && host + mem.Length < 0x1_0000_0000_0000_0000
      requires pos == 120 * (blkCnt - start) && n <= 120 && pos + n <= |content|
      requires first == (blkCnt == start) && (!first ==> last == host + 128 * (blkCnt - 1))
      requires Filled(was, mem[..], host, start, blkCnt, content, pos)
      modifies this`blkCnt, mem
      ensures addr == host + 128 * old(blkCnt) && blkCnt == old(blkCnt) + 1
      ensures Filled(was, mem[..], host, start, blkCnt, content, pos + n)
    {
      FillMore(was, mem[..], host, start, blkCnt, content, pos, n);
      addr := PutBlock(start, first, last, content[pos..pos + n]);
    }

    /** The block-writing part of romfs_import_file for a new file.  The file is
        refused when it exceeds the guard; when the guard is passed but blocks run
        out, mkromfs writes past the end of the block array. */
    method ImportFile(f: nat, content: seq<Byte>) returns (r: Import)
      requires Valid(0) && f < inodes.Length
      modifies this`blkCnt, this`starts, this`contents, mem, inodes
      ensures var free := mem.Length / 128 - old(blkCnt);
              && (r.Refused? <==> |content| > 128 * free)
              && (r.Overrun? <==> 120 * free < |content| <= 128 * free)
      ensures r.Imported? ==>
        && Valid(0) && contents == old(contents)[f := content] && blkCnt == old(blkCnt) + Blocks(|content|)
        && starts == old(starts)[f := old(blkCnt)]
      ensures r.Refused? ==> Valid(0) && contents == old(contents) && blkCnt == old(blkCnt)
    {
      if |content| > 128 * (mem.Length / 128 - blkCnt) {
        return Refused;
      }
      GuardAdmitsOverrun(|content|, mem.Length / 128 - blkCnt);
      ghost var was, nodes, start := mem[..], inodes[..], blkCnt;
      var blocks := Blocks(|content|);
      var written, data := FillBlocks(content, blocks);
      if written < blocks {
        return Overrun;
      }
      inodes[f] := Inode(data, blocks, |content|);
      assert content[..|content|] == content;
      ImportOk(was, mem[..], nodes, starts, contents, host, off, start, f, inodes[f], content);
      DirsStayApart(dirBlocks, starts, contents, start, f, content);
      starts, contents := starts[f := start], contents[f := content];
      return Imported;
    }

    /** The import loop. */
    method FillBlocks(content: seq<Byte>, blocks: nat) returns (written: nat, data: nat)
      requires blocks == Blocks(|content|) && 128 * blkCnt <= mem.Length && host + mem.Length < 0x1_0000_0000_0000_0000
      modifies this`blkCnt, mem
      ensures written <= blocks && blkCnt == old(blkCnt) + written && 128 * blkCnt <= mem.Length
      ensures written < blocks ==> blkCnt == mem.Length / 128
      ensures data == if written == 0 then 0 else host + 128 * old(blkCnt)
      ensures Filled(old(mem[..]), mem[..], host, old(blkCnt), blkCnt, content, if written == blocks then |content|
                else 0)
    {
      ghost var start, was := blkCnt, mem[..];
      var remained: nat, pos: nat, last: nat := |content|, 0, 0;
      written, data := 0, 0;
      while written < blocks && 128 * blkCnt + 128 <= mem.Length
        invariant written <= blocks && blkCnt == start + written && 128 * blkCnt <= mem.Length
        invariant data == if written == 0 then 0 else host + 128 * start
        invariant written > 0 ==> last == host + 128 * (blkCnt - 1)
        invariant CopiedAfter(|content|, written, pos, remained)
        invariant Filled(was, mem[..], host, start, blkCnt, content, pos)
      {
        CopiedStep(|content|, written, pos, remained);
        var n := if remained > 120 then 120 else remained;
        last := PutPart(was, start, written == 0, last, content, pos, n);
        if written == 0 {
          data := last;
        }
        remained := if remained > 120 then remained - 120 else remained;
        pos, written := pos + n, written + 1;
      }
    }

    /** romfs_address_conversion_file: every address of the file is rebased from
        the block array of the host to the image. */
    method ConvertFile(f: nat)
      requires Valid(f) && f < inodes.Length
      modifies mem, inodes
      ensures Valid(f + 1)
    {
      ghost var was, nodes, start := mem[..], inodes[..], starts[f];
      assert FileAt(was, host, nodes[f], start, contents[f]);
      if inodes[f].iSize == 0 {
        ConvertOk(was, was, nodes, starts, contents, host, off, blkCnt, f, nodes[f]);
        assert nodes[f := nodes[f]] == nodes;
        return;
      }
      ConvertHeaders(inodes[f].iData, Blocks(inodes[f].iSize), start, contents[f]);
      inodes[f] := inodes[f].(iData := inodes[f].iData - host + off);
      ConvertOk(was, mem[..], nodes, starts, contents, host, off, blkCnt, f, inodes[f]);
    }

    /** The loop over the block headers.  The next address is read before the
        header is rewritten. */
    method ConvertHeaders(iData: nat, blocks: nat, ghost start: nat, ghost content: seq<Byte>)
      requires 0 < host && host + mem.Length < 0x1_0000_0000_0000_0000 && off + mem.Length < 0x1_0000_0000
      requires 0 < |content| && blocks == Blocks(|content|)
      requires FileAt(mem[..], host, Inode(iData, blocks, |content|), start, content)
      modifies mem
      ensures Headers(mem[..], off, start, start + blocks) && Holds(mem[..], start, content)
      ensures forall j :: 0 <= j < mem.Length && !HeaderByte(start, start + blocks, j) ==> mem[j] == old(mem[j])
    {
      ghost var end := start + blocks;
      var next, i, last := iData, 0, false;
      while i < blocks && !last
        invariant i < blocks && (!last ==> next == host + 128 * (start + i)) && (last ==> i == blocks - 1)
        invariant HalfConverted(mem[..], host, off, start, end, start + i) && Holds(mem[..], start, content)
        invariant forall j :: 0 <= j < mem.Length && !HeaderByte(start, end, j) ==> mem[j] == old(mem[j])
        decreases blocks - i, !last
      {
        next := ConvertHeader(next, start, start + i, end, content);
        if next == 0 {
          last := true;
        } else {
          i := i + 1;
        }
      }
    }

    /** One pass: the header of block b is rebased unless it is the last. */
    method ConvertHeader(head: nat, ghost start: nat, ghost b: nat, ghost end: nat, ghost content: seq<Byte>)
      returns (next: nat)
      requires 0 < host && host + mem.Length < 0x1_0000_0000_0000_0000 && off + mem.Length < 0x1_0000_0000
      requires start <= b < end && 128 * end <= mem.Length && head == host + 128 * b
      requires HalfConverted(mem[..], host, off, start, end, b) && Holds(mem[..], start, content)
      modifies mem
      ensures next == Link(host, end, b + 1)
      ensures next == 0 ==> mem[..] == old(mem[..])
      ensures next != 0 ==> HalfConverted(mem[..], host, off, start, end, b + 1)
      ensures Holds(mem[..], start, content)
      ensures forall j :: 0 <= j < mem.Length && !HeaderByte(start, end, j) ==> mem[j] == old(mem[j])
    {
      assert mem[head - host..head - host + 8] == mem[..][128 * b..128 * b + 8];
      assert NextOf(mem[..], b) == Link(host, end, b + 1);
      next := Decode(mem[head - host..head - host + 8]);
      if next != 0 {
        ConvertStep(mem[..], host, off, start, end, b);
        HeaderKeepsContent(mem[..], b, off + 128 * (b + 1), start, content);
        SetHeader(head, next - host + off, b);
      }
    }
  }

  // --------------------------------------------------------------- reading

  /** The image holds a file: the block array follows the super block and the
      inode table. */
  ghost predicate RomFile(rom: seq<Byte>, off: nat, mem: seq<Byte>, inode: Inode, start: nat, content: seq<Byte>) {
    && off + |mem| <= |rom| && off + |mem| < 0x1_0000_0000 && rom[off..off + |mem|] == mem
    && FileAt(mem, off, inode, start, content)
  }

  /** What the kernel reads as the next block of block b. */
  lemma KernelHeader(rom: seq<Byte>, off: nat, mem: seq<Byte>, inode: Inode, start: nat, content: seq<Byte>, b: nat)
    requires RomFile(rom, off, mem, inode, start, content) && start <= b < start + Blocks(|content|)
    ensures Decode(rom[off + 128 * b..off + 128 * b + 4]) == Link(off, start + Blocks(|content|), b + 1)
  {
    var s := mem[128 * b..128 * b + 8];
    assert NextOf(mem, b) == Link(off, start + Blocks(|content|), b + 1);
    DecodeLow(s, 4);
    var low := rom[off + 128 * b..off + 128 * b + 4];
    forall j | 0 <= j < 4 ensures low[j] == s[j] {
      assert rom[off..off + |mem|][128 * b + j] == mem[128 * b + j];
    }
    assert low == s[..4];
  }

  /** fs_get_block_addr through rom_dev_read, which fails only past the end. */
  method RomBlockAddr(rom: seq<Byte>, inode: Inode, index: nat,
                      ghost off: nat, ghost mem: seq<Byte>, ghost start: nat,
                        ghost content: seq<Byte>) returns (addr: nat)
    ensures RomFile(rom, off, mem, inode, start, content) && index <= Blocks(|content|) ==>
      addr == Link(off, start + Blocks(|content|), start + index)
  {
    ghost var ok, end := RomFile(rom, off, mem, inode, start, content), start + Blocks(|content|);
    addr := 0;
    var next, i := inode.iData, 0;
    while i < index + 1
      invariant i <= index + 1
      invariant ok && start + i <= end ==> next == Link(off, end, start + i)
      invariant ok && 0 < i && start + i - 1 <= end ==> addr == Link(off, end, start + i - 1)
    {
      addr := next;
      if ok && start + i < end {
        KernelHeader(rom, off, mem, inode, start, content, start + i);
      }
      if addr + 8 <= |rom| {
        next := Decode(rom[addr..addr + 4]);
      }
      i := i + 1;
    }
  }

  /** The bytes agree with the content from `pos`, as far as it reaches. */
  ghost predicate Agrees(bytes: seq<Byte>, content: seq<Byte>, pos: nat) {
    forall j :: 0 <= j < |bytes| && pos + j < |content| ==> bytes[j] == content[pos + j]
  }

  lemma ChunkAgrees(rom: seq<Byte>, off: nat, mem: seq<Byte>, inode: Inode, start: nat, content: seq<Byte>, pos: nat,
                    n: nat)
    requires RomFile(rom, off, mem, inode, start, content) && pos < |content| && pos % 120 + n <= 120
    ensures pos / 120 < Blocks(|content|) && off + Spot(start, pos) + n <= |rom|
    ensures Agrees(rom[off + Spot(start, pos)..off + Spot(start, pos) + n], content, pos)
  {
    assert pos / 120 < Blocks(|content|);
    var at := Spot(start, pos);
    var bytes := rom[off + at..off + at + n];
    forall j | 0 <= j < n && pos + j < |content| ensures bytes[j] == content[pos + j] {
      assert Spot(start, pos + j) == at + j;
      assert rom[off..off + |mem|][at + j] == mem[at + j];
    }
  }

  /** At the end of the content the reader finds the rest of the last block, or, if
      that is full, the start of the image instead of a next block. */
  lemma ReadsOn(rom: seq<Byte>, off: nat, mem: seq<Byte>, inode: Inode, start: nat, content: seq<Byte>, n: nat)
    requires RomFile(rom, off, mem, inode, start, content) && |rom| >= 128 && |content| % 120 + n <= 120
    ensures |content| / 120 <= Blocks(|content|)
    ensures Link(off, start + Blocks(|content|), start + |content| / 120) + 8 + |content| % 120 + n <= |rom|
  {}

  method RomChunk(rom: seq<Byte>, inode: Inode, pos: nat, max: nat,
                  ghost off: nat, ghost mem: seq<Byte>, ghost start: nat, ghost content: seq<Byte>)
    returns (ok: bool, bytes: seq<Byte>)
    requires max > 0
    ensures ok ==> 0 < |bytes| <= max
    ensures RomFile(rom, off, mem, inode, start, content) && pos < |content| ==> ok && Agrees(bytes, content, pos)
    ensures RomFile(rom, off, mem, inode, start, content) && pos == |content| && |rom| >= 128 ==> ok
  {
    var addr := RomBlockAddr(rom, inode, pos / 120, off, mem, start, content);
    var n := ChunkSize(pos, max);
    var at := addr + 8 + pos % 120;
    if RomFile(rom, off, mem, inode, start, content) && pos < |content| {
      ChunkAgrees(rom, off, mem, inode, start, content, pos, n);
    }
    if RomFile(rom, off, mem, inode, start, content) && pos == |content| && |rom| >= 128 {
      ReadsOn(rom, off, mem, inode, start, content, n);
    }
    if at + n > |rom| {
      return false, [];
    }
    return true, rom[at..at + n];
  }

  /** __reg_file_read on a file of the image.  The bytes up to the end of the file
      are those of the content; the reader does not stop there, so it returns just
      these exactly when no more are asked for. */
  method RomRead(rom: seq<Byte>, inode: Inode, pos: nat, size: nat,
                 ghost off: nat, ghost mem: seq<Byte>, ghost start: nat, ghost content: seq<Byte>)
    returns (buf: seq<Byte>, newPos: nat)
    ensures |buf| <= size && newPos == pos + |buf|
    ensures RomFile(rom, off, mem, inode, start, content) ==>
      && Available(|content|, pos, size) <= |buf| && Agrees(buf, content, pos)
    ensures RomFile(rom, off, mem, inode, start, content) && pos <= |content| && |rom| >= 128 ==>
      (|buf| == Available(|content|, pos, size) <==> pos + size <= |content|)
  {
    ghost var file := RomFile(rom, off, mem, inode, start, content);
    buf, newPos := [], pos;
    var remained := size;
    var ok, bytes := true, [];
    while remained > 0 && ok
      invariant 0 <= remained <= size && |buf| == size - remained && newPos == pos + |buf|
      invariant file ==> Agrees(buf, content, pos) && (ok || newPos >= |content|)
      invariant file && |rom| >= 128 ==> ok || newPos > |content|
      decreases remained, ok
    {
      ok, bytes := RomChunk(rom, inode, newPos, remained, off, mem, start, content);
      if ok {
        buf := buf + bytes;
        remained := remained - |bytes|;
        newPos := newPos + |bytes|;
      }
    }
  }

  /** A file of one byte in the first block of an image that starts with 128 bytes
      of super block and inodes: a read of two bytes returns two. */
  method RunOnExample() returns (buf: seq<Byte>)
    ensures |buf| == 2 && buf[0] == 7
  {
    var rom := seq(128, _ => 0) + OneByteBlock();
    var inode := Inode(128, 1, 1);
    OneByteFile();
    var p;
    buf, p := RomRead(rom, inode, 0, 2, 128, OneByteBlock(), 0, [7]);
  }

  function OneByteBlock(): seq<Byte> {
    seq(128, i => if i == 8 then 7 else 0)
  }

  lemma OneByteFile()
    ensures RomFile(seq(128, _ => 0) + OneByteBlock(), 128, OneByteBlock(), Inode(128, 1, 1), 0, [7])
  {
    var rom: seq<Byte>, mem := seq(128, _ => 0) + OneByteBlock(), OneByteBlock();
    assert NextOf(mem, 0) == 0 by { ZeroHeader(mem[0..8]); }
    assert rom[128..256] == mem;
    assert Spot(0, 0) == 8 && mem[8] == 7;
  }

  lemma {:induction false} ZeroHeader(s: seq<Byte>)
    requires forall i :: 0 <= i < |s| ==> s[i] == 0
    ensures Decode(s) == 0
  {
    if s != [] {
      ZeroHeader(s[1..]);
    }
  }

  // ----------------------------------------------------------- round trip

  /** What mkromfs does while it imports a directory tree: take a block for directory
      entries, write an older such block again, or import the next file.  A directory
      block is named by its number in order of creation; a number not given yet names
      none. */
  datatype Step = NewDirBlock(data: seq<Byte>) | EditDirBlock(edit: Edit) | AddFile(content: seq<Byte>)
  datatype Edit = Edit(which: nat, data: seq<Byte>)

  predicate WholeBlock(s: Step) {
    match s
    case NewDirBlock(data) => |data| == 128
    case EditDirBlock(edit) => |edit.data| == 128
    case AddFile(_) => true
  }

  /** The files imported, in order, and the blocks that are taken. */
  function Files(steps: seq<Step>): seq<seq<Byte>> {
    if steps == [] then []
    else (if steps[0].AddFile? then [steps[0].content] else []) + Files(steps[1..])
  }

  function BlocksOf(s: Step): nat {
    match s
    case NewDirBlock(_) => 1
    case EditDirBlock(_) => 0
    case AddFile(content) => Blocks(|content|)
  }

  function TotalBlocks(steps: seq<Step>): nat {
    if steps == [] then 0 else BlocksOf(steps[0]) + TotalBlocks(steps[1..])
  }

  lemma StepsFrom(steps: seq<Step>, i: nat)
    requires i < |steps|
    ensures TotalBlocks(steps[i..]) == BlocksOf(steps[i]) + TotalBlocks(steps[i + 1..])
    ensures Files(steps[i..]) == (if steps[i].AddFile? then [steps[i].content] else []) + Files(steps[i + 1..])
  {
    assert steps[i..][1..] == steps[i + 1..];
  }

  lemma FitsIff(size: nat, free: nat)
    ensures Blocks(size) <= free <==> size <= 120 * free
  {}

  /** Build an image by any steps, convert its files with any directory blocks written
      again before each and after the last, and read every file back from the
      exported bytes.  The build succeeds exactly when the blocks suffice, and then
      every file is read back as it was. */
  method ImageRoundTrip(steps: seq<Step>, edits: seq<seq<Edit>>, header: seq<Byte>, addr: nat, blocks: nat)
    returns (ok: bool, back: seq<seq<Byte>>)
    requires 0 < addr && addr + 128 * blocks < 0x1_0000_0000_0000_0000
    requires 0 < |header| && |header| + 128 * blocks < 0x1_0000_0000
    requires forall i :: 0 <= i < |steps| ==> WholeBlock(steps[i])
    requires |edits| == |Files(steps)| + 1 && forall f :: 0 <= f < |edits| ==> WholeBlocks(edits[f])
    ensures ok <==> TotalBlocks(steps) <= blocks
    ensures ok ==> back == Files(steps)
  {
    var files := Files(steps);
    var image := new Builder(addr, |header|, blocks, |files|);
    back := [];
    ok := ImportAll(image, steps);
    if ok {
      ConvertAll(image, edits);
      back := ReadAll(image, files, header);
    }
  }

  predicate WholeBlocks(edits: seq<Edit>) {
    forall i :: 0 <= i < |edits| ==> |edits[i].data| == 128
  }

  /** romfs_export, and a read of every file from the start. */
  method ReadAll(image: Builder, files: seq<seq<Byte>>, header: seq<Byte>) returns (back: seq<seq<Byte>>)
    requires image.Valid(image.inodes.Length) && image.contents == files && |files| == image.inodes.Length
    requires |header| == image.off
    ensures back == files
  {
    var rom := header + image.mem[..];
    assert rom[|header|..|header| + image.mem.Length] == image.mem[..];
    back := [];
    for f := 0 to |files|
      invariant back == files[..f]
    {
      assert FileAt(image.mem[..], image.off, image.inodes[f], image.starts[f], files[f]);
      var buf, p := RomRead(rom, image.inodes[f], 0, |files[f]|, image.off, image.mem[..], image.starts[f], files[f]);
      assert buf == files[f];
      back := back + [buf];
    }
  }

  method ImportAll(image: Builder, steps: seq<Step>) returns (ok: bool)
    requires image.Valid(0) && |Files(steps)| == image.inodes.Length
    requires forall i :: 0 <= i < |steps| ==> WholeBlock(steps[i])
    modifies image, image.mem, image.inodes
    ensures ok <==> 128 * (old(image.blkCnt) + TotalBlocks(steps)) <= image.mem.Length
    ensures ok ==> image.Valid(0) && image.contents == Files(steps)
  {
    var f, i := 0, 0;
    ghost var files, total := Files(steps), image.blkCnt + TotalBlocks(steps);
    while i < |steps|
      invariant i <= |steps| && image.Valid(0) && f <= |image.contents| == |files|
      invariant image.contents[..f] + Files(steps[i..]) == files
      invariant image.blkCnt + TotalBlocks(steps[i..]) == total
    {
      StepsFrom(steps, i);
      ok, f := ImportStep(image, f, steps[i]);
      if !ok {
        return;
      }
      i := i + 1;
    }
    return true;
  }

  /** One step of the build; f is the number of the next file. */
  method ImportStep(image: Builder, f: nat, s: Step) returns (ok: bool, f': nat)
    requires image.Valid(0) && f <= image.inodes.Length && WholeBlock(s) && (s.AddFile? ==> f < image.inodes.Length)
    modifies image, image.mem, image.inodes
    ensures ok <==> 128 * (old(image.blkCnt) + BlocksOf(s)) <= image.mem.Length
    ensures f' == if s.AddFile? then f + 1 else f
    ensures ok ==> image.Valid(0) && image.blkCnt == old(image.blkCnt) + BlocksOf(s)
    ensures ok ==> image.contents == if s.AddFile? then old(image.contents)[f := s.content] else old(image.contents)
  {
    f' := f;
    match s {
      case NewDirBlock(data) =>
        ok := image.TakeDirBlock(data);
      case EditDirBlock(edit) =>
        ApplyEdit(image, edit, 0);
        ok := true;
      case AddFile(content) =>
        FitsIff(|content|, image.mem.Length / 128 - image.blkCnt);
        var r := image.ImportFile(f, content);
        ok, f' := r == Imported, f + 1;
    }
  }

  method ApplyEdit(image: Builder, edit: Edit, ghost done: nat)
    requires image.Valid(done) && |edit.data| == 128
    modifies image.mem
    ensures image.Valid(done)
  {
    if edit.which < |image.dirBlocks| {
      image.RewriteDirBlock(edit.which, edit.data, done);
    }
  }

  method ApplyEdits(image: Builder, edits: seq<Edit>, ghost done: nat)
    requires image.Valid(done) && WholeBlocks(edits)
    modifies image.mem
    ensures image.Valid(done)
  {
    for i := 0 to |edits|
      invariant image.Valid(done)
    {
      ApplyEdit(image, edits[i], done);
    }
  }

  /** The conversion loop of romfs_export, with directories converted between the
      files. */
  method ConvertAll(image: Builder, edits: seq<seq<Edit>>)
    requires image.Valid(0) && |edits| == image.inodes.Length + 1
    requires forall f :: 0 <= f < |edits| ==> WholeBlocks(edits[f])
    modifies image.mem, image.inodes
    ensures image.Valid(image.inodes.Length)
  {
    for f := 0 to image.inodes.Length
      invariant image.Valid(f)
    {
      ApplyEdits(image, edits[f], f);
      image.ConvertFile(f);
    }
    ApplyEdits(image, edits[image.inodes.Length], image.inodes.Length);
  }
}
