/** Chains of file system blocks in byte memory (include/fs/fs.h,
    kernel/fs/fs.c).

A block has 128 bytes: a header of 8 bytes whose first four hold the address of
the next block of the file, least significant byte first, and 120 bytes of
content.  A file is a chain of blocks; its content is one flat array of bytes
spread over them.
*/
module BlockChain {
  import opened Basics

  /** Byte i of a number, least significant first. */
  function Digit(v: nat, i: nat): Byte {
    if i == 0 then v % 256 else Digit(v / 256, i - 1)
  }

  /** A number as n bytes in memory. */
  function Encode(v: nat, n: nat): (r: seq<Byte>)
    ensures |r| == n
  {
    seq(n, i requires 0 <= i < n => Digit(v, i))
  }

  function Decode(s: seq<Byte>): nat {
    if s == [] then 0 else s[0] as nat + 256 * Decode(s[1..])
  }

  function Power256(n: nat): (r: nat)
    ensures r > 0
  {
    if n == 0 then 1 else 256 * Power256(n - 1)
  }

  /** A number that fits its width is read back from memory. */
  lemma {:induction false} HeaderRoundTrip(v: nat, n: nat)
    requires v < Power256(n)
    ensures Decode(Encode(v, n)) == v
  {
    if n > 0 {
      assert Encode(v, n)[1..] == Encode(v / 256, n - 1);
      HeaderRoundTrip(v / 256, n - 1);
    }
  }

  /** A small number may be read at a smaller width. */
  lemma {:induction false} DecodeLow(s: seq<Byte>, n: nat)
    requires n <= |s| && Decode(s) < Power256(n)
    ensures Decode(s[..n]) == Decode(s)
  {
    if n > 0 {
      assert s[..n][1..] == s[1..][..n - 1];
      DecodeLow(s[1..], n - 1);
    }
  }

  /** memcpy of bytes to index i of a memory. */
  function Patch(mem: seq<Byte>, i: nat, bytes: seq<Byte>): (r: seq<Byte>)
    requires i + |bytes| <= |mem|
    ensures |r| == |mem|
    ensures forall j :: 0 <= j < |mem| ==> r[j] == if i <= j < i + |bytes| then bytes[j - i] else mem[j]
  {
    seq(|mem|, j requires 0 <= j < |mem| => if i <= j < i + |bytes| then bytes[j - i] else mem[j])
  }

  method CopyIn(mem: array<Byte>, at: nat, bytes: seq<Byte>)
    requires at + |bytes| <= mem.Length
    modifies mem
    ensures mem[..] == Patch(old(mem[..]), at, bytes)
  {
    var i := 0;
    while i < |bytes|
      invariant i <= |bytes|
      invariant forall j :: 0 <= j < mem.Length ==> mem[j] == if at <= j < at + i then bytes[j - at] else old(mem[j])
    {
      mem[at + i] := bytes[i];
      i := i + 1;
    }
  }

  /** The next-block field in the header of block b. */
  function Next(mem: seq<Byte>, b: nat): nat
    requires 128 * b + 128 <= |mem|
  {
    Decode(mem[128 * b..128 * b + 4])
  }

  function BlockAddr(base: nat, b: nat): nat {
    base + 128 * b
  }

  /** The address stored for element k of a chain: NULL past its end. */
  function LinkTo(base: nat, chain: seq<nat>, k: nat): nat {
    if k < |chain| then BlockAddr(base, chain[k]) else 0
  }

  ghost predicate InDisk(chain: seq<nat>, n: nat) {
    forall k :: 0 <= k < |chain| ==> chain[k] < n
  }

  /** The headers link the blocks of the chain in order. */
  ghost predicate Linked(mem: seq<Byte>, base: nat, chain: seq<nat>) {
    && InDisk(chain, |mem| / 128)
    && forall k {:trigger Next(mem, chain[k])} :: 0 <= k < |chain| ==> Next(mem, chain[k]) == LinkTo(base, chain, k + 1)
  }

  /** Element i of chain f and element j of chain g are the same block. */
  ghost predicate SameBlock(chains: seq<seq<nat>>, f: int, i: int, g: int, j: int) {
    && 0 <= f < |chains| && 0 <= g < |chains| && 0 <= i < |chains[f]| && 0 <= j < |chains[g]|
    && chains[f][i] == chains[g][j]
  }

  /** No block is in two places, so every chain is acyclic and all chains are
      disjoint. */
  ghost predicate Separate(chains: seq<seq<nat>>) {
    forall f, i, g, j {:trigger SameBlock(chains, f, i, g, j)} :: SameBlock(chains, f, i, g, j) ==> f == g && i == j
  }

  /** Where byte p of a file is in memory. */
  function Place(chain: seq<nat>, p: nat): nat
    requires p < 120 * |chain|
  {
    128 * chain[p / 120] + 8 + p % 120
  }

  /** The content of a file: the flat byte array its chain stands for. */
  ghost function Flat(mem: seq<Byte>, chain: seq<nat>): (r: seq<Byte>)
    requires InDisk(chain, |mem| / 128)
    ensures |r| == 120 * |chain|
  {
    seq(120 * |chain|, p requires 0 <= p < 120 * |chain| => mem[Place(chain, p)])
  }

  /** Inside one block the content is contiguous in memory. */
  lemma FlatChunk(mem: seq<Byte>, chain: seq<nat>, p: nat, n: nat)
    requires InDisk(chain, |mem| / 128) && p < 120 * |chain| && p % 120 + n <= 120
    ensures p + n <= 120 * |chain| && Place(chain, p) + n <= |mem|
    ensures mem[Place(chain, p)..Place(chain, p) + n] == Flat(mem, chain)[p..p + n]
  {
    var at, flat := Place(chain, p), Flat(mem, chain);
    var a, b := mem[at..at + n], flat[p..p + n];
    forall j | 0 <= j < n ensures a[j] == b[j] {
      assert Place(chain, p + j) == at + j;
      assert b[j] == flat[p + j];
    }
  }

  /** Writing bytes into a flat array. */
  ghost function Store(flat: seq<Byte>, pos: nat, bytes: seq<Byte>): (r: seq<Byte>)
    requires pos + |bytes| <= |flat|
    ensures |r| == |flat|
  {
    flat[..pos] + bytes + flat[pos + |bytes|..]
  }

  /** The effect of a write on a flat array that may grow: the bytes are at the
      position, and every other old byte is unchanged. */
  ghost predicate Wrote(before: seq<Byte>, after: seq<Byte>, pos: nat, bytes: seq<Byte>) {
    && |after| >= |before| && pos + |bytes| <= |after|
    && after[pos..pos + |bytes|] == bytes
    && forall i :: 0 <= i < |before| && !(pos <= i < pos + |bytes|) ==> after[i] == before[i]
  }

  /** Adjacent writes make one write. */
  lemma WroteTwice(a: seq<Byte>, b: seq<Byte>, c: seq<Byte>, pos: nat, x: seq<Byte>, y: seq<Byte>)
    requires Wrote(a, b, pos, x) && Wrote(b, c, pos + |x|, y)
    ensures Wrote(a, c, pos, x + y)
  {}

  // ------------------------------------------------ writes inside a block

  /** A write into the content of block b changes no header. */
  lemma PayloadKeepsLinks(mem: seq<Byte>, base: nat, chain: seq<nat>, b: nat, off: nat, bytes: seq<Byte>)
    requires Linked(mem, base, chain) && b < |mem| / 128 && off + |bytes| <= 120
    ensures Linked(Patch(mem, 128 * b + 8 + off, bytes), base, chain)
  {
    var mem' := Patch(mem, 128 * b + 8 + off, bytes);
    forall k | 0 <= k < |chain| ensures Next(mem', chain[k]) == Next(mem, chain[k]) {
      var a := 128 * chain[k];
      assert mem'[a..a + 4] == mem[a..a + 4];
    }
  }

  /** It changes no other file. */
  lemma PayloadKeepsOther(mem: seq<Byte>, chain: seq<nat>, b: nat, off: nat, bytes: seq<Byte>)
    requires InDisk(chain, |mem| / 128) && b < |mem| / 128 && off + |bytes| <= 120 && b !in chain
    ensures Flat(Patch(mem, 128 * b + 8 + off, bytes), chain) == Flat(mem, chain)
  {}

  /** In its own file it stores the bytes at the flat position, and nowhere else. */
  lemma PayloadStores(mem: seq<Byte>, chain: seq<nat>, k: nat, off: nat, bytes: seq<Byte>)
    requires InDisk(chain, |mem| / 128) && k < |chain| && off + |bytes| <= 120 && NoDup(chain)
    ensures Flat(Patch(mem, 128 * chain[k] + 8 + off, bytes), chain) == Store(Flat(mem, chain), 120 * k + off, bytes)
  {}

  // ------------------------------------------------------- header writes

  /** Setting the next field of a block. */
  function SetNext(mem: seq<Byte>, b: nat, v: nat): (r: seq<Byte>)
    requires 128 * b + 128 <= |mem|
    ensures |r| == |mem|
  {
    Patch(mem, 128 * b, Encode(v, 4))
  }

  lemma SetNextHeaders(mem: seq<Byte>, b: nat, v: nat, c: nat)
    requires b < |mem| / 128 && c < |mem| / 128 && v < 0x1_0000_0000
    ensures Next(SetNext(mem, b, v), c) == if c == b then v else Next(mem, c)
  {
    var mem' := SetNext(mem, b, v);
    if c == b {
      assert mem'[128 * b..128 * b + 4] == Encode(v, 4);
      HeaderRoundTrip(v, 4);
    } else {
      assert mem'[128 * c..128 * c + 4] == mem[128 * c..128 * c + 4];
    }
  }

  lemma SetNextKeepsFlat(mem: seq<Byte>, b: nat, v: nat, chain: seq<nat>)
    requires b < |mem| / 128 && InDisk(chain, |mem| / 128)
    ensures Flat(SetNext(mem, b, v), chain) == Flat(mem, chain)
  {}

  /** Headers of blocks outside a chain do not matter to it. */
  lemma SetNextKeepsLinks(mem: seq<Byte>, base: nat, b: nat, v: nat, chain: seq<nat>)
    requires Linked(mem, base, chain) && b < |mem| / 128 && v < 0x1_0000_0000 && b !in chain
    ensures Linked(SetNext(mem, b, v), base, chain)
  {
    forall k | 0 <= k < |chain| ensures Next(SetNext(mem, b, v), chain[k]) == Next(mem, chain[k]) {
      assert chain[k] in chain;
      SetNextHeaders(mem, b, v, chain[k]);
    }
  }

  /** Appending block b to a chain: its own header is cleared and the last header
      is pointed at it. */
  ghost function Appended(mem: seq<Byte>, base: nat, chain: seq<nat>, b: nat): seq<Byte>
    requires InDisk(chain, |mem| / 128) && b < |mem| / 128
  {
    var mem1 := SetNext(mem, b, 0);
    if chain == [] then mem1 else SetNext(mem1, chain[|chain| - 1], BlockAddr(base, b))
  }

  lemma AppendLinks(mem: seq<Byte>, base: nat, chain: seq<nat>, b: nat)
    requires Linked(mem, base, chain) && b < |mem| / 128 && b !in chain && NoDup(chain)
    requires BlockAddr(base, b) < 0x1_0000_0000
    ensures Linked(Appended(mem, base, chain, b), base, chain + [b])
  {
    var mem1, mem', chain' := SetNext(mem, b, 0), Appended(mem, base, chain, b), chain + [b];
    var n := |chain|;
    forall k | 0 <= k < |chain'| ensures Next(mem', chain'[k]) == LinkTo(base, chain', k + 1) {
      var c := chain'[k];
      SetNextHeaders(mem, b, 0, c);
      if n > 0 {
        SetNextHeaders(mem1, chain[n - 1], BlockAddr(base, b), c);
        if k < n {
          assert chain[k] in chain;
        } else {
          assert chain[n - 1] in chain;
        }
      }
    }
  }
}
