/**
 Files as sequences of blocks: `LZMACompress` and `ZLIBCompress` cut a file into blocks and store
 those that do not shrink; `LZMADecompress` and `ZLIBDecompress` put it together again. The
 compression of one block is a parameter.
 */
module BlockFraming {

  import opened Bytes

  datatype Option<T> = None | Some(value: T)

  /**
   A block with its plain bytes restored, how much of the input it took, and how many bytes were
   set aside for it: a block that ends early leaves room.
   */
  datatype Unpacked = Unpacked(plain: seq<byte>, used: nat, room: nat)

  /**
   `pack` gives the compressed block, its header included, or nothing when that does not fit into
   the given size. `unpack` is given what is left of the input from the block on, the recorded size
   of the block, and whatever lies behind the input in memory.
   */
  datatype Codec = Codec(pack: (seq<byte>, nat) -> Option<seq<byte>>,
                         unpack: (seq<byte>, nat, seq<byte>) -> Option<Unpacked>)

  /** A block is restored from what was packed, whatever bytes follow. */
  ghost predicate RestoresBlock(c: Codec, x: seq<byte>, cap: nat, rest: seq<byte>, tail: seq<byte>) {
    x != [] && c.pack(x, cap).Some? ==>
      var z := c.pack(x, cap).value;
      0 < |z| <= cap && c.unpack(z + rest, |z|, tail) == Some(Unpacked(x, |z|, |x|))
  }

  ghost predicate Faithful(c: Codec) {
    forall x: seq<byte>, cap: nat, rest: seq<byte>, tail: seq<byte> :: RestoresBlock(c, x, cap, rest, tail)
  }

  // ---------- Compression ----------

  /** A file in blocks: all bytes, the recorded size of each block, and which blocks are compressed. */
  datatype Framed = Framed(bytes: seq<byte>, sizes: seq<nat>, packed: seq<bool>)

  /** One block; a full block that is stored is recorded as 0. */
  function OneBlock(c: Codec, x: seq<byte>, maxPlain: nat, cap: nat): (f: Framed)
    ensures |f.sizes| == |f.packed| == 1
  {
    var z := c.pack(x, cap);
    if z.Some? then Framed(z.value, [|z.value|], [true])
    else Framed(x, [if |x| == maxPlain then 0 else |x|], [false])
  }

  /** What the compression loops produce. */
  function InBlocks(c: Codec, src: seq<byte>, maxPlain: nat, cap: nat): (f: Framed)
    requires maxPlain > 0
    ensures |f.sizes| == |f.packed|
    decreases |src|
  {
    if src == [] then Framed([], [], [])
    else
      var n := Min(maxPlain, |src|);
      Joined(OneBlock(c, src[..n], maxPlain, cap), InBlocks(c, src[n..], maxPlain, cap))
  }

  function Joined(a: Framed, b: Framed): Framed {
    Framed(a.bytes + b.bytes, a.sizes + b.sizes, a.packed + b.packed)
  }

  lemma JoinedThrice(a: Framed, b: Framed, c: Framed)
    ensures Joined(a, Joined(b, c)) == Joined(Joined(a, b), c)
  {
    assert a.bytes + (b.bytes + c.bytes) == a.bytes + b.bytes + c.bytes;
    assert a.sizes + (b.sizes + c.sizes) == a.sizes + b.sizes + c.sizes;
    assert a.packed + (b.packed + c.packed) == a.packed + b.packed + c.packed;
  }

  lemma JoinedNothing(a: Framed)
    ensures Joined(a, Framed([], [], [])) == a && Joined(Framed([], [], []), a) == a
  {
  }

  /** `LZMACompress`, `ZLIBCompress`; nothing is written when the block size is 0. */
  method CompressBlocks(c: Codec, src: seq<byte>, maxPlain: nat, cap: nat) returns (res: Option<Framed>)
    ensures res == if maxPlain == 0 then None else Some(InBlocks(c, src, maxPlain, cap))
  {
    if maxPlain == 0 {
      return None;
    }
    var f := Framed([], [], []);
    var done := 0;
    JoinedNothing(InBlocks(c, src, maxPlain, cap));
    assert src[0..] == src;
    while done < |src|
      invariant done <= |src|
      invariant InBlocks(c, src, maxPlain, cap) == Joined(f, InBlocks(c, src[done..], maxPlain, cap))
    {
      hide Joined, InBlocks;
      var n := Min(maxPlain, |src| - done);
      var x := src[done..done + n];
      InBlocksStep(c, src[done..], maxPlain, cap);
      assert src[done..][..n] == x && src[done..][n..] == src[done + n..];
      JoinedThrice(f, OneBlock(c, x, maxPlain, cap), InBlocks(c, src[done + n..], maxPlain, cap));
      var z := c.pack(x, cap);
      var size := if z.Some? then |z.value| else if n == maxPlain then 0 else n;
      f := Joined(f, Framed(if z.Some? then z.value else x, [size], [z.Some?]));
      done := done + n;
    }
    assert src[done..] == [];
    JoinedNothing(f);
    res := Some(f);
  }

  // ---------- Decompression ----------

  /** Bytes that were restored, and how many were set aside for them. */
  datatype Pieces = Pieces(bytes: seq<byte>, room: nat)

  function Before(a: Pieces, b: Option<Pieces>): Option<Pieces> {
    match b
    case None => None
    case Some(p) => Some(Pieces(a.bytes + p.bytes, a.room + p.room))
  }

  /**
   What the decompression loops make of `src` from block `i` on, or nothing when a block cannot be
   restored or is said to be longer than what is left. `tail` is whatever lies behind the input in
   memory: an LZMA block is handed to the decoder with a window that may reach there.
   */
  function Restored(c: Codec, src: seq<byte>, sizes: seq<nat>, flags: seq<bool>, i: nat, tail: seq<byte>): Option<Pieces>
    requires |flags| <= |sizes|
    decreases if i < |flags| then |flags| - i else 0, |src|
  {
    if src == [] then Some(Pieces([], 0))
    else if i < |flags| && flags[i] then
      match c.unpack(src, sizes[i], tail)
      case None => None
      case Some(u) =>
        if u.used > |src| then None
        else Before(Pieces(u.plain, u.room), Restored(c, src[u.used..], sizes, flags, i + 1, tail))
    else
      var n := if i < |flags| then sizes[i] else |src|;
      if n > |src| then None
      else Before(Pieces(src[..n], n), Restored(c, src[n..], sizes, flags, i + 1, tail))
  }

  /** The whole output; room that was set aside and not filled is zero, at the end. */
  function Decompressed(c: Codec, src: seq<byte>, sizes: seq<nat>, flags: seq<bool>, tail: seq<byte>): Option<seq<byte>>
    requires |flags| <= |sizes|
  {
    match Restored(c, src, sizes, flags, 0, tail)
    case None => None
    case Some(p) => Some(p.bytes + Repeat(0, if p.room > |p.bytes| then p.room - |p.bytes| else 0))
  }

  /** `LZMADecompress`, `ZLIBDecompress` */
  method DecompressBlocks(c: Codec, src: seq<byte>, sizes: seq<nat>, flags: seq<bool>, tail: seq<byte>)
    returns (res: Option<seq<byte>>)
    requires |flags| <= |sizes|
    ensures res == Decompressed(c, src, sizes, flags, tail)
  {
    hide Before;
    var dst := Pieces([], 0);
    var offset, i := 0, 0;
    assert src[0..] == src;
    NothingBefore(Restored(c, src, sizes, flags, 0, tail));
    while offset < |src|
      invariant offset <= |src|
      invariant Restored(c, src, sizes, flags, 0, tail) == Before(dst, Restored(c, src[offset..], sizes, flags, i, tail))
      decreases if i < |flags| then |flags| - i else 0, |src| - offset
    {
      BeforeNone(dst);
      var used, room: nat;
      var plain: seq<byte>;
      if i < |flags| && flags[i] {
        var u := c.unpack(src[offset..], sizes[i], tail);
        if u.None? || u.value.used > |src| - offset {
          return None;
        }
        plain, used, room := u.value.plain, u.value.used, u.value.room;
      } else {
        used := if i < |flags| then sizes[i] else |src| - offset;
        if used > |src| - offset {
          return None;
        }
        plain, room := src[offset..offset + used], used;
        assert src[offset..][..used] == plain;
      }
      assert src[offset..][used..] == src[offset + used..];
      BeforeBefore(dst, Pieces(plain, room), Restored(c, src[offset + used..], sizes, flags, i + 1, tail));
      dst, offset, i := Pieces(dst.bytes + plain, dst.room + room), offset + used, i + 1;
    }
    assert src[offset..] == [];
    BeforeNothing(dst);
    return Some(dst.bytes + Repeat(0, if dst.room > |dst.bytes| then dst.room - |dst.bytes| else 0));
  }

  lemma NothingBefore(b: Option<Pieces>)
    ensures Before(Pieces([], 0), b) == b
  {
    assert b.Some? ==> [] + b.value.bytes == b.value.bytes;
  }

  lemma BeforeNothing(a: Pieces)
    ensures Before(a, Some(Pieces([], 0))) == Some(a)
  {
    assert a.bytes + [] == a.bytes;
  }

  lemma BeforeNone(a: Pieces)
    ensures Before(a, None) == None
  {
  }

  lemma BeforeBefore(a: Pieces, b: Pieces, c: Option<Pieces>)
    ensures Before(a, Before(b, c)) == Before(Pieces(a.bytes + b.bytes, a.room + b.room), c)
  {
    if c.Some? {
      assert a.bytes + (b.bytes + c.value.bytes) == a.bytes + b.bytes + c.value.bytes;
    }
  }

  // ---------- The round trip ----------

  /** A recorded size of 0 stands for a full block. */
  function Resolved(size: nat, blockSize: nat): nat {
    if size > 0 then size else blockSize
  }

  function AllResolved(sizes: seq<nat>, blockSize: nat): (r: seq<nat>)
    ensures |r| == |sizes| && forall i :: 0 <= i < |sizes| ==> r[i] == Resolved(sizes[i], blockSize)
  {
    seq(|sizes|, i requires 0 <= i < |sizes| => Resolved(sizes[i], blockSize))
  }

  /** From block `i` on, the sizes and flags are those of the blocks of `f`. */
  ghost predicate Describes(f: Framed, blockSize: nat, sizes: seq<nat>, flags: seq<bool>, i: nat) {
    i <= |flags| <= |sizes| && flags[i..] == f.packed && sizes[i..|flags|] == AllResolved(f.sizes, blockSize)
  }

  lemma DescribesRest(c: Codec, src: seq<byte>, blockSize: nat, cap: nat, sizes: seq<nat>, flags: seq<bool>, i: nat)
    requires blockSize > 0 && src != [] && Describes(InBlocks(c, src, blockSize, cap), blockSize, sizes, flags, i)
    ensures var n := Min(blockSize, |src|);
            var one := OneBlock(c, src[..n], blockSize, cap);
            && i < |flags| && flags[i] == one.packed[0] && sizes[i] == Resolved(one.sizes[0], blockSize)
            && Describes(InBlocks(c, src[n..], blockSize, cap), blockSize, sizes, flags, i + 1)
  {
    var f := InBlocks(c, src, blockSize, cap);
    assert flags[i] == flags[i..][0] == f.packed[0];
    assert sizes[i] == sizes[i..|flags|][0] == AllResolved(f.sizes, blockSize)[0];
    assert flags[i + 1..] == flags[i..][1..] == f.packed[1..];
    assert sizes[i + 1..|flags|] == sizes[i..|flags|][1..] == AllResolved(f.sizes, blockSize)[1..];
  }

  /**
   With the sizes resolved and the flags that belong to the blocks, decompression restores the
   file, whatever lies behind it in memory.
   */
  lemma {:induction false} BlocksAreRestored(c: Codec, src: seq<byte>, blockSize: nat, cap: nat, sizes: seq<nat>, flags: seq<bool>,
                                             i: nat, tail: seq<byte>)
    requires Faithful(c) && blockSize > 0
    requires Describes(InBlocks(c, src, blockSize, cap), blockSize, sizes, flags, i)
    ensures Restored(c, InBlocks(c, src, blockSize, cap).bytes, sizes, flags, i, tail) == Some(Pieces(src, |src|))
    decreases |src|
  {
    hide Describes, Faithful, OneBlock, Restored, InBlocks;
    DescribesFits(InBlocks(c, src, blockSize, cap), blockSize, sizes, flags, i);
    if src == [] {
      NothingIsRestored(c, blockSize, cap, sizes, flags, i, tail);
    } else {
      var n := Min(blockSize, |src|);
      var x, y := src[..n], src[n..];
      InBlocksStep(c, src, blockSize, cap);
      DescribesRest(c, src, blockSize, cap, sizes, flags, i);
      BlocksAreRestored(c, y, blockSize, cap, sizes, flags, i + 1, tail);
      var z, rest := OneBlock(c, x, blockSize, cap).bytes, InBlocks(c, y, blockSize, cap).bytes;
      OneBlockIsRestored(c, x, blockSize, cap, rest, tail);
      FirstIsRestored(c, z, rest, sizes, flags, i, tail, x);
      assert src == x + y;
    }
  }

  lemma NothingIsRestored(c: Codec, blockSize: nat, cap: nat, sizes: seq<nat>, flags: seq<bool>, i: nat, tail: seq<byte>)
    requires blockSize > 0 && |flags| <= |sizes|
    ensures Restored(c, InBlocks(c, [], blockSize, cap).bytes, sizes, flags, i, tail) == Some(Pieces([], 0))
  {
  }

  lemma InBlocksStep(c: Codec, src: seq<byte>, blockSize: nat, cap: nat)
    requires blockSize > 0 && src != []
    ensures var n := Min(blockSize, |src|);
            InBlocks(c, src, blockSize, cap) == Joined(OneBlock(c, src[..n], blockSize, cap), InBlocks(c, src[n..], blockSize, cap))
  {
  }

  lemma DescribesFits(f: Framed, blockSize: nat, sizes: seq<nat>, flags: seq<bool>, i: nat)
    requires Describes(f, blockSize, sizes, flags, i)
    ensures i <= |flags| <= |sizes|
  {
  }

  /** The first block, compressed or stored, is taken off. */
  lemma FirstIsRestored(c: Codec, z: seq<byte>, rest: seq<byte>, sizes: seq<nat>, flags: seq<bool>, i: nat, tail: seq<byte>, plain: seq<byte>)
    requires i < |flags| <= |sizes| && sizes[i] == |z| > 0
    requires if flags[i] then c.unpack(z + rest, |z|, tail) == Some(Unpacked(plain, |z|, |plain|)) else z == plain
    ensures Restored(c, z + rest, sizes, flags, i, tail) ==
            Before(Pieces(plain, |plain|), Restored(c, rest, sizes, flags, i + 1, tail))
  {
    assert (z + rest)[|z|..] == rest && (z + rest)[..|z|] == z;
  }

  /** A packed block is restored from the bytes from there on; a stored one is what it is. */
  lemma OneBlockIsRestored(c: Codec, x: seq<byte>, blockSize: nat, cap: nat, rest: seq<byte>, tail: seq<byte>)
    requires Faithful(c) && 0 < |x| <= blockSize
    ensures var one := OneBlock(c, x, blockSize, cap);
            && 0 < |one.bytes| == Resolved(one.sizes[0], blockSize)
            && if one.packed[0] then c.unpack(one.bytes + rest, |one.bytes|, tail) == Some(Unpacked(x, |one.bytes|, |x|))
               else one.bytes == x
  {
    assert RestoresBlock(c, x, cap, rest, tail);
  }

  lemma ExactlyFilled(c: Codec, bytes: seq<byte>, sizes: seq<nat>, flags: seq<bool>, tail: seq<byte>, out: seq<byte>)
    requires |flags| <= |sizes| && Restored(c, bytes, sizes, flags, 0, tail) == Some(Pieces(out, |out|))
    ensures Decompressed(c, bytes, sizes, flags, tail) == Some(out)
  {
    assert out + Repeat(0, 0) == out;
  }
}
