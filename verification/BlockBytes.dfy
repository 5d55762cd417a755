/** The blocks of a file one by one: which bytes of the file are in each of them, and what stands for them. */
module BlockBytes {

  import opened Bytes
  import opened Powers
  import opened BlockFraming

  /** Block `k` of a file in blocks of `size` bytes, the last of which may be shorter */
  function Cut(src: seq<byte>, size: nat, k: nat): seq<byte> {
    if 0 <= k * size < |src| then src[k * size..Min(k * size + size, |src|)] else []
  }

  /** What stands for a block: what it is packed to if that fits, and itself otherwise. */
  function Stored(c: Codec, x: seq<byte>, cap: nat): seq<byte> {
    if c.pack(x, cap).Some? then c.pack(x, cap).value else x
  }

  /** The bytes that stand for the first `k` blocks */
  function StoredBefore(c: Codec, src: seq<byte>, size: nat, cap: nat, k: nat): nat {
    if k == 0 then 0 else StoredBefore(c, src, size, cap, k - 1) + |Stored(c, Cut(src, size, k - 1), cap)|
  }

  /** Block `k` of a file: its flag, its recorded size, and its bytes behind those of the blocks before. */
  ghost predicate BlockStands(c: Codec, src: seq<byte>, size: nat, cap: nat, f: Framed, k: nat) {
    var x, at := Cut(src, size, k), StoredBefore(c, src, size, cap, k);
    var z := Stored(c, x, cap);
    && k < |f.sizes| == |f.packed| && x != []
    && (f.packed[k] <==> c.pack(x, cap).Some?)
    && f.sizes[k] == (if !f.packed[k] && |x| == size then 0 else |z|)
    && at + |z| <= |f.bytes| && f.bytes[at..at + |z|] == z
  }

  lemma CutLater(src: seq<byte>, size: nat, k: nat)
    requires 0 < size < |src|
    ensures Cut(src, size, k + 1) == Cut(src[size..], size, k)
  {
    MulMonotone(size, 0, k);
    assert (k + 1) * size == k * size + size;
  }

  lemma {:induction false} StoredLater(c: Codec, src: seq<byte>, size: nat, cap: nat, k: nat)
    requires 0 < size < |src|
    ensures StoredBefore(c, src, size, cap, k + 1) ==
            |Stored(c, Cut(src, size, 0), cap)| + StoredBefore(c, src[size..], size, cap, k)
  {
    hide Cut, Stored;
    CutLater(src, size, if k > 0 then k - 1 else 0);
    if k > 0 {
      StoredLater(c, src, size, cap, k - 1);
    }
  }

  lemma StandsLater(c: Codec, src: seq<byte>, size: nat, cap: nat, f: Framed, one: Framed, rest: Framed, k: nat)
    requires 0 < size < |src| && f == Joined(one, rest) && BlockStands(c, src[size..], size, cap, rest, k)
    requires |one.sizes| == |one.packed| == 1 && one.bytes == Stored(c, Cut(src, size, 0), cap)
    ensures BlockStands(c, src, size, cap, f, k + 1)
  {
    hide Cut, Stored, StoredBefore;
    CutLater(src, size, k);
    StoredLater(c, src, size, cap, k);
    var z, at := Stored(c, Cut(src, size, k + 1), cap), StoredBefore(c, src[size..], size, cap, k);
    assert f.bytes[|one.bytes| + at..|one.bytes| + at + |z|] == rest.bytes[at..at + |z|];
  }

  lemma FirstStands(c: Codec, src: seq<byte>, size: nat, cap: nat, rest: Framed)
    requires size > 0 && src != [] && |rest.sizes| == |rest.packed|
    ensures var one := OneBlock(c, src[..Min(size, |src|)], size, cap);
            one.bytes == Stored(c, Cut(src, size, 0), cap) && BlockStands(c, src, size, cap, Joined(one, rest), 0)
  {
    var one := OneBlock(c, src[..Min(size, |src|)], size, cap);
    assert Cut(src, size, 0) == src[..Min(size, |src|)];
    assert Joined(one, rest).bytes[..|one.bytes|] == one.bytes;
  }

  /**
   A file is cut into as many blocks as it takes, all full but the last, and each of them stands in the
   output, in order, packed exactly if it fits.
   */
  lemma {:induction false} BlocksStand(c: Codec, src: seq<byte>, size: nat, cap: nat)
    requires size > 0
    ensures var f := InBlocks(c, src, size, cap);
            && |f.sizes| * size < |src| + size && |src| <= |f.sizes| * size
            && |f.bytes| == StoredBefore(c, src, size, cap, |f.sizes|)
            && forall k :: 0 <= k < |f.sizes| ==> BlockStands(c, src, size, cap, f, k)
    decreases |src|
  {
    hide OneBlock, Joined, Cut, Stored, BlockStands, StoredBefore;
    var f := InBlocks(c, src, size, cap);
    if src == [] {
      NothingStands(c, size, cap);
    } else {
      var n := Min(size, |src|);
      var one, rest := OneBlock(c, src[..n], size, cap), InBlocks(c, src[n..], size, cap);
      BlocksStand(c, src[n..], size, cap);
      FirstStands(c, src, size, cap, rest);
      JoinedCounts(one, rest, size);
      forall k | 0 <= k < |f.sizes| ensures BlockStands(c, src, size, cap, f, k) {
        if k > 0 {
          StandsLater(c, src, size, cap, f, one, rest, k - 1);
        }
      }
      if n < |src| {
        StoredLater(c, src, size, cap, |rest.sizes|);
      } else {
        NothingStands(c, size, cap);
        FirstIsAll(c, src, size, cap);
      }
    }
  }

  lemma NothingStands(c: Codec, size: nat, cap: nat)
    requires size > 0
    ensures InBlocks(c, [], size, cap) == Framed([], [], []) && StoredBefore(c, [], size, cap, 0) == 0
  {
  }

  lemma FirstIsAll(c: Codec, src: seq<byte>, size: nat, cap: nat)
    ensures StoredBefore(c, src, size, cap, 1) == |Stored(c, Cut(src, size, 0), cap)|
  {
    assert StoredBefore(c, src, size, cap, 0) == 0;
    hide Cut, Stored;
  }

  lemma JoinedCounts(one: Framed, rest: Framed, size: nat)
    requires |one.sizes| == |one.packed| == 1
    ensures var f := Joined(one, rest);
            && |f.sizes| == 1 + |rest.sizes| && |f.bytes| == |one.bytes| + |rest.bytes|
            && |f.sizes| * size == size + |rest.sizes| * size
  {
  }
}
