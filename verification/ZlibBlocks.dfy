/** The zlib blocks of an archive. What zlib computes is a parameter; how it is called is modelled. */
module ZlibBlocks {

  import opened Bytes
  import opened BlockFraming
  import opened FileBlocks

  /** What a zlib stream holds, and whether it is in order up to its end. */
  datatype Inflated = Inflated(plain: seq<byte>, ok: bool)

  datatype ZStatus = ZOk | ZBufError | ZDataError

  datatype Zlib = Zlib(compress: (seq<byte>, nat) -> Option<seq<byte>>, inflate: seq<byte> -> Inflated)
  {
    /** A compressed block fits, begins with a zlib header, and inflates to what it was made of. */
    ghost predicate Restores(x: seq<byte>, cap: nat) {
      compress(x, cap).Some? ==>
        var z := compress(x, cap).value;
        2 <= |z| <= cap && ZlibHeader(z[0], z[1]) && inflate(z) == Inflated(x, true)
    }

    ghost predicate Valid() {
      forall x: seq<byte>, cap: nat :: Restores(x, cap)
    }
  }

  /** `uncompress`: fills the room it is given, and says when that was too small. */
  function Uncompress(zlib: Zlib, z: seq<byte>, room: nat): (ZStatus, seq<byte>) {
    var r := zlib.inflate(z);
    if |r.plain| > room then (ZBufError, r.plain[..room])
    else (if r.ok then ZOk else ZDataError, r.plain)
  }

  /**
   The retries of `ZLIBDecompress`: the room doubles as long as it was too small. Whatever the
   block, the retries end, with all it holds or with an error.
   */
  method UncompressGrowing(zlib: Zlib, z: seq<byte>) returns (res: Option<seq<byte>>)
    requires z != []
    ensures res == if zlib.inflate(z).ok then Some(zlib.inflate(z).plain) else None
  {
    var destLen: nat := |z| * 2;
    var (status, dest) := Uncompress(zlib, z, destLen);
    while status == ZBufError
      invariant destLen > 0 && (status, dest) == Uncompress(zlib, z, destLen)
      decreases |zlib.inflate(z).plain| - destLen
    {
      destLen := |dest| * 2;
      var again := Uncompress(zlib, z, destLen);
      status, dest := again.0, again.1;
    }
    return if status == ZOk then Some(dest) else None;
  }

  /** One zlib block of `ZLIBDecompress`: it takes as much of the input as it is said to be long. */
  function UnpackZlib(zlib: Zlib, src: seq<byte>, size: nat): Option<Unpacked> {
    if size > |src| || !zlib.inflate(src[..size]).ok then None
    else
      var plain := zlib.inflate(src[..size]).plain;
      Some(Unpacked(plain, size, |plain|))
  }

  function ZlibCodec(zlib: Zlib): Codec {
    Codec((x: seq<byte>, cap: nat) => zlib.compress(x, cap),
          (src: seq<byte>, size: nat, tail: seq<byte>) => UnpackZlib(zlib, src, size))
  }

  lemma ZlibIsFaithful(zlib: Zlib)
    requires zlib.Valid()
    ensures Faithful(ZlibCodec(zlib))
  {
    forall x: seq<byte>, cap: nat, rest: seq<byte>, tail: seq<byte>
      ensures RestoresBlock(ZlibCodec(zlib), x, cap, rest, tail)
    {
      assert zlib.Restores(x, cap);
      if zlib.compress(x, cap).Some? {
        var z := zlib.compress(x, cap).value;
        assert (z + rest)[..|z|] == z;
      }
    }
  }
}
