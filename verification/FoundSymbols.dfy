/** From the match finder to the encoder: a match that was found can be coded, at any length up to its own. */
module FoundSymbols {
  import opened Bytes
  import opened Suffixes
  import opened Symbols
  import opened Lz
  import opened Decoder
  import opened FinderSpec

  /**
   A match reported at `at` is a symbol that the encoder may emit there, for every length up
   to the one reported: its distance is in reach, and it produces the bytes of the data.
   */
  lemma FoundIsCodable(cfg: Config, su: Setup, m: Machine, at: nat, found: (nat, nat), len: nat)
    requires cfg.Valid() && su.size == cfg.dicSize + 1 && at <= |su.data| && m.out == su.data[..at]
    requires TrueMatch(su, at, found) && 2 <= len <= found.0 && len <= 273
    ensures var sym := Match(len, found.1);
      && ValidSym(sym) && CanApply(m, sym) && sym.dist < Reach(cfg, m)
      && at + len <= |su.data| && Apply(m, sym).out == su.data[..at + len]
  {
    var dist, limit := found.1 + 1, Limit(su, at);
    hide Limit, Common, Copy;
    CommonAgrees(su.data, at - dist, at, limit);
    AgreeRepeats(su.data, at, dist, found.0, len);
    CopyReproduces(su.data, at, dist, len);
  }

  lemma AgreeRepeats(data: seq<byte>, at: nat, dist: nat, n: nat, len: nat)
    requires 0 < dist <= at && at + n <= |data| && len <= n && Agree(data, at - dist, at, n)
    ensures forall i :: at <= i < at + len ==> data[i] == data[i - dist]
  {
    forall i | at <= i < at + len ensures data[i] == data[i - dist] {
      assert SameAt(data, at - dist, at, i - at);
    }
  }
}
