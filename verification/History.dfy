/**
 What the format remembers of the symbols before: the last four distances, the kinds of the last
 symbols, and the text. Everything is read off a plain list of symbols.
 */
module History {

  import opened Bytes
  import opened Symbols
  import opened Lz

  // ---------- Distances ----------

  /**
   One use of a distance. A distance is known by the number of the symbol that brought it, so that
   equal distances brought by two symbols are two; the four that a stream starts with are -1 to -4.
   */
  datatype Use = Use(origin: int, dist: nat)

  const FIRST_USES: seq<Use> := [Use(-1, 1), Use(-2, 1), Use(-3, 1), Use(-4, 1)]

  function Without(uses: seq<Use>, origin: int): seq<Use> {
    if uses == [] then []
    else (if uses[0].origin == origin then [] else [uses[0]]) + Without(uses[1..], origin)
  }

  /** The distances in a log of uses, newest first: each of them once, where it was used last. */
  function Latest(log: seq<Use>): seq<Use> {
    if log == [] then [] else [log[0]] + Without(Latest(log[1..]), log[0].origin)
  }

  /** The log of uses after some symbols, newest first. A repetition uses what is at its index among the latest. */
  function Uses(syms: seq<Sym>): (log: seq<Use>)
  {
    if syms == [] then FIRST_USES
    else
      var n := |syms| - 1;
      var log := Uses(syms[..n]);
      match syms[n]
      case Literal(_) => log
      case ShortRep => Used(log, 0)
      case Rep(index, _) => Used(log, index)
      case Match(_, dist) => [Use(n, dist + 1)] + log
  }

  function Used(log: seq<Use>, index: nat): seq<Use> {
    if index < |Latest(log)| then [Latest(log)[index]] + log else log
  }

  function Listed(r: Reps): (l: seq<nat>)
    ensures |l| == 4
  {
    [r.r0, r.r1, r.r2, r.r3]
  }

  /** A list of what was used last, after one symbol more: what it uses comes to the front, `brought` being new. */
  function MovedFront<T>(l: seq<T>, sym: Sym, brought: T): seq<T> {
    match sym
    case Literal(_) => l
    case ShortRep => l
    case Rep(index, _) => if index < |l| then [l[index]] + l[..index] + l[index + 1..] else l
    case Match(_, _) => [brought] + l
  }

  /** A repetition moves its distance to the front, a match puts a new one there and drops the oldest. */
  lemma RepsMove(r: Reps, sym: Sym)
    requires ValidSym(sym)
    ensures Listed(NextReps(r, sym)) == MovedFront(Listed(r), sym, DistOf(sym) + 1)[..4]
  {
    if sym.Rep? {
      assert sym.index == 0 || sym.index == 1 || sym.index == 2 || sym.index == 3;
    }
  }

  ghost predicate Distinct(uses: seq<Use>) {
    forall i, j :: 0 <= i < j < |uses| ==> uses[i].origin != uses[j].origin
  }

  /** Every use is that of one of the four first distances, or of one that a symbol before `n` brought. */
  ghost predicate Origins(uses: seq<Use>, n: int) {
    forall i :: 0 <= i < |uses| ==> -4 <= uses[i].origin < n
  }

  lemma {:induction false} WithoutNone(uses: seq<Use>, origin: int)
    requires forall i :: 0 <= i < |uses| ==> uses[i].origin != origin
    ensures Without(uses, origin) == uses
  {
    if uses != [] {
      WithoutNone(uses[1..], origin);
    }
  }

  lemma {:induction false} WithoutOne(uses: seq<Use>, i: nat)
    requires Distinct(uses) && i < |uses|
    ensures Without(uses, uses[i].origin) == uses[..i] + uses[i + 1..]
    decreases i
  {
    if i == 0 {
      WithoutNone(uses[1..], uses[0].origin);
    } else {
      WithoutOne(uses[1..], i - 1);
      assert uses[..i] + uses[i + 1..] == [uses[0]] + (uses[1..][..i - 1] + uses[1..][i..]);
    }
  }

  lemma DropsOne(uses: seq<Use>, i: nat, n: nat)
    requires Distinct(uses) && Origins(uses, n) && i < |uses|
    ensures var r := [uses[i]] + uses[..i] + uses[i + 1..];
            Distinct(r) && Origins(r, n) && |r| == |uses|
  {
  }

  /** Using a distance again moves it to the front of the latest. */
  lemma UsedIsLatest(log: seq<Use>, i: nat, n: nat)
    requires var l := Latest(log); Distinct(l) && Origins(l, n) && i < |l|
    ensures var l := Latest(log);
            var l1 := Latest(Used(log, i));
            && l1 == [l[i]] + l[..i] + l[i + 1..]
            && Distinct(l1) && Origins(l1, n) && |l1| == |l|
  {
    var l := Latest(log);
    WithoutOne(l, i);
    DropsOne(l, i, n);
    assert Used(log, i)[1..] == log;
    assert [l[i]] + (l[..i] + l[i + 1..]) == [l[i]] + l[..i] + l[i + 1..];
  }

  lemma BroughtIsLatest(log: seq<Use>, dist: nat, n: int)
    requires n >= -4
    requires var l := Latest(log); Distinct(l) && Origins(l, n)
    ensures var l := Latest(log);
            var l1 := Latest([Use(n, dist)] + log);
            l1 == [Use(n, dist)] + l && Distinct(l1) && Origins(l1, n + 1)
  {
    WithoutNone(Latest(log), n);
    assert ([Use(n, dist)] + log)[1..] == log;
  }

  lemma FirstAreLatest()
    ensures Latest(FIRST_USES) == FIRST_USES && Distinct(FIRST_USES) && Origins(FIRST_USES, 0)
  {
    var log: seq<Use> := [];
    assert Latest(log) == log;
    hide Latest, Distinct, Origins;
    NoUses();
    BroughtIsLatest(log, 1, -4);
    log := [Use(-4, 1)] + log;
    BroughtIsLatest(log, 1, -3);
    log := [Use(-3, 1)] + log;
    BroughtIsLatest(log, 1, -2);
    log := [Use(-2, 1)] + log;
    BroughtIsLatest(log, 1, -1);
    log := [Use(-1, 1)] + log;
    assert log == FIRST_USES;
  }

  lemma NoUses()
    ensures Distinct([]) && Origins([], -4)
  {
  }

  ghost predicate AllValid(syms: seq<Sym>) {
    forall i :: 0 <= i < |syms| ==> ValidSym(syms[i])
  }

  lemma {:induction false} LatestAreGood(syms: seq<Sym>)
    requires AllValid(syms)
    ensures var l := Latest(Uses(syms)); |l| >= 4 && Distinct(l) && Origins(l, |syms|)
    decreases |syms|
  {
    hide Latest, ValidSym;
    if syms == [] {
      FirstAreLatest();
    } else {
      var n := |syms| - 1;
      LatestAreGood(syms[..n]);
      LatestAfter(syms[..n], syms[n]);
      assert syms[..n] + [syms[n]] == syms;
    }
  }

  /** What one symbol more does to the latest distances. */
  lemma LatestAfter(syms: seq<Sym>, sym: Sym)
    requires AllValid(syms) && ValidSym(sym)
    requires var l := Latest(Uses(syms)); |l| >= 4 && Distinct(l) && Origins(l, |syms|)
    ensures var l, l1 := Latest(Uses(syms)), Latest(Uses(syms + [sym]));
            && |l1| >= 4 && Distinct(l1) && Origins(l1, |syms| + 1)
            && l1 == MovedFront(l, sym, Use(|syms|, DistOf(sym) + 1))
  {
    hide Latest;
    var log, l := Uses(syms), Latest(Uses(syms));
    assert (syms + [sym])[..|syms|] == syms;
    match sym
    case Literal(_) =>
    case ShortRep =>
      UsedIsLatest(log, 0, |syms|);
      assert [l[0]] + l[..0] + l[1..] == l;
    case Rep(index, _) => UsedIsLatest(log, index, |syms|);
    case Match(_, dist) => BroughtIsLatest(log, dist + 1, |syms|);
  }

  function Dists(uses: seq<Use>): (d: seq<nat>)
    ensures |d| == |uses| && forall i :: 0 <= i < |uses| ==> d[i] == uses[i].dist
  {
    seq(|uses|, i requires 0 <= i < |uses| => uses[i].dist)
  }

  /** The four distances are those used last. */
  ghost predicate Remembers(r: Reps, syms: seq<Sym>) {
    |Latest(Uses(syms))| >= 4 && Listed(r) == Dists(Latest(Uses(syms)))[..4]
  }

  lemma RemembersMore(r: Reps, syms: seq<Sym>, sym: Sym)
    requires AllValid(syms) && ValidSym(sym) && Remembers(r, syms)
    ensures Remembers(NextReps(r, sym), syms + [sym])
    ensures !sym.Literal? ==> Uses(syms + [sym]) != [] && Uses(syms + [sym])[0] == Latest(Uses(syms + [sym]))[0]
  {
    hide Latest, ValidSym, NextReps;
    LatestAreGood(syms);
    LatestAfter(syms, sym);
    RepsMove(r, sym);
    MovedDists(Latest(Uses(syms)), sym, Use(|syms|, DistOf(sym) + 1));
    if !sym.Literal? { FrontIsLatest(syms, sym); }
  }

  lemma RepIndex(sym: Sym)
    requires sym.Rep? && ValidSym(sym)
    ensures sym.index < 4
  {
  }

  lemma MovedDists(l: seq<Use>, sym: Sym, brought: Use)
    requires |l| >= 4 && ValidSym(sym)
    ensures |MovedFront(l, sym, brought)| >= 4
    ensures Dists(MovedFront(l, sym, brought))[..4] == MovedFront(Dists(l)[..4], sym, brought.dist)[..4]
  {
  }

  lemma FrontIsLatest(syms: seq<Sym>, sym: Sym)
    requires !sym.Literal? && ValidSym(sym) && |Latest(Uses(syms))| >= 4
    ensures var log := Uses(syms + [sym]); log != [] && Latest(log) != [] && log[0] == Latest(log)[0]
  {
    hide ValidSym;
    if sym.Rep? { RepIndex(sym); }
    assert (syms + [sym])[..|syms|] == syms;
  }

  // ---------- Kinds of symbols ----------

  datatype Kind = Lit | New | Old | Short

  function KindOf(sym: Sym): Kind {
    match sym
    case Literal(_) => Lit
    case ShortRep => Short
    case Rep(_, _) => Old
    case Match(_, _) => New
  }

  /** The kind of the symbol `back` before the last; before the first there are literals. */
  function KindBack(syms: seq<Sym>, back: nat): Kind {
    if back < |syms| then KindOf(syms[|syms| - 1 - back]) else Lit
  }

  /**
   What the twelve states remember. A symbol that was no literal is remembered for three literals: as a
   match, as a repetition, or as a short one, which is told apart only if a literal came before it.
   */
  function StateOf(k1: Kind, k2: Kind, k3: Kind, k4: Kind): nat {
    if k1 == Lit && k2 == Lit && k3 == Lit then 0
    else if k1 == Lit && k2 == Lit then 1 + KindRank(k3, k4)
    else if k1 == Lit then 4 + KindRank(k2, k3)
    else if k2 == Lit then 7 + KindRank(k1, k2)
    else if k1 == New then 10
    else 11
  }

  function KindRank(k: Kind, before: Kind): nat {
    if k == New then 0 else if k == Short && before == Lit then 2 else 1
  }

  ghost predicate StateTells(state: nat, syms: seq<Sym>) {
    state == StateOf(KindBack(syms, 0), KindBack(syms, 1), KindBack(syms, 2), KindBack(syms, 3))
  }

  lemma StateTellsMore(state: nat, syms: seq<Sym>, sym: Sym)
    requires StateTells(state, syms)
    ensures StateTells(NextState(state, sym), syms + [sym])
    ensures NextState(state, sym) >= 7 <==> !sym.Literal?
  {
    var syms1 := syms + [sym];
    assert KindBack(syms1, 0) == KindOf(sym) && KindBack(syms1, 1) == KindBack(syms, 0);
    assert KindBack(syms1, 2) == KindBack(syms, 1) && KindBack(syms1, 3) == KindBack(syms, 2);
  }

  /** The slot trees: one for each of the lengths 2, 3 and 4, and one for all that are longer. */
  lemma SlotTreesByLength(a: nat, b: nat)
    requires a >= 2 && b >= 2
    ensures LenState(a) == LenState(b) <==> a == b || (a >= 5 && b >= 5)
    ensures LenState(a) == Min(a, 5) - 2
  {
  }

  // ---------- Text ----------

  /** What symbols spell: a literal its byte, any other symbol a copy from the distance it uses. */
  function Text(syms: seq<Sym>): seq<byte> {
    if syms == [] then []
    else
      var before, sym := Text(syms[..|syms| - 1]), syms[|syms| - 1];
      match sym
      case Literal(b) => before + [b]
      case _ =>
        var log := Uses(syms);
        if log != [] && 0 < log[0].dist <= |before| then Copy(before, log[0].dist, SymLen(sym)) else before
  }

  /** The machine stands where these symbols lead. */
  ghost predicate Told(m: Machine, syms: seq<Sym>) {
    AllValid(syms) && Remembers(m.reps, syms) && StateTells(m.state, syms) && m.out == Text(syms)
  }

  lemma StartTold()
    ensures Told(START, [])
  {
    hide Latest;
    FirstAreLatest();
  }

  /** One symbol more, for the machine and for the list. */
  lemma ToldMore(m: Machine, syms: seq<Sym>, sym: Sym)
    requires Told(m, syms) && ValidSym(sym) && CanApply(m, sym)
    ensures Told(Apply(m, sym), syms + [sym])
  {
    hide Uses, Latest, ValidSym, NextReps, NextState, Copy, StateTells;
    var syms1 := syms + [sym];
    RemembersMore(m.reps, syms, sym);
    StateTellsMore(m.state, syms, sym);
    assert syms1[..|syms|] == syms;
    if !sym.Literal? {
      var log, l := Uses(syms1), Latest(Uses(syms1));
      assert Dists(l)[..4][0] == Listed(NextReps(m.reps, sym))[0];
    }
  }
}
