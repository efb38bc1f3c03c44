/**
  Query text as a token sequence, the grouping decision of a text backend, and a
  reference reading of query text: a recursive-descent parser driven by the
  backend's operator precedence.
 */
module QueryText {
  import opened Results
  import opened SigmaIr

  datatype TokenType = NOT | AND | OR

  datatype Token = Atom(leaf: Leaf) | OpToken(op: TokenType) | LParen | RParen

  type Text = seq<Token>

  /** Operators from tightest to loosest, as `TextQueryConfig::precedence`. */
  datatype Precedence = Precedence(first: TokenType, second: TokenType, third: TokenType) {
    predicate Valid() {
      first != second && first != third && second != third
    }

    function Rank(t: TokenType): (r: nat)
      ensures r < 3
    {
      if t == first then 0 else if t == second then 1 else 2
    }

    function At(rank: nat): TokenType
      requires rank < 3
    {
      if rank == 0 then first else if rank == 1 then second else third
    }

    predicate NeedsGrouping(outer: TokenType, inner: TokenType) {
      outer == NOT || Rank(inner) > Rank(outer)
    }
  }

  function Group(p: Precedence, expr: Text, outer: TokenType, inner: TokenType): Text {
    if p.NeedsGrouping(outer, inner) then [LParen] + expr + [RParen] else expr
  }

  /** The rank of the derived order `NOT < AND < OR`. */
  function Ordinal(t: TokenType): nat {
    if t == NOT then 0 else if t == AND then 1 else 2
  }

  /** What a backend without a precedence of its own does. */
  function DefaultGroup(expr: Text, outer: TokenType, inner: TokenType): Text {
    if outer == NOT || Ordinal(inner) > Ordinal(outer) then [LParen] + expr + [RParen] else expr
  }

  /** The default groups as the standard precedence does. */
  lemma DefaultIsStandard(expr: Text, outer: TokenType, inner: TokenType)
    ensures DefaultGroup(expr, outer, inner) == Group(Precedence(NOT, AND, OR), expr, outer, inner)
  {
  }

  /** `exprs.join(" OP ")`: nothing is dropped, not even an empty operand. */
  function JoinText(op: TokenType, exprs: seq<Text>): Text {
    if |exprs| == 0 then []
    else if |exprs| == 1 then exprs[0]
    else exprs[0] + [OpToken(op)] + JoinText(op, exprs[1..])
  }

  function NotText(expr: Text): Text {
    [OpToken(NOT)] + expr
  }

  // ----- Formulas and their truth value -----

  datatype Formula = Lit(leaf: Leaf) | Neg(inner: Formula) | Bin(op: TokenType, args: seq<Formula>)

  type Valuation = Leaf -> bool

  predicate Eval(f: Formula, v: Valuation) {
    match f
    case Lit(leaf) => v(leaf)
    case Neg(inner) => !Eval(inner, v)
    case Bin(op, args) =>
      if op == AND then forall i | 0 <= i < |args| :: Eval(args[i], v)
      else exists i | 0 <= i < |args| :: Eval(args[i], v)
  }

  /** Truth of operands `fs` joined by `op`. */
  predicate EvalAll(op: TokenType, fs: seq<Formula>, v: Valuation) {
    if op == AND then forall i | 0 <= i < |fs| :: Eval(fs[i], v)
    else exists i | 0 <= i < |fs| :: Eval(fs[i], v)
  }

  // ----- Parser -----

  function Wrap(op: TokenType, fs: seq<Formula>): Formula
    requires |fs| > 0
  {
    if |fs| == 1 then fs[0] else Bin(op, fs)
  }

  /**
    Level 0 reads an atom or a parenthesised query; level `k + 1` also reads the
    operator of rank `k`. The result carries the unread tokens.
   */
  function ParseAt(p: Precedence, level: nat, ts: Text): (r: Option<(Formula, Text)>)
    requires level <= 3
    ensures r.Some? ==> |r.value.1| < |ts|
    decreases |ts|, level, 1
  {
    if level == 0 then
      if ts == [] then None
      else match ts[0]
        case Atom(leaf) => Some((Lit(leaf), ts[1..]))
        case LParen =>
          (match ParseAt(p, 3, ts[1..])
           case Some((f, rest)) => if rest != [] && rest[0] == RParen then Some((f, rest[1..])) else None
           case None => None)
        case _ => None
    else
      var op := p.At(level - 1);
      if op == NOT then
        if ts != [] && ts[0] == OpToken(NOT) then
          match ParseAt(p, level, ts[1..])
          case Some((f, rest)) => Some((Neg(f), rest))
          case None => None
        else ParseAt(p, level - 1, ts)
      else
        match ParseChain(p, level, ts)
        case Some((fs, rest)) => Some((Wrap(op, fs), rest))
        case None => None
  }

  /** One or more tighter operands separated by the operator of this level. */
  function ParseChain(p: Precedence, level: nat, ts: Text): (r: Option<(seq<Formula>, Text)>)
    requires 0 < level <= 3
    ensures r.Some? ==> |r.value.1| < |ts| && |r.value.0| > 0
    decreases |ts|, level, 0
  {
    match ParseAt(p, level - 1, ts)
    case None => None
    case Some((f, rest)) =>
      if rest != [] && rest[0] == OpToken(p.At(level - 1)) then
        match ParseChain(p, level, rest[1..])
        case Some((fs, rest')) => Some(([f] + fs, rest'))
        case None => None
      else Some(([f], rest))
  }

  /** The whole text as one query. */
  function Parse(p: Precedence, ts: Text): Option<Formula> {
    match ParseAt(p, 3, ts)
    case Some((f, rest)) => if rest == [] then Some(f) else None
    case None => None
  }

  // ----- Parser facts -----

  /** `r` cannot continue a phrase read at `level`. */
  predicate Stops(p: Precedence, level: nat, r: Text) {
    r == [] || (r[0].OpToken? ==> p.Rank(r[0].op) >= level)
  }

  lemma RankAt(p: Precedence, k: nat)
    requires p.Valid() && k < 3
    ensures p.Rank(p.At(k)) == k
  {
  }

  lemma AtRank(p: Precedence, op: TokenType)
    requires p.Valid()
    ensures p.At(p.Rank(op)) == op
  {
  }

  /** Reading a phrase does not look past its end. */
  lemma {:induction false} ParseExtend(p: Precedence, level: nat, ts: Text, u: Text)
    requires p.Valid() && level <= 3
    requires ParseAt(p, level, ts).Some?
    requires ParseAt(p, level, ts).value.1 != [] || Stops(p, level, u)
    ensures ParseAt(p, level, ts + u)
         == Some((ParseAt(p, level, ts).value.0, ParseAt(p, level, ts).value.1 + u))
    decreases |ts|, level, 1
  {
    if level == 0 {
      assert (ts + u)[1..] == ts[1..] + u;
      if ts[0] == LParen {
        ParseExtend(p, 3, ts[1..], u);
        var rest := ParseAt(p, 3, ts[1..]).value.1;
        assert (rest + u)[1..] == rest[1..] + u;
      }
    } else if p.At(level - 1) == NOT {
      if ts[0] == OpToken(NOT) {
        assert (ts + u)[1..] == ts[1..] + u;
        ParseExtend(p, level, ts[1..], u);
      } else {
        ParseExtend(p, level - 1, ts, u);
      }
    } else {
      ChainExtend(p, level, ts, u);
    }
  }

  lemma {:induction false} ChainExtend(p: Precedence, level: nat, ts: Text, u: Text)
    requires p.Valid() && 0 < level <= 3
    requires ParseChain(p, level, ts).Some?
    requires ParseChain(p, level, ts).value.1 != [] || Stops(p, level, u)
    ensures ParseChain(p, level, ts + u)
         == Some((ParseChain(p, level, ts).value.0, ParseChain(p, level, ts).value.1 + u))
    decreases |ts|, level, 0
  {
    var (f, rest) := ParseAt(p, level - 1, ts).value;
    RankAt(p, level - 1);
    ParseExtend(p, level - 1, ts, u);
    if rest != [] && rest[0] == OpToken(p.At(level - 1)) {
      assert (rest + u)[1..] == rest[1..] + u;
      ChainExtend(p, level, rest[1..], u);
    }
  }

  lemma {:induction false} NoLeadingNot(p: Precedence, level: nat, ts: Text)
    requires p.Valid() && level <= p.Rank(NOT) && ParseAt(p, level, ts).Some?
    ensures ts != [] && ts[0] != OpToken(NOT)
    decreases level
  {
    if level > 0 {
      RankAt(p, level - 1);
      NoLeadingNot(p, level - 1, ts);
    }
  }

  /** A phrase complete at one level is the same phrase at every looser level. */
  lemma {:induction false} ParseLift(p: Precedence, low: nat, high: nat, ts: Text)
    requires p.Valid() && low <= high <= 3
    requires ParseAt(p, low, ts).Some? && ParseAt(p, low, ts).value.1 == []
    ensures ParseAt(p, high, ts) == ParseAt(p, low, ts)
    decreases high - low
  {
    if low < high {
      RankAt(p, low);
      if p.At(low) == NOT {
        NoLeadingNot(p, low, ts);
      } else {
        var f := ParseAt(p, low, ts).value.0;
        assert ParseChain(p, low + 1, ts) == Some(([f], []));
      }
      assert ParseAt(p, low + 1, ts) == ParseAt(p, low, ts);
      ParseLift(p, low + 1, high, ts);
    }
  }

  lemma ParenReads(p: Precedence, ts: Text)
    requires p.Valid() && ParseAt(p, 3, ts).Some? && ParseAt(p, 3, ts).value.1 == []
    ensures ParseAt(p, 0, [LParen] + ts + [RParen]) == ParseAt(p, 3, ts)
  {
    var t := [LParen] + ts + [RParen];
    assert t[1..] == ts + [RParen];
    ParseExtend(p, 3, ts, [RParen]);
    assert ([] + [RParen])[1..] == [];
  }

  /** Two complete chains of one operator joined by it are one chain. */
  lemma {:induction false} ChainJoin(p: Precedence, level: nat, t: Text, u: Text)
    requires p.Valid() && 0 < level <= 3
    requires ParseChain(p, level, t).Some? && ParseChain(p, level, t).value.1 == []
    requires ParseChain(p, level, u).Some? && ParseChain(p, level, u).value.1 == []
    ensures ParseChain(p, level, t + [OpToken(p.At(level - 1))] + u)
         == Some((ParseChain(p, level, t).value.0 + ParseChain(p, level, u).value.0, []))
    decreases |t|
  {
    var sep := [OpToken(p.At(level - 1))] + u;
    var (f, rest) := ParseAt(p, level - 1, t).value;
    var gs := ParseChain(p, level, u).value.0;
    RankAt(p, level - 1);
    ParseExtend(p, level - 1, t, sep);
    assert t + [OpToken(p.At(level - 1))] + u == t + sep;
    assert ParseAt(p, level - 1, t + sep) == Some((f, rest + sep));
    if rest == [] {
      assert rest + sep == sep && sep[1..] == u;
    } else {
      ChainJoin(p, level, rest[1..], u);
      assert (rest + sep)[1..] == rest[1..] + [OpToken(p.At(level - 1))] + u;
      var fs := ParseChain(p, level, rest[1..]).value.0;
      assert [f] + (fs + gs) == ([f] + fs) + gs;
    }
  }
}
