/** Parentheses are put exactly where a query would read differently without them. */
module QueryGrouping {
  import opened Results
  import opened SigmaIr
  import opened QueryText
  import opened OperatorTags
  import opened IrConvert
  import opened QueryCorrect
  import opened QueryGrammar

  predicate Binary(op: TokenType, a: bool, c: bool) {
    if op == AND then a && c else a || c
  }

  /** `a outer x inner y`, as joining writes it when the second operand is left bare. */
  function BareText(outer: TokenType, inner: TokenType, a: Leaf, x: Leaf, y: Leaf): Text {
    [Atom(a), OpToken(outer), Atom(x), OpToken(inner), Atom(y)]
  }

  /** The bare text reads as the second operand grouped, for a valuation. */
  predicate ReadsGrouped(p: Precedence, v: Valuation, outer: TokenType, inner: TokenType, a: Leaf, x: Leaf, y: Leaf) {
    var f := Parse(p, BareText(outer, inner, a, x, y));
    f.Some? && Eval(f.value, v) == Binary(outer, v(a), Binary(inner, v(x), v(y)))
  }

  lemma PairReads(p: Precedence, v: Valuation, op: TokenType, a: Leaf, c: Leaf)
    requires p.Valid() && op != NOT
    ensures Reads(p, v, [Atom(a), OpToken(op), Atom(c)], Some(op), Binary(op, v(a), v(c)))
  {
    JoinedReads(p, v, op, Operand([Atom(a)], None), v(a), Operand([Atom(c)], None), v(c));
    assert [Atom(a)] + [OpToken(op)] + [Atom(c)] == [Atom(a), OpToken(op), Atom(c)];
  }

  /** Two operands the connective leaves bare. */
  lemma JoinedReads(p: Precedence, v: Valuation, op: TokenType, o: Operand, val: bool, o': Operand, val': bool)
    requires p.Valid() && op != NOT && Reads(p, v, o.expr, o.op, val) && Reads(p, v, o'.expr, o'.op, val')
    requires GroupOperand(p, op, o) == o.expr && GroupOperand(p, op, o') == o'.expr
    ensures Reads(p, v, o.expr + [OpToken(op)] + o'.expr, Some(op), Binary(op, val, val'))
  {
    var os, vals := [o, o'], [val, val'];
    JoinReads(p, v, op == AND, os, vals);
    assert Connective(op == AND) == op && Grouped(p, op, os) == [o.expr, o'.expr];
    assert [o.expr, o'.expr][1..] == [o'.expr] && JoinText(op, [o'.expr]) == o'.expr;
    assert JoinText(op, [o.expr, o'.expr]) == o.expr + [OpToken(op)] + o'.expr;
    assert Join(p, op == AND, os) == o.expr + [OpToken(op)] + o'.expr;
    assert Combined(op, vals) == Binary(op, vals[0], vals[1]);
  }

  /** Between AND and OR a bare operand is misread by some valuation exactly when it is to be grouped. */
  lemma GroupingNeeded(p: Precedence, outer: TokenType, inner: TokenType, a: Leaf, x: Leaf, y: Leaf)
    requires p.Valid() && outer != NOT && inner != NOT && a != y
    ensures p.NeedsGrouping(outer, inner) <==> exists v :: !ReadsGrouped(p, v, outer, inner, a, x, y)
  {
    if p.NeedsGrouping(outer, inner) {
      var v: Valuation := leaf => if leaf == a then outer == OR else inner == OR;
      PairReads(p, v, outer, a, x);
      JoinedReads(p, v, inner, Operand([Atom(a), OpToken(outer), Atom(x)], Some(outer)), Binary(outer, v(a), v(x)),
                  Operand([Atom(y)], None), v(y));
      var t := [Atom(a), OpToken(outer), Atom(x)] + [OpToken(inner)] + [Atom(y)];
      assert t == BareText(outer, inner, a, x, y);
      ReadsWhole(p, v, t, Some(inner), Binary(inner, Binary(outer, v(a), v(x)), v(y)));
      assert !ReadsGrouped(p, v, outer, inner, a, x, y);
    } else {
      forall v ensures ReadsGrouped(p, v, outer, inner, a, x, y) {
        PairReads(p, v, inner, x, y);
        JoinedReads(p, v, outer, Operand([Atom(a)], None), v(a),
                    Operand([Atom(x), OpToken(inner), Atom(y)], Some(inner)), Binary(inner, v(x), v(y)));
        var t := [Atom(a)] + [OpToken(outer)] + [Atom(x), OpToken(inner), Atom(y)];
        assert t == BareText(outer, inner, a, x, y);
        ReadsWhole(p, v, t, Some(outer), Binary(outer, v(a), Binary(inner, v(x), v(y))));
      }
    }
  }

  /** A bare NOT behind a connective cannot be read exactly when it is to be grouped. */
  lemma NotGroupingNeeded(p: Precedence, outer: TokenType, a: Leaf, x: Leaf)
    requires p.Valid() && outer != NOT
    ensures p.NeedsGrouping(outer, NOT) <==> Parse(p, [Atom(a), OpToken(outer), OpToken(NOT), Atom(x)]).None?
  {
    var t := [Atom(a), OpToken(outer), OpToken(NOT), Atom(x)];
    var t1, t2, t3 := t[1..], t[2..], t[3..];
    assert t1[1..] == t2 && t2[1..] == t3 && t3[1..] == [];
    assert Close(t3, 0) == Close(t2, 0) == Close(t1, 0) == Close(t, 0) == Some(0) by { assert Close([], 0) == Some(0); }
    assert Scan(p, t3, Want(Some(NOT))) == Some(Have) by { assert Scan(p, [], Have) == Some(Have); }
    assert Scan(p, t2, Want(Some(outer))) == if Strands(p, Some(outer)) then None else Some(Have);
    assert Scan(p, t1, Have) == Scan(p, t2, Want(Some(outer)));
    assert Scan(p, t, Want(None)) == Scan(p, t1, Have);
    ParsesIffGood(p, t);
    AtRank(p, outer);
    AtRank(p, NOT);
  }

  // ----- No other parentheses -----

  function Opens(t: Text): nat {
    if t == [] then 0 else (if t[0] == LParen then 1 else 0) + Opens(t[1..])
  }

  lemma {:induction false} OpensConcat(a: Text, c: Text)
    ensures Opens(a + c) == Opens(a) + Opens(c)
  {
    if a == [] {
      assert a + c == c;
    } else {
      assert (a + c)[1..] == a[1..] + c;
      OpensConcat(a[1..], c);
    }
  }

  lemma OpensOne(t: Token)
    ensures Opens([t]) == if t == LParen then 1 else 0
  {
    assert [t][1..] == [];
  }

  /** The operand needs parentheses under this operator. */
  predicate Needs(p: Precedence, outer: TokenType, o: Operand) {
    o.expr != [] && o.op.Some? && p.NeedsGrouping(outer, o.op.value)
  }

  lemma GroupOpens(p: Precedence, outer: TokenType, o: Operand)
    ensures Opens(GroupOperand(p, outer, o)) == Opens(o.expr) + (if Needs(p, outer, o) then 1 else 0)
  {
    OpensConcat([LParen] + o.expr, [RParen]);
    OpensConcat([LParen], o.expr);
    OpensOne(LParen);
    OpensOne(RParen);
  }

  /** Parentheses of the operands, and one more pair for each that needs it. */
  function OperandOpens(p: Precedence, outer: TokenType, os: seq<Operand>): nat {
    if os == [] then 0
    else Opens(os[0].expr) + (if Needs(p, outer, os[0]) then 1 else 0) + OperandOpens(p, outer, os[1..])
  }

  lemma {:induction false} GroupedOpens(p: Precedence, outer: TokenType, os: seq<Operand>)
    ensures Opens(JoinText(outer, Grouped(p, outer, os))) == OperandOpens(p, outer, os)
  {
    if os != [] {
      GroupOpens(p, outer, os[0]);
      var texts := Grouped(p, outer, os);
      assert texts[1..] == Grouped(p, outer, os[1..]);
      GroupedOpens(p, outer, os[1..]);
      OpensConcat(texts[0] + [OpToken(outer)], JoinText(outer, texts[1..]));
      OpensConcat(texts[0], [OpToken(outer)]);
      OpensOne(OpToken(outer));
    }
  }

  /** Joining adds a pair around exactly the operands that need it, and none to a single one. */
  lemma JoinOpens(p: Precedence, all: bool, os: seq<Operand>)
    ensures Opens(Join(p, all, os)) == if |os| == 1 then Opens(os[0].expr) else OperandOpens(p, Connective(all), os)
  {
    if |os| != 1 { GroupedOpens(p, Connective(all), os); }
  }

  /** Negating adds a pair exactly if the operand needs it. */
  lemma NegateOpens(p: Precedence, o: Operand)
    ensures Opens(NegateOperand(p, o)) == Opens(o.expr) + (if Needs(p, NOT, o) then 1 else 0)
  {
    GroupOpens(p, NOT, o);
    OpensConcat([OpToken(NOT)], GroupOperand(p, NOT, o));
    OpensOne(OpToken(NOT));
  }
}
