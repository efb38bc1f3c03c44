/** Negating values a backend can only defer: what `|neq` leaves on the query, and where it goes wrong. */
module NeqDeferred {
  import opened Results
  import opened SigmaIr
  import opened QueryText
  import opened OperatorTags
  import opened IrConvert
  import opened Meaning
  import opened QueryCorrect

  /** A deferred part filters the query's results, negated or not. */
  predicate DeferredHolds(d: Deferred, v: Valuation) {
    v(d.leaf) != d.negated
  }

  /** Query text and deferred parts are all ANDed together. */
  predicate PieceHolds(p: Precedence, v: Valuation, piece: Piece) {
    && (piece.text.Some? ==> Parse(p, piece.text.value).Some? && Eval(Parse(p, piece.text.value).value, v))
    && forall i | 0 <= i < |piece.deferred| :: DeferredHolds(piece.deferred[i], v)
  }

  predicate Comparison(m: Matcher) {
    !(m.AnyOf? || m.AllOf? || m.Not? || m.Encoded? || m.Expand? || m.TimestampPart?)
  }

  /** One comparison, or one list of comparisons. */
  predicate Flat(m: Matcher) {
    if m.AnyOf? || m.AllOf? then forall i | 0 <= i < |m.ms| :: Comparison(m.ms[i]) else Comparison(m)
  }

  lemma {:induction false} FlatParts(b: Backend, field: string, ms: seq<Matcher>, n: nat)
    requires NoBlank(b) && n <= |ms| && forall i | 0 <= i < |ms| :: Comparison(ms[i])
    requires RenderList(b, field, ms, n).Ok?
    ensures var parts := RenderList(b, field, ms, n).value;
            && |parts.operands| + |parts.deferred| == n
            && (parts.operands == [] ==> forall i | 0 <= i < n :: parts.deferred[i] == Deferred(Leaf(Some(field), ms[i]), false))
  {
    if n > 0 {
      FlatParts(b, field, ms, n - 1);
      assert RenderLeaf(b, field, ms[n - 1]) == RenderComparison(b, Leaf(Some(field), ms[n - 1]));
    }
  }

  lemma NegatedParts(b: Backend, field: string, inner: Matcher, view: View)
    requires b.precedence.Valid() && NoBlank(b) && Flat(inner)
    requires RenderInner(b, field, inner).Ok? && RenderInner(b, field, inner).value.0.None?
    requires RenderNot(b, field, inner).Ok?
    ensures PieceHolds(b.precedence, view.leaf, RenderNot(b, field, inner).value) == !MatcherHolds(inner, Some(field), view)
            <==> inner != AllOf([])
  {
    var ds := RenderInner(b, field, inner).value.1;
    if inner.AnyOf? || inner.AllOf? {
      FlatParts(b, field, inner.ms, |inner.ms|);
      assert forall i | 0 <= i < |ds| :: DeferredHolds(NegateAll(ds)[i], view.leaf) == !MatcherHolds(inner.ms[i], Some(field), view);
    } else {
      assert RenderLeaf(b, field, inner) == RenderComparison(b, Leaf(Some(field), inner));
      assert ds == [Deferred(Leaf(Some(field), inner), false)];
      assert NegateAll(ds)[0] == Deferred(Leaf(Some(field), inner), true);
    }
  }

  /**
    Where `|neq` over a flat value list is accepted, what it leaves on the query is the negation of
    the list, whether rendered inline or deferred; the one exception is an `|all` of no values.
   */
  lemma NeqNegates(b: Backend, field: string, inner: Matcher, view: View)
    requires b.precedence.Valid() && NoBlank(b) && Flat(inner) && RenderNot(b, field, inner).Ok?
    ensures PieceHolds(b.precedence, view.leaf, RenderNot(b, field, inner).value) == !MatcherHolds(inner, Some(field), view)
            <==> inner != AllOf([])
  {
    var (operand, ds) := RenderInner(b, field, inner).value;
    if operand.None? {
      NegatedParts(b, field, inner, view);
    } else {
      assert MatcherFull(inner) by {
        if inner.AnyOf? || inner.AllOf? { FlatParts(b, field, inner.ms, |inner.ms|); }
      }
      InnerReads(b, field, inner, view);
      NegateReads(b.precedence, view.leaf, operand.value, MatcherHolds(inner, Some(field), view));
      ReadsWhole(b.precedence, view.leaf, NegateOperand(b.precedence, operand.value), Some(NOT), !MatcherHolds(inner, Some(field), view));
    }
  }

  /** Exactly which flat lists are refused: a mix of inline and deferred values, or an `|all` of several deferred ones. */
  lemma NeqRefuses(b: Backend, field: string, inner: Matcher)
    requires NoBlank(b) && (inner.AnyOf? || inner.AllOf?) && Flat(inner)
    requires RenderList(b, field, inner.ms, |inner.ms|).Ok?
    ensures var parts := RenderList(b, field, inner.ms, |inner.ms|).value;
            RenderNot(b, field, inner).Err? <==>
              |parts.deferred| > 0 && (|parts.deferred| < |inner.ms| || (inner.AllOf? && |inner.ms| > 1))
  {
    FlatParts(b, field, inner.ms, |inner.ms|);
  }

  /** Negating a deferred list twice does not give it back: its OR has become an AND. */
  lemma DoubleNegationDiffers(b: Backend, x: Matcher, y: Matcher, view: View)
    requires x.Cidr? && y.Cidr?
    requires b.render(Leaf(Some("f"), x)) == Ok(Defer) && b.render(Leaf(Some("f"), y)) == Ok(Defer)
    requires view.leaf(Leaf(Some("f"), x)) && !view.leaf(Leaf(Some("f"), y))
    ensures var m := Not(Not(AnyOf([x, y])));
            && MatcherHolds(m, Some("f"), view)
            && RenderLeaf(b, "f", m).Ok?
            && !PieceHolds(b.precedence, view.leaf, RenderLeaf(b, "f", m).value)
  {
    var ms := [x, y];
    var dx, dy := Deferred(Leaf(Some("f"), x), false), Deferred(Leaf(Some("f"), y), false);
    assert RenderLeaf(b, "f", ms[0]) == Ok(Piece(None, [dx]));
    assert RenderLeaf(b, "f", ms[1]) == Ok(Piece(None, [dy]));
    assert RenderList(b, "f", ms, 0) == Ok(Pieces([], []));
    var one, two := RenderList(b, "f", ms, 1), RenderList(b, "f", ms, 2);
    assert one.Ok? && one.value.operands == [] && one.value.deferred == [dx];
    assert two.Ok? && two.value.operands == [] && two.value.deferred == [dx, dy];
    var inner := RenderInner(b, "f", AnyOf(ms));
    assert inner.Ok? && inner.value.0 == None && inner.value.1 == [dx, dy];
    assert RenderNot(b, "f", AnyOf(ms)).Ok?;
    var once := RenderLeaf(b, "f", Not(AnyOf(ms)));
    assert once.Ok? && once.value.text == None && once.value.deferred == NegateAll([dx, dy]);
    var again := RenderInner(b, "f", Not(AnyOf(ms)));
    assert again.Ok? && again.value.0 == None && again.value.1 == NegateAll([dx, dy]);
    assert RenderNot(b, "f", Not(AnyOf(ms))).Ok?;
    var twice := RenderLeaf(b, "f", Not(Not(AnyOf(ms))));
    assert twice.Ok? && twice.value.text == None && twice.value.deferred == NegateAll(NegateAll([dx, dy]));
    assert twice.value.deferred[1] == dy;
    assert MatcherHolds(ms[0], Some("f"), view);
    assert MatcherHolds(AnyOf(ms), Some("f"), view);
  }
}
