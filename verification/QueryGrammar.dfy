/**
  Which token texts read as a query, under every precedence order: operands and operators
  alternate, parentheses match, and no NOT follows an operator that binds tighter than it.
 */
module QueryGrammar {
  import opened Results
  import opened QueryText

  /** Where a reading stands: an operand is wanted, perhaps right after an operator, or one has just ended. */
  datatype Reading = Want(after: Option<TokenType>) | Have

  /** A NOT in this place cannot be read: its operand belongs to a tighter operator. */
  predicate Strands(p: Precedence, after: Option<TokenType>) {
    after.Some? && p.Rank(after.value) < p.Rank(NOT)
  }

  /** Reads tokens left to right. */
  function Scan(p: Precedence, ts: Text, r: Reading): Option<Reading> {
    if ts == [] then Some(r)
    else match ts[0]
      case Atom(_) => if r.Want? then Scan(p, ts[1..], Have) else None
      case LParen => if r.Want? then Scan(p, ts[1..], Want(None)) else None
      case RParen => if r.Have? then Scan(p, ts[1..], Have) else None
      case OpToken(op) =>
        if op == NOT then (if r.Want? && !Strands(p, r.after) then Scan(p, ts[1..], Want(Some(NOT))) else None)
        else if r.Have? then Scan(p, ts[1..], Want(Some(op))) else None
  }

  predicate Good(p: Precedence, ts: Text) {
    Scan(p, ts, Want(None)) == Some(Have)
  }

  predicate Leads(ts: Text) {
    ts != [] && ts[0] == OpToken(NOT)
  }

  /** Open parentheses after the text, when `open` were open before it. */
  function Close(ts: Text, open: nat): Option<nat> {
    if ts == [] then Some(open)
    else match ts[0]
      case LParen => Close(ts[1..], open + 1)
      case RParen => if open > 0 then Close(ts[1..], open - 1) else None
      case _ => Close(ts[1..], open)
  }

  predicate Balanced(ts: Text) {
    Close(ts, 0) == Some(0)
  }

  // ----- Scanning pieces -----

  lemma {:induction false} ScanConcat(p: Precedence, a: Text, c: Text, r: Reading)
    ensures Scan(p, a + c, r) == match Scan(p, a, r) case None => None case Some(r') => Scan(p, c, r')
  {
    if a == [] {
      assert a + c == c;
    } else {
      assert (a + c)[1..] == a[1..] + c;
      match a[0]
      case Atom(_) => ScanConcat(p, a[1..], c, Have);
      case LParen => ScanConcat(p, a[1..], c, Want(None));
      case RParen => ScanConcat(p, a[1..], c, Have);
      case OpToken(op) => ScanConcat(p, a[1..], c, Want(Some(op)));
    }
  }

  /** After an operator a text reads as it does alone, unless it is a stranded NOT. */
  lemma ScanAfter(p: Precedence, ts: Text, after: Option<TokenType>)
    ensures Scan(p, ts, Want(after)) == Some(Have) <==> Good(p, ts) && !(Leads(ts) && Strands(p, after))
  {
  }

  lemma {:induction false} CloseConcat(a: Text, c: Text, open: nat)
    ensures Close(a + c, open) == match Close(a, open) case None => None case Some(open') => Close(c, open')
  {
    if a == [] {
      assert a + c == c;
    } else {
      assert (a + c)[1..] == a[1..] + c;
      match a[0]
      case LParen => CloseConcat(a[1..], c, open + 1);
      case RParen => if open > 0 { CloseConcat(a[1..], c, open - 1); }
      case _ => CloseConcat(a[1..], c, open);
    }
  }

  lemma {:induction false} CloseDeeper(ts: Text, open: nat)
    requires Close(ts, open).Some?
    ensures Close(ts, open + 1) == Some(Close(ts, open).value + 1)
  {
    if ts != [] {
      match ts[0]
      case LParen => CloseDeeper(ts[1..], open + 1);
      case RParen => CloseDeeper(ts[1..], open - 1);
      case _ => CloseDeeper(ts[1..], open);
    }
  }

  // ----- What parses scans -----

  lemma {:induction false} ParseScans(p: Precedence, level: nat, ts: Text, after: Option<TokenType>)
    requires p.Valid() && level <= 3 && ParseAt(p, level, ts).Some? && !(Leads(ts) && Strands(p, after))
    ensures Scan(p, ts, Want(after)) == Scan(p, ParseAt(p, level, ts).value.1, Have)
    decreases |ts|, level, 1
  {
    if level == 0 {
      if ts[0] == LParen { ParseScans(p, 3, ts[1..], None); }
    } else if p.At(level - 1) == NOT {
      if Leads(ts) { ParseScans(p, level, ts[1..], Some(NOT)); } else { ParseScans(p, level - 1, ts, after); }
    } else {
      ChainScans(p, level, ts, after);
    }
  }

  lemma {:induction false} ChainScans(p: Precedence, level: nat, ts: Text, after: Option<TokenType>)
    requires p.Valid() && 0 < level <= 3 && p.At(level - 1) != NOT && ParseChain(p, level, ts).Some?
    requires !(Leads(ts) && Strands(p, after))
    ensures Scan(p, ts, Want(after)) == Scan(p, ParseChain(p, level, ts).value.1, Have)
    decreases |ts|, level, 0
  {
    var op := p.At(level - 1);
    ParseScans(p, level - 1, ts, after);
    var rest := ParseAt(p, level - 1, ts).value.1;
    if rest != [] && rest[0] == OpToken(op) {
      RankAt(p, level - 1);
      if level - 1 <= p.Rank(NOT) { NoLeadingNot(p, level - 1, rest[1..]); }
      ChainScans(p, level, rest[1..], Some(op));
    }
  }

  // ----- What scans parses -----

  /** What a phrase of a level can leave unread. */
  predicate Leaves(p: Precedence, level: nat, rest: Text, open: nat) {
    && Scan(p, rest, Have) == Some(Have) && Close(rest, open) == Some(0)
    && (rest == [] || rest[0] == RParen || (rest[0].OpToken? && rest[0].op != NOT && p.Rank(rest[0].op) >= level))
  }

  lemma {:induction false} ScanParses(p: Precedence, level: nat, ts: Text, after: Option<TokenType>, open: nat)
    requires p.Valid() && level <= 3 && Scan(p, ts, Want(after)) == Some(Have) && Close(ts, open) == Some(0)
    requires Leads(ts) ==> level > p.Rank(NOT)
    ensures ParseAt(p, level, ts).Some? && Leaves(p, level, ParseAt(p, level, ts).value.1, open)
    decreases |ts|, level, 1
  {
    if level == 0 {
      if ts[0] == LParen { ScanParses(p, 3, ts[1..], None, open + 1); }
    } else if p.At(level - 1) == NOT {
      RankAt(p, level - 1);
      if Leads(ts) {
        ScanParses(p, level, ts[1..], Some(NOT), open);
      } else {
        ScanParses(p, level - 1, ts, after, open);
        SkipRank(p, level, ParseAt(p, level - 1, ts).value.1, open);
      }
    } else {
      ScanChains(p, level, ts, after, open);
    }
  }

  lemma SkipRank(p: Precedence, level: nat, rest: Text, open: nat)
    requires p.Valid() && 0 < level <= 3 && Leaves(p, level - 1, rest, open)
    requires rest == [] || rest[0] != OpToken(p.At(level - 1))
    ensures Leaves(p, level, rest, open)
  {
    if rest != [] && rest[0].OpToken? { AtRank(p, rest[0].op); }
  }

  lemma {:induction false} ScanChains(p: Precedence, level: nat, ts: Text, after: Option<TokenType>, open: nat)
    requires p.Valid() && 0 < level <= 3 && p.At(level - 1) != NOT
    requires Scan(p, ts, Want(after)) == Some(Have) && Close(ts, open) == Some(0)
    requires Leads(ts) ==> level > p.Rank(NOT)
    ensures ParseChain(p, level, ts).Some? && Leaves(p, level, ParseChain(p, level, ts).value.1, open)
    decreases |ts|, level, 0
  {
    var op := p.At(level - 1);
    RankAt(p, level - 1);
    AtRank(p, NOT);
    ScanParses(p, level - 1, ts, after, open);
    var rest := ParseAt(p, level - 1, ts).value.1;
    if rest != [] && rest[0] == OpToken(op) {
      ScanChains(p, level, rest[1..], Some(op), open);
    } else {
      SkipRank(p, level, rest, open);
    }
  }

  /** A balanced text is a query exactly when it scans. */
  lemma ParsesIffGood(p: Precedence, ts: Text)
    requires p.Valid() && Balanced(ts)
    ensures Parse(p, ts).Some? <==> Good(p, ts)
  {
    if Good(p, ts) {
      ScanParses(p, 3, ts, None, 0);
    } else if Parse(p, ts).Some? {
      ParseScans(p, 3, ts, None);
    }
  }

  // ----- Groups, negations and joins -----

  lemma ParenGood(p: Precedence, ts: Text)
    requires Balanced(ts)
    ensures var t := [LParen] + ts + [RParen];
            Balanced(t) && !Leads(t) && (Good(p, t) <==> Good(p, ts))
  {
    var t := [LParen] + ts + [RParen];
    assert t[1..] == ts + [RParen] && [RParen][1..] == [];
    ScanConcat(p, ts, [RParen], Want(None));
    CloseDeeper(ts, 0);
    CloseConcat(ts, [RParen], 1);
  }

  lemma NotGood(p: Precedence, ts: Text)
    requires Balanced(ts)
    ensures Balanced(NotText(ts)) && Leads(NotText(ts)) && (Good(p, NotText(ts)) <==> Good(p, ts))
  {
    assert NotText(ts)[1..] == ts;
    ScanAfter(p, ts, Some(NOT));
  }

  lemma ConnectGood(p: Precedence, op: TokenType, a: Text, c: Text)
    requires op != NOT && Balanced(a) && Balanced(c)
    ensures var t := a + [OpToken(op)] + c;
            && Balanced(t) && (a != [] ==> (Leads(t) <==> Leads(a)))
            && (Good(p, t) <==> Good(p, a) && Good(p, c) && !(Leads(c) && Strands(p, Some(op))))
  {
    var t, tail := a + [OpToken(op)] + c, [OpToken(op)] + c;
    assert t == a + tail && tail[1..] == c;
    ScanConcat(p, a, tail, Want(None));
    CloseConcat(a, tail, 0);
    ScanAfter(p, c, Some(op));
  }

  /** Operands that read, none of them a NOT the connective strands. */
  predicate Joinable(p: Precedence, op: TokenType, texts: seq<Text>) {
    && |texts| > 0 && (forall i | 0 <= i < |texts| :: Good(p, texts[i]))
    && (forall i | 0 < i < |texts| :: !(Leads(texts[i]) && Strands(p, Some(op))))
  }

  lemma JoinableCons(p: Precedence, op: TokenType, texts: seq<Text>)
    requires |texts| > 1
    ensures Joinable(p, op, texts)
            <==> Good(p, texts[0]) && Joinable(p, op, texts[1..]) && !(Leads(texts[1]) && Strands(p, Some(op)))
  {
    var rest := texts[1..];
    assert forall i | 0 <= i < |rest| :: rest[i] == texts[i + 1];
    if Joinable(p, op, texts) {
      forall i | 0 <= i < |rest| ensures Good(p, rest[i]) { assert Good(p, texts[i + 1]); }
    } else if Good(p, texts[0]) && Joinable(p, op, rest) && !(Leads(texts[1]) && Strands(p, Some(op))) {
      forall i | 0 < i < |texts| ensures Good(p, texts[i]) && !(Leads(texts[i]) && Strands(p, Some(op))) {
        assert Good(p, rest[i - 1]);
        if i > 1 { assert rest[i - 1] == texts[i]; }
      }
    }
  }

  lemma {:induction false} JoinTextGood(p: Precedence, op: TokenType, texts: seq<Text>)
    requires op != NOT && forall i | 0 <= i < |texts| :: Balanced(texts[i])
    ensures Balanced(JoinText(op, texts))
    ensures Good(p, JoinText(op, texts)) <==> Joinable(p, op, texts)
    ensures |texts| > 0 && texts[0] != [] ==> (Leads(JoinText(op, texts)) <==> Leads(texts[0]))
    ensures JoinText(op, texts) == [] ==> texts == [] || texts[0] == []
  {
    if |texts| > 1 {
      var rest := texts[1..];
      assert forall i | 0 <= i < |rest| :: rest[i] == texts[i + 1];
      JoinTextGood(p, op, rest);
      ConnectGood(p, op, texts[0], JoinText(op, rest));
      JoinableCons(p, op, texts);
    }
  }
}
