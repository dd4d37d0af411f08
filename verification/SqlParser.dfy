/** The parser object: the tokens left, consumed step by step, with one method for each grammar rule. */
module SqlParser {
  import opened Wrappers
  import opened Numbers
  import opened SqlAst
  import opened SqlGrammar
  import opened SqlStatements

  /** A method's result and the tokens it left are what the grammar rule gives; None is a syntax error. */
  predicate Agrees<T(==)>(p: Parse<T>, r: Option<T>, rest: seq<Token>) {
    if p.Fail? then r.None? else r == Some(p.value) && rest == p.rest
  }

  class Parser {
    /** The current token and those the lexer has yet to give. */
    var rest: seq<Token>

    constructor (tokens: seq<Token>)
      ensures rest == tokens
    {
      rest := tokens;
    }

    predicate Check(t: Token)
      reads this
    {
      Starts(rest, t)
    }

    method Consume() returns (t: Token)
      modifies this
      ensures t == First(old(rest)) && rest == if old(rest) == [] then [] else old(rest)[1..]
    {
      t := First(rest);
      if rest != [] { rest := rest[1..]; }
    }

    method Match(t: Token) returns (ok: bool)
      modifies this
      ensures ok == Starts(old(rest), t) && rest == if ok then old(rest)[1..] else old(rest)
    {
      ok := Check(t);
      if ok { var c := Consume(); }
    }

    /** Consumes an identifier, if one is next. */
    method MatchName() returns (name: Option<string>)
      modifies this
      ensures name == if First(old(rest)).Ident? then Some(First(old(rest)).name) else None
      ensures rest == if name.Some? then old(rest)[1..] else old(rest)
    {
      if !First(rest).Ident? { return None; }
      var t := Consume();
      return Some(t.name);
    }

    // ----- expression levels

    method ParseExpression() returns (r: Option<Expr>)
      modifies this
      ensures Agrees(ReadExpression(old(rest)), r, rest)
      decreases |rest|, 10
    {
      r := ParseOrExpr();
    }

    method ParseOrExpr() returns (r: Option<Expr>)
      modifies this
      ensures Agrees(ReadOr(old(rest)), r, rest)
      decreases |rest|, 9
    {
      r := ParseAndExpr();
      if r.None? { return; }
      while Check(OrTok)
        invariant r.Some? && |rest| < |old(rest)|
        invariant ReadOr(old(rest)) == ReadOrTail(r.value, rest)
        decreases |rest|
      {
        var t := Consume();
        var right := ParseAndExpr();
        if right.None? { return None; }
        r := Some(BinaryExpr(OrOp, r.value, right.value));
      }
    }

    method ParseAndExpr() returns (r: Option<Expr>)
      modifies this
      ensures Agrees(ReadAnd(old(rest)), r, rest)
      decreases |rest|, 8
    {
      r := ParseNotExpr();
      if r.None? { return; }
      while Check(AndTok)
        invariant r.Some? && |rest| < |old(rest)|
        invariant ReadAnd(old(rest)) == ReadAndTail(r.value, rest)
        decreases |rest|
      {
        var t := Consume();
        var right := ParseNotExpr();
        if right.None? { return None; }
        r := Some(BinaryExpr(AndOp, r.value, right.value));
      }
    }

    method ParseNotExpr() returns (r: Option<Expr>)
      modifies this
      ensures Agrees(ReadNot(old(rest)), r, rest)
      decreases |rest|, 7
    {
      if Check(NotTok) {
        var t := Consume();
        var operand := ParseNotExpr();
        return if operand.None? then None else Some(UnaryExpr(NotOp, operand.value));
      }
      r := ParseComparisonExpr();
    }

    method ParseComparisonExpr() returns (r: Option<Expr>)
      modifies this
      ensures Agrees(ReadComparison(old(rest)), r, rest)
      decreases |rest|, 6
    {
      var left := ParseAdditiveExpr();
      if left.None? { return None; }
      left := ParseCompared(left.value);
      if left.None? { return None; }
      r := ParsePostfix(left.value);
    }

    /** An optional comparison with one more operand. */
    method ParseCompared(left: Expr) returns (r: Option<Expr>)
      modifies this
      ensures Agrees(ReadCompared(left, old(rest)), r, rest)
      decreases |rest|, 5
    {
      var op := CompareOp(First(rest));
      if op.None? { return Some(left); }
      var t := Consume();
      var right := ParseAdditiveExpr();
      return if right.None? then None else Some(BinaryExpr(op.value, left, right.value));
    }

    /** The tests that may follow an operand. */
    method ParsePostfix(left: Expr) returns (r: Option<Expr>)
      modifies this
      ensures Agrees(ReadPostfix(left, old(rest)), r, rest)
      decreases |rest|, 5
    {
      var isNull := Match(IsTok);
      if isNull {
        var negated := Match(NotTok);
        var ok := Match(NullLit);
        return if ok then Some(IsNullExpr(left, negated)) else None;
      }
      var negated := Match(NotTok);
      if Check(BetweenTok) {
        r := ParseBetweenExpr(left, negated);
      } else if Check(LikeTok) {
        r := ParseLikeExpr(left, negated);
      } else if Check(InTok) {
        r := ParseInExpr(left, negated);
      } else {
        return if negated then None else Some(left);
      }
    }

    method ParseBetweenExpr(left: Expr, negated: bool) returns (r: Option<Expr>)
      requires Check(BetweenTok)
      modifies this
      ensures Agrees(ReadTest(left, negated, old(rest)), r, rest)
      decreases |rest|, 4
    {
      hide ReadList, ReadPrimary;
      var t := Consume();
      var low := ParseAdditiveExpr();
      if low.None? { return None; }
      var ok := Match(AndTok);
      if !ok { return None; }
      var high := ParseAdditiveExpr();
      return if high.None? then None else Some(BetweenExpr(left, low.value, high.value, negated));
    }

    method ParseLikeExpr(left: Expr, negated: bool) returns (r: Option<Expr>)
      requires Check(LikeTok)
      modifies this
      ensures Agrees(ReadTest(left, negated, old(rest)), r, rest)
      decreases |rest|, 4
    {
      var t := Consume();
      var pattern := ParsePrimaryExpr();
      return if pattern.None? then None else Some(LikeExpr(left, pattern.value, negated));
    }

    method ParseInExpr(left: Expr, negated: bool) returns (r: Option<Expr>)
      requires Check(InTok)
      modifies this
      ensures Agrees(ReadTest(left, negated, old(rest)), r, rest)
      decreases |rest|, 4
    {
      var t := Consume();
      var ok := Match(LParen);
      if !ok { return None; }
      var values := ParseList();
      if values.None? { return None; }
      ok := Match(RParen);
      return if ok then Some(InExpr(left, values.value, negated)) else None;
    }

    method ParseAdditiveExpr() returns (r: Option<Expr>)
      modifies this
      ensures Agrees(ReadAdditive(old(rest)), r, rest)
      decreases |rest|, 5
    {
      r := ParseMultiplicativeExpr();
      if r.None? { return; }
      while AddOpOf(First(rest)).Some?
        invariant r.Some? && |rest| < |old(rest)|
        invariant ReadAdditive(old(rest)) == ReadAdditiveTail(r.value, rest)
        decreases |rest|
      {
        var op := AddOpOf(First(rest)).value;
        var t := Consume();
        var right := ParseMultiplicativeExpr();
        if right.None? { return None; }
        r := Some(BinaryExpr(op, r.value, right.value));
      }
    }

    method ParseMultiplicativeExpr() returns (r: Option<Expr>)
      modifies this
      ensures Agrees(ReadMultiplicative(old(rest)), r, rest)
      decreases |rest|, 4
    {
      r := ParseUnaryExpr();
      if r.None? { return; }
      while MulOpOf(First(rest)).Some?
        invariant r.Some? && |rest| < |old(rest)|
        invariant ReadMultiplicative(old(rest)) == ReadMultiplicativeTail(r.value, rest)
        decreases |rest|
      {
        var op := MulOpOf(First(rest)).value;
        var t := Consume();
        var right := ParseUnaryExpr();
        if right.None? { return None; }
        r := Some(BinaryExpr(op, r.value, right.value));
      }
    }

    method ParseUnaryExpr() returns (r: Option<Expr>)
      modifies this
      ensures Agrees(ReadUnary(old(rest)), r, rest)
      decreases |rest|, 3
    {
      if Check(Minus) || Check(Plus) {
        var t := Consume();
        var operand := ParseUnaryExpr();
        return if operand.None? then None else Some(UnaryExpr(if t == Minus then NegOp else PosOp, operand.value));
      }
      r := ParsePrimaryExpr();
    }

    // ----- primaries

    method ParsePrimaryExpr() returns (r: Option<Expr>)
      modifies this
      ensures Agrees(ReadPrimary(old(rest)), r, rest)
      decreases |rest|, 2
    {
      hide ReadCase, ReadCoalesce, ReadNullif, ReadAggregate, ReadName, ReadExpression;
      if rest == [] { return None; }
      var t := Consume();
      match t
      case CaseTok => r := ParseCaseExpr();
      case CoalesceTok => r := ParseCoalesceExpr();
      case NullifTok => r := ParseNullifExpr();
      case AggTok(kind) => r := ParseAggregateExpr(kind);
      case IntLit(n) => return Some(LiteralExpr(IntLiteral(n)));
      case FloatLit(size) => return Some(LiteralExpr(FloatLiteral(Nearest(size))));
      case StrLit(s) => return Some(LiteralExpr(StringLiteral(s)));
      case TrueLit => return Some(LiteralExpr(BoolLiteral(true)));
      case FalseLit => return Some(LiteralExpr(BoolLiteral(false)));
      case NullLit => return Some(LiteralExpr(NullLiteral));
      case LParen =>
        var inner := ParseExpression();
        if inner.None? { return None; }
        var ok := Match(RParen);
        return if ok then inner else None;
      case Ident(name) => r := ParseName(name);
      case _ => return None;
    }

    method ParseName(name: string) returns (r: Option<Expr>)
      modifies this
      ensures Agrees(ReadName(name, old(rest)), r, rest)
      decreases |rest|, 12
    {
      var call := Match(LParen);
      if call {
        var ok := Match(RParen);
        if ok { return Some(FunctionCallExpr(name, [])); }
        var args := ParseList();
        if args.None? { return None; }
        ok := Match(RParen);
        return if ok then Some(FunctionCallExpr(name, args.value)) else None;
      }
      var dotted := Match(Dot);
      if dotted {
        var column := MatchName();
        return if column.None? then None else Some(ColumnRef(name, column.value));
      }
      return Some(ColumnRef("", name));
    }

    /** do { expression } while (comma): argument lists, IN lists and GROUP BY. */
    method ParseList() returns (r: Option<seq<Expr>>)
      modifies this
      ensures Agrees(ReadList(old(rest)), r, rest)
      decreases |rest|, 11
    {
      var x := ParseExpression();
      if x.None? { return None; }
      var es := [x.value];
      while Check(Comma)
        invariant |rest| < |old(rest)|
        invariant ReadList(old(rest)) == ReadMore(es, rest)
        decreases |rest|
      {
        var t := Consume();
        x := ParseExpression();
        if x.None? { return None; }
        es := es + [x.value];
      }
      return Some(es);
    }

    method ParseAggregateExpr(kind: AggregateKind) returns (r: Option<Expr>)
      modifies this
      ensures Agrees(ReadAggregate(kind, old(rest)), r, rest)
      decreases |rest|, 12
    {
      var ok := Match(LParen);
      if !ok { return None; }
      if kind == COUNT && Check(Star) {
        var t := Consume();
        ok := Match(RParen);
        return if ok then Some(AggregateExpr(kind, None, false, true)) else None;
      }
      var distinct := Match(DistinctTok);
      var arg := ParseExpression();
      if arg.None? { return None; }
      ok := Match(RParen);
      return if ok then Some(AggregateExpr(kind, arg, distinct, false)) else None;
    }

    method ParseCaseExpr() returns (r: Option<Expr>)
      modifies this
      ensures Agrees(ReadCase(old(rest)), r, rest)
      decreases |rest|, 13
    {
      var whens := [];
      while Check(WhenTok)
        invariant |rest| <= |old(rest)|
        invariant ReadWhens([], old(rest)) == ReadWhens(whens, rest)
        decreases |rest|
      {
        var w := ParseWhen();
        if w.None? { return None; }
        whens := whens + [w.value];
      }
      r := ParseElse(whens);
    }

    method ParseWhen() returns (r: Option<WhenClause>)
      requires Check(WhenTok)
      modifies this
      ensures Agrees(ReadWhen(old(rest)[1..]), r, rest)
      decreases |rest|, 11
    {
      var t := Consume();
      var cond := ParseExpression();
      if cond.None? { return None; }
      var ok := Match(ThenTok);
      if !ok { return None; }
      var result := ParseExpression();
      return if result.None? then None else Some(WhenClause(cond.value, result.value));
    }

    method ParseElse(whens: seq<WhenClause>) returns (r: Option<Expr>)
      modifies this
      ensures Agrees(ReadElse(whens, old(rest)), r, rest)
      decreases |rest|, 11
    {
      var otherwise := None;
      var hasElse := Match(ElseTok);
      if hasElse {
        otherwise := ParseExpression();
        if otherwise.None? { return None; }
      }
      var ok := Match(EndTok);
      return if ok then Some(CaseExpr(whens, otherwise)) else None;
    }

    method ParseCoalesceExpr() returns (r: Option<Expr>)
      modifies this
      ensures Agrees(ReadCoalesce(old(rest)), r, rest)
      decreases |rest|, 12
    {
      var ok := Match(LParen);
      if !ok { return None; }
      var args := ParseList();
      if args.None? { return None; }
      ok := Match(RParen);
      return if ok then Some(CoalesceExpr(args.value)) else None;
    }

    method ParseNullifExpr() returns (r: Option<Expr>)
      modifies this
      ensures Agrees(ReadNullif(old(rest)), r, rest)
      decreases |rest|, 12
    {
      var ok := Match(LParen);
      if !ok { return None; }
      var a := ParseExpression();
      if a.None? { return None; }
      ok := Match(Comma);
      if !ok { return None; }
      var b := ParseExpression();
      if b.None? { return None; }
      ok := Match(RParen);
      return if ok then Some(NullifExpr(a.value, b.value)) else None;
    }

    // ----- tables and joins

    method ParseAlias() returns (r: Option<string>)
      modifies this
      ensures Agrees(ReadAlias(old(rest)), r, rest)
    {
      var as_ := Match(AsTok);
      var name := MatchName();
      return if name.Some? then name else if as_ then None else Some("");
    }

    method ParseTableRef() returns (r: Option<TableRef>)
      modifies this
      ensures Agrees(ReadTable(old(rest)), r, rest)
    {
      var name := MatchName();
      if name.None? { return None; }
      var alias := ParseAlias();
      return if alias.None? then None else Some(TableRef(name.value, alias.value));
    }

    method ParseJoinType() returns (k: JoinType)
      modifies this
      ensures Agrees(ReadJoinType(old(rest)), Some(k), rest)
    {
      var ok := Match(InnerTok);
      if ok { return INNER; }
      ok := Match(LeftTok);
      if ok { return LEFT; }
      ok := Match(RightTok);
      if ok { return RIGHT; }
      ok := Match(CrossTok);
      return if ok then CROSS else INNER;
    }

    method ParseJoinClause() returns (r: Option<JoinClause>)
      modifies this
      ensures Agrees(ReadJoin(old(rest)), r, rest)
    {
      hide ReadJoinType, ReadExpression;
      var kind := ParseJoinType();
      var ok := Match(JoinTok);
      if !ok { return None; }
      var table := ParseTableRef();
      if table.None? { return None; }
      var on := Match(OnTok);
      if !on { return if kind == CROSS then Some(JoinClause(kind, table.value, None)) else None; }
      if kind == CROSS { return None; }
      var condition := ParseExpression();
      return if condition.None? then None else Some(JoinClause(kind, table.value, condition));
    }

    method ParseCommaTables() returns (r: Option<seq<JoinClause>>)
      modifies this
      ensures Agrees(ReadCommaTables([], old(rest)), r, rest)
    {
      var js := [];
      while Check(Comma)
        invariant |rest| <= |old(rest)|
        invariant ReadCommaTables([], old(rest)) == ReadCommaTables(js, rest)
        decreases |rest|
      {
        var t := Consume();
        var table := ParseTableRef();
        if table.None? { return None; }
        js := js + [JoinClause(CROSS, table.value, None)];
      }
      return Some(js);
    }

    method ParseJoins(first: seq<JoinClause>) returns (r: Option<seq<JoinClause>>)
      modifies this
      ensures Agrees(ReadJoins(first, old(rest)), r, rest)
    {
      var js := first;
      while Check(InnerTok) || Check(LeftTok) || Check(RightTok) || Check(CrossTok) || Check(JoinTok)
        invariant |rest| <= |old(rest)|
        invariant ReadJoins(first, old(rest)) == ReadJoins(js, rest)
        decreases |rest|
      {
        var j := ParseJoinClause();
        if j.None? { return None; }
        js := js + [j.value];
      }
      return Some(js);
    }

    // ----- clauses of SELECT

    method ParseSelectItem() returns (r: Option<SelectItem>)
      modifies this
      ensures Agrees(ReadItem(old(rest)), r, rest)
    {
      var x := ParseExpression();
      if x.None? { return None; }
      var alias := ParseAlias();
      return if alias.None? then None else Some(SelectItem(x.value, alias.value));
    }

    method ParseSelectList() returns (r: Option<seq<SelectItem>>)
      modifies this
      ensures Agrees(ReadItems(old(rest)), r, rest)
    {
      var item := ParseSelectItem();
      if item.None? { return None; }
      var items := [item.value];
      while Check(Comma)
        invariant |rest| <= |old(rest)|
        invariant ReadItems(old(rest)) == ReadMoreItems(items, rest)
        decreases |rest|
      {
        var t := Consume();
        item := ParseSelectItem();
        if item.None? { return None; }
        items := items + [item.value];
      }
      return Some(items);
    }

    /** An expression after an optional keyword. */
    method ParseClause(word: Token) returns (r: Option<Option<Expr>>)
      modifies this
      ensures Agrees(ReadClause(word, old(rest)), r, rest)
    {
      var present := Match(word);
      if !present { return Some(None); }
      var x := ParseExpression();
      return if x.None? then None else Some(x);
    }

    method ParseGroupBy() returns (r: Option<seq<Expr>>)
      modifies this
      ensures Agrees(ReadGroup(old(rest)), r, rest)
    {
      var present := Match(GroupTok);
      if !present { return Some([]); }
      var ok := Match(ByTok);
      if !ok { return None; }
      r := ParseList();
    }

    method ParseOrderItem() returns (r: Option<OrderByItem>)
      modifies this
      ensures Agrees(ReadOrderItem(old(rest)), r, rest)
    {
      var x := ParseExpression();
      if x.None? { return None; }
      var descending := Match(DescTok);
      if !descending { var ascending := Match(AscTok); }
      return Some(OrderByItem(x.value, descending));
    }

    method ParseOrderBy() returns (r: Option<seq<OrderByItem>>)
      modifies this
      ensures Agrees(ReadOrderBy(old(rest)), r, rest)
    {
      var present := Match(OrderTok);
      if !present { return Some([]); }
      var ok := Match(ByTok);
      if !ok { return None; }
      var item := ParseOrderItem();
      if item.None? { return None; }
      var items := [item.value];
      ghost var start := rest;
      while Check(Comma)
        invariant |rest| <= |old(rest)|
        invariant ReadOrderBy(old(rest)) == ReadMoreOrder(items, rest)
        decreases |rest|
      {
        var t := Consume();
        item := ParseOrderItem();
        if item.None? { return None; }
        items := items + [item.value];
      }
      return Some(items);
    }

    /** Consumes a number, if one is next. */
    method MatchNumber() returns (n: Option<nat>)
      modifies this
      ensures n == if First(old(rest)).IntLit? then Some(First(old(rest)).n) else None
      ensures rest == if n.Some? then old(rest)[1..] else old(rest)
    {
      if !First(rest).IntLit? { return None; }
      var t := Consume();
      return Some(t.n);
    }

    method ParseLimit() returns (r: Option<(Option<int>, Option<int>)>)
      modifies this
      ensures Agrees(ReadLimit(old(rest)), r, rest)
    {
      var present := Match(LimitTok);
      if !present { return Some((None, None)); }
      var limit := MatchNumber();
      if limit.None? { return None; }
      var more := Match(OffsetTok);
      if !more { return Some((limit, None)); }
      var offset := MatchNumber();
      return if offset.None? then None else Some((limit, offset));
    }

    method ParseTail() returns (r: Option<Tail>)
      modifies this
      ensures Agrees(ReadTail(old(rest)), r, rest)
    {
      var filter := ParseClause(WhereTok);
      if filter.None? { return None; }
      var groupBy := ParseGroupBy();
      if groupBy.None? { return None; }
      var having := ParseClause(HavingTok);
      if having.None? { return None; }
      var orderBy := ParseOrderBy();
      if orderBy.None? { return None; }
      var limit := ParseLimit();
      if limit.None? { return None; }
      return Some(Tail(filter.value, groupBy.value, having.value, orderBy.value, limit.value.0, limit.value.1));
    }

    method ParseHead() returns (r: Option<(bool, seq<SelectItem>)>)
      modifies this
      ensures Agrees(ReadHead(old(rest)), r, rest)
    {
      var all := Match(Star);
      if all { return Some((true, [])); }
      var items := ParseSelectList();
      return if items.None? then None else Some((false, items.value));
    }

    // ----- statements, after their first keyword

    method ParseSelect() returns (r: Option<Stmt>)
      modifies this
      ensures Agrees(ReadSelect(old(rest)), r, rest)
    {
      hide ReadHead, ReadTable, ReadCommaTables, ReadJoins, ReadTail;
      var distinct := Match(DistinctTok);
      var head := ParseHead();
      if head.None? { return None; }
      var ok := Match(FromTok);
      if !ok { return None; }
      var from := ParseTableRef();
      if from.None? { return None; }
      var tables := ParseCommaTables();
      if tables.None? { return None; }
      var joins := ParseJoins(tables.value);
      if joins.None? { return None; }
      var tail := ParseTail();
      if tail.None? { return None; }
      return Some(SelectStmt(distinct, head.value.0, head.value.1, from.value, joins.value, tail.value));
    }

    method ParseColumnNames() returns (r: Option<seq<string>>)
      modifies this
      ensures Agrees(ReadNames([], old(rest)), r, rest)
    {
      var names := [];
      while true
        invariant |rest| <= |old(rest)|
        invariant ReadNames([], old(rest)) == ReadNames(names, rest)
        decreases |rest|
      {
        var name := MatchName();
        if name.None? { return None; }
        var more := Match(Comma);
        if !more { return Some(names + [name.value]); }
        names := names + [name.value];
      }
    }

    method ParseColumns() returns (r: Option<seq<string>>)
      modifies this
      ensures Agrees(ReadColumns(old(rest)), r, rest)
    {
      var present := Match(LParen);
      if !present { return Some([]); }
      var names := ParseColumnNames();
      if names.None? { return None; }
      var ok := Match(RParen);
      return if ok then names else None;
    }

    method ParseInsert() returns (r: Option<Stmt>)
      modifies this
      ensures Agrees(ReadInsert(old(rest)), r, rest)
    {
      hide ReadColumns, ReadList;
      var ok := Match(IntoTok);
      if !ok { return None; }
      var table := MatchName();
      if table.None? { return None; }
      var columns := ParseColumns();
      if columns.None? { return None; }
      ok := Match(ValuesTok);
      if !ok { return None; }
      ok := Match(LParen);
      if !ok { return None; }
      var values := ParseList();
      if values.None? { return None; }
      ok := Match(RParen);
      return if ok then Some(InsertStmt(table.value, columns.value, values.value)) else None;
    }

    method ParseAssignment() returns (r: Option<(string, Expr)>)
      modifies this
      ensures Agrees(ReadAssignment(old(rest)), r, rest)
    {
      var column := MatchName();
      if column.None? { return None; }
      var ok := Match(EqTok);
      if !ok { return None; }
      var x := ParseExpression();
      return if x.None? then None else Some((column.value, x.value));
    }

    method ParseAssignments() returns (r: Option<seq<(string, Expr)>>)
      modifies this
      ensures Agrees(var a := ReadAssignment(old(rest));
              if a.Fail? then Fail else ReadMoreAssignments([a.value], a.rest), r, rest)
    {
      hide ReadAssignment;
      var a := ParseAssignment();
      if a.None? { return None; }
      var xs := [a.value];
      ghost var start := rest;
      while Check(Comma)
        invariant |rest| <= |start|
        invariant ReadMoreAssignments([a.value], start) == ReadMoreAssignments(xs, rest)
        decreases |rest|
      {
        var t := Consume();
        var x := ParseAssignment();
        if x.None? { return None; }
        xs := xs + [x.value];
      }
      return Some(xs);
    }

    method ParseUpdate() returns (r: Option<Stmt>)
      modifies this
      ensures Agrees(ReadUpdate(old(rest)), r, rest)
    {
      hide ReadAssignment, ReadMoreAssignments, ReadClause;
      var table := MatchName();
      if table.None? { return None; }
      var ok := Match(SetTok);
      if !ok { return None; }
      var xs := ParseAssignments();
      if xs.None? { return None; }
      var filter := ParseClause(WhereTok);
      return if filter.None? then None else Some(UpdateStmt(table.value, xs.value, filter.value));
    }

    method ParseDelete() returns (r: Option<Stmt>)
      modifies this
      ensures Agrees(ReadDelete(old(rest)), r, rest)
    {
      var ok := Match(FromTok);
      if !ok { return None; }
      var table := MatchName();
      if table.None? { return None; }
      var filter := ParseClause(WhereTok);
      return if filter.None? then None else Some(DeleteStmt(table.value, filter.value));
    }

    method ParseDataType() returns (r: Option<(TypeName, Option<nat>)>)
      modifies this
      ensures Agrees(ReadType(old(rest)), r, rest)
    {
      if !First(rest).TypeTok? { return None; }
      var t := Consume();
      if t.base != VARCHAR { return Some((t.base, None)); }
      var sized := Match(LParen);
      if !sized { return Some((VARCHAR, Some(0))); }
      var length := MatchNumber();
      if length.None? { return None; }
      var ok := Match(RParen);
      return if ok then Some((VARCHAR, length)) else None;
    }

    method ParseColumnDef() returns (r: Option<ColumnDef>)
      modifies this
      ensures Agrees(ReadDef(old(rest)), r, rest)
    {
      hide ReadType;
      var name := MatchName();
      if name.None? { return None; }
      var t := ParseDataType();
      if t.None? { return None; }
      var notNull := Match(NotTok);
      if notNull {
        var ok := Match(NullLit);
        if !ok { return None; }
      }
      return Some(ColumnDef(name.value, t.value.0, t.value.1, !notNull));
    }

    method ParseColumnDefList() returns (r: Option<seq<ColumnDef>>)
      modifies this
      ensures Agrees(ReadDefs([], old(rest)), r, rest)
    {
      hide ReadDef;
      var ds := [];
      while !Check(RParen) && First(rest) != Eof
        invariant |rest| <= |old(rest)|
        invariant ReadDefs([], old(rest)) == ReadDefs(ds, rest)
        decreases |rest|
      {
        var d := ParseColumnDef();
        if d.None? { return None; }
        var more := Match(Comma);
        if !more { return Some(ds + [d.value]); }
        ds := ds + [d.value];
      }
      return Some(ds);
    }

    method ParseCreateTable() returns (r: Option<Stmt>)
      modifies this
      ensures Agrees(ReadCreate(old(rest)), r, rest)
    {
      hide ReadDefs;
      var ok := Match(TableTok);
      if !ok { return None; }
      var table := MatchName();
      if table.None? { return None; }
      ok := Match(LParen);
      if !ok { return None; }
      var defs := ParseColumnDefList();
      if defs.None? { return None; }
      ok := Match(RParen);
      return if ok then Some(CreateTableStmt(table.value, defs.value)) else None;
    }

    method ParseDropTable() returns (r: Option<Stmt>)
      modifies this
      ensures Agrees(ReadDrop(old(rest)), r, rest)
    {
      var ok := Match(TableTok);
      if !ok { return None; }
      var ifExists := Match(IfTok);
      if ifExists {
        ok := Match(ExistsTok);
        if !ok { return None; }
      }
      var table := MatchName();
      return if table.None? then None else Some(DropTableStmt(table.value, ifExists));
    }

    method ParseStatement() returns (r: Option<Stmt>)
      modifies this
      ensures Agrees(ReadStmt(old(rest)), r, rest)
    {
      hide ReadCreate, ReadDrop, ReadSelect, ReadInsert, ReadUpdate, ReadDelete;
      if rest == [] { return None; }
      var t := Consume();
      match t
      case CreateTok => r := ParseCreateTable();
      case DropTok => r := ParseDropTable();
      case SelectTok => r := ParseSelect();
      case InsertTok => r := ParseInsert();
      case UpdateTok => r := ParseUpdate();
      case DeleteTok => r := ParseDelete();
      case _ => return None;
    }

    /** Every statement of the input, or None at the first syntax error. */
    method ParseAll() returns (r: Option<seq<Stmt>>)
      modifies this
      ensures r == ReadAll([], old(rest))
    {
      hide ReadStmt;
      var done := [];
      while First(rest) != Eof
        invariant ReadAll([], old(rest)) == ReadAll(done, rest)
        decreases |rest|
      {
        var s := ParseStatement();
        if s.None? { return None; }
        done := done + [s.value];
        var semicolon := Match(Semicolon);
      }
      return Some(done);
    }
  }
}
