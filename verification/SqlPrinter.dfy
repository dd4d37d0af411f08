/** toString of expressions and statements as the source writes it: pieces appended to a result, loops over the
    lists. */
module SqlPrinter {
  import opened Wrappers
  import opened SqlAst
  import opened SqlStatements

  // ----- expressions

  method ExprToString(e: Expr) returns (result: seq<Token>)
    ensures result == Print(e)
    decreases e, 1
  {
    match e
    case LiteralExpr(v) => result := PrintLiteral(v);
    case ColumnRef(table, column) => result := if table == "" then [Ident(column)]
      else [Ident(table), Dot, Ident(column)];
    case BinaryExpr(op, l, r) =>
      var left := ExprToString(l);
      var right := ExprToString(r);
      result := [LParen] + left + [OpToken(op)] + right + [RParen];
    case UnaryExpr(op, x) =>
      var operand := ExprToString(x);
      result := [UnaryToken(op), LParen] + operand + [RParen];
    case IsNullExpr(x, negated) =>
      var operand := ExprToString(x);
      result := operand + [IsTok] + Negation(negated) + [NullLit];
    case AggregateExpr(kind, arg, distinct, star) => result := AggregateToString(e);
    case CaseExpr(whens, otherwise) => result := CaseToString(e);
    case InExpr(x, values, negated) => result := InToString(e);
    case BetweenExpr(x, low, high, negated) => result := BetweenToString(e);
    case LikeExpr(x, pattern, negated) => result := LikeToString(e);
    case CoalesceExpr(args) =>
      result := AppendList([CoalesceTok, LParen], args);
      result := result + [RParen];
    case NullifExpr(a, b) =>
      var first := ExprToString(a);
      var second := ExprToString(b);
      result := [NullifTok, LParen] + first + [Comma] + second + [RParen];
    case FunctionCallExpr(name, args) =>
      result := AppendList([Ident(name), LParen], args);
      result := result + [RParen];
  }

  method AggregateToString(e: Expr) returns (result: seq<Token>)
    requires e.AggregateExpr?
    ensures result == Print(e)
    decreases e, 0
  {
    hide PrintList, PrintWhens;
    ghost var front := [AggTok(e.kind), LParen];
    result := [AggTok(e.kind), LParen];
    if e.star {
      result := result + [Star];
    } else {
      if e.distinct { result := result + [DistinctTok]; }
      if e.arg.Some? {
        var arg := ExprToString(e.arg.value);
        assert result == front + if e.distinct then [DistinctTok] else [];
        result := result + arg;
        assert result == front + ((if e.distinct then [DistinctTok] else []) + arg);
      }
    }
    result := result + [RParen];
  }

  method CaseToString(e: Expr) returns (result: seq<Token>)
    requires e.CaseExpr?
    ensures result == Print(e)
    decreases e, 0
  {
    result := [CaseTok];
    ghost var all := [CaseTok] + PrintWhens(e.whens);
    for i := 0 to |e.whens|
      invariant all == result + PrintWhens(e.whens[i..])
    {
      assert e.whens[i..][0] == e.whens[i] && e.whens[i..][1..] == e.whens[i + 1..];
      var clause := e.whens[i];
      var cond := ExprToString(clause.cond);
      var value := ExprToString(clause.result);
      result := result + ([WhenTok] + cond + [ThenTok] + value);
    }
    if e.otherwise.Some? {
      var other := ExprToString(e.otherwise.value);
      result := result + ([ElseTok] + other);
    }
    result := result + [EndTok];
  }

  method InToString(e: Expr) returns (result: seq<Token>)
    requires e.InExpr?
    ensures result == Print(e)
    decreases e, 0
  {
    result := ExprToString(e.expr);
    result := [LParen] + result + Negation(e.negated);
    result := AppendList(result + [InTok, LParen], e.values);
    result := result + [RParen, RParen];
  }

  method BetweenToString(e: Expr) returns (result: seq<Token>)
    requires e.BetweenExpr?
    ensures result == Print(e)
    decreases e, 0
  {
    result := ExprToString(e.expr);
    result := [LParen] + result + Negation(e.negated);
    var low := ExprToString(e.low);
    var high := ExprToString(e.high);
    result := result + [BetweenTok] + low + [AndTok] + high + [RParen];
  }

  method LikeToString(e: Expr) returns (result: seq<Token>)
    requires e.LikeExpr?
    ensures result == Print(e)
    decreases e, 0
  {
    result := ExprToString(e.expr);
    result := [LParen] + result + Negation(e.negated);
    var pattern := ExprToString(e.pattern);
    result := result + [LikeTok] + pattern + [RParen];
  }

  /** The loop that prints every list of expressions: a comma before each but the first. */
  method AppendList(before: seq<Token>, es: seq<Expr>) returns (result: seq<Token>)
    ensures result == before + PrintList(es)
    decreases es, 2
  {
    result := before;
    for i := 0 to |es|
      invariant before + PrintList(es) == result + if i == 0 then PrintList(es) else PrintMore(es[i..])
    {
      if i > 0 {
        assert es[i..][0] == es[i] && es[i..][1..] == es[i + 1..];
        result := result + [Comma];
      }
      var x := ExprToString(es[i]);
      result := result + x;
    }
  }

  // ----- parts of statements

  method TableToString(t: TableRef) returns (result: seq<Token>)
    ensures result == PrintTable(t)
  {
    return if t.alias != "" then [Ident(t.name), AsTok, Ident(t.alias)] else [Ident(t.name)];
  }

  method JoinToString(j: JoinClause) returns (result: seq<Token>)
    ensures result == PrintJoin(j)
  {
    var table := TableToString(j.table);
    if j.kind == CROSS && j.condition.None? { return [Comma] + table; }
    result := [JoinWord(j.kind), JoinTok] + table;
    if j.condition.Some? {
      var on := ExprToString(j.condition.value);
      result := result + ([OnTok] + on);
    }
  }

  method DefToString(d: ColumnDef) returns (result: seq<Token>)
    ensures result == PrintDef(d)
  {
    result := [Ident(d.name), TypeTok(d.base)];
    if d.length.Some? { result := result + [LParen, IntLit(d.length.value), RParen]; }
    if !d.nullable { result := result + [NotTok, NullLit]; }
  }

  method AppendClause(before: seq<Token>, word: Token, e: Option<Expr>) returns (result: seq<Token>)
    ensures result == before + PrintClause(word, e)
  {
    result := before;
    if e.Some? {
      var x := ExprToString(e.value);
      result := result + ([word] + x);
    }
  }

  method ItemToString(i: SelectItem) returns (result: seq<Token>)
    ensures result == PrintItem(i)
  {
    result := ExprToString(i.expr);
    if i.alias != "" { result := result + [AsTok, Ident(i.alias)]; }
  }

  /** What is still to be printed before item i. */
  function ItemsFrom(items: seq<SelectItem>, i: nat): seq<Token>
    requires items != [] && i <= |items|
  {
    if i == 0 then PrintItem(items[0]) + PrintMoreItems(items[1..]) else PrintMoreItems(items[i..])
  }

  lemma ItemsStep(items: seq<SelectItem>, i: nat)
    requires i < |items|
    ensures ItemsFrom(items, i) == (if i > 0 then [Comma] else []) + PrintItem(items[i]) + ItemsFrom(items, i + 1)
    ensures ItemsFrom(items, |items|) == []
  {
    hide PrintItem;
    assert items[i..][0] == items[i] && items[i..][1..] == items[i + 1..];
  }

  method AppendItems(before: seq<Token>, items: seq<SelectItem>) returns (result: seq<Token>)
    requires items != []
    ensures result == before + ItemsFrom(items, 0)
  {
    hide PrintItem, ItemsFrom;
    result := before;
    for i := 0 to |items|
      invariant before + ItemsFrom(items, 0) == result + ItemsFrom(items, i)
    {
      ItemsStep(items, i);
      var item := ItemToString(items[i]);
      result := result + ((if i > 0 then [Comma] else []) + item);
    }
    ItemsStep(items, 0);
  }

  method AppendJoins(before: seq<Token>, js: seq<JoinClause>) returns (result: seq<Token>)
    ensures result == before + PrintJoins(js)
  {
    hide PrintJoin;
    result := before;
    for i := 0 to |js|
      invariant before + PrintJoins(js) == result + PrintJoins(js[i..])
    {
      assert js[i..][0] == js[i] && js[i..][1..] == js[i + 1..];
      var j := JoinToString(js[i]);
      result := result + j;
    }
  }

  method OrderToString(i: OrderByItem) returns (result: seq<Token>)
    ensures result == PrintOrder(i)
  {
    var x := ExprToString(i.expr);
    return x + [if i.descending then DescTok else AscTok];
  }

  function OrderFrom(items: seq<OrderByItem>, i: nat): seq<Token>
    requires items != [] && i <= |items|
  {
    if i == 0 then PrintOrder(items[0]) + PrintMoreOrder(items[1..]) else PrintMoreOrder(items[i..])
  }

  lemma OrderStep(items: seq<OrderByItem>, i: nat)
    requires i < |items|
    ensures OrderFrom(items, i) == (if i > 0 then [Comma] else []) + PrintOrder(items[i]) + OrderFrom(items, i + 1)
    ensures OrderFrom(items, |items|) == [] && PrintOrderBy(items) == [OrderTok, ByTok] + OrderFrom(items, 0)
  {
    hide PrintOrder;
    assert items[i..][0] == items[i] && items[i..][1..] == items[i + 1..];
  }

  method AppendOrderBy(before: seq<Token>, items: seq<OrderByItem>) returns (result: seq<Token>)
    ensures result == before + PrintOrderBy(items)
  {
    hide PrintOrder, PrintMoreOrder, OrderFrom;
    if items == [] { return before; }
    OrderStep(items, 0);
    result := before + [OrderTok, ByTok];
    for i := 0 to |items|
      invariant before + PrintOrderBy(items) == result + OrderFrom(items, i)
    {
      OrderStep(items, i);
      var item := OrderToString(items[i]);
      result := result + ((if i > 0 then [Comma] else []) + item);
    }
  }

  method AppendNames(before: seq<Token>, names: seq<string>) returns (result: seq<Token>)
    ensures result == before + PrintNames(names)
  {
    result := before;
    for i := 0 to |names|
      invariant before + PrintNames(names)
             == result + (if 0 < i < |names| then [Comma] else []) + PrintNames(names[i..])
    {
      assert names[i..][0] == names[i] && names[i..][1..] == names[i + 1..];
      if i > 0 { result := result + [Comma]; }
      result := result + [Ident(names[i])];
    }
  }

  lemma AssignmentsFrom(xs: seq<(string, Expr)>, i: nat)
    requires i < |xs|
    ensures PrintAssignment(xs[i]) == [Ident(xs[i].0), EqTok] + Print(xs[i].1)
    ensures PrintMoreAssignments(xs[i..]) == [Comma] + PrintAssignment(xs[i]) + PrintMoreAssignments(xs[i + 1..])
  {
    hide Print;
    assert xs[i..][0] == xs[i] && xs[i..][1..] == xs[i + 1..];
  }

  lemma NoMoreAssignments()
    ensures PrintMoreAssignments([]) == []
  {
  }

  method AppendAssignments(before: seq<Token>, xs: seq<(string, Expr)>) returns (result: seq<Token>)
    ensures result == before + if xs == [] then [] else PrintAssignment(xs[0]) + PrintMoreAssignments(xs[1..])
  {
    hide Print, PrintAssignment, PrintMoreAssignments;
    result := before;
    for i := 0 to |xs|
      invariant before + (if xs == [] then [] else PrintAssignment(xs[0]) + PrintMoreAssignments(xs[1..]))
             == result + if xs == [] then []
                         else if i == 0 then PrintAssignment(xs[0]) + PrintMoreAssignments(xs[1..])
                         else PrintMoreAssignments(xs[i..])
    {
      AssignmentsFrom(xs, i);
      if i > 0 { result := result + [Comma]; }
      var x := ExprToString(xs[i].1);
      result := result + ([Ident(xs[i].0), EqTok] + x);
      assert i == 0 ==> xs[i + 1..] == xs[1..];
    }
    NoMoreAssignments();
    assert xs[|xs|..] == [];
  }

  method AppendDefs(before: seq<Token>, ds: seq<ColumnDef>) returns (result: seq<Token>)
    ensures result == before + PrintDefs(ds)
  {
    hide PrintDef;
    result := before;
    for i := 0 to |ds|
      invariant before + PrintDefs(ds) == result + if i == 0 then PrintDefs(ds) else PrintMoreDefs(ds[i..])
    {
      if i > 0 {
        assert ds[i..][0] == ds[i] && ds[i..][1..] == ds[i + 1..];
        result := result + [Comma];
      }
      var d := DefToString(ds[i]);
      result := result + d;
    }
  }

  // ----- statements

  method HeadToString(distinct: bool, all: bool, items: seq<SelectItem>) returns (result: seq<Token>)
    ensures result == PrintHead(distinct, all, items)
  {
    hide PrintItem, PrintMoreItems;
    result := if distinct then [DistinctTok] else [];
    if all {
      result := result + [Star];
    } else if items != [] {
      result := AppendItems(result, items);
    }
  }

  method AppendGroup(before: seq<Token>, es: seq<Expr>) returns (result: seq<Token>)
    ensures result == before + PrintGroup(es)
  {
    hide PrintList;
    result := before;
    if es != [] { result := AppendList(result + [GroupTok, ByTok], es); }
  }

  method AppendLimit(before: seq<Token>, limit: Option<int>, offset: Option<int>) returns (result: seq<Token>)
    ensures result == before + PrintLimit(limit, offset)
  {
    hide PrintNumber;
    result := before;
    if limit.Some? { result := result + ([LimitTok] + PrintNumber(limit.value)); }
    if offset.Some? { result := result + ([OffsetTok] + PrintNumber(offset.value)); }
  }

  method AppendTail(before: seq<Token>, t: Tail) returns (result: seq<Token>)
    ensures result == before + PrintTail(t)
  {
    hide PrintClause, PrintGroup, PrintOrderBy, PrintLimit;
    result := AppendClause(before, WhereTok, t.filter);
    result := AppendGroup(result, t.groupBy);
    result := AppendClause(result, HavingTok, t.having);
    result := AppendOrderBy(result, t.orderBy);
    result := AppendLimit(result, t.limit, t.offset);
  }

  method SelectToString(s: Stmt) returns (result: seq<Token>)
    requires s.SelectStmt?
    ensures result == PrintStmt(s)
  {
    hide PrintHead, PrintTable, PrintJoins, PrintTail;
    var head := HeadToString(s.distinct, s.all, s.items);
    var from := TableToString(s.from);
    var source := AppendJoins([FromTok] + from, s.joins);
    source := AppendTail(source, s.tail);
    assert source == [FromTok] + (from + (PrintJoins(s.joins) + PrintTail(s.tail)));
    result := [SelectTok] + (head + source);
  }

  method InsertToString(s: Stmt) returns (result: seq<Token>)
    requires s.InsertStmt?
    ensures result == PrintStmt(s)
  {
    hide PrintNames, PrintList;
    result := [InsertTok, IntoTok, Ident(s.table)];
    ghost var columns := if s.columns == [] then [] else [LParen] + PrintNames(s.columns) + [RParen];
    if s.columns != [] {
      result := AppendNames(result + [LParen], s.columns);
      result := result + [RParen];
    }
    assert result == [InsertTok, IntoTok, Ident(s.table)] + columns;
    result := AppendList(result + [ValuesTok, LParen], s.values);
    result := result + [RParen];
  }

  method UpdateToString(s: Stmt) returns (result: seq<Token>)
    requires s.UpdateStmt?
    ensures result == PrintStmt(s)
  {
    hide PrintAssignment, PrintMoreAssignments, PrintClause;
    result := AppendAssignments([UpdateTok, Ident(s.table), SetTok], s.assignments);
    result := AppendClause(result, WhereTok, s.filter);
  }

  method StmtToString(s: Stmt) returns (result: seq<Token>)
    ensures result == PrintStmt(s)
  {
    hide PrintClause, PrintDefs;
    match s
    case SelectStmt(distinct, all, items, from, joins, tail) => result := SelectToString(s);
    case InsertStmt(table, columns, values) => result := InsertToString(s);
    case UpdateStmt(table, assignments, filter) => result := UpdateToString(s);
    case DeleteStmt(table, filter) => result := AppendClause([DeleteTok, FromTok, Ident(table)], WhereTok, filter);
    case CreateTableStmt(table, defs) =>
      result := AppendDefs([CreateTok, TableTok, Ident(table), LParen], defs);
      result := result + [RParen];
    case DropTableStmt(table, ifExists) =>
      result := [DropTok, TableTok];
      if ifExists { result := result + [IfTok, ExistsTok]; }
      result := result + [Ident(table)];
  }
}
