/** Statement trees, their printed form, and the grammar that reads them. */
module SqlStatements {
  import opened Wrappers
  import opened SqlAst
  import opened SqlGrammar

  /** An empty alias is no alias. */
  datatype TableRef = TableRef(name: string, alias: string)

  datatype JoinType = CROSS | INNER | LEFT | RIGHT

  datatype JoinClause = JoinClause(kind: JoinType, table: TableRef, condition: Option<Expr>)

  datatype SelectItem = SelectItem(expr: Expr, alias: string)

  datatype OrderByItem = OrderByItem(expr: Expr, descending: bool)

  datatype Tail = Tail(filter: Option<Expr>, groupBy: seq<Expr>, having: Option<Expr>, orderBy: seq<OrderByItem>,
                       limit: Option<int>, offset: Option<int>)

  datatype ColumnDef = ColumnDef(name: string, base: TypeName, length: Option<nat>, nullable: bool)

  datatype Stmt =
    | SelectStmt(distinct: bool, all: bool, items: seq<SelectItem>, from: TableRef, joins: seq<JoinClause>, tail: Tail)
    | InsertStmt(table: string, columns: seq<string>, values: seq<Expr>)
    | UpdateStmt(table: string, assignments: seq<(string, Expr)>, filter: Option<Expr>)
    | DeleteStmt(table: string, filter: Option<Expr>)
    | CreateTableStmt(table: string, defs: seq<ColumnDef>)
    | DropTableStmt(table: string, ifExists: bool)

  // ----- printing

  function PrintTable(t: TableRef): seq<Token> {
    [Ident(t.name)] + if t.alias == "" then [] else [AsTok, Ident(t.alias)]
  }

  function JoinWord(k: JoinType): Token {
    match k case CROSS => CrossTok case INNER => InnerTok case LEFT => LeftTok case RIGHT => RightTok
  }

  /** A cross join without condition prints as a comma, every other join with its keyword. */
  function PrintJoin(j: JoinClause): seq<Token> {
    if j.kind.CROSS? && j.condition.None? then [Comma] + PrintTable(j.table)
    else [JoinWord(j.kind), JoinTok] + PrintTable(j.table)
         + if j.condition.Some? then [OnTok] + Print(j.condition.value) else []
  }

  function PrintJoins(js: seq<JoinClause>): seq<Token> {
    if js == [] then [] else PrintJoin(js[0]) + PrintJoins(js[1..])
  }

  function PrintItem(i: SelectItem): seq<Token> {
    Print(i.expr) + if i.alias == "" then [] else [AsTok, Ident(i.alias)]
  }

  function PrintMoreItems(items: seq<SelectItem>): seq<Token> {
    if items == [] then [] else [Comma] + PrintItem(items[0]) + PrintMoreItems(items[1..])
  }

  function PrintOrder(i: OrderByItem): seq<Token> {
    Print(i.expr) + [if i.descending then DescTok else AscTok]
  }

  function PrintMoreOrder(items: seq<OrderByItem>): seq<Token> {
    if items == [] then [] else [Comma] + PrintOrder(items[0]) + PrintMoreOrder(items[1..])
  }

  function PrintNumber(i: int): seq<Token> { if i >= 0 then [IntLit(i)] else [Minus, IntLit(-i)] }

  function PrintClause(word: Token, e: Option<Expr>): seq<Token> {
    if e.Some? then [word] + Print(e.value) else []
  }

  function PrintGroup(es: seq<Expr>): seq<Token> { if es == [] then [] else [GroupTok, ByTok] + PrintList(es) }

  function PrintOrderBy(items: seq<OrderByItem>): seq<Token> {
    if items == [] then [] else [OrderTok, ByTok] + PrintOrder(items[0]) + PrintMoreOrder(items[1..])
  }

  function PrintLimit(limit: Option<int>, offset: Option<int>): seq<Token> {
    (if limit.Some? then [LimitTok] + PrintNumber(limit.value) else [])
    + if offset.Some? then [OffsetTok] + PrintNumber(offset.value) else []
  }

  function PrintTail(t: Tail): seq<Token> {
    PrintClause(WhereTok, t.filter) + (PrintGroup(t.groupBy) + (PrintClause(HavingTok, t.having)
      + (PrintOrderBy(t.orderBy) + PrintLimit(t.limit, t.offset))))
  }

  function PrintHead(distinct: bool, all: bool, items: seq<SelectItem>): seq<Token> {
    (if distinct then [DistinctTok] else [])
    + if all || items == [] then (if all then [Star] else []) else PrintItem(items[0]) + PrintMoreItems(items[1..])
  }

  function PrintNames(names: seq<string>): seq<Token> {
    if names == [] then [] else if |names| == 1 then [Ident(names[0])]
    else [Ident(names[0]), Comma] + PrintNames(names[1..])
  }

  function PrintAssignment(a: (string, Expr)): seq<Token> { [Ident(a.0), EqTok] + Print(a.1) }

  function PrintMoreAssignments(xs: seq<(string, Expr)>): seq<Token> {
    if xs == [] then [] else [Comma] + PrintAssignment(xs[0]) + PrintMoreAssignments(xs[1..])
  }

  function PrintDef(d: ColumnDef): seq<Token> {
    [Ident(d.name), TypeTok(d.base)]
    + (if d.length.Some? then [LParen, IntLit(d.length.value), RParen] else [])
    + if d.nullable then [] else [NotTok, NullLit]
  }

  function PrintMoreDefs(ds: seq<ColumnDef>): seq<Token> {
    if ds == [] then [] else [Comma] + PrintDef(ds[0]) + PrintMoreDefs(ds[1..])
  }

  function PrintDefs(ds: seq<ColumnDef>): seq<Token> {
    if ds == [] then [] else PrintDef(ds[0]) + PrintMoreDefs(ds[1..])
  }

  function PrintStmt(s: Stmt): seq<Token> {
    match s
    case SelectStmt(distinct, all, items, from, joins, tail) =>
      [SelectTok] + (PrintHead(distinct, all, items) +
          ([FromTok] + (PrintTable(from) + (PrintJoins(joins) + PrintTail(tail)))))
    case InsertStmt(table, columns, values) =>
      [InsertTok, IntoTok, Ident(table)] + (if columns == [] then [] else [LParen] + PrintNames(columns) + [RParen])
      + [ValuesTok, LParen] + PrintList(values) + [RParen]
    case UpdateStmt(table, xs, filter) =>
      [UpdateTok, Ident(table), SetTok]
      + (if xs == [] then [] else PrintAssignment(xs[0]) + PrintMoreAssignments(xs[1..])) +
          PrintClause(WhereTok, filter)
    case DeleteStmt(table, filter) => [DeleteTok, FromTok, Ident(table)] + PrintClause(WhereTok, filter)
    case CreateTableStmt(table, defs) => [CreateTok, TableTok, Ident(table), LParen] + PrintDefs(defs) + [RParen]
    case DropTableStmt(table, ifExists) =>
      [DropTok, TableTok] + (if ifExists then [IfTok, ExistsTok] else []) + [Ident(table)]
  }

  // ----- the grammar

  /** [AS] alias; no alias is the empty one. */
  function ReadAlias(ts: seq<Token>): (r: Parse<string>)
    ensures r.Got? ==> |r.rest| <= |ts|
  {
    if Starts(ts, AsTok) then if First(ts[1..]).Ident? then Got(ts[1].name, ts[2..]) else Fail
    else if First(ts).Ident? then Got(ts[0].name, ts[1..])
    else Got("", ts)
  }

  function ReadTable(ts: seq<Token>): (r: Parse<TableRef>)
    ensures r.Got? ==> |r.rest| < |ts|
  {
    if !First(ts).Ident? then Fail
    else
      var a := ReadAlias(ts[1..]);
      if a.Fail? then Fail else Got(TableRef(ts[0].name, a.value), a.rest)
  }

  /** The comma-separated tables after the first one. */
  function ReadCommaTables(js: seq<JoinClause>, ts: seq<Token>): (r: Parse<seq<JoinClause>>)
    ensures r.Got? ==> |r.rest| <= |ts|
    decreases |ts|
  {
    if !Starts(ts, Comma) then Got(js, ts)
    else
      var t := ReadTable(ts[1..]);
      if t.Fail? then Fail else ReadCommaTables(js + [JoinClause(CROSS, t.value, None)], t.rest)
  }

  predicate StartsJoin(ts: seq<Token>) {
    Starts(ts, InnerTok) || Starts(ts, LeftTok) || Starts(ts, RightTok) || Starts(ts, CrossTok) || Starts(ts, JoinTok)
  }

  /** The join type; a bare JOIN is an inner one. */
  function ReadJoinType(ts: seq<Token>): (r: Parse<JoinType>)
    ensures r.Got? ==> |r.rest| <= |ts|
  {
    if Starts(ts, InnerTok) then Got(INNER, ts[1..])
    else if Starts(ts, LeftTok) then Got(LEFT, ts[1..])
    else if Starts(ts, RightTok) then Got(RIGHT, ts[1..])
    else if Starts(ts, CrossTok) then Got(CROSS, ts[1..])
    else Got(INNER, ts)
  }

  function ReadJoin(ts: seq<Token>): (r: Parse<JoinClause>)
    ensures r.Got? ==> |r.rest| < |ts|
  {
    var k := ReadJoinType(ts);
    if k.Fail? || !Starts(k.rest, JoinTok) then Fail
    else
      var t := ReadTable(k.rest[1..]);
      if t.Fail? then Fail else ReadCondition(k.value, t.value, t.rest)
  }

  /** ON is required after every join but a cross join, where it is refused. */
  function ReadCondition(kind: JoinType, table: TableRef, ts: seq<Token>): (r: Parse<JoinClause>)
    ensures r.Got? ==> |r.rest| <= |ts|
  {
    if Starts(ts, OnTok) then
      if kind.CROSS? then Fail
      else
        var c := ReadExpression(ts[1..]);
        if c.Fail? then Fail else Got(JoinClause(kind, table, Some(c.value)), c.rest)
    else if kind.CROSS? then Got(JoinClause(kind, table, None), ts)
    else Fail
  }

  function ReadJoins(js: seq<JoinClause>, ts: seq<Token>): (r: Parse<seq<JoinClause>>)
    ensures r.Got? ==> |r.rest| <= |ts|
    decreases |ts|
  {
    if !StartsJoin(ts) then Got(js, ts)
    else
      var j := ReadJoin(ts);
      if j.Fail? then Fail else ReadJoins(js + [j.value], j.rest)
  }

  function ReadItem(ts: seq<Token>): (r: Parse<SelectItem>)
    ensures r.Got? ==> |r.rest| < |ts|
  {
    var x := ReadExpression(ts);
    if x.Fail? then Fail
    else
      var a := ReadAlias(x.rest);
      if a.Fail? then Fail else Got(SelectItem(x.value, a.value), a.rest)
  }

  function ReadMoreItems(items: seq<SelectItem>, ts: seq<Token>): (r: Parse<seq<SelectItem>>)
    ensures r.Got? ==> |r.rest| <= |ts|
    decreases |ts|
  {
    if !Starts(ts, Comma) then Got(items, ts)
    else
      var i := ReadItem(ts[1..]);
      if i.Fail? then Fail else ReadMoreItems(items + [i.value], i.rest)
  }

  function ReadItems(ts: seq<Token>): (r: Parse<seq<SelectItem>>)
    ensures r.Got? ==> |r.rest| < |ts|
  {
    var i := ReadItem(ts);
    if i.Fail? then Fail else ReadMoreItems([i.value], i.rest)
  }

  function ReadOrderItem(ts: seq<Token>): (r: Parse<OrderByItem>)
    ensures r.Got? ==> |r.rest| < |ts|
  {
    var x := ReadExpression(ts);
    if x.Fail? then Fail
    else if Starts(x.rest, DescTok) then Got(OrderByItem(x.value, true), x.rest[1..])
    else if Starts(x.rest, AscTok) then Got(OrderByItem(x.value, false), x.rest[1..])
    else Got(OrderByItem(x.value, false), x.rest)
  }

  function ReadMoreOrder(items: seq<OrderByItem>, ts: seq<Token>): (r: Parse<seq<OrderByItem>>)
    ensures r.Got? ==> |r.rest| <= |ts|
    decreases |ts|
  {
    if !Starts(ts, Comma) then Got(items, ts)
    else
      var i := ReadOrderItem(ts[1..]);
      if i.Fail? then Fail else ReadMoreOrder(items + [i.value], i.rest)
  }

  /** An optional WHERE or HAVING. */
  function ReadClause(word: Token, ts: seq<Token>): (r: Parse<Option<Expr>>)
    ensures r.Got? ==> |r.rest| <= |ts|
  {
    if !Starts(ts, word) then Got(None, ts)
    else
      var x := ReadExpression(ts[1..]);
      if x.Fail? then Fail else Got(Some(x.value), x.rest)
  }

  function ReadGroup(ts: seq<Token>): (r: Parse<seq<Expr>>)
    ensures r.Got? ==> |r.rest| <= |ts|
  {
    if !Starts(ts, GroupTok) then Got([], ts)
    else if !Starts(ts[1..], ByTok) then Fail
    else ReadList(ts[2..])
  }

  function ReadOrderBy(ts: seq<Token>): (r: Parse<seq<OrderByItem>>)
    ensures r.Got? ==> |r.rest| <= |ts|
  {
    if !Starts(ts, OrderTok) then Got([], ts)
    else if !Starts(ts[1..], ByTok) then Fail
    else
      var i := ReadOrderItem(ts[2..]);
      if i.Fail? then Fail else ReadMoreOrder([i.value], i.rest)
  }

  /** LIMIT n [OFFSET m]; OFFSET alone is not part of the grammar. */
  function ReadLimit(ts: seq<Token>): (r: Parse<(Option<int>, Option<int>)>)
    ensures r.Got? ==> |r.rest| <= |ts|
  {
    if !Starts(ts, LimitTok) then Got((None, None), ts)
    else if !First(ts[1..]).IntLit? then Fail
    else if !Starts(ts[2..], OffsetTok) then Got((Some(ts[1].n), None), ts[2..])
    else if !First(ts[3..]).IntLit? then Fail
    else Got((Some(ts[1].n), Some(ts[3].n)), ts[4..])
  }

  function ReadTail(ts: seq<Token>): (r: Parse<Tail>)
    ensures r.Got? ==> |r.rest| <= |ts|
  {
    var w := ReadClause(WhereTok, ts);
    if w.Fail? then Fail else
    var g := ReadGroup(w.rest);
    if g.Fail? then Fail else
    var h := ReadClause(HavingTok, g.rest);
    if h.Fail? then Fail else
    var o := ReadOrderBy(h.rest);
    if o.Fail? then Fail else
    var l := ReadLimit(o.rest);
    if l.Fail? then Fail else Got(Tail(w.value, g.value, h.value, o.value, l.value.0, l.value.1), l.rest)
  }

  /** The select list: a star or the items. */
  function ReadHead(ts: seq<Token>): (r: Parse<(bool, seq<SelectItem>)>)
    ensures r.Got? ==> |r.rest| < |ts|
  {
    if Starts(ts, Star) then Got((true, []), ts[1..])
    else
      var items := ReadItems(ts);
      if items.Fail? then Fail else Got((false, items.value), items.rest)
  }

  function ReadSelect(ts: seq<Token>): (r: Parse<Stmt>)
    ensures r.Got? ==> |r.rest| <= |ts|
  {
    var distinct := Starts(ts, DistinctTok);
    var h := ReadHead(if distinct then ts[1..] else ts);
    if h.Fail? || !Starts(h.rest, FromTok) then Fail else
    var t := ReadTable(h.rest[1..]);
    if t.Fail? then Fail else
    var c := ReadCommaTables([], t.rest);
    if c.Fail? then Fail else
    var j := ReadJoins(c.value, c.rest);
    if j.Fail? then Fail else
    var tail := ReadTail(j.rest);
    if tail.Fail? then Fail
    else Got(SelectStmt(distinct, h.value.0, h.value.1, t.value, j.value, tail.value), tail.rest)
  }

  function ReadNames(names: seq<string>, ts: seq<Token>): (r: Parse<seq<string>>)
    ensures r.Got? ==> |r.rest| < |ts|
    decreases |ts|
  {
    if !First(ts).Ident? then Fail
    else if Starts(ts[1..], Comma) then ReadNames(names + [ts[0].name], ts[2..])
    else Got(names + [ts[0].name], ts[1..])
  }

  /** An optional column list in parentheses. */
  function ReadColumns(ts: seq<Token>): (r: Parse<seq<string>>)
    ensures r.Got? ==> |r.rest| <= |ts|
  {
    if !Starts(ts, LParen) then Got([], ts)
    else
      var ns := ReadNames([], ts[1..]);
      if ns.Fail? || !Starts(ns.rest, RParen) then Fail else Got(ns.value, ns.rest[1..])
  }

  function ReadInsert(ts: seq<Token>): (r: Parse<Stmt>)
    ensures r.Got? ==> |r.rest| <= |ts|
  {
    if !Starts(ts, IntoTok) || !First(ts[1..]).Ident? then Fail
    else
      var cs := ReadColumns(ts[2..]);
      if cs.Fail? || !Starts(cs.rest, ValuesTok) || !Starts(cs.rest[1..], LParen) then Fail
      else
        var vs := ReadList(cs.rest[2..]);
        if vs.Fail? || !Starts(vs.rest, RParen) then Fail
        else Got(InsertStmt(ts[1].name, cs.value, vs.value), vs.rest[1..])
  }

  function ReadAssignment(ts: seq<Token>): (r: Parse<(string, Expr)>)
    ensures r.Got? ==> |r.rest| < |ts|
  {
    if !First(ts).Ident? || !Starts(ts[1..], EqTok) then Fail
    else
      var x := ReadExpression(ts[2..]);
      if x.Fail? then Fail else Got((ts[0].name, x.value), x.rest)
  }

  function ReadMoreAssignments(xs: seq<(string, Expr)>, ts: seq<Token>): (r: Parse<seq<(string, Expr)>>)
    ensures r.Got? ==> |r.rest| <= |ts|
    decreases |ts|
  {
    if !Starts(ts, Comma) then Got(xs, ts)
    else
      var a := ReadAssignment(ts[1..]);
      if a.Fail? then Fail else ReadMoreAssignments(xs + [a.value], a.rest)
  }

  function ReadUpdate(ts: seq<Token>): (r: Parse<Stmt>)
    ensures r.Got? ==> |r.rest| <= |ts|
  {
    if !First(ts).Ident? || !Starts(ts[1..], SetTok) then Fail
    else
      var a := ReadAssignment(ts[2..]);
      if a.Fail? then Fail else
      var xs := ReadMoreAssignments([a.value], a.rest);
      if xs.Fail? then Fail else
      var w := ReadClause(WhereTok, xs.rest);
      if w.Fail? then Fail else Got(UpdateStmt(ts[0].name, xs.value, w.value), w.rest)
  }

  function ReadDelete(ts: seq<Token>): (r: Parse<Stmt>)
    ensures r.Got? ==> |r.rest| <= |ts|
  {
    if !Starts(ts, FromTok) || !First(ts[1..]).Ident? then Fail
    else
      var w := ReadClause(WhereTok, ts[2..]);
      if w.Fail? then Fail else Got(DeleteStmt(ts[1].name, w.value), w.rest)
  }

  /** A VARCHAR without a length gets length 0. */
  function ReadType(ts: seq<Token>): (r: Parse<(TypeName, Option<nat>)>)
    ensures r.Got? ==> |r.rest| < |ts|
  {
    if !First(ts).TypeTok? then Fail
    else if !ts[0].base.VARCHAR? then Got((ts[0].base, None), ts[1..])
    else if !Starts(ts[1..], LParen) then Got((VARCHAR, Some(0)), ts[1..])
    else if First(ts[2..]).IntLit? && Starts(ts[3..], RParen) then Got((VARCHAR, Some(ts[2].n)), ts[4..])
    else Fail
  }

  function ReadDef(ts: seq<Token>): (r: Parse<ColumnDef>)
    ensures r.Got? ==> |r.rest| < |ts|
  {
    if !First(ts).Ident? then Fail
    else
      var t := ReadType(ts[1..]);
      if t.Fail? then Fail
      else if !Starts(t.rest, NotTok) then Got(ColumnDef(ts[0].name, t.value.0, t.value.1, true), t.rest)
      else if Starts(t.rest[1..], NullLit) then Got(ColumnDef(ts[0].name, t.value.0, t.value.1, false), t.rest[2..])
      else Fail
  }

  /** Definitions up to a closing parenthesis; a comma may be left over before it. */
  function ReadDefs(ds: seq<ColumnDef>, ts: seq<Token>): (r: Parse<seq<ColumnDef>>)
    ensures r.Got? ==> |r.rest| <= |ts|
    decreases |ts|
  {
    if Starts(ts, RParen) || First(ts).Eof? then Got(ds, ts)
    else
      var d := ReadDef(ts);
      if d.Fail? then Fail
      else if Starts(d.rest, Comma) then ReadDefs(ds + [d.value], d.rest[1..])
      else Got(ds + [d.value], d.rest)
  }

  function ReadCreate(ts: seq<Token>): (r: Parse<Stmt>)
    ensures r.Got? ==> |r.rest| <= |ts|
  {
    if !Starts(ts, TableTok) || !First(ts[1..]).Ident? || !Starts(ts[2..], LParen) then Fail
    else
      var ds := ReadDefs([], ts[3..]);
      if ds.Fail? || !Starts(ds.rest, RParen) then Fail else Got(CreateTableStmt(ts[1].name, ds.value), ds.rest[1..])
  }

  function ReadDrop(ts: seq<Token>): (r: Parse<Stmt>)
    ensures r.Got? ==> |r.rest| <= |ts|
  {
    if !Starts(ts, TableTok) then Fail
    else if Starts(ts[1..], IfTok) then
      if Starts(ts[2..], ExistsTok) && First(ts[3..]).Ident? then Got(DropTableStmt(ts[3].name, true), ts[4..])
      else Fail
    else if First(ts[1..]).Ident? then Got(DropTableStmt(ts[1].name, false), ts[2..])
    else Fail
  }

  function ReadStmt(ts: seq<Token>): (r: Parse<Stmt>)
    ensures r.Got? ==> |r.rest| < |ts|
  {
    match First(ts)
    case CreateTok => ReadCreate(ts[1..])
    case DropTok => ReadDrop(ts[1..])
    case SelectTok => ReadSelect(ts[1..])
    case InsertTok => ReadInsert(ts[1..])
    case UpdateTok => ReadUpdate(ts[1..])
    case DeleteTok => ReadDelete(ts[1..])
    case _ => Fail
  }

  /** Statements up to the end of input, each with an optional semicolon after it. */
  function ReadAll(done: seq<Stmt>, ts: seq<Token>): Option<seq<Stmt>>
    decreases |ts|
  {
    if First(ts).Eof? then Some(done)
    else
      var s := ReadStmt(ts);
      if s.Fail? then None
      else ReadAll(done + [s.value], if Starts(s.rest, Semicolon) then s.rest[1..] else s.rest)
  }
}
