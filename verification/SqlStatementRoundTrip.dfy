/** Reading back printed statements. */
module SqlStatementRoundTrip {
  import opened Wrappers
  import opened SqlAst
  import opened SqlGrammar
  import opened SqlRoundTrip
  import opened SqlStatements

  // ----- statements that print to something the grammar accepts

  predicate OptionWF(e: Option<Expr>) { e.Some? ==> WF(e.value) }

  /** Comma tables first, then joins with a condition; a cross join written out as such prints as a comma table. */
  predicate JoinsWF(js: seq<JoinClause>) {
    && (forall i :: 0 <= i < |js| ==> (js[i].kind.CROSS? <==> js[i].condition.None?) && OptionWF(js[i].condition))
    && (forall i, j :: 0 <= i < j < |js| && js[j].kind.CROSS? ==> js[i].kind.CROSS?)
  }

  predicate TailWF(t: Tail) {
    TailExprsWF(t) && LimitWF(t.limit, t.offset)
  }

  predicate TailExprsWF(t: Tail) {
    && OptionWF(t.filter) && AllWF(t.groupBy) && OptionWF(t.having)
    && forall i :: 0 <= i < |t.orderBy| ==> WF(t.orderBy[i].expr)
  }

  /** Neither number is negative, and OFFSET has a LIMIT before it. */
  predicate LimitWF(limit: Option<int>, offset: Option<int>) {
    && (limit.Some? ==> limit.value >= 0)
    && (offset.Some? ==> offset.value >= 0 && limit.Some?)
  }

  predicate StmtWF(s: Stmt) {
    match s
    case SelectStmt(_, all, items, _, joins, tail) =>
      (all <==> items == []) && (forall i :: 0 <= i < |items| ==> WF(items[i].expr)) && JoinsWF(joins) && TailWF(tail)
    case InsertStmt(_, _, values) => values != [] && AllWF(values)
    case UpdateStmt(_, xs, filter) => xs != [] && (forall i :: 0 <= i < |xs| ==> WF(xs[i].1)) && OptionWF(filter)
    case DeleteStmt(_, filter) => OptionWF(filter)
    case CreateTableStmt(_, defs) => forall i :: 0 <= i < |defs| ==> DefWF(defs[i])
    case DropTableStmt(_, _) => true
  }

  // ----- what follows

  /** What is left is the end of the statement, or its OFFSET, LIMIT, ORDER BY, HAVING, GROUP BY or WHERE from the k-th
      clause on. */
  predicate From(k: nat, ts: seq<Token>) {
    || ts == [] || ts[0] == Semicolon
    || (k <= 6 && ts[0] == OffsetTok) || (k <= 5 && ts[0] == LimitTok) || (k <= 4 && ts[0] == OrderTok)
    || (k <= 3 && ts[0] == HavingTok) || (k <= 2 && ts[0] == GroupTok) || (k <= 1 && ts[0] == WhereTok)
  }

  lemma FromEnds(k: nat, ts: seq<Token>)
    requires From(k, ts) && k >= 1
    ensures Ends(ts)
  {
    if ts != [] { ClauseWord(ts[0], ts); }
  }

  lemma FromPlain(k: nat, ts: seq<Token>)
    requires From(k, ts) && k >= 1
    ensures !Starts(ts, Comma) && !Starts(ts, AsTok) && !First(ts).Ident? && !StartsJoin(ts) && !Starts(ts, OnTok)
  {
    if ts != [] { ClauseWordIsPlain(ts[0], ts); }
  }

  lemma FromIsNot(k: nat, ts: seq<Token>)
    requires From(k, ts)
    ensures k >= 2 ==> !Starts(ts, WhereTok)
    ensures k >= 3 ==> !Starts(ts, GroupTok)
    ensures k >= 4 ==> !Starts(ts, HavingTok)
    ensures k >= 5 ==> !Starts(ts, OrderTok)
    ensures k >= 6 ==> !Starts(ts, LimitTok)
    ensures k >= 7 ==> !Starts(ts, OffsetTok)
  {
  }

  predicate IsClauseWord(t: Token) {
    t == Semicolon || t == OffsetTok || t == LimitTok || t == OrderTok || t == HavingTok || t == GroupTok
        || t == WhereTok
  }

  lemma ClauseWord(t: Token, ts: seq<Token>)
    requires ts != [] && ts[0] == t && IsClauseWord(t)
    ensures Ends(ts)
  {
  }

  lemma ClauseWordIsPlain(t: Token, ts: seq<Token>)
    requires ts != [] && ts[0] == t && IsClauseWord(t)
    ensures !Starts(ts, Comma) && !Starts(ts, AsTok) && !First(ts).Ident? && !StartsJoin(ts) && !Starts(ts, OnTok)
  {
  }

  lemma FromWords(k: nat, word: Token, second: Token, ts: seq<Token>)
    requires (k == 2 && word == GroupTok) || (k == 4 && word == OrderTok) || (k == 5 && word == LimitTok)
    ensures From(k, [word, second] + ts)
  {
  }

  lemma FromLater(k: nat, ts: seq<Token>)
    requires From(k + 1, ts)
    ensures From(k, ts)
  {
  }

  lemma FromWord(k: nat, word: Token, ts: seq<Token>)
    requires (k == 1 && word == WhereTok) || (k == 2 && word == GroupTok) || (k == 3 && word == HavingTok)
             || (k == 4 && word == OrderTok) || (k == 5 && word == LimitTok)
    ensures From(k, [word] + ts)
  {
  }

  lemma Follow(t: Token, ts: seq<Token>)
    ensures First([t] + ts) == t && ([t] + ts)[1..] == ts
  {
  }

  lemma FollowTwo(t: Token, u: Token, ts: seq<Token>)
    ensures First([t, u] + ts) == t && ([t, u] + ts)[1..] == [u] + ts && ([t, u] + ts)[2..] == ts
  {
  }

  // ----- clauses

  lemma ClauseRead(word: Token, ts: seq<Token>, e: Expr, rest: seq<Token>)
    requires Reads(ExpressionRule, ts, e, rest)
    ensures ReadClause(word, [word] + ts) == Got(Some(e), rest)
  {
    hide ReadExpression;
    ReadsWhole(ts, e, rest);
    Follow(word, ts);
  }

  lemma NoClause(word: Token, rest: seq<Token>)
    requires !Starts(rest, word)
    ensures ReadClause(word, rest) == Got(None, rest)
  {
  }

  lemma ClauseShape(word: Token, e: Option<Expr>, rest: seq<Token>)
    ensures PrintClause(word, e) + rest == if e.Some? then [word] + (Print(e.value) + rest) else rest
  {
    hide Print;
  }

  lemma ClauseBack(word: Token, k: nat, e: Option<Expr>, rest: seq<Token>)
    requires OptionWF(e) && From(k + 1, rest) && ((k == 1 && word == WhereTok) || (k == 3 && word == HavingTok))
    ensures ReadClause(word, PrintClause(word, e) + rest) == Got(e, rest) && From(k, PrintClause(word, e) + rest)
  {
    hide Print, WF, ReadClause, PrintClause, Reads, Ends, StartsJoin, From, Starts, First;
    ClauseShape(word, e, rest);
    if e.Some? {
      FromEnds(k + 1, rest);
      Whole(e.value, rest);
      ClauseRead(word, Print(e.value) + rest, e.value, rest);
      FromWord(k, word, Print(e.value) + rest);
    } else {
      FromIsNot(k + 1, rest);
      FromLater(k, rest);
      NoClause(word, rest);
    }
  }

  lemma ReadsWhole(ts: seq<Token>, e: Expr, rest: seq<Token>)
    requires Reads(ExpressionRule, ts, e, rest)
    ensures ReadExpression(ts) == Got(e, rest)
  {
  }

  lemma GroupRead(ts: seq<Token>, es: seq<Expr>, rest: seq<Token>)
    requires ReadsList(ts, es, rest)
    ensures ReadGroup([GroupTok, ByTok] + ts) == Got(es, rest)
  {
    hide ReadList;
    ReadsAsList(ts, es, rest);
    FollowTwo(GroupTok, ByTok, ts);
  }

  lemma NoGroup(rest: seq<Token>)
    requires !Starts(rest, GroupTok)
    ensures ReadGroup(rest) == Got([], rest)
  {
  }

  lemma GroupShape(es: seq<Expr>, rest: seq<Token>)
    ensures PrintGroup(es) + rest == if es == [] then rest else [GroupTok, ByTok] + (PrintList(es) + rest)
  {
    hide PrintList;
  }

  lemma GroupBack(es: seq<Expr>, rest: seq<Token>)
    requires AllWF(es) && From(3, rest)
    ensures ReadGroup(PrintGroup(es) + rest) == Got(es, rest) && From(2, PrintGroup(es) + rest)
  {
    hide PrintList, AllWF, ReadGroup, PrintGroup, ReadsList, Ends, StartsJoin, From, Starts, First;
    GroupShape(es, rest);
    if es == [] {
      FromIsNot(3, rest);
      FromLater(2, rest);
      NoGroup(rest);
    } else {
      FromEnds(3, rest);
      FromPlain(3, rest);
      ListBack(es, rest);
      GroupRead(PrintList(es) + rest, es, rest);
      FromWords(2, GroupTok, ByTok, PrintList(es) + rest);
    }
  }

  lemma OrderItemBack(i: OrderByItem, rest: seq<Token>)
    requires WF(i.expr)
    ensures ReadOrderItem(PrintOrder(i) + rest) == Got(i, rest)
  {
    hide Print, WF, ReadExpression, Ends;
    var word := if i.descending then DescTok else AscTok;
    WordEnds(word, rest);
    Whole(i.expr, [word] + rest);
    ReadsWhole(Print(i.expr) + ([word] + rest), i.expr, [word] + rest);
    Cat(Print(i.expr), [word], rest);
    Follow(word, rest);
  }

  lemma WordEnds(t: Token, rest: seq<Token>)
    requires t == AscTok || t == DescTok || t == AsTok || t == FromTok || t == InnerTok || t == LeftTok || t == RightTok
             || t == Comma
    ensures Ends([t] + rest)
  {
  }

  lemma {:induction false} MoreOrderBack(done: seq<OrderByItem>, items: seq<OrderByItem>, rest: seq<Token>)
    requires (forall i :: 0 <= i < |items| ==> WF(items[i].expr)) && !Starts(rest, Comma)
    ensures ReadMoreOrder(done, PrintMoreOrder(items) + rest) == Got(done + items, rest)
    decreases items
  {
    hide PrintOrder, ReadOrderItem, WF, PrintMoreOrder, ReadMoreOrder, Starts, First;
    MoreOrderShape(items, rest);
    if items == [] {
      NoMoreOrder(done, rest);
      assert done + items == done;
    } else {
      var us := PrintMoreOrder(items[1..]) + rest;
      MoreOrderBack(done + [items[0]], items[1..], rest);
      OrderItemBack(items[0], us);
      assert done + items == (done + [items[0]]) + items[1..];
      OneMoreOrder(done, PrintOrder(items[0]) + us, items[0], us);
    }
  }

  lemma MoreOrderShape(items: seq<OrderByItem>, rest: seq<Token>)
    ensures PrintMoreOrder(items) + rest
            == if items == [] then rest else [Comma] + (PrintOrder(items[0]) + (PrintMoreOrder(items[1..]) + rest))
  {
    hide PrintOrder;
  }

  lemma NoMoreOrder(done: seq<OrderByItem>, rest: seq<Token>)
    requires !Starts(rest, Comma)
    ensures ReadMoreOrder(done, rest) == Got(done, rest)
  {
  }

  lemma OneMoreOrder(done: seq<OrderByItem>, ts: seq<Token>, i: OrderByItem, us: seq<Token>)
    requires ReadOrderItem(ts) == Got(i, us)
    ensures ReadMoreOrder(done, [Comma] + ts) == ReadMoreOrder(done + [i], us)
  {
    hide ReadOrderItem;
    Follow(Comma, ts);
  }

  lemma OrderByShape(items: seq<OrderByItem>, rest: seq<Token>)
    requires items != []
    ensures PrintOrderBy(items) + rest == [OrderTok, ByTok] +
            (PrintOrder(items[0]) + (PrintMoreOrder(items[1..]) + rest))
  {
    hide PrintOrder, PrintMoreOrder;
  }

  lemma ReadOrderedBy(i: OrderByItem, ts: seq<Token>, us: seq<Token>, items: seq<OrderByItem>, rest: seq<Token>)
    requires ReadOrderItem(ts) == Got(i, us) && ReadMoreOrder([i], us) == Got(items, rest)
    ensures ReadOrderBy([OrderTok, ByTok] + ts) == Got(items, rest)
  {
    hide ReadOrderItem, ReadMoreOrder;
    FollowTwo(OrderTok, ByTok, ts);
  }

  lemma NoOrder(rest: seq<Token>)
    requires !Starts(rest, OrderTok)
    ensures ReadOrderBy(rest) == Got([], rest) && PrintOrderBy([]) + rest == rest
  {
  }

  lemma OrderByBack(items: seq<OrderByItem>, rest: seq<Token>)
    requires (forall i :: 0 <= i < |items| ==> WF(items[i].expr)) && From(5, rest)
    ensures ReadOrderBy(PrintOrderBy(items) + rest) == Got(items, rest) && From(4, PrintOrderBy(items) + rest)
  {
    hide PrintOrder, ReadOrderItem, WF, PrintMoreOrder, ReadMoreOrder, PrintOrderBy, ReadOrderBy, Ends, StartsJoin,
         From, Starts, First;
    if items == [] {
      FromIsNot(5, rest);
      FromLater(4, rest);
      NoOrder(rest);
    } else {
      var us := PrintMoreOrder(items[1..]) + rest;
      FromPlain(5, rest);
      MoreOrderBack([items[0]], items[1..], rest);
      OrderItemBack(items[0], us);
      assert [items[0]] + items[1..] == items;
      OrderByShape(items, rest);
      ReadOrderedBy(items[0], PrintOrder(items[0]) + us, us, items, rest);
      FromWords(4, OrderTok, ByTok, PrintOrder(items[0]) + us);
    }
  }

  lemma LimitOnly(n: nat, rest: seq<Token>)
    requires !Starts(rest, OffsetTok)
    ensures ReadLimit([LimitTok, IntLit(n)] + rest) == Got((Some(n), None), rest)
  {
    FollowTwo(LimitTok, IntLit(n), rest);
  }

  lemma LimitAndOffset(n: nat, m: nat, rest: seq<Token>)
    ensures ReadLimit([LimitTok, IntLit(n)] + ([OffsetTok, IntLit(m)] + rest)) == Got((Some(n), Some(m)), rest)
  {
    var us := [OffsetTok, IntLit(m)] + rest;
    FollowTwo(LimitTok, IntLit(n), us);
    FollowTwo(OffsetTok, IntLit(m), rest);
    var ts := [LimitTok, IntLit(n)] + us;
    assert ts[3..] == us[1..] && ts[4..] == us[2..];
  }

  lemma LimitShape(limit: Option<int>, offset: Option<int>, rest: seq<Token>)
    requires LimitWF(limit, offset)
    ensures PrintLimit(limit, offset) + rest ==
            if limit.None? then rest
            else [LimitTok, IntLit(limit.value)] + if offset.None? then rest
                else [OffsetTok, IntLit(offset.value)] + rest
  {
  }

  lemma LimitBack(limit: Option<int>, offset: Option<int>, rest: seq<Token>)
    requires LimitWF(limit, offset) && From(7, rest)
    ensures ReadLimit(PrintLimit(limit, offset) + rest) == Got((limit, offset), rest)
  {
    hide From, ReadLimit, PrintLimit, Starts, First;
    FromIsNot(7, rest);
    LimitShape(limit, offset, rest);
    if limit.None? {
      NoLimit(rest);
    } else if offset.None? {
      LimitOnly(limit.value, rest);
    } else {
      LimitAndOffset(limit.value, offset.value, rest);
    }
  }

  lemma NoLimit(rest: seq<Token>)
    requires !Starts(rest, LimitTok)
    ensures ReadLimit(rest) == Got((None, None), rest)
  {
  }

  /** LIMIT and OFFSET are read back exactly when neither is negative and OFFSET has a LIMIT before it. */
  lemma LimitBackIff(limit: Option<int>, offset: Option<int>, rest: seq<Token>)
    requires From(7, rest)
    ensures var r := ReadLimit(PrintLimit(limit, offset) + rest);
            if LimitWF(limit, offset) then r == Got((limit, offset), rest) else r.Fail? || r.value != (limit, offset)
    ensures From(5, PrintLimit(limit, offset) + rest)
  {
    var ts := PrintLimit(limit, offset) + rest;
    if limit.None? && offset.Some? {
      assert ts[0] == OffsetTok;
    } else if limit.Some? && limit.value < 0 {
      assert ts[0] == LimitTok && ts[1..][0] == Minus;
    } else if offset.Some? && offset.value < 0 {
      var us := [OffsetTok, Minus, IntLit(-offset.value)] + rest;
      assert ts == [LimitTok, IntLit(limit.value)] + us;
      assert ts[2..] == us && ts[3..] == us[1..];
    } else {
      LimitBack(limit, offset, rest);
    }
  }

  /** All of the tail but LIMIT and OFFSET is read back, whatever those are. */
  lemma TailRead(t: Tail, rest: seq<Token>)
    requires TailExprsWF(t) && From(7, rest)
    ensures var r, l := ReadTail(PrintTail(t) + rest), ReadLimit(PrintLimit(t.limit, t.offset) + rest);
            if l.Fail? then r.Fail? else r == Got(t.(limit := l.value.0, offset := l.value.1), l.rest)
    ensures From(1, PrintTail(t) + rest)
  {
    hide AllWF, WF, ReadClause, ReadGroup, ReadOrderBy, ReadLimit, PrintClause, PrintGroup, PrintOrderBy,
         PrintLimit, From, PrintTail, LimitWF;
    var l := PrintLimit(t.limit, t.offset) + rest;
    var o := PrintOrderBy(t.orderBy) + l;
    var h := PrintClause(HavingTok, t.having) + o;
    var g := PrintGroup(t.groupBy) + h;
    LimitBackIff(t.limit, t.offset, rest);
    OrderByBack(t.orderBy, l);
    ClauseBack(HavingTok, 3, t.having, o);
    GroupBack(t.groupBy, h);
    ClauseBack(WhereTok, 1, t.filter, g);
    TailShape(t, rest);
  }

  lemma TailBack(t: Tail, rest: seq<Token>)
    requires TailWF(t) && From(7, rest)
    ensures ReadTail(PrintTail(t) + rest) == Got(t, rest)
    ensures From(1, PrintTail(t) + rest)
  {
    hide TailExprsWF, LimitWF, ReadTail, ReadLimit, PrintTail, PrintLimit, From;
    TailRead(t, rest);
    LimitBackIff(t.limit, t.offset, rest);
  }

  lemma TailShape(t: Tail, rest: seq<Token>)
    ensures PrintTail(t) + rest
            == PrintClause(WhereTok, t.filter) + (PrintGroup(t.groupBy) + (PrintClause(HavingTok, t.having) +
               (PrintOrderBy(t.orderBy) + (PrintLimit(t.limit, t.offset) + rest))))
  {
    hide PrintClause, PrintGroup, PrintOrderBy, PrintLimit;
  }

  // ----- tables and joins

  /** A token after which no alias and no other table reference is read. */
  predicate TableEnds(ts: seq<Token>) { !Starts(ts, AsTok) && !First(ts).Ident? }

  lemma TableRead(name: string, us: seq<Token>, alias: string, rest: seq<Token>)
    requires ReadAlias(us) == Got(alias, rest)
    ensures ReadTable([Ident(name)] + us) == Got(TableRef(name, alias), rest)
  {
    hide ReadAlias;
    Follow(Ident(name), us);
  }

  lemma TableBack(t: TableRef, rest: seq<Token>)
    requires TableEnds(rest)
    ensures ReadTable(PrintTable(t) + rest) == Got(t, rest)
  {
    hide ReadTable, ReadAlias;
    var alias := if t.alias == "" then [] else [AsTok, Ident(t.alias)];
    AliasBack(t.alias, rest);
    TableRead(t.name, alias + rest, t.alias, rest);
    Cat([Ident(t.name)], alias, rest);
  }

  lemma JoinTypeBack(k: JoinType, us: seq<Token>)
    ensures ReadJoinType([JoinWord(k), JoinTok] + us) == Got(k, [JoinTok] + us)
    ensures StartsJoin([JoinWord(k), JoinTok] + us) && Ends([JoinWord(k), JoinTok] + us)
            && TableEnds([JoinWord(k), JoinTok] + us)
    ensures !Starts([JoinWord(k), JoinTok] + us, Comma)
  {
    FollowTwo(JoinWord(k), JoinTok, us);
  }

  lemma ConditionBack(kind: JoinType, table: TableRef, c: Expr, rest: seq<Token>)
    requires !kind.CROSS? && WF(c) && Ends(rest)
    ensures ReadCondition(kind, table, [OnTok] + (Print(c) + rest)) == Got(JoinClause(kind, table, Some(c)), rest)
  {
    hide Print, WF, ReadExpression, Ends;
    Whole(c, rest);
    ReadsWhole(Print(c) + rest, c, rest);
    Follow(OnTok, Print(c) + rest);
  }

  lemma JoinShape(j: JoinClause, rest: seq<Token>)
    requires j.condition.Some?
    ensures PrintJoin(j) + rest
            == [JoinWord(j.kind), JoinTok] + (PrintTable(j.table) + ([OnTok] + (Print(j.condition.value) + rest)))
  {
    hide Print, PrintTable, JoinWord;
  }

  lemma JoinBack(j: JoinClause, rest: seq<Token>)
    requires j.condition.Some? && !j.kind.CROSS? && WF(j.condition.value) && Ends(rest)
    ensures ReadJoin(PrintJoin(j) + rest) == Got(j, rest)
    ensures StartsJoin(PrintJoin(j) + rest) && Ends(PrintJoin(j) + rest) && TableEnds(PrintJoin(j) + rest)
    ensures !Starts(PrintJoin(j) + rest, Comma)
  {
    hide Print, WF, PrintTable, ReadTable, ReadCondition, ReadJoinType, Ends, StartsJoin, PrintJoin, JoinWord;
    var us := [OnTok] + (Print(j.condition.value) + rest);
    JoinShape(j, rest);
    JoinTypeBack(j.kind, PrintTable(j.table) + us);
    Follow(JoinTok, PrintTable(j.table) + us);
    Follow(OnTok, Print(j.condition.value) + rest);
    TableBack(j.table, us);
    ConditionBack(j.kind, j.table, j.condition.value, rest);
  }

  /** The joins written with a keyword. */
  lemma {:induction false} JoinsBack(done: seq<JoinClause>, js: seq<JoinClause>, rest: seq<Token>)
    requires forall i :: 0 <= i < |js| ==> js[i].condition.Some? && !js[i].kind.CROSS? && WF(js[i].condition.value)
    requires From(1, rest)
    ensures ReadJoins(done, PrintJoins(js) + rest) == Got(done + js, rest)
    ensures Ends(PrintJoins(js) + rest) && TableEnds(PrintJoins(js) + rest) && !Starts(PrintJoins(js) + rest, Comma)
    decreases js
  {
    hide PrintJoin, ReadJoin, WF, Ends, StartsJoin, From, ReadJoins, PrintJoins, TableEnds;
    JoinsShape(js, rest);
    if js == [] {
      FromEnds(1, rest);
      FromPlain(1, rest);
      PlainTable(rest);
      NoJoin(done, rest);
      assert done + js == done;
    } else {
      var us := PrintJoins(js[1..]) + rest;
      JoinsBack(done + [js[0]], js[1..], rest);
      JoinBack(js[0], us);
      assert done + js == (done + [js[0]]) + js[1..];
      OneJoin(done, PrintJoin(js[0]) + us, js[0], us);
    }
  }

  lemma JoinsShape(js: seq<JoinClause>, rest: seq<Token>)
    ensures PrintJoins(js) + rest == if js == [] then rest else PrintJoin(js[0]) + (PrintJoins(js[1..]) + rest)
  {
    hide PrintJoin;
  }

  lemma PlainTable(ts: seq<Token>)
    requires !Starts(ts, AsTok) && !First(ts).Ident?
    ensures TableEnds(ts)
  {
  }

  lemma NoJoin(done: seq<JoinClause>, ts: seq<Token>)
    requires !StartsJoin(ts)
    ensures ReadJoins(done, ts) == Got(done, ts)
  {
  }

  lemma OneJoin(done: seq<JoinClause>, ts: seq<Token>, j: JoinClause, us: seq<Token>)
    requires StartsJoin(ts) && ReadJoin(ts) == Got(j, us)
    ensures ReadJoins(done, ts) == ReadJoins(done + [j], us)
  {
    hide ReadJoin, StartsJoin;
  }

  lemma ReadCommaTable(done: seq<JoinClause>, t: TableRef, us: seq<Token>)
    requires TableEnds(us)
    ensures ReadCommaTables(done, [Comma] + (PrintTable(t) + us))
            == ReadCommaTables(done + [JoinClause(CROSS, t, None)], us)
  {
    hide PrintTable, ReadTable, TableEnds;
    TableBack(t, us);
    Follow(Comma, PrintTable(t) + us);
  }

  /** The comma tables up to the first join that is not a plain cross join; k of them. */
  lemma {:induction false} CommaTablesBack(done: seq<JoinClause>, js: seq<JoinClause>, k: nat, rest: seq<Token>)
    requires k <= |js| && (forall i :: 0 <= i < k ==> js[i].kind.CROSS? && js[i].condition.None?)
    requires TableEnds(PrintJoins(js[k..]) + rest) && !Starts(PrintJoins(js[k..]) + rest, Comma)
    ensures ReadCommaTables(done, PrintJoins(js) + rest) == Got(done + js[..k], PrintJoins(js[k..]) + rest)
    ensures TableEnds(PrintJoins(js) + rest)
    decreases js
  {
    hide PrintTable, ReadTable, PrintJoin, PrintJoins, ReadCommaTables, TableEnds;
    if k == 0 {
      assert js[0..] == js && done + js[..0] == done;
      NoCommaTable(done, PrintJoins(js) + rest);
    } else {
      var us := PrintJoins(js[1..]) + rest;
      assert js[1..][k - 1..] == js[k..];
      CommaTablesBack(done + [js[0]], js[1..], k - 1, rest);
      assert done + js[..k] == (done + [js[0]]) + js[1..][..k - 1];
      CommaShape(js, rest);
      CommaIsNoAlias(PrintTable(js[0].table) + us);
      ReadCommaTable(done, js[0].table, us);
      assert js[0] == JoinClause(CROSS, js[0].table, None);
    }
  }

  lemma NoCommaTable(done: seq<JoinClause>, ts: seq<Token>)
    requires !Starts(ts, Comma)
    ensures ReadCommaTables(done, ts) == Got(done, ts)
  {
  }

  lemma CommaIsNoAlias(ts: seq<Token>)
    ensures TableEnds([Comma] + ts)
  {
  }

  lemma CommaShape(js: seq<JoinClause>, rest: seq<Token>)
    requires js != [] && js[0].kind.CROSS? && js[0].condition.None?
    ensures PrintJoins(js) + rest == [Comma] + (PrintTable(js[0].table) + (PrintJoins(js[1..]) + rest))
  {
    Cat(PrintJoin(js[0]), PrintJoins(js[1..]), rest);
    Cat([Comma], PrintTable(js[0].table), PrintJoins(js[1..]) + rest);
  }

  // ----- the select list

  lemma AliasBack(alias: string, rest: seq<Token>)
    requires TableEnds(rest)
    ensures ReadAlias((if alias == "" then [] else [AsTok, Ident(alias)]) + rest) == Got(alias, rest)
  {
    if alias == "" {
      assert [] + rest == rest;
    } else {
      FollowTwo(AsTok, Ident(alias), rest);
    }
  }

  lemma ItemBack(i: SelectItem, rest: seq<Token>)
    requires WF(i.expr) && Ends(rest) && TableEnds(rest)
    ensures ReadItem(PrintItem(i) + rest) == Got(i, rest)
  {
    hide Print, WF, ReadExpression, ReadAlias, Ends, TableEnds;
    var alias := if i.alias == "" then [] else [AsTok, Ident(i.alias)];
    if i.alias == "" {
      assert alias + rest == rest;
    } else {
      WordEnds(AsTok, [Ident(i.alias)] + rest);
      assert alias + rest == [AsTok] + ([Ident(i.alias)] + rest);
    }
    Whole(i.expr, alias + rest);
    ReadsWhole(Print(i.expr) + (alias + rest), i.expr, alias + rest);
    AliasBack(i.alias, rest);
    Cat(Print(i.expr), alias, rest);
  }

  lemma {:induction false} MoreItemsBack(done: seq<SelectItem>, items: seq<SelectItem>, rest: seq<Token>)
    requires (forall i :: 0 <= i < |items| ==> WF(items[i].expr)) && Starts(rest, FromTok)
    ensures ReadMoreItems(done, PrintMoreItems(items) + rest) == Got(done + items, rest)
    ensures Ends(PrintMoreItems(items) + rest) && TableEnds(PrintMoreItems(items) + rest)
    decreases items
  {
    hide PrintItem, ReadItem, WF, Ends, TableEnds, PrintMoreItems, ReadMoreItems;
    MoreItemsShape(items, rest);
    if items == [] {
      FromIsPlain(rest);
      NoMoreItems(done, rest);
      assert done + items == done;
    } else {
      var us := PrintMoreItems(items[1..]) + rest;
      MoreItemsBack(done + [items[0]], items[1..], rest);
      ItemBack(items[0], us);
      assert done + items == (done + [items[0]]) + items[1..];
      OneMoreItem(done, PrintItem(items[0]) + us, items[0], us);
      WordEnds(Comma, PrintItem(items[0]) + us);
      CommaIsNoAlias(PrintItem(items[0]) + us);
    }
  }

  lemma MoreItemsShape(items: seq<SelectItem>, rest: seq<Token>)
    ensures PrintMoreItems(items) + rest
            == if items == [] then rest else [Comma] + (PrintItem(items[0]) + (PrintMoreItems(items[1..]) + rest))
  {
    hide PrintItem;
  }

  lemma FromIsPlain(ts: seq<Token>)
    requires Starts(ts, FromTok)
    ensures Ends(ts) && TableEnds(ts)
  {
  }

  lemma NoMoreItems(done: seq<SelectItem>, ts: seq<Token>)
    requires !Starts(ts, Comma)
    ensures ReadMoreItems(done, ts) == Got(done, ts)
  {
  }

  lemma OneMoreItem(done: seq<SelectItem>, ts: seq<Token>, i: SelectItem, us: seq<Token>)
    requires ReadItem(ts) == Got(i, us)
    ensures ReadMoreItems(done, [Comma] + ts) == ReadMoreItems(done + [i], us)
  {
    hide ReadItem;
    Follow(Comma, ts);
  }

  /** The select list after DISTINCT. */
  lemma ListBackFrom(all: bool, items: seq<SelectItem>, rest: seq<Token>)
    requires (all <==> items == []) && (forall i :: 0 <= i < |items| ==> WF(items[i].expr)) && Starts(rest, FromTok)
    ensures var ts := PrintHead(false, all, items) + rest;
            ReadHead(ts) == Got((all, items), rest) && !Starts(ts, DistinctTok)
  {
    hide PrintItem, ReadItem, WF, Ends, TableEnds, PrintMoreItems, ReadMoreItems;
    var ts := PrintHead(false, all, items) + rest;
    if all {
      assert ts == [Star] + rest;
      Follow(Star, rest);
    } else {
      var us := PrintMoreItems(items[1..]) + rest;
      MoreItemsBack([items[0]], items[1..], rest);
      ItemBack(items[0], us);
      assert [items[0]] + items[1..] == items;
      assert ts == PrintItem(items[0]) + us;
      ItemStart(items[0], us);
    }
  }

  lemma ItemStart(i: SelectItem, us: seq<Token>)
    requires WF(i.expr)
    ensures !Starts(PrintItem(i) + us, Star) && !Starts(PrintItem(i) + us, DistinctTok)
  {
    hide Print, WF;
    FirstToken(i.expr);
  }

  // ----- statements

  lemma Dispatch(word: Token, us: seq<Token>, s: Stmt, rest: seq<Token>)
    requires || (word == SelectTok && ReadSelect(us) == Got(s, rest))
             || (word == InsertTok && ReadInsert(us) == Got(s, rest))
             || (word == UpdateTok && ReadUpdate(us) == Got(s, rest))
             || (word == DeleteTok && ReadDelete(us) == Got(s, rest))
             || (word == CreateTok && ReadCreate(us) == Got(s, rest))
             || (word == DropTok && ReadDrop(us) == Got(s, rest))
    ensures ReadStmt([word] + us) == Got(s, rest)
  {
    hide ReadSelect, ReadInsert, ReadUpdate, ReadDelete, ReadCreate, ReadDrop;
    Follow(word, us);
  }

  lemma JoinsSplit(js: seq<JoinClause>) returns (k: nat)
    requires JoinsWF(js)
    ensures k <= |js|
    ensures forall i :: 0 <= i < k ==> js[i].kind.CROSS? && js[i].condition.None?
    ensures forall i :: k <= i < |js| ==> !js[i].kind.CROSS? && js[i].condition.Some? && WF(js[i].condition.value)
  {
    hide WF;
    k := 0;
    while k < |js| && js[k].kind.CROSS?
      invariant k <= |js| && forall i :: 0 <= i < k ==> js[i].kind.CROSS?
    {
      k := k + 1;
    }
  }

  /** The table list of a SELECT. */
  lemma TablesBack(from: TableRef, js: seq<JoinClause>, rest: seq<Token>, k: nat)
    requires k <= |js| && From(1, rest)
    requires forall i :: 0 <= i < k ==> js[i].kind.CROSS? && js[i].condition.None?
    requires forall i :: k <= i < |js| ==> !js[i].kind.CROSS? && js[i].condition.Some? && WF(js[i].condition.value)
    ensures ReadTable(PrintTable(from) + (PrintJoins(js) + rest)) == Got(from, PrintJoins(js) + rest)
    ensures ReadCommaTables([], PrintJoins(js) + rest) == Got(js[..k], PrintJoins(js[k..]) + rest)
    ensures ReadJoins(js[..k], PrintJoins(js[k..]) + rest) == Got(js, rest)
  {
    hide WF, ReadTable, ReadCommaTables, ReadJoins, PrintJoins, PrintTable, From, TableEnds, Ends;
    JoinsBack(js[..k], js[k..], rest);
    CommaTablesBack([], js, k, rest);
    assert [] + js[..k] == js[..k] && js[..k] + js[k..] == js;
    TableBack(from, PrintJoins(js) + rest);
  }

  lemma HeadShape(distinct: bool, all: bool, items: seq<SelectItem>)
    ensures PrintHead(distinct, all, items) == (if distinct then [DistinctTok] else []) + PrintHead(false, all, items)
  {
    hide PrintItem, PrintMoreItems;
  }

  lemma SelectShape(s: Stmt, rest: seq<Token>)
    requires s.SelectStmt?
    ensures PrintStmt(s) + rest
            == [SelectTok] + ((if s.distinct then [DistinctTok] else []) + (PrintHead(false, s.all, s.items)
               + ([FromTok] + (PrintTable(s.from) + (PrintJoins(s.joins) + (PrintTail(s.tail) + rest))))))
  {
    hide PrintHead, PrintTable, PrintJoins, PrintTail;
    var h, joins, tail := PrintHead(s.distinct, s.all, s.items), PrintJoins(s.joins), PrintTail(s.tail);
    var tables := PrintTable(s.from) + (joins + tail);
    Onward([SelectTok], h + ([FromTok] + tables), rest);
    Onward(h, [FromTok] + tables, rest);
    Onward([FromTok], tables, rest);
    Onward(PrintTable(s.from), joins + tail, rest);
    Onward(joins, tail, rest);
    HeadShape(s.distinct, s.all, s.items);
    Onward(if s.distinct then [DistinctTok] else [], PrintHead(false, s.all, s.items), [FromTok] + tables + rest);
  }

  lemma SelectBack(s: Stmt, rest: seq<Token>)
    requires s.SelectStmt? && StmtWF(s) && From(7, rest)
    ensures ReadStmt(PrintStmt(s) + rest) == Got(s, rest)
  {
    hide ReadStmt, PrintStmt, PrintTable, PrintJoins, PrintTail, PrintHead, ReadHead, ReadTable, ReadCommaTables,
         ReadJoins, ReadTail, WF, TailWF, JoinsWF, From;
    var tail := PrintTail(s.tail) + rest;
    var tables := PrintTable(s.from) + (PrintJoins(s.joins) + tail);
    var ts := PrintHead(false, s.all, s.items) + ([FromTok] + tables);
    var us := (if s.distinct then [DistinctTok] else []) + ts;
    var k := JoinsSplit(s.joins);
    TailBack(s.tail, rest);
    TablesBack(s.from, s.joins, tail, k);
    Follow(FromTok, tables);
    ListBackFrom(s.all, s.items, [FromTok] + tables);
    SelectShape(s, rest);
    if s.distinct {
      Follow(DistinctTok, ts);
    } else {
      assert us == ts;
    }
    assert ReadSelect(us) == Got(s, rest);
    Dispatch(SelectTok, us, s, rest);
  }

  lemma NamesShape(names: seq<string>, tail: seq<Token>)
    requires names != []
    ensures PrintNames(names) + tail
            == if |names| == 1 then [Ident(names[0])] + tail
               else [Ident(names[0]), Comma] + (PrintNames(names[1..]) + tail)
  {
  }

  lemma LastName(done: seq<string>, name: string, tail: seq<Token>)
    requires Starts(tail, RParen)
    ensures ReadNames(done, [Ident(name)] + tail) == Got(done + [name], tail)
  {
    Follow(Ident(name), tail);
  }

  lemma NextName(done: seq<string>, name: string, us: seq<Token>)
    ensures ReadNames(done, [Ident(name), Comma] + us) == ReadNames(done + [name], us)
  {
    FollowTwo(Ident(name), Comma, us);
  }

  lemma {:induction false} NamesBack(done: seq<string>, names: seq<string>, rest: seq<Token>)
    requires names != []
    ensures ReadNames(done, PrintNames(names) + ([RParen] + rest)) == Got(done + names, [RParen] + rest)
    decreases names
  {
    hide PrintNames, ReadNames;
    var tail := [RParen] + rest;
    NamesShape(names, tail);
    if |names| == 1 {
      LastName(done, names[0], tail);
      assert done + names == done + [names[0]];
    } else {
      NamesBack(done + [names[0]], names[1..], rest);
      NextName(done, names[0], PrintNames(names[1..]) + tail);
      assert done + names == (done + [names[0]]) + names[1..];
    }
  }

  lemma ColumnsBack(columns: seq<string>, rest: seq<Token>)
    requires !Starts(rest, LParen)
    ensures ReadColumns((if columns == [] then [] else [LParen] + PrintNames(columns) + [RParen]) + rest)
            == Got(columns, rest)
  {
    hide PrintNames, ReadNames;
    if columns == [] {
      assert [] + rest == rest;
    } else {
      NamesBack([], columns, rest);
      assert [] + columns == columns;
      assert [LParen] + PrintNames(columns) + [RParen] + rest == [LParen] + (PrintNames(columns) + ([RParen] + rest));
      Follow(LParen, PrintNames(columns) + ([RParen] + rest));
      Follow(RParen, rest);
    }
  }

  lemma ReadsAsList(ts: seq<Token>, es: seq<Expr>, rest: seq<Token>)
    requires ReadsList(ts, es, rest)
    ensures ReadList(ts) == Got(es, rest)
  {
  }

  lemma InsertBack(table: string, columns: seq<string>, values: seq<Expr>, rest: seq<Token>)
    requires values != [] && AllWF(values)
    ensures ReadStmt(PrintStmt(InsertStmt(table, columns, values)) + rest)
            == Got(InsertStmt(table, columns, values), rest)
  {
    hide ReadStmt, ReadInsert, PrintStmt, PrintList, PrintNames, ReadList, ReadColumns, AllWF, Ends, Starts, First;
    var tail := [RParen] + rest;
    var vs := PrintList(values) + tail;
    var us := (if columns == [] then [] else [LParen] + PrintNames(columns) + [RParen]) + ([ValuesTok, LParen] + vs);
    Closing(RParen, rest);
    NotComma(RParen, rest);
    ListBack(values, tail);
    ReadsAsList(vs, values, tail);
    ValuesIsNoParen(vs);
    ColumnsBack(columns, [ValuesTok, LParen] + vs);
    InsertShape(table, columns, values, rest);
    InsertRead(table, us, columns, vs, values, rest);
    Dispatch(InsertTok, [IntoTok, Ident(table)] + us, InsertStmt(table, columns, values), rest);
  }

  lemma NotComma(t: Token, ts: seq<Token>)
    requires t != Comma
    ensures !Starts([t] + ts, Comma)
  {
  }

  lemma ValuesIsNoParen(vs: seq<Token>)
    ensures !Starts([ValuesTok, LParen] + vs, LParen)
  {
  }

  lemma InsertRead(table: string, us: seq<Token>, columns: seq<string>, vs: seq<Token>, values: seq<Expr>,
        rest: seq<Token>)
    requires ReadColumns(us) == Got(columns, [ValuesTok, LParen] + vs) && ReadList(vs) == Got(values, [RParen] + rest)
    ensures ReadInsert([IntoTok, Ident(table)] + us) == Got(InsertStmt(table, columns, values), rest)
  {
    hide ReadColumns, ReadList;
    FollowTwo(IntoTok, Ident(table), us);
    FollowTwo(ValuesTok, LParen, vs);
    Follow(RParen, rest);
  }

  lemma InsertShape(table: string, columns: seq<string>, values: seq<Expr>, rest: seq<Token>)
    ensures PrintStmt(InsertStmt(table, columns, values)) + rest
            == [InsertTok] + ([IntoTok, Ident(table)] +
               ((if columns == [] then [] else [LParen] + PrintNames(columns) + [RParen])
               + ([ValuesTok, LParen] + (PrintList(values) + ([RParen] + rest)))))
  {
    hide PrintList, PrintNames;
  }

  lemma AssignmentBack(a: (string, Expr), rest: seq<Token>)
    requires WF(a.1) && Ends(rest)
    ensures ReadAssignment(PrintAssignment(a) + rest) == Got(a, rest)
  {
    hide Print, WF, ReadExpression, Ends;
    Whole(a.1, rest);
    ReadsWhole(Print(a.1) + rest, a.1, rest);
    Cat([Ident(a.0), EqTok], Print(a.1), rest);
    FollowTwo(Ident(a.0), EqTok, Print(a.1) + rest);
  }

  lemma {:induction false} MoreAssignmentsBack(done: seq<(string, Expr)>, xs: seq<(string, Expr)>, rest: seq<Token>)
    requires (forall i :: 0 <= i < |xs| ==> WF(xs[i].1)) && Ends(rest) && !Starts(rest, Comma)
    ensures ReadMoreAssignments(done, PrintMoreAssignments(xs) + rest) == Got(done + xs, rest)
    ensures Ends(PrintMoreAssignments(xs) + rest)
    decreases xs
  {
    hide PrintAssignment, ReadAssignment, WF, Ends, PrintMoreAssignments, ReadMoreAssignments;
    MoreAssignmentsShape(xs, rest);
    if xs == [] {
      NoMoreAssignments(done, rest);
      assert done + xs == done;
    } else {
      var us := PrintMoreAssignments(xs[1..]) + rest;
      MoreAssignmentsBack(done + [xs[0]], xs[1..], rest);
      AssignmentBack(xs[0], us);
      assert done + xs == (done + [xs[0]]) + xs[1..];
      OneMoreAssignment(done, PrintAssignment(xs[0]) + us, xs[0], us);
      WordEnds(Comma, PrintAssignment(xs[0]) + us);
    }
  }

  lemma MoreAssignmentsShape(xs: seq<(string, Expr)>, rest: seq<Token>)
    ensures PrintMoreAssignments(xs) + rest
            == if xs == [] then rest else [Comma] + (PrintAssignment(xs[0]) + (PrintMoreAssignments(xs[1..]) + rest))
  {
    hide PrintAssignment;
  }

  lemma NoMoreAssignments(done: seq<(string, Expr)>, ts: seq<Token>)
    requires !Starts(ts, Comma)
    ensures ReadMoreAssignments(done, ts) == Got(done, ts)
  {
  }

  lemma OneMoreAssignment(done: seq<(string, Expr)>, ts: seq<Token>, a: (string, Expr), us: seq<Token>)
    requires ReadAssignment(ts) == Got(a, us)
    ensures ReadMoreAssignments(done, [Comma] + ts) == ReadMoreAssignments(done + [a], us)
  {
    hide ReadAssignment;
    Follow(Comma, ts);
  }

  lemma AssignmentsBack(xs: seq<(string, Expr)>, w: seq<Token>)
    requires xs != [] && (forall i :: 0 <= i < |xs| ==> WF(xs[i].1)) && Ends(w) && !Starts(w, Comma)
    ensures var us := PrintMoreAssignments(xs[1..]) + w;
            ReadAssignment(PrintAssignment(xs[0]) + us) == Got(xs[0], us)
                && ReadMoreAssignments([xs[0]], us) == Got(xs, w)
  {
    hide PrintAssignment, PrintMoreAssignments, ReadAssignment, ReadMoreAssignments, WF, Ends;
    MoreAssignmentsBack([xs[0]], xs[1..], w);
    assert [xs[0]] + xs[1..] == xs;
    AssignmentBack(xs[0], PrintMoreAssignments(xs[1..]) + w);
  }

  lemma UpdateBack(table: string, xs: seq<(string, Expr)>, filter: Option<Expr>, rest: seq<Token>)
    requires xs != [] && (forall i :: 0 <= i < |xs| ==> WF(xs[i].1)) && OptionWF(filter) && From(6, rest)
    ensures ReadStmt(PrintStmt(UpdateStmt(table, xs, filter)) + rest) == Got(UpdateStmt(table, xs, filter), rest)
  {
    hide ReadStmt, ReadUpdate, PrintStmt, PrintAssignment, PrintMoreAssignments, PrintClause, ReadAssignment,
         ReadMoreAssignments, ReadClause, WF, OptionWF, Ends, From, StartsJoin;
    var w := PrintClause(WhereTok, filter) + rest;
    var us := PrintMoreAssignments(xs[1..]) + w;
    FromSooner(6, 2, rest);
    ClauseBack(WhereTok, 1, filter, rest);
    FromEnds(1, w);
    FromPlain(1, w);
    AssignmentsBack(xs, w);
    UpdateShape(table, xs, filter, rest);
    UpdateRead(table, PrintAssignment(xs[0]) + us, xs, us, w, filter, rest);
    Dispatch(UpdateTok, [Ident(table), SetTok] + (PrintAssignment(xs[0]) + us), UpdateStmt(table, xs, filter), rest);
  }

  lemma UpdateRead(table: string, ts: seq<Token>, xs: seq<(string, Expr)>, us: seq<Token>, w: seq<Token>,
        filter: Option<Expr>, rest: seq<Token>)
    requires xs != [] && ReadAssignment(ts) == Got(xs[0], us) && ReadMoreAssignments([xs[0]], us) == Got(xs, w)
    requires ReadClause(WhereTok, w) == Got(filter, rest)
    ensures ReadUpdate([Ident(table), SetTok] + ts) == Got(UpdateStmt(table, xs, filter), rest)
  {
    hide ReadAssignment, ReadMoreAssignments, ReadClause;
    FollowTwo(Ident(table), SetTok, ts);
  }

  lemma UpdateShape(table: string, xs: seq<(string, Expr)>, filter: Option<Expr>, rest: seq<Token>)
    requires xs != []
    ensures PrintStmt(UpdateStmt(table, xs, filter)) + rest
            == [UpdateTok] + ([Ident(table), SetTok]
               + (PrintAssignment(xs[0]) + (PrintMoreAssignments(xs[1..]) + (PrintClause(WhereTok, filter) + rest))))
  {
    hide PrintAssignment, PrintMoreAssignments, PrintClause;
  }

  lemma DeleteBack(table: string, filter: Option<Expr>, rest: seq<Token>)
    requires OptionWF(filter) && From(6, rest)
    ensures ReadStmt(PrintStmt(DeleteStmt(table, filter)) + rest) == Got(DeleteStmt(table, filter), rest)
  {
    hide ReadStmt, ReadDelete, PrintStmt, PrintClause, ReadClause, OptionWF, From, Starts, First;
    var w := PrintClause(WhereTok, filter) + rest;
    FromSooner(6, 2, rest);
    ClauseBack(WhereTok, 1, filter, rest);
    DeleteShape(table, filter, rest);
    DeleteRead(table, w, filter, rest);
    Dispatch(DeleteTok, [FromTok, Ident(table)] + w, DeleteStmt(table, filter), rest);
  }

  lemma DeleteRead(table: string, w: seq<Token>, filter: Option<Expr>, rest: seq<Token>)
    requires ReadClause(WhereTok, w) == Got(filter, rest)
    ensures ReadDelete([FromTok, Ident(table)] + w) == Got(DeleteStmt(table, filter), rest)
  {
    hide ReadClause;
    FollowTwo(FromTok, Ident(table), w);
  }

  lemma DeleteShape(table: string, filter: Option<Expr>, rest: seq<Token>)
    ensures PrintStmt(DeleteStmt(table, filter)) + rest
            == [DeleteTok] + ([FromTok, Ident(table)] + (PrintClause(WhereTok, filter) + rest))
  {
    hide PrintClause;
  }

  lemma FromSooner(k: nat, j: nat, ts: seq<Token>)
    requires From(k, ts) && j <= k
    ensures From(j, ts)
  {
  }

  lemma TypeBack(base: TypeName, length: Option<nat>, rest: seq<Token>)
    requires (base.VARCHAR? <==> length.Some?) && !Starts(rest, LParen)
    ensures ReadType([TypeTok(base)] + ((if length.Some? then [LParen, IntLit(length.value), RParen] else []) + rest))
            == Got((base, length), rest)
  {
    if length.Some? {
      var us := [LParen, IntLit(length.value), RParen] + rest;
      var ts := [TypeTok(base)] + us;
      Follow(TypeTok(base), us);
      assert ts[2..] == [IntLit(length.value), RParen] + rest && ts[3..] == [RParen] + rest && ts[4..] == rest;
    } else {
      assert [TypeTok(base)] + ([] + rest) == [TypeTok(base)] + rest;
      Follow(TypeTok(base), rest);
    }
  }

  predicate DefWF(d: ColumnDef) { d.base.VARCHAR? <==> d.length.Some? }

  function Length(d: ColumnDef): seq<Token> { if d.length.Some? then [LParen, IntLit(d.length.value), RParen] else [] }

  function Nullness(d: ColumnDef): seq<Token> { if d.nullable then [] else [NotTok, NullLit] }

  lemma DefShape(d: ColumnDef, rest: seq<Token>)
    ensures PrintDef(d) + rest == [Ident(d.name)] + ([TypeTok(d.base)] + (Length(d) + (Nullness(d) + rest)))
    ensures !Starts(Nullness(d) + rest, LParen) || Starts(rest, LParen)
  {
  }

  lemma DefRead(d: ColumnDef, us: seq<Token>, rest: seq<Token>)
    requires ReadType(us) == Got((d.base, d.length), Nullness(d) + rest) && !Starts(rest, NotTok)
    ensures ReadDef([Ident(d.name)] + us) == Got(d, rest)
  {
    hide ReadType;
    Follow(Ident(d.name), us);
    if d.nullable {
      assert Nullness(d) + rest == rest;
    } else {
      FollowTwo(NotTok, NullLit, rest);
    }
  }

  lemma DefBack(d: ColumnDef, rest: seq<Token>)
    requires DefWF(d) && (Starts(rest, Comma) || Starts(rest, RParen))
    ensures ReadDef(PrintDef(d) + rest) == Got(d, rest)
  {
    hide PrintDef, ReadDef, ReadType, Nullness;
    DefShape(d, rest);
    TypeBack(d.base, d.length, Nullness(d) + rest);
    DefRead(d, [TypeTok(d.base)] + (Length(d) + (Nullness(d) + rest)), rest);
  }

  /** Definitions after the first k, each with its comma before it. */
  lemma {:induction false} DefsBack(done: seq<ColumnDef>, ds: seq<ColumnDef>, rest: seq<Token>)
    requires ds != [] && forall i :: 0 <= i < |ds| ==> DefWF(ds[i])
    ensures ReadDefs(done, PrintDefs(ds) + ([RParen] + rest)) == Got(done + ds, [RParen] + rest)
    decreases ds
  {
    hide PrintDef, ReadDef, PrintMoreDefs, PrintDefs, ReadDefs, DefWF, Starts, First;
    var tail := [RParen] + rest;
    var us := PrintMoreDefs(ds[1..]) + tail;
    Separators(rest);
    DefsShape(ds, tail);
    DefStart(ds[0], us);
    if |ds| == 1 {
      assert ds[1..] == [];
      NoMoreDefs(tail);
      DefBack(ds[0], tail);
      LastDef(done, ds[0], PrintDef(ds[0]) + tail, tail);
      assert done + ds == done + [ds[0]];
    } else {
      var vs := PrintDefs(ds[1..]) + tail;
      DefsBack(done + [ds[0]], ds[1..], rest);
      DefsShape(ds[1..], tail);
      Separators(vs);
      DefBack(ds[0], us);
      NextDef(done, ds[0], PrintDef(ds[0]) + us, vs);
      assert done + ds == (done + [ds[0]]) + ds[1..];
    }
  }

  lemma Separators(ts: seq<Token>)
    ensures Starts([RParen] + ts, RParen) && Starts([Comma] + ts, Comma)
  {
  }

  lemma DefStart(d: ColumnDef, us: seq<Token>)
    ensures First(PrintDef(d) + us).Ident?
  {
  }

  lemma NoMoreDefs(tail: seq<Token>)
    ensures PrintMoreDefs([]) + tail == tail
  {
  }

  lemma DefsShape(ds: seq<ColumnDef>, tail: seq<Token>)
    requires ds != []
    ensures PrintDefs(ds) + tail == PrintDef(ds[0]) + (PrintMoreDefs(ds[1..]) + tail)
    ensures PrintMoreDefs(ds) + tail == [Comma] + (PrintDefs(ds) + tail)
  {
    hide PrintDef;
    Cat(PrintDef(ds[0]), PrintMoreDefs(ds[1..]), tail);
    Cat([Comma], PrintDef(ds[0]), PrintMoreDefs(ds[1..]));
    Cat([Comma], PrintDefs(ds), tail);
  }

  lemma LastDef(done: seq<ColumnDef>, d: ColumnDef, ts: seq<Token>, tail: seq<Token>)
    requires ReadDef(ts) == Got(d, tail) && Starts(tail, RParen) && First(ts).Ident?
    ensures ReadDefs(done, ts) == Got(done + [d], tail)
  {
    hide ReadDef;
  }

  lemma NextDef(done: seq<ColumnDef>, d: ColumnDef, ts: seq<Token>, us: seq<Token>)
    requires ReadDef(ts) == Got(d, [Comma] + us) && First(ts).Ident?
    ensures ReadDefs(done, ts) == ReadDefs(done + [d], us)
  {
    hide ReadDef;
    Follow(Comma, us);
  }

  lemma CreateBack(table: string, ds: seq<ColumnDef>, rest: seq<Token>)
    requires forall i :: 0 <= i < |ds| ==> DefWF(ds[i])
    ensures ReadStmt(PrintStmt(CreateTableStmt(table, ds)) + rest) == Got(CreateTableStmt(table, ds), rest)
  {
    hide PrintDefs, ReadDefs, PrintStmt, ReadStmt;
    var us := PrintDefs(ds) + ([RParen] + rest);
    CreateShape(table, ds, rest);
    if ds == [] {
      NoDefs([RParen] + rest);
    } else {
      DefsBack([], ds, rest);
      assert [] + ds == ds;
    }
    CreateRead(table, us, ds, rest);
    Dispatch(CreateTok, [TableTok, Ident(table), LParen] + us, CreateTableStmt(table, ds), rest);
  }

  lemma CreateRead(table: string, us: seq<Token>, ds: seq<ColumnDef>, rest: seq<Token>)
    requires ReadDefs([], us) == Got(ds, [RParen] + rest)
    ensures ReadCreate([TableTok, Ident(table), LParen] + us) == Got(CreateTableStmt(table, ds), rest)
  {
    hide ReadDefs;
    var ts := [TableTok, Ident(table), LParen] + us;
    assert ts[1..] == [Ident(table), LParen] + us && ts[2..] == [LParen] + us && ts[3..] == us;
    Follow(RParen, rest);
  }

  lemma NoDefs(ts: seq<Token>)
    requires Starts(ts, RParen)
    ensures PrintDefs([]) + ts == ts && ReadDefs([], ts) == Got([], ts)
  {
  }

  lemma CreateShape(table: string, ds: seq<ColumnDef>, rest: seq<Token>)
    ensures PrintStmt(CreateTableStmt(table, ds)) + rest
            == [CreateTok] + ([TableTok, Ident(table), LParen] + (PrintDefs(ds) + ([RParen] + rest)))
  {
    hide PrintDefs;
  }

  lemma DropBack(table: string, ifExists: bool, rest: seq<Token>)
    ensures ReadStmt(PrintStmt(DropTableStmt(table, ifExists)) + rest) == Got(DropTableStmt(table, ifExists), rest)
  {
    hide ReadStmt, ReadDrop, PrintStmt;
    if ifExists {
      DropRead(table, rest);
      Dispatch(DropTok, [TableTok, IfTok, ExistsTok, Ident(table)] + rest, DropTableStmt(table, true), rest);
      DropShape(table, rest);
    } else {
      PlainDropRead(table, rest);
      Dispatch(DropTok, [TableTok, Ident(table)] + rest, DropTableStmt(table, false), rest);
      DropShape(table, rest);
    }
  }

  lemma DropShape(table: string, rest: seq<Token>)
    ensures PrintStmt(DropTableStmt(table, true)) + rest == [DropTok] +
            ([TableTok, IfTok, ExistsTok, Ident(table)] + rest)
    ensures PrintStmt(DropTableStmt(table, false)) + rest == [DropTok] + ([TableTok, Ident(table)] + rest)
  {
  }

  lemma DropRead(table: string, rest: seq<Token>)
    ensures ReadDrop([TableTok, IfTok, ExistsTok, Ident(table)] + rest) == Got(DropTableStmt(table, true), rest)
  {
    var ts := [TableTok, IfTok, ExistsTok, Ident(table)] + rest;
    assert ts[1..] == [IfTok, ExistsTok, Ident(table)] + rest && ts[2..] == [ExistsTok, Ident(table)] + rest;
    assert ts[3..] == [Ident(table)] + rest && ts[4..] == rest;
  }

  lemma PlainDropRead(table: string, rest: seq<Token>)
    ensures ReadDrop([TableTok, Ident(table)] + rest) == Got(DropTableStmt(table, false), rest)
  {
    FollowTwo(TableTok, Ident(table), rest);
  }

  /** A printed well-formed statement is read back as itself, up to the semicolon or the end of input. */
  lemma StatementBack(s: Stmt, rest: seq<Token>)
    requires StmtWF(s) && (rest == [] || rest[0] == Semicolon)
    ensures ReadStmt(PrintStmt(s) + rest) == Got(s, rest)
  {
    hide PrintStmt, ReadStmt, WF, AllWF, JoinsWF, TailWF;
    match s
    case SelectStmt(_, _, _, _, _, _) => SelectBack(s, rest);
    case InsertStmt(table, columns, values) => InsertBack(table, columns, values, rest);
    case UpdateStmt(table, xs, filter) => UpdateBack(table, xs, filter, rest);
    case DeleteStmt(table, filter) => DeleteBack(table, filter, rest);
    case CreateTableStmt(table, defs) => CreateBack(table, defs, rest);
    case DropTableStmt(table, ifExists) => DropBack(table, ifExists, rest);
  }

  /** A script: every statement with a semicolon after it. */
  function PrintScript(ss: seq<Stmt>): seq<Token> {
    if ss == [] then [] else PrintStmt(ss[0]) + [Semicolon] + PrintScript(ss[1..])
  }

  lemma {:induction false} ScriptBack(done: seq<Stmt>, ss: seq<Stmt>)
    requires forall i :: 0 <= i < |ss| ==> StmtWF(ss[i])
    ensures ReadAll(done, PrintScript(ss)) == Some(done + ss)
    decreases ss
  {
    hide PrintStmt, ReadStmt, StmtWF;
    if ss == [] {
      assert done + ss == done;
    } else {
      var us := PrintScript(ss[1..]);
      StatementBack(ss[0], [Semicolon] + us);
      ScriptBack(done + [ss[0]], ss[1..]);
      assert done + ss == (done + [ss[0]]) + ss[1..];
      Cat(PrintStmt(ss[0]), [Semicolon], us);
      Follow(Semicolon, us);
      StatementStart(ss[0], [Semicolon] + us);
    }
  }

  lemma StatementStart(s: Stmt, rest: seq<Token>)
    ensures PrintStmt(s) + rest != [] && !First(PrintStmt(s) + rest).Eof?
  {
    hide PrintTail, PrintHead, PrintJoins, PrintTable, PrintList, PrintNames, PrintMoreAssignments, PrintAssignment,
         PrintClause, PrintDefs;
  }
}
