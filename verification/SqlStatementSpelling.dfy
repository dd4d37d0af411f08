/** The statement grammar as a relation: which token sequences spell a statement, with every optional word written or
    left out. What the parser accepts is spelled so. */
module SqlStatementSpelling {
  import opened Wrappers
  import opened SqlAst
  import opened SqlGrammar
  import opened SqlStatements
  import opened SqlSpelling
  import SqlRoundTrip

  // ----- lists

  /** One or more items with commas between them. */
  ghost predicate Listed<T>(spells: (T, seq<Token>) -> bool, xs: seq<T>, ts: seq<Token>)
    decreases |xs|
  {
    xs != [] && if |xs| == 1 then spells(xs[0], ts)
                else exists p, q :: ts == p + [Comma] + q && spells(xs[0], p) && Listed(spells, xs[1..], q)
  }

  /** Items one after the other. */
  ghost predicate Rows<T>(spells: (T, seq<Token>) -> bool, xs: seq<T>, ts: seq<Token>)
    decreases |xs|
  {
    if xs == [] then ts == []
    else exists p, q :: ts == p + q && spells(xs[0], p) && Rows(spells, xs[1..], q)
  }

  // ----- parts of a SELECT

  /** AS is optional; no alias is the empty one. */
  predicate AliasSpells(alias: string, ts: seq<Token>) {
    ts == [AsTok, Ident(alias)] || ts == [Ident(alias)] || (alias == "" && ts == [])
  }

  ghost predicate TableSpells(t: TableRef, ts: seq<Token>) {
    exists q :: ts == [Ident(t.name)] + q && AliasSpells(t.alias, q)
  }

  ghost predicate ItemSpells(i: SelectItem, ts: seq<Token>) {
    exists p, q :: ts == p + q && Spells(i.expr, 0, p) && AliasSpells(i.alias, q)
  }

  /** A star, or the items. */
  ghost predicate HeadSpells(all: bool, items: seq<SelectItem>, ts: seq<Token>) {
    if all then items == [] && ts == [Star] else Listed(ItemSpells, items, ts)
  }

  ghost predicate CommaSpells(j: JoinClause, ts: seq<Token>) {
    j.kind.CROSS? && j.condition.None? && exists p :: ts == [Comma] + p && TableSpells(j.table, p)
  }

  /** INNER is optional. */
  predicate JoinWords(kind: JoinType, ts: seq<Token>) {
    ts == [JoinWord(kind), JoinTok] || (kind.INNER? && ts == [JoinTok])
  }

  /** A cross join has no condition, every other join has one. */
  ghost predicate ConditionSpells(j: JoinClause, ts: seq<Token>) {
    if j.kind.CROSS? then j.condition.None? && ts == []
    else j.condition.Some? && exists c :: ts == [OnTok] + c && Spells(j.condition.value, 0, c)
  }

  ghost predicate JoinSpells(j: JoinClause, ts: seq<Token>) {
    exists w, p, q :: ts == w + p + q && JoinWords(j.kind, w) && TableSpells(j.table, p) && ConditionSpells(j, q)
  }

  /** First the tables after commas, then the joins. */
  ghost predicate JoinsSpell(js: seq<JoinClause>, ts: seq<Token>) {
    exists n, p, q :: 0 <= n <= |js| && ts == p + q && Rows(CommaSpells, js[..n], p) && Rows(JoinSpells, js[n..], q)
  }

  /** An item without ASC or DESC is ascending. */
  ghost predicate OrderSpells(i: OrderByItem, ts: seq<Token>) {
    || (!i.descending && Spells(i.expr, 0, ts))
    || exists p :: ts == p + [if i.descending then DescTok else AscTok] && Spells(i.expr, 0, p)
  }

  ghost predicate ClauseSpells(word: Token, e: Option<Expr>, ts: seq<Token>) {
    if e.None? then ts == [] else exists p :: ts == [word] + p && Spells(e.value, 0, p)
  }

  ghost predicate GroupSpells(es: seq<Expr>, ts: seq<Token>) {
    if es == [] then ts == [] else exists p :: ts == [GroupTok, ByTok] + p && ListSpells(es, p)
  }

  ghost predicate OrderBySpells(items: seq<OrderByItem>, ts: seq<Token>) {
    if items == [] then ts == [] else exists p :: ts == [OrderTok, ByTok] + p && Listed(OrderSpells, items, p)
  }

  /** OFFSET only after LIMIT. */
  predicate LimitSpells(limit: Option<int>, offset: Option<int>, ts: seq<Token>) {
    if limit.None? then offset.None? && ts == []
    else limit.value >= 0
         && if offset.None? then ts == [LimitTok, IntLit(limit.value)]
            else offset.value >= 0 && ts == [LimitTok, IntLit(limit.value), OffsetTok, IntLit(offset.value)]
  }

  ghost predicate TailSpells(t: Tail, ts: seq<Token>) {
    exists w, g, h, o, l :: ts == w + (g + (h + (o + l)))
      && ClauseSpells(WhereTok, t.filter, w) && GroupSpells(t.groupBy, g) && ClauseSpells(HavingTok, t.having, h)
      && OrderBySpells(t.orderBy, o) && LimitSpells(t.limit, t.offset, l)
  }

  // ----- parts of the other statements

  predicate NameSpells(name: string, ts: seq<Token>) { ts == [Ident(name)] }

  ghost predicate ColumnsSpell(names: seq<string>, ts: seq<Token>) {
    if names == [] then ts == [] else exists p :: ts == InParens(p) && Listed(NameSpells, names, p)
  }

  ghost predicate AssignmentSpells(a: (string, Expr), ts: seq<Token>) {
    exists p :: ts == [Ident(a.0), EqTok] + p && Spells(a.1, 0, p)
  }

  /** Only VARCHAR has a length; without one it is 0. */
  predicate TypeSpells(base: TypeName, length: Option<nat>, ts: seq<Token>) {
    if base.VARCHAR? then
      length.Some? && (ts == [TypeTok(base), LParen, IntLit(length.value), RParen]
                       || (length.value == 0 && ts == [TypeTok(base)]))
    else length.None? && ts == [TypeTok(base)]
  }

  ghost predicate DefSpells(d: ColumnDef, ts: seq<Token>) {
    exists t :: ts == [Ident(d.name)] + t + (if d.nullable then [] else [NotTok, NullLit])
                && TypeSpells(d.base, d.length, t)
  }

  /** A comma may be left over after the last definition. */
  ghost predicate DefsSpell(ds: seq<ColumnDef>, ts: seq<Token>) {
    if ds == [] then ts == []
    else Listed(DefSpells, ds, ts) || exists p :: ts == p + [Comma] && Listed(DefSpells, ds, p)
  }

  // ----- statements

  ghost predicate StmtSpells(s: Stmt, ts: seq<Token>) {
    match s
    case SelectStmt(distinct, all, items, from, joins, tail) =>
      exists h, f, j, t :: ts == [SelectTok] + (Distinct(distinct) + (h + ([FromTok] + (f + (j + t)))))
        && HeadSpells(all, items, h) && TableSpells(from, f) && JoinsSpell(joins, j) && TailSpells(tail, t)
    case InsertStmt(table, columns, values) =>
      exists c, v :: ts == [InsertTok, IntoTok, Ident(table)] + (c + ([ValuesTok] + InParens(v)))
        && ColumnsSpell(columns, c) && ListSpells(values, v)
    case UpdateStmt(table, xs, filter) =>
      exists a, w :: ts == [UpdateTok, Ident(table), SetTok] + (a + w)
        && Listed(AssignmentSpells, xs, a) && ClauseSpells(WhereTok, filter, w)
    case DeleteStmt(table, filter) =>
      exists w :: ts == [DeleteTok, FromTok, Ident(table)] + w && ClauseSpells(WhereTok, filter, w)
    case CreateTableStmt(table, defs) =>
      exists p :: ts == [CreateTok, TableTok, Ident(table)] + InParens(p) && DefsSpell(defs, p)
    case DropTableStmt(table, ifExists) =>
      ts == [DropTok, TableTok] + (if ifExists then [IfTok, ExistsTok] else []) + [Ident(table)]
  }

  /** Statements up to the end of input, each with an optional semicolon after it. */
  ghost predicate ScriptSpells(ss: seq<Stmt>, ts: seq<Token>)
    decreases |ss|
  {
    if ss == [] then First(ts).Eof?
    else exists p, s, q :: ts == p + s + q && StmtSpells(ss[0], p) && (s == [] || s == [Semicolon])
                           && ScriptSpells(ss[1..], q)
  }

  // ----- lists grow at the end

  lemma ListedOne<T>(spells: (T, seq<Token>) -> bool, x: T, p: seq<Token>)
    requires spells(x, p)
    ensures Listed(spells, [x], p)
  {
  }

  lemma ListedFirst<T>(spells: (T, seq<Token>) -> bool, xs: seq<T>, p: seq<Token>, q: seq<Token>)
    requires |xs| > 1 && spells(xs[0], p) && Listed(spells, xs[1..], q)
    ensures Listed(spells, xs, p + [Comma] + q)
  {
  }

  lemma ListedParts<T>(spells: (T, seq<Token>) -> bool, xs: seq<T>, ts: seq<Token>)
      returns (p: seq<Token>, q: seq<Token>)
    requires Listed(spells, xs, ts)
    ensures xs != [] && spells(xs[0], p)
    ensures |xs| == 1 ==> ts == p
    ensures |xs| > 1 ==> ts == p + [Comma] + q && Listed(spells, xs[1..], q)
  {
    p, q := ts, [];
    if |xs| > 1 {
      p, q :| ts == p + [Comma] + q && spells(xs[0], p) && Listed(spells, xs[1..], q);
    }
  }

  lemma {:induction false} ListedLast<T>(spells: (T, seq<Token>) -> bool, xs: seq<T>, x: T, p: seq<Token>,
        q: seq<Token>)
    requires Listed(spells, xs, p) && spells(x, q)
    ensures Listed(spells, xs + [x], p + [Comma] + q)
    decreases |xs|
  {
    hide Listed;
    var a, b := ListedParts(spells, xs, p);
    var all := xs + [x];
    assert all[0] == xs[0] && all[1..] == xs[1..] + [x];
    if |xs| == 1 {
      ListedOne(spells, x, q);
      assert all[1..] == [x];
      ListedFirst(spells, all, p, q);
    } else {
      ListedLast(spells, xs[1..], x, b, q);
      ListedFirst(spells, all, a, b + [Comma] + q);
      Regrouped(a, Comma, b, [Comma] + q);
      SqlRoundTrip.Cat(p, [Comma], q);
      SqlRoundTrip.Cat(b, [Comma], q);
    }
  }

  lemma RowsParts<T>(spells: (T, seq<Token>) -> bool, xs: seq<T>, ts: seq<Token>)
      returns (p: seq<Token>, q: seq<Token>)
    requires Rows(spells, xs, ts) && xs != []
    ensures ts == p + q && spells(xs[0], p) && Rows(spells, xs[1..], q)
  {
    p, q :| ts == p + q && spells(xs[0], p) && Rows(spells, xs[1..], q);
  }

  lemma RowsNone<T>(spells: (T, seq<Token>) -> bool)
    ensures Rows(spells, [], [])
  {
  }

  lemma RowsFirst<T>(spells: (T, seq<Token>) -> bool, xs: seq<T>, p: seq<Token>, q: seq<Token>)
    requires xs != [] && spells(xs[0], p) && Rows(spells, xs[1..], q)
    ensures Rows(spells, xs, p + q)
  {
  }

  lemma {:induction false} RowsLast<T>(spells: (T, seq<Token>) -> bool, xs: seq<T>, x: T, p: seq<Token>,
        q: seq<Token>)
    requires Rows(spells, xs, p) && spells(x, q)
    ensures Rows(spells, xs + [x], p + q)
    decreases |xs|
  {
    hide Rows;
    var all := xs + [x];
    if xs == [] {
      RowsNothing(spells, p);
      RowsNone(spells);
      assert all[1..] == [] && all[0] == x && p + q == q + [];
      RowsFirst(spells, all, q, []);
    } else {
      var a, b := RowsParts(spells, xs, p);
      RowsLast(spells, xs[1..], x, b, q);
      assert all[0] == xs[0] && all[1..] == xs[1..] + [x];
      RowsFirst(spells, all, a, b + q);
      SqlRoundTrip.Cat(a, b, q);
    }
  }

  lemma RowsNothing<T>(spells: (T, seq<Token>) -> bool, p: seq<Token>)
    requires Rows(spells, [], p)
    ensures p == []
  {
  }

  // ----- what the parser accepts is spelled so: parts of a SELECT

  lemma AliasSpelled(ts: seq<Token>) returns (p: seq<Token>)
    ensures var r := ReadAlias(ts); r.Got? ==> ts == p + r.rest && AliasSpells(r.value, p)
  {
    p := [];
    if Starts(ts, AsTok) {
      if First(ts[1..]).Ident? {
        p := ts[..2];
        assert p == [AsTok, Ident(ts[1].name)];
      }
    } else if First(ts).Ident? {
      p := ts[..1];
    }
  }

  lemma TableSpelled(ts: seq<Token>) returns (p: seq<Token>)
    ensures var r := ReadTable(ts); r.Got? ==> ts == p + r.rest && TableSpells(r.value, p)
  {
    hide AliasSpells, ReadAlias;
    p := [];
    if First(ts).Ident? {
      var b := AliasSpelled(ts[1..]);
      p := [Ident(ts[0].name)] + b;
      if ReadAlias(ts[1..]).Got? { Headed(Ident(ts[0].name), ts, b, ReadAlias(ts[1..]).rest); }
    }
  }

  lemma ItemSpelled(ts: seq<Token>) returns (p: seq<Token>)
    ensures var r := ReadItem(ts); r.Got? ==> ts == p + r.rest && ItemSpells(r.value, p)
  {
    hide Spells, AliasSpells, ReadAlias, ReadExpression;
    var x := ReadExpression(ts);
    p := ExpressionSpelled(ts);
    if x.Got? {
      var b := AliasSpelled(x.rest);
      if ReadAlias(x.rest).Got? { SqlRoundTrip.Cat(p, b, ReadAlias(x.rest).rest); }
      p := p + b;
    }
  }

  lemma {:induction false} MoreItemsSpelled(q: seq<Token>, items: seq<SelectItem>, ts: seq<Token>)
      returns (p: seq<Token>)
    requires Listed(ItemSpells, items, q)
    ensures var r := ReadMoreItems(items, ts); r.Got? ==> q + ts == p + r.rest && Listed(ItemSpells, r.value, p)
    decreases |ts|
  {
    hide Listed, ItemSpells, ReadItem;
    p := q;
    if Starts(ts, Comma) {
      var i := ReadItem(ts[1..]);
      var b := ItemSpelled(ts[1..]);
      if i.Got? {
        ListedLast(ItemSpells, items, i.value, q, b);
        Linked(q + ts, q, Comma, ts, b, i.rest);
        p := MoreItemsSpelled(q + [Comma] + b, items + [i.value], i.rest);
      }
    }
  }

  lemma HeadSpelled(ts: seq<Token>) returns (p: seq<Token>)
    ensures var r := ReadHead(ts); r.Got? ==> ts == p + r.rest && HeadSpells(r.value.0, r.value.1, p)
  {
    hide Listed, ItemSpells, ReadItem, ReadMoreItems;
    if Starts(ts, Star) {
      p := [Star];
    } else {
      var i := ReadItem(ts);
      p := ItemSpelled(ts);
      if i.Got? {
        ListedOne(ItemSpells, i.value, p);
        p := MoreItemsSpelled(p, [i.value], i.rest);
      }
    }
  }

  lemma {:induction false} CommaTablesSpelled(q: seq<Token>, js: seq<JoinClause>, ts: seq<Token>)
      returns (p: seq<Token>)
    requires Rows(CommaSpells, js, q)
    ensures var r := ReadCommaTables(js, ts); r.Got? ==> q + ts == p + r.rest && Rows(CommaSpells, r.value, p)
    decreases |ts|
  {
    hide Rows, TableSpells, ReadTable;
    p := q;
    if Starts(ts, Comma) {
      var t := ReadTable(ts[1..]);
      var b := TableSpelled(ts[1..]);
      if t.Got? {
        var j := JoinClause(CROSS, t.value, None);
        assert CommaSpells(j, [Comma] + b);
        RowsLast(CommaSpells, js, j, q, [Comma] + b);
        Headed(Comma, ts, b, t.rest);
        SqlRoundTrip.Cat(q, [Comma] + b, t.rest);
        p := CommaTablesSpelled(q + ([Comma] + b), js + [j], t.rest);
      }
    }
  }

  lemma JoinTypeSpelled(ts: seq<Token>) returns (p: seq<Token>)
    ensures var r := ReadJoinType(ts);
            r.Got? && Starts(r.rest, JoinTok) ==> ts == p + r.rest[1..] && JoinWords(r.value, p)
  {
    p := if Starts(ts, JoinTok) then [JoinTok] else ts[..if |ts| < 2 then |ts| else 2];
    var r := ReadJoinType(ts);
    if r.Got? && Starts(r.rest, JoinTok) && !Starts(ts, JoinTok) {
      assert r.rest == ts[1..] && r.rest[1..] == ts[2..] && p == [JoinWord(r.value), JoinTok];
    }
  }

  lemma ConditionSpelled(kind: JoinType, table: TableRef, ts: seq<Token>) returns (p: seq<Token>)
    ensures var r := ReadCondition(kind, table, ts);
            r.Got? ==> ts == p + r.rest && ConditionSpells(r.value, p) && r.value.kind == kind && r.value.table == table
  {
    hide Spells, ReadExpression;
    p := [];
    if Starts(ts, OnTok) {
      var b := ExpressionSpelled(ts[1..]);
      p := [OnTok] + b;
      if ReadExpression(ts[1..]).Got? { Headed(OnTok, ts, b, ReadExpression(ts[1..]).rest); }
    }
  }

  lemma JoinSpelled(ts: seq<Token>) returns (p: seq<Token>)
    ensures var r := ReadJoin(ts); r.Got? ==> ts == p + r.rest && JoinSpells(r.value, p)
  {
    hide JoinWords, TableSpells, ConditionSpells, ReadJoinType, ReadTable, ReadCondition;
    p := [];
    var k := ReadJoinType(ts);
    if k.Got? && Starts(k.rest, JoinTok) {
      var a := JoinTypeSpelled(ts);
      var t := ReadTable(k.rest[1..]);
      var b := TableSpelled(k.rest[1..]);
      if t.Got? {
        var r := ReadCondition(k.value, t.value, t.rest);
        var c := ConditionSpelled(k.value, t.value, t.rest);
        p := a + b + c;
        if r.Got? { ThreeParts(ts, a, k.rest[1..], b, t.rest, c, r.rest); }
      }
    }
  }

  lemma ThreeParts(ts: seq<Token>, a: seq<Token>, us: seq<Token>, b: seq<Token>, vs: seq<Token>, c: seq<Token>,
        rest: seq<Token>)
    requires ts == a + us && us == b + vs && vs == c + rest
    ensures ts == a + b + c + rest
  {
  }

  lemma {:induction false} JoinsSpelled(q: seq<Token>, some: seq<JoinClause>, more: seq<JoinClause>, ts: seq<Token>)
      returns (p: seq<Token>, js: seq<JoinClause>)
    requires Rows(JoinSpells, more, q)
    ensures var r := ReadJoins(some + more, ts);
            r.Got? ==> q + ts == p + r.rest && r.value == some + js && Rows(JoinSpells, js, p)
    decreases |ts|
  {
    hide Rows, JoinSpells, ReadJoin, StartsJoin;
    p, js := q, more;
    if StartsJoin(ts) {
      var j := ReadJoin(ts);
      var b := JoinSpelled(ts);
      if j.Got? {
        RowsLast(JoinSpells, more, j.value, q, b);
        assert some + more + [j.value] == some + (more + [j.value]);
        SqlRoundTrip.Cat(q, b, j.rest);
        p, js := JoinsSpelled(q + b, some, more + [j.value], j.rest);
      }
    }
  }

  /** The comma tables and the joins after them. */
  lemma AllJoinsSpelled(ts: seq<Token>) returns (p: seq<Token>)
    ensures var c := ReadCommaTables([], ts);
            c.Got? ==> var r := ReadJoins(c.value, c.rest); r.Got? ==> ts == p + r.rest && JoinsSpell(r.value, p)
  {
    hide Rows, CommaSpells, JoinSpells, ReadCommaTables, ReadJoins;
    RowsNone(CommaSpells);
    RowsNone(JoinSpells);
    var c := ReadCommaTables([], ts);
    var a := CommaTablesSpelled([], [], ts);
    p := a;
    if c.Got? {
      assert c.value + [] == c.value;
      var b, js := JoinsSpelled([], c.value, [], c.rest);
      p := a + b;
      var r := ReadJoins(c.value, c.rest);
      if r.Got? {
        assert r.value[..|c.value|] == c.value && r.value[|c.value|..] == js;
        assert JoinsSpell(r.value, p);
        TwoParts(ts, a, c.rest, b, r.rest);
      }
    }
  }

  lemma TwoParts(ts: seq<Token>, a: seq<Token>, us: seq<Token>, b: seq<Token>, rest: seq<Token>)
    requires [] + ts == a + us && [] + us == b + rest
    ensures ts == a + b + rest
  {
    assert [] + ts == ts && [] + us == us;
  }

  lemma OrderSpelled(ts: seq<Token>) returns (p: seq<Token>)
    ensures var r := ReadOrderItem(ts); r.Got? ==> ts == p + r.rest && OrderSpells(r.value, p)
  {
    hide Spells, ReadExpression, OrderSpells;
    var x := ReadExpression(ts);
    p := ExpressionSpelled(ts);
    if x.Got? {
      SpellOrder(x.value, p);
      if Starts(x.rest, DescTok) || Starts(x.rest, AscTok) {
        var b := p;
        p := b + [x.rest[0]];
        Split(b, x.rest);
      }
    }
  }

  lemma SpellOrder(e: Expr, p: seq<Token>)
    requires Spells(e, 0, p)
    ensures OrderSpells(OrderByItem(e, false), p) && OrderSpells(OrderByItem(e, false), p + [AscTok])
    ensures OrderSpells(OrderByItem(e, true), p + [DescTok])
  {
    hide Spells;
  }

  lemma Split(p: seq<Token>, us: seq<Token>)
    requires us != []
    ensures p + us == p + [us[0]] + us[1..]
  {
  }

  lemma {:induction false} MoreOrderSpelled(q: seq<Token>, items: seq<OrderByItem>, ts: seq<Token>)
      returns (p: seq<Token>)
    requires Listed(OrderSpells, items, q)
    ensures var r := ReadMoreOrder(items, ts); r.Got? ==> q + ts == p + r.rest && Listed(OrderSpells, r.value, p)
    decreases |ts|
  {
    hide Listed, OrderSpells, ReadOrderItem;
    p := q;
    if Starts(ts, Comma) {
      var i := ReadOrderItem(ts[1..]);
      var b := OrderSpelled(ts[1..]);
      if i.Got? {
        ListedLast(OrderSpells, items, i.value, q, b);
        Linked(q + ts, q, Comma, ts, b, i.rest);
        p := MoreOrderSpelled(q + [Comma] + b, items + [i.value], i.rest);
      }
    }
  }

  lemma ClauseSpelled(word: Token, ts: seq<Token>) returns (p: seq<Token>)
    ensures var r := ReadClause(word, ts); r.Got? ==> ts == p + r.rest && ClauseSpells(word, r.value, p)
  {
    hide Spells, ReadExpression;
    p := [];
    if Starts(ts, word) {
      var b := ExpressionSpelled(ts[1..]);
      p := [word] + b;
      if ReadExpression(ts[1..]).Got? { Headed(word, ts, b, ReadExpression(ts[1..]).rest); }
    }
  }

  lemma TwoWords(a: Token, b: Token, ts: seq<Token>, p: seq<Token>, rest: seq<Token>)
    requires Starts(ts, a) && Starts(ts[1..], b) && ts[2..] == p + rest
    ensures ts == ([a, b] + p) + rest
  {
  }

  lemma GroupSpelled(ts: seq<Token>) returns (p: seq<Token>)
    ensures var r := ReadGroup(ts); r.Got? ==> ts == p + r.rest && GroupSpells(r.value, p)
  {
    hide ListSpells, ReadList;
    p := [];
    if Starts(ts, GroupTok) && Starts(ts[1..], ByTok) {
      var r := ReadList(ts[2..]);
      var b := ListSpelled(ts[2..]);
      p := [GroupTok, ByTok] + b;
      if r.Got? {
        SomeSpelled(r.value, b);
        TwoWords(GroupTok, ByTok, ts, b, r.rest);
      }
    }
  }

  lemma SomeListed<T>(spells: (T, seq<Token>) -> bool, xs: seq<T>, p: seq<Token>)
    ensures Listed(spells, xs, p) ==> xs != []
  {
  }

  lemma OrderBySpelled(ts: seq<Token>) returns (p: seq<Token>)
    ensures var r := ReadOrderBy(ts); r.Got? ==> ts == p + r.rest && OrderBySpells(r.value, p)
  {
    hide Listed, OrderSpells, ReadOrderItem, ReadMoreOrder;
    p := [];
    if Starts(ts, OrderTok) && Starts(ts[1..], ByTok) {
      var i := ReadOrderItem(ts[2..]);
      var b := OrderSpelled(ts[2..]);
      if i.Got? {
        ListedOne(OrderSpells, i.value, b);
        var r := ReadMoreOrder([i.value], i.rest);
        var c := MoreOrderSpelled(b, [i.value], i.rest);
        p := [OrderTok, ByTok] + c;
        if r.Got? {
          SomeListed(OrderSpells, r.value, c);
          TwoWords(OrderTok, ByTok, ts, c, r.rest);
        }
      }
    }
  }

  lemma LimitSpelled(ts: seq<Token>) returns (p: seq<Token>)
    ensures var r := ReadLimit(ts); r.Got? ==> ts == p + r.rest && LimitSpells(r.value.0, r.value.1, p)
  {
    p := [];
    if Starts(ts, LimitTok) && First(ts[1..]).IntLit? {
      if !Starts(ts[2..], OffsetTok) {
        p := ts[..2];
        assert p == [LimitTok, IntLit(ts[1].n)];
      } else if First(ts[3..]).IntLit? {
        p := ts[..4];
        assert p == [LimitTok, IntLit(ts[1].n), OffsetTok, IntLit(ts[3].n)];
      }
    }
  }

  lemma TailSpelled(ts: seq<Token>) returns (p: seq<Token>)
    ensures var r := ReadTail(ts); r.Got? ==> ts == p + r.rest && TailSpells(r.value, p)
  {
    hide ClauseSpells, GroupSpells, OrderBySpells, LimitSpells, ReadClause, ReadGroup, ReadOrderBy, ReadLimit;
    p := [];
    var w := ReadClause(WhereTok, ts);
    var a := ClauseSpelled(WhereTok, ts);
    if w.Got? {
      var g := ReadGroup(w.rest);
      var b := GroupSpelled(w.rest);
      if g.Got? {
        var h := ReadClause(HavingTok, g.rest);
        var c := ClauseSpelled(HavingTok, g.rest);
        if h.Got? {
          var o := ReadOrderBy(h.rest);
          var d := OrderBySpelled(h.rest);
          if o.Got? {
            var l := ReadLimit(o.rest);
            var e := LimitSpelled(o.rest);
            p := a + (b + (c + (d + e)));
            if l.Got? { FiveParts(a, b, c, d, e, l.rest); }
          }
        }
      }
    }
  }

  lemma FiveParts(a: seq<Token>, b: seq<Token>, c: seq<Token>, d: seq<Token>, e: seq<Token>, rest: seq<Token>)
    ensures a + (b + (c + (d + (e + rest)))) == a + (b + (c + (d + e))) + rest
  {
  }

  // ----- statements

  /** What reading a SELECT goes through. */
  lemma SelectOf(us: seq<Token>) returns (h: Parse<(bool, seq<SelectItem>)>, t: Parse<TableRef>,
        c: Parse<seq<JoinClause>>, j: Parse<seq<JoinClause>>, l: Parse<Tail>)
    requires ReadSelect(us).Got?
    ensures h == ReadHead(AfterDistinct(us)) && h.Got? && Starts(h.rest, FromTok)
    ensures t == ReadTable(h.rest[1..]) && t.Got? && c == ReadCommaTables([], t.rest) && c.Got?
    ensures j == ReadJoins(c.value, c.rest) && j.Got? && l == ReadTail(j.rest) && l.Got?
    ensures ReadSelect(us)
            == Got(SelectStmt(Starts(us, DistinctTok), h.value.0, h.value.1, t.value, j.value, l.value), l.rest)
  {
    hide ReadHead, ReadTable, ReadCommaTables, ReadJoins, ReadTail;
    h := ReadHead(AfterDistinct(us));
    t := ReadTable(h.rest[1..]);
    c := ReadCommaTables([], t.rest);
    j := ReadJoins(c.value, c.rest);
    l := ReadTail(j.rest);
  }

  lemma SpellSelect(distinct: bool, all: bool, items: seq<SelectItem>, from: TableRef, joins: seq<JoinClause>,
        tail: Tail, h: seq<Token>, f: seq<Token>, j: seq<Token>, t: seq<Token>)
    requires HeadSpells(all, items, h) && TableSpells(from, f) && JoinsSpell(joins, j) && TailSpells(tail, t)
    ensures StmtSpells(SelectStmt(distinct, all, items, from, joins, tail),
                       [SelectTok] + (Distinct(distinct) + (h + ([FromTok] + (f + (j + t))))))
  {
    hide HeadSpells, TableSpells, JoinsSpell, TailSpells, Distinct;
  }

  lemma SelectSpelled(ts: seq<Token>) returns (p: seq<Token>)
    requires Starts(ts, SelectTok)
    ensures var r := ReadSelect(ts[1..]); r.Got? ==> ts == p + r.rest && StmtSpells(r.value, p)
  {
    hide HeadSpells, TableSpells, JoinsSpell, TailSpells, Distinct, ReadHead, ReadTable, ReadCommaTables, ReadJoins,
         ReadTail, StmtSpells, ReadSelect;
    p := [];
    var us := ts[1..];
    if ReadSelect(us).Got? {
      var h, t, c, j, l := SelectOf(us);
      var distinct := Starts(us, DistinctTok);
      var a := HeadSpelled(AfterDistinct(us));
      var b := TableSpelled(h.rest[1..]);
      var d := AllJoinsSpelled(t.rest);
      var e := TailSpelled(j.rest);
      p := [SelectTok] + (Distinct(distinct) + (a + ([FromTok] + (b + (d + e)))));
      SpellSelect(distinct, h.value.0, h.value.1, t.value, j.value, l.value, a, b, d, e);
      SelectParts(ts, a, h.rest, b, t.rest, d, j.rest, e, l.rest);
    }
  }

  lemma SelectParts(ts: seq<Token>, a: seq<Token>, us: seq<Token>, b: seq<Token>, vs: seq<Token>, d: seq<Token>,
        ws: seq<Token>, e: seq<Token>, rest: seq<Token>)
    requires Starts(ts, SelectTok) && AfterDistinct(ts[1..]) == a + us && Starts(us, FromTok) && us[1..] == b + vs
    requires vs == d + ws && ws == e + rest
    ensures ts == [SelectTok] + (Distinct(Starts(ts[1..], DistinctTok)) + (a + ([FromTok] + (b + (d + e))))) + rest
  {
    hide Distinct, AfterDistinct;
    WithDistinct(ts[1..], a, us);
    var t := b + (d + e);
    assert us[1..] == t + rest;
    assert us == ([FromTok] + t) + rest;
    SqlRoundTrip.Cat(a, [FromTok] + t, rest);
    assert ts[1..] == (Distinct(Starts(ts[1..], DistinctTok)) + (a + ([FromTok] + t))) + rest;
    Headed(SelectTok, ts, Distinct(Starts(ts[1..], DistinctTok)) + (a + ([FromTok] + t)), rest);
  }

  lemma {:induction false} NamesSpelled(ts: seq<Token>, names: seq<string>) returns (p: seq<Token>, more: seq<string>)
    ensures var r := ReadNames(names, ts);
            r.Got? ==> ts == p + r.rest && r.value == names + more && Listed(NameSpells, more, p)
    decreases |ts|
  {
    hide Listed;
    p, more := [], [];
    if First(ts).Ident? {
      if Starts(ts[1..], Comma) {
        assert ts[1..][1..] == ts[2..];
        var q, others := NamesSpelled(ts[2..], names + [ts[0].name]);
        p, more := [ts[0]] + [Comma] + q, [ts[0].name] + others;
        var r := ReadNames(names + [ts[0].name], ts[2..]);
        if r.Got? {
          SomeListed(NameSpells, others, q);
          assert more[1..] == others;
          ListedFirst(NameSpells, more, [ts[0]], q);
          assert ts == [ts[0]] + [Comma] + ts[2..];
          assert names + [ts[0].name] + others == names + more;
        }
      } else {
        p, more := [ts[0]], [ts[0].name];
        ListedOne(NameSpells, ts[0].name, p);
      }
    }
  }

  lemma ColumnsSpelled(ts: seq<Token>) returns (p: seq<Token>)
    ensures var r := ReadColumns(ts); r.Got? ==> ts == p + r.rest && ColumnsSpell(r.value, p)
  {
    hide Listed, NameSpells, ReadNames, InParens;
    p := [];
    if Starts(ts, LParen) {
      var r := ReadNames([], ts[1..]);
      var b, names := NamesSpelled(ts[1..], []);
      if r.Got? && Starts(r.rest, RParen) {
        assert [] + names == names;
        SomeListed(NameSpells, names, b);
        p := InParens(b);
        Enclosed(ts, b, r.rest);
      }
    }
  }

  lemma InsertOf(us: seq<Token>) returns (c: Parse<seq<string>>, v: Parse<seq<Expr>>)
    requires ReadInsert(us).Got?
    ensures Starts(us, IntoTok) && First(us[1..]).Ident?
    ensures c == ReadColumns(us[2..]) && c.Got? && Starts(c.rest, ValuesTok) && Starts(c.rest[1..], LParen)
    ensures v == ReadList(c.rest[1..][1..]) && v.Got? && Starts(v.rest, RParen)
    ensures ReadInsert(us) == Got(InsertStmt(us[1].name, c.value, v.value), v.rest[1..])
  {
    hide ReadColumns, ReadList;
    c := ReadColumns(us[2..]);
    assert c.rest[1..][1..] == c.rest[2..];
    v := ReadList(c.rest[2..]);
  }

  lemma SpellInsert(table: string, columns: seq<string>, values: seq<Expr>, c: seq<Token>, v: seq<Token>)
    requires ColumnsSpell(columns, c) && ListSpells(values, v)
    ensures StmtSpells(InsertStmt(table, columns, values),
                       [InsertTok, IntoTok, Ident(table)] + (c + ([ValuesTok] + InParens(v))))
  {
    hide ColumnsSpell, ListSpells, InParens;
  }

  lemma InsertSpelled(ts: seq<Token>) returns (p: seq<Token>)
    requires Starts(ts, InsertTok)
    ensures var r := ReadInsert(ts[1..]); r.Got? ==> ts == p + r.rest && StmtSpells(r.value, p)
  {
    hide ColumnsSpell, ListSpells, ReadColumns, ReadList, InParens, StmtSpells, ReadInsert;
    p := [];
    var us := ts[1..];
    if ReadInsert(us).Got? {
      var c, v := InsertOf(us);
      var a := ColumnsSpelled(us[2..]);
      var b := ListSpelled(c.rest[1..][1..]);
      p := [InsertTok, IntoTok, Ident(us[1].name)] + (a + ([ValuesTok] + InParens(b)));
      SpellInsert(us[1].name, c.value, v.value, a, b);
      Enclosed(c.rest[1..], b, v.rest);
      Headed(ValuesTok, c.rest, InParens(b), v.rest[1..]);
      SqlRoundTrip.Cat(a, [ValuesTok] + InParens(b), v.rest[1..]);
      ThreeWords(ts, InsertTok, IntoTok, us[1], a + ([ValuesTok] + InParens(b)), v.rest[1..]);
    }
  }

  lemma ThreeWords(ts: seq<Token>, a: Token, b: Token, c: Token, p: seq<Token>, rest: seq<Token>)
    requires Starts(ts, a) && Starts(ts[1..], b) && Starts(ts[1..][1..], c) && ts[1..][2..] == p + rest
    ensures ts == ([a, b, c] + p) + rest
  {
    assert ts[1..][2..] == ts[3..];
    assert ts == [a, b, c] + ts[3..];
  }

  lemma AssignmentSpelled(ts: seq<Token>) returns (p: seq<Token>)
    ensures var r := ReadAssignment(ts); r.Got? ==> ts == p + r.rest && AssignmentSpells(r.value, p)
  {
    hide Spells, ReadExpression;
    p := [];
    if First(ts).Ident? && Starts(ts[1..], EqTok) {
      var b := ExpressionSpelled(ts[2..]);
      p := [Ident(ts[0].name), EqTok] + b;
      if ReadExpression(ts[2..]).Got? { TwoWords(ts[0], EqTok, ts, b, ReadExpression(ts[2..]).rest); }
    }
  }

  lemma {:induction false} MoreAssignmentsSpelled(q: seq<Token>, xs: seq<(string, Expr)>, ts: seq<Token>)
      returns (p: seq<Token>)
    requires Listed(AssignmentSpells, xs, q)
    ensures var r := ReadMoreAssignments(xs, ts);
            r.Got? ==> q + ts == p + r.rest && Listed(AssignmentSpells, r.value, p)
    decreases |ts|
  {
    hide Listed, AssignmentSpells, ReadAssignment;
    p := q;
    if Starts(ts, Comma) {
      var a := ReadAssignment(ts[1..]);
      var b := AssignmentSpelled(ts[1..]);
      if a.Got? {
        ListedLast(AssignmentSpells, xs, a.value, q, b);
        Linked(q + ts, q, Comma, ts, b, a.rest);
        p := MoreAssignmentsSpelled(q + [Comma] + b, xs + [a.value], a.rest);
      }
    }
  }

  lemma UpdateOf(us: seq<Token>) returns (a: Parse<(string, Expr)>, xs: Parse<seq<(string, Expr)>>,
        w: Parse<Option<Expr>>)
    requires ReadUpdate(us).Got?
    ensures First(us).Ident? && Starts(us[1..], SetTok) && a == ReadAssignment(us[2..]) && a.Got?
    ensures xs == ReadMoreAssignments([a.value], a.rest) && xs.Got? && w == ReadClause(WhereTok, xs.rest) && w.Got?
    ensures ReadUpdate(us) == Got(UpdateStmt(us[0].name, xs.value, w.value), w.rest)
  {
    hide ReadAssignment, ReadMoreAssignments, ReadClause;
    a := ReadAssignment(us[2..]);
    xs := ReadMoreAssignments([a.value], a.rest);
    w := ReadClause(WhereTok, xs.rest);
  }

  lemma SpellUpdate(table: string, xs: seq<(string, Expr)>, filter: Option<Expr>, a: seq<Token>, w: seq<Token>)
    requires Listed(AssignmentSpells, xs, a) && ClauseSpells(WhereTok, filter, w)
    ensures StmtSpells(UpdateStmt(table, xs, filter), [UpdateTok, Ident(table), SetTok] + (a + w))
  {
    hide Listed, AssignmentSpells, ClauseSpells;
  }

  lemma UpdateSpelled(ts: seq<Token>) returns (p: seq<Token>)
    requires Starts(ts, UpdateTok)
    ensures var r := ReadUpdate(ts[1..]); r.Got? ==> ts == p + r.rest && StmtSpells(r.value, p)
  {
    hide Listed, AssignmentSpells, ClauseSpells, ReadAssignment, ReadMoreAssignments, ReadClause, StmtSpells,
         ReadUpdate;
    p := [];
    var us := ts[1..];
    if ReadUpdate(us).Got? {
      var a, xs, w := UpdateOf(us);
      var b := AssignmentSpelled(us[2..]);
      ListedOne(AssignmentSpells, a.value, b);
      var c := MoreAssignmentsSpelled(b, [a.value], a.rest);
      var d := ClauseSpelled(WhereTok, xs.rest);
      p := [UpdateTok, Ident(us[0].name), SetTok] + (c + d);
      SpellUpdate(us[0].name, xs.value, w.value, c, d);
      SqlRoundTrip.Cat(c, d, w.rest);
      ThreeWords(ts, UpdateTok, us[0], SetTok, c + d, w.rest);
    }
  }

  lemma DeleteSpelled(ts: seq<Token>) returns (p: seq<Token>)
    requires Starts(ts, DeleteTok)
    ensures var r := ReadDelete(ts[1..]); r.Got? ==> ts == p + r.rest && StmtSpells(r.value, p)
  {
    hide ClauseSpells, ReadClause;
    p := [];
    var us := ts[1..];
    if Starts(us, FromTok) && First(us[1..]).Ident? {
      var w := ReadClause(WhereTok, us[2..]);
      var d := ClauseSpelled(WhereTok, us[2..]);
      p := [DeleteTok, FromTok, Ident(us[1].name)] + d;
      if w.Got? { ThreeWords(ts, DeleteTok, FromTok, us[1], d, w.rest); }
    }
  }

  lemma TypeSpelled(ts: seq<Token>) returns (p: seq<Token>)
    ensures var r := ReadType(ts); r.Got? ==> ts == p + r.rest && TypeSpells(r.value.0, r.value.1, p)
  {
    p := ts[..if ts == [] then 0 else 1];
    if ReadType(ts).Got? && ts[0].base.VARCHAR? && Starts(ts[1..], LParen) {
      p := ts[..4];
      assert p == [TypeTok(VARCHAR), LParen, IntLit(ts[2].n), RParen];
    }
  }

  lemma DefSpelled(ts: seq<Token>) returns (p: seq<Token>)
    ensures var r := ReadDef(ts); r.Got? ==> ts == p + r.rest && DefSpells(r.value, p)
  {
    hide TypeSpells, ReadType;
    p := [];
    if First(ts).Ident? {
      var t := ReadType(ts[1..]);
      var b := TypeSpelled(ts[1..]);
      if t.Got? {
        var r := ReadDef(ts);
        var n := if Starts(t.rest, NotTok) then [NotTok, NullLit] else [];
        p := [Ident(ts[0].name)] + b + n;
        if r.Got? { DefParts(ts, b, t.rest); }
      }
    }
  }

  lemma DefParts(ts: seq<Token>, b: seq<Token>, us: seq<Token>)
    requires First(ts).Ident? && ts[1..] == b + us
    ensures !Starts(us, NotTok) ==> ts == [Ident(ts[0].name)] + b + [] + us
    ensures Starts(us, NotTok) && Starts(us[1..], NullLit)
            ==> ts == [Ident(ts[0].name)] + b + [NotTok, NullLit] + us[2..]
  {
    assert ts == [ts[0]] + b + us;
    if Starts(us, NotTok) && Starts(us[1..], NullLit) { assert us == [NotTok, NullLit] + us[2..]; }
  }

  /** The definitions already read, in q, end with a comma unless there are none. */
  ghost predicate DefsSoFar(ds: seq<ColumnDef>, q: seq<Token>) {
    if ds == [] then q == [] else exists p :: q == p + [Comma] && Listed(DefSpells, ds, p)
  }

  lemma {:induction false} DefsSpelled(q: seq<Token>, ds: seq<ColumnDef>, ts: seq<Token>) returns (p: seq<Token>)
    requires DefsSoFar(ds, q)
    ensures var r := ReadDefs(ds, ts); r.Got? ==> q + ts == p + r.rest && DefsSpell(r.value, p)
    decreases |ts|
  {
    hide Listed, DefSpells, DefsSoFar, ReadDef;
    p := q;
    if Starts(ts, RParen) || First(ts).Eof? {
      DefsDone(ds, q);
    } else {
      var d := ReadDef(ts);
      var b := DefSpelled(ts);
      if d.Got? {
        p := q + b;
        DefsOneMore(ds, q, d.value, b);
        SqlRoundTrip.Cat(q, b, d.rest);
        if Starts(d.rest, Comma) {
          Split(q + b, d.rest);
          p := DefsSpelled(q + b + [Comma], ds + [d.value], d.rest[1..]);
        }
      }
    }
  }

  lemma DefsDone(ds: seq<ColumnDef>, q: seq<Token>)
    requires DefsSoFar(ds, q)
    ensures DefsSpell(ds, q)
  {
    hide Listed, DefSpells;
  }

  lemma DefsOneMore(ds: seq<ColumnDef>, q: seq<Token>, d: ColumnDef, b: seq<Token>)
    requires DefsSoFar(ds, q) && DefSpells(d, b)
    ensures DefsSpell(ds + [d], q + b) && DefsSoFar(ds + [d], q + b + [Comma])
  {
    hide Listed, DefSpells;
    if ds == [] {
      ListedOne(DefSpells, d, b);
      assert ds + [d] == [d] && q + b == b;
    } else {
      var p :| q == p + [Comma] && Listed(DefSpells, ds, p);
      ListedLast(DefSpells, ds, d, p, b);
    }
  }

  lemma CreateOf(us: seq<Token>) returns (d: Parse<seq<ColumnDef>>)
    requires ReadCreate(us).Got?
    ensures Starts(us, TableTok) && First(us[1..]).Ident? && Starts(us[2..], LParen)
    ensures d == ReadDefs([], us[2..][1..]) && d.Got? && Starts(d.rest, RParen)
    ensures ReadCreate(us) == Got(CreateTableStmt(us[1].name, d.value), d.rest[1..])
  {
    hide ReadDefs;
    assert us[2..][1..] == us[3..];
    d := ReadDefs([], us[3..]);
  }

  lemma SpellCreate(table: string, defs: seq<ColumnDef>, p: seq<Token>)
    requires DefsSpell(defs, p)
    ensures StmtSpells(CreateTableStmt(table, defs), [CreateTok, TableTok, Ident(table)] + InParens(p))
  {
    hide DefsSpell, InParens;
  }

  lemma CreateSpelled(ts: seq<Token>) returns (p: seq<Token>)
    requires Starts(ts, CreateTok)
    ensures var r := ReadCreate(ts[1..]); r.Got? ==> ts == p + r.rest && StmtSpells(r.value, p)
  {
    hide DefsSpell, ReadDefs, InParens, StmtSpells, ReadCreate;
    p := [];
    var us := ts[1..];
    if ReadCreate(us).Got? {
      var d := CreateOf(us);
      var b := DefsSpelled([], [], us[2..][1..]);
      p := [CreateTok, TableTok, Ident(us[1].name)] + InParens(b);
      SpellCreate(us[1].name, d.value, b);
      assert [] + us[2..][1..] == us[2..][1..];
      Enclosed(us[2..], b, d.rest);
      ThreeWords(ts, CreateTok, TableTok, us[1], InParens(b), d.rest[1..]);
    }
  }

  lemma SpellDrop(table: string)
    ensures StmtSpells(DropTableStmt(table, true), [DropTok, TableTok, IfTok, ExistsTok, Ident(table)])
    ensures StmtSpells(DropTableStmt(table, false), [DropTok, TableTok, Ident(table)])
  {
    assert [DropTok, TableTok] + [IfTok, ExistsTok] + [Ident(table)]
        == [DropTok, TableTok, IfTok, ExistsTok, Ident(table)];
    assert [DropTok, TableTok] + [] + [Ident(table)] == [DropTok, TableTok, Ident(table)];
  }

  lemma DropOf(us: seq<Token>) returns (n: nat)
    requires ReadDrop(us).Got?
    ensures n < |us| && us[n].Ident? && us[0] == TableTok
    ensures n == 1 || (n == 3 && us[1] == IfTok && us[2] == ExistsTok)
    ensures ReadDrop(us) == Got(DropTableStmt(us[n].name, n == 3), us[n + 1..])
  {
    n := if Starts(us[1..], IfTok) then 3 else 1;
  }

  lemma DropSpelled(ts: seq<Token>) returns (p: seq<Token>)
    requires Starts(ts, DropTok)
    ensures var r := ReadDrop(ts[1..]); r.Got? ==> ts == p + r.rest && StmtSpells(r.value, p)
  {
    hide StmtSpells, ReadDrop;
    var us := ts[1..];
    p := [];
    if ReadDrop(us).Got? {
      var n := DropOf(us);
      SpellDrop(us[n].name);
      p := ts[..n + 2];
      DropTokens(ts, n);
    }
  }

  lemma DropTokens(ts: seq<Token>, n: nat)
    requires n + 1 < |ts| && ts[0] == DropTok && ts[1] == TableTok
    requires n == 1 || (n == 3 && ts[2] == IfTok && ts[3] == ExistsTok)
    ensures ts[..n + 2] == if n == 3 then [DropTok, TableTok, IfTok, ExistsTok, ts[4]] else [DropTok, TableTok, ts[2]]
    ensures ts == ts[..n + 2] + ts[1..][n + 1..]
  {
    assert ts[1..][n + 1..] == ts[n + 2..];
  }

  /** What is read as a statement spells it. */
  lemma StmtSpelled(ts: seq<Token>) returns (p: seq<Token>)
    ensures var r := ReadStmt(ts); r.Got? ==> ts == p + r.rest && StmtSpells(r.value, p)
  {
    hide StmtSpells, ReadCreate, ReadDrop, ReadSelect, ReadInsert, ReadUpdate, ReadDelete;
    p := [];
    match First(ts)
    case CreateTok => p := CreateSpelled(ts);
    case DropTok => p := DropSpelled(ts);
    case SelectTok => p := SelectSpelled(ts);
    case InsertTok => p := InsertSpelled(ts);
    case UpdateTok => p := UpdateSpelled(ts);
    case DeleteTok => p := DeleteSpelled(ts);
    case _ =>
  }

  /** So with a script. */
  lemma {:induction false} ScriptSpelled(done: seq<Stmt>, ts: seq<Token>) returns (ss: seq<Stmt>)
    ensures var r := ReadAll(done, ts); r.Some? ==> r.value == done + ss && ScriptSpells(ss, ts)
    decreases |ts|
  {
    hide StmtSpells, ReadStmt;
    ss := [];
    if !First(ts).Eof? {
      var s := ReadStmt(ts);
      var p := StmtSpelled(ts);
      if s.Got? {
        var sep := if Starts(s.rest, Semicolon) then [Semicolon] else [];
        var us := if Starts(s.rest, Semicolon) then s.rest[1..] else s.rest;
        var more := ScriptSpelled(done + [s.value], us);
        ss := [s.value] + more;
        assert done + [s.value] + more == done + ss && ss[1..] == more;
        assert ts == p + sep + us;
      }
    }
  }
}
