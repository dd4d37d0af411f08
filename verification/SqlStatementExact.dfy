/** The condition of the statement round trip is exact: over well-formed expressions, only well-formed statements are
    read back. */
module SqlStatementExact {
  import opened Wrappers
  import opened SqlAst
  import opened SqlGrammar
  import opened SqlRoundTrip
  import opened SqlStatements
  import opened SqlStatementRoundTrip
  import W = SqlWholeTree

  // ----- joins

  predicate ConditionsWF(js: seq<JoinClause>) { forall i :: 0 <= i < |js| ==> OptionWF(js[i].condition) }

  /** A join that the loop over the keywords reads. */
  predicate Keyword(j: JoinClause) { !j.kind.CROSS? && j.condition.Some? }

  /** A join that prints as a comma. */
  predicate PlainCross(j: JoinClause) { j.kind.CROSS? && j.condition.None? }

  lemma PlainCrossShape(j: JoinClause, us: seq<Token>)
    requires PlainCross(j)
    ensures PrintJoin(j) + us == [Comma] + (PrintTable(j.table) + us)
  {
    hide PrintTable;
  }

  lemma NoConditionShape(j: JoinClause, us: seq<Token>)
    requires !PlainCross(j) && j.condition.None?
    ensures PrintJoin(j) + us == [JoinWord(j.kind), JoinTok] + (PrintTable(j.table) + us)
  {
    hide PrintTable, JoinWord;
  }

  /** What any list of joins starts with ends an expression and a table. */
  lemma JoinsFollow(js: seq<JoinClause>, rest: seq<Token>)
    requires From(1, rest)
    ensures var ts := PrintJoins(js) + rest; Ends(ts) && TableEnds(ts) && !Starts(ts, OnTok)
    ensures js == [] || !PlainCross(js[0]) ==> !Starts(PrintJoins(js) + rest, Comma)
  {
    hide PrintJoins, PrintJoin, PrintTable, Print, Ends, From, JoinWord;
    JoinsShape(js, rest);
    if js == [] {
      FromEnds(1, rest);
      FromPlain(1, rest);
    } else {
      var us := PrintJoins(js[1..]) + rest;
      if PlainCross(js[0]) {
        PlainCrossShape(js[0], us);
        WordEnds(Comma, PrintTable(js[0].table) + us);
      } else if js[0].condition.Some? {
        JoinShape(js[0], us);
        JoinTypeBack(js[0].kind, PrintTable(js[0].table) + ([OnTok] + (Print(js[0].condition.value) + us)));
        NotOn(js[0].kind, PrintTable(js[0].table) + ([OnTok] + (Print(js[0].condition.value) + us)));
      } else {
        NoConditionShape(js[0], us);
        JoinTypeBack(js[0].kind, PrintTable(js[0].table) + us);
        NotOn(js[0].kind, PrintTable(js[0].table) + us);
      }
    }
  }

  lemma NotOn(k: JoinType, us: seq<Token>)
    ensures !Starts([JoinWord(k), JoinTok] + us, OnTok)
  {
  }

  lemma JoinFails(done: seq<JoinClause>, ts: seq<Token>)
    requires StartsJoin(ts) && ReadJoin(ts) == Fail
    ensures ReadJoins(done, ts) == Fail
  {
    hide ReadJoin, StartsJoin;
  }

  /** After the table of a join, ON must follow exactly when the join is no cross join. */
  lemma ConditionFails(kind: JoinType, t: TableRef, us: seq<Token>)
    requires TableEnds(us) && (Starts(us, OnTok) <==> kind.CROSS?)
    ensures ReadJoin([JoinWord(kind), JoinTok] + (PrintTable(t) + us)) == Fail
  {
    hide PrintTable, ReadTable, TableEnds, ReadJoinType, JoinWord, ReadExpression;
    JoinTypeBack(kind, PrintTable(t) + us);
    Follow(JoinTok, PrintTable(t) + us);
    TableBack(t, us);
  }

  lemma OnEndsTable(us: seq<Token>)
    ensures TableEnds([OnTok] + us) && Starts([OnTok] + us, OnTok)
  {
  }

  lemma MisfitFails(done: seq<JoinClause>, j: JoinClause, us: seq<Token>)
    requires !Keyword(j) && !PlainCross(j) && TableEnds(us) && !Starts(us, OnTok)
    ensures ReadJoins(done, PrintJoin(j) + us) == Fail
  {
    hide PrintJoin, PrintTable, ReadJoin, ReadJoins, TableEnds, JoinWord, Print, StartsJoin;
    if j.condition.Some? {
      var vs := [OnTok] + (Print(j.condition.value) + us);
      JoinShape(j, us);
      OnEndsTable(Print(j.condition.value) + us);
      ConditionFails(j.kind, j.table, vs);
      JoinTypeBack(j.kind, PrintTable(j.table) + vs);
    } else {
      NoConditionShape(j, us);
      ConditionFails(j.kind, j.table, us);
      JoinTypeBack(j.kind, PrintTable(j.table) + us);
    }
    JoinFails(done, PrintJoin(j) + us);
  }

  /** The loop over the joins reads a list back exactly when each of them has a keyword and a condition. */
  lemma {:induction false} JoinsBackIff(done: seq<JoinClause>, js: seq<JoinClause>, rest: seq<Token>)
    requires ConditionsWF(js) && From(1, rest)
    ensures var r := ReadJoins(done, PrintJoins(js) + rest);
            if forall i :: 0 <= i < |js| ==> Keyword(js[i]) then r == Got(done + js, rest)
            else r.Fail? || r.value != done + js
    decreases js
  {
    hide PrintJoin, ReadJoin, WF, Ends, StartsJoin, From, ReadJoins, PrintJoins, TableEnds;
    if js == [] {
      JoinsBack(done, js, rest);
    } else {
      var us := PrintJoins(js[1..]) + rest;
      JoinsShape(js, rest);
      JoinsFollow(js[1..], rest);
      if Keyword(js[0]) {
        JoinBack(js[0], us);
        OneJoin(done, PrintJoin(js[0]) + us, js[0], us);
        JoinsBackIff(done + [js[0]], js[1..], rest);
        assert done + js == (done + [js[0]]) + js[1..];
        assert forall i :: 1 <= i < |js| ==> js[i] == js[1..][i - 1];
      } else if PlainCross(js[0]) {
        PlainCrossShape(js[0], us);
        CommaStops(done, PrintTable(js[0].table) + us);
        assert |done + js| > |done|;
      } else {
        MisfitFails(done, js[0], us);
      }
    }
  }

  /** A comma ends the loop over the joins. */
  lemma CommaStops(done: seq<JoinClause>, us: seq<Token>)
    ensures ReadJoins(done, [Comma] + us) == Got(done, [Comma] + us)
  {
    hide ReadJoin;
  }

  /** The comma tables in front. */
  lemma Commas(js: seq<JoinClause>) returns (k: nat)
    ensures k <= |js| && (forall i :: 0 <= i < k ==> PlainCross(js[i])) && (k < |js| ==> !PlainCross(js[k]))
  {
    k := 0;
    while k < |js| && PlainCross(js[k])
      invariant k <= |js| && forall i :: 0 <= i < k ==> PlainCross(js[i])
    {
      k := k + 1;
    }
  }

  lemma SplitWF(js: seq<JoinClause>, k: nat)
    requires k <= |js| && ConditionsWF(js)
    requires (forall i :: 0 <= i < k ==> PlainCross(js[i])) && (k < |js| ==> !PlainCross(js[k]))
    ensures JoinsWF(js) <==> forall i :: 0 <= i < |js| - k ==> Keyword(js[k..][i])
  {
    hide WF;
    if forall i :: 0 <= i < |js| - k ==> Keyword(js[k..][i]) {
      assert forall i :: k <= i < |js| ==> js[i] == js[k..][i - k];
    }
  }

  /** The table list of a SELECT after its first table: comma tables, then joins. */
  lemma TablesBackIff(js: seq<JoinClause>, rest: seq<Token>)
    requires ConditionsWF(js) && From(1, rest)
    ensures var c := ReadCommaTables([], PrintJoins(js) + rest);
            c.Got? && var r := ReadJoins(c.value, c.rest);
                      if JoinsWF(js) then r == Got(js, rest) else r.Fail? || r.value != js
  {
    hide WF, ReadCommaTables, ReadJoins, PrintJoins, From, TableEnds, Ends, JoinsWF, Keyword;
    var k := Commas(js);
    JoinsFollow(js[k..], rest);
    CommaTablesBack([], js, k, rest);
    JoinsBackIff(js[..k], js[k..], rest);
    SplitWF(js, k);
    assert [] + js[..k] == js[..k] && js[..k] + js[k..] == js;
  }

  // ----- the head and the tail of a SELECT

  /** The select list is read back exactly when it is a star alone or a list of items. */
  lemma HeadBackIff(all: bool, items: seq<SelectItem>, rest: seq<Token>)
    requires (forall i :: 0 <= i < |items| ==> WF(items[i].expr)) && Starts(rest, FromTok)
    ensures var ts := PrintHead(false, all, items) + rest;
            !Starts(ts, DistinctTok) && var r := ReadHead(ts);
            if all <==> items == [] then r == Got((all, items), rest) else r.Fail? || r.value != (all, items)
  {
    hide WF, PrintItem, PrintMoreItems, ReadItems;
    if all <==> items == [] {
      ListBackFrom(all, items, rest);
    } else if all {
      assert PrintHead(false, all, items) + rest == [Star] + rest;
    } else {
      assert PrintHead(false, all, items) + rest == rest;
      NoItems(rest);
    }
  }

  lemma NoItems(ts: seq<Token>)
    requires Starts(ts, FromTok) || Starts(ts, RParen)
    ensures ReadExpression(ts) == Fail && ReadItems(ts) == Fail
  {
    hide ReadExpression, ReadName, ReadAggregate, ReadCase, ReadNullif, ReadCoalesce;
    assert ReadPrimary(ts) == Fail;
    W.FailsUp(ts);
    W.TestFails(ts);
    assert ReadItem(ts) == Fail;
  }

  lemma TailBackIff(t: Tail, rest: seq<Token>)
    requires TailExprsWF(t) && From(7, rest)
    ensures var r := ReadTail(PrintTail(t) + rest);
            if TailWF(t) then r == Got(t, rest) else r.Fail? || r.value != t
    ensures From(1, PrintTail(t) + rest)
  {
    hide TailExprsWF, LimitWF, ReadTail, ReadLimit, PrintTail, PrintLimit, From;
    TailRead(t, rest);
    LimitBackIff(t.limit, t.offset, rest);
  }

  // ----- statements

  /** All expressions of the statement are well formed. */
  predicate ExprsWF(s: Stmt) {
    match s
    case SelectStmt(_, _, items, _, joins, tail) =>
      (forall i :: 0 <= i < |items| ==> WF(items[i].expr)) && ConditionsWF(joins) && TailExprsWF(tail)
    case InsertStmt(_, _, values) => AllWF(values)
    case UpdateStmt(_, xs, filter) => (forall i :: 0 <= i < |xs| ==> WF(xs[i].1)) && OptionWF(filter)
    case DeleteStmt(_, filter) => OptionWF(filter)
    case CreateTableStmt(_, _) => true
    case DropTableStmt(_, _) => true
  }

  /** How a SELECT is put together from what its parts are read as. */
  lemma SelectRead(us: seq<Token>, distinct: bool, hs: seq<Token>, ts: seq<Token>, from: TableRef, js: seq<Token>)
    requires us == (if distinct then [DistinctTok] else []) + hs && !Starts(hs, DistinctTok)
    requires ReadHead(hs).Got? && ReadHead(hs).rest == [FromTok] + ts && ReadTable(ts) == Got(from, js)
    ensures var r, h, c := ReadSelect(us), ReadHead(hs).value, ReadCommaTables([], js);
            if c.Fail? then r.Fail?
            else
              var j := ReadJoins(c.value, c.rest);
              if j.Fail? then r.Fail?
              else
                var tail := ReadTail(j.rest);
                if tail.Fail? then r.Fail?
                else r == Got(SelectStmt(distinct, h.0, h.1, from, j.value, tail.value), tail.rest)
  {
    hide ReadHead, ReadTable, ReadCommaTables, ReadJoins, ReadTail;
    if distinct {
      Follow(DistinctTok, hs);
    } else {
      assert us == hs;
    }
    Follow(FromTok, ts);
  }

  /** A SELECT whose select list is not read back is not read back. */
  lemma HeadDecides(us: seq<Token>, distinct: bool, hs: seq<Token>, all: bool, items: seq<SelectItem>)
    requires us == (if distinct then [DistinctTok] else []) + hs && !Starts(hs, DistinctTok)
    requires ReadHead(hs).Fail? || ReadHead(hs).value != (all, items)
    ensures var r := ReadSelect(us); r.Fail? || (r.value.SelectStmt? && (r.value.all, r.value.items) != (all, items))
  {
    hide ReadHead, ReadTable, ReadCommaTables, ReadJoins, ReadTail;
    if distinct {
      Follow(DistinctTok, hs);
    } else {
      assert us == hs;
    }
  }

  lemma SelectMisread(s: Stmt, rest: seq<Token>)
    requires s.SelectStmt? && ExprsWF(s) && !StmtWF(s) && From(7, rest)
    ensures ReadStmt(PrintStmt(s) + rest) != Got(s, rest)
  {
    hide ReadStmt, PrintStmt, PrintTable, PrintJoins, PrintTail, PrintHead, ReadSelect, ReadHead, ReadTable,
         ReadCommaTables, ReadJoins, ReadTail, WF, TailWF, TailExprsWF, JoinsWF, ConditionsWF, From, TableEnds, Ends;
    var tail := PrintTail(s.tail) + rest;
    var js := PrintJoins(s.joins) + tail;
    var ts := PrintTable(s.from) + js;
    var hs := PrintHead(false, s.all, s.items) + ([FromTok] + ts);
    var us := (if s.distinct then [DistinctTok] else []) + hs;
    SelectShape(s, rest);
    Follow(FromTok, ts);
    TailBackIff(s.tail, rest);
    HeadBackIff(s.all, s.items, [FromTok] + ts);
    if s.all <==> s.items == [] {
      JoinsFollow(s.joins, tail);
      TableBack(s.from, js);
      TablesBackIff(s.joins, tail);
      SelectRead(us, s.distinct, hs, ts, s.from, js);
    } else {
      HeadDecides(us, s.distinct, hs, s.all, s.items);
    }
    Dispatched(SelectTok, us);
  }

  lemma Dispatched(word: Token, us: seq<Token>)
    ensures word == SelectTok ==> ReadStmt([word] + us) == ReadSelect(us)
    ensures word == InsertTok ==> ReadStmt([word] + us) == ReadInsert(us)
    ensures word == UpdateTok ==> ReadStmt([word] + us) == ReadUpdate(us)
    ensures word == CreateTok ==> ReadStmt([word] + us) == ReadCreate(us)
  {
    hide ReadSelect, ReadInsert, ReadUpdate, ReadDelete, ReadCreate, ReadDrop;
    Follow(word, us);
  }

  /** INSERT without values. */
  lemma InsertMisread(table: string, columns: seq<string>, rest: seq<Token>)
    ensures ReadStmt(PrintStmt(InsertStmt(table, columns, [])) + rest) == Fail
  {
    hide ReadStmt, ReadInsert, PrintStmt, PrintNames, ReadColumns, ReadList, ReadExpression;
    var vs := PrintList([]) + ([RParen] + rest);
    var us := (if columns == [] then [] else [LParen] + PrintNames(columns) + [RParen]) + ([ValuesTok, LParen] + vs);
    assert vs == [RParen] + rest;
    NoItems(vs);
    W.ListFails(vs);
    ValuesIsNoParen(vs);
    ColumnsBack(columns, [ValuesTok, LParen] + vs);
    InsertShape(table, columns, [], rest);
    InsertFails(table, us, columns, vs);
    Dispatched(InsertTok, [IntoTok, Ident(table)] + us);
  }

  lemma InsertFails(table: string, us: seq<Token>, columns: seq<string>, vs: seq<Token>)
    requires ReadColumns(us) == Got(columns, [ValuesTok, LParen] + vs) && ReadList(vs) == Fail
    ensures ReadInsert([IntoTok, Ident(table)] + us) == Fail
  {
    hide ReadColumns, ReadList;
    FollowTwo(IntoTok, Ident(table), us);
    FollowTwo(ValuesTok, LParen, vs);
  }

  lemma FromClear(k: nat, ts: seq<Token>)
    requires From(k, ts)
    ensures W.Clear(ts)
  {
  }

  lemma ClauseFrom(word: Token, k: nat, e: Option<Expr>, rest: seq<Token>)
    requires From(k + 1, rest) && ((k == 1 && word == WhereTok) || (k == 3 && word == HavingTok))
    ensures From(k, PrintClause(word, e) + rest)
  {
    hide Print, PrintClause, From;
    ClauseShape(word, e, rest);
    FromLater(k, rest);
    if e.Some? { FromWord(k, word, Print(e.value) + rest); }
  }

  lemma WhereFrom(filter: Option<Expr>, rest: seq<Token>)
    requires From(7, rest)
    ensures var w := PrintClause(WhereTok, filter) + rest;
            W.Clear(rest) && W.Clear(w) && !Starts(w, Comma) && !First(w).Ident?
  {
    hide PrintClause, From, W.Clear;
    var w := PrintClause(WhereTok, filter) + rest;
    FromSooner(7, 2, rest);
    ClauseFrom(WhereTok, 1, filter, rest);
    FromPlain(1, w);
    FromClear(1, w);
    FromClear(7, rest);
  }

  /** UPDATE without assignments. */
  lemma UpdateMisread(table: string, filter: Option<Expr>, rest: seq<Token>)
    requires From(7, rest)
    ensures ReadStmt(PrintStmt(UpdateStmt(table, [], filter)) + rest) == Fail
  {
    hide ReadStmt, ReadUpdate, PrintStmt, PrintClause, ReadAssignment, From;
    var w := PrintClause(WhereTok, filter) + rest;
    WhereFrom(filter, rest);
    NoAssignment(w);
    EmptyUpdateShape(table, filter, rest);
    UpdateFails(table, w);
    Dispatched(UpdateTok, [Ident(table), SetTok] + w);
  }

  lemma EmptyUpdateShape(table: string, filter: Option<Expr>, rest: seq<Token>)
    ensures PrintStmt(UpdateStmt(table, [], filter)) + rest
            == [UpdateTok] + ([Ident(table), SetTok] + (PrintClause(WhereTok, filter) + rest))
  {
    hide PrintClause;
  }

  lemma NoAssignment(ts: seq<Token>)
    requires !First(ts).Ident?
    ensures ReadAssignment(ts) == Fail
  {
  }

  lemma UpdateFails(table: string, ts: seq<Token>)
    requires ReadAssignment(ts) == Fail
    ensures ReadUpdate([Ident(table), SetTok] + ts) == Fail
  {
    hide ReadAssignment;
    FollowTwo(Ident(table), SetTok, ts);
  }

  // ----- column definitions

  /** VARCHAR without a length is read with length 0, any other type with a length without it. */
  lemma DefMisread(d: ColumnDef, us: seq<Token>)
    requires !DefWF(d) && (Starts(us, Comma) || Starts(us, RParen))
    ensures var r := ReadDef(PrintDef(d) + us); r.Fail? || r.value != d
  {
    hide PrintDef, Nullness, ReadDef, ReadType;
    var vs := Length(d) + (Nullness(d) + us);
    var t := ReadType([TypeTok(d.base)] + vs);
    DefShape(d, us);
    TypeRead(d.base, d.length, Nullness(d) + us);
    DefIs(d.name, [TypeTok(d.base)] + vs);
  }

  lemma TypeRead(base: TypeName, length: Option<nat>, us: seq<Token>)
    requires !(base.VARCHAR? <==> length.Some?) && !Starts(us, LParen)
    ensures var r := ReadType([TypeTok(base)] +
            ((if length.Some? then [LParen, IntLit(length.value), RParen] else []) + us));
            r.Fail? || r.value.1 != length
  {
    var vs := (if length.Some? then [LParen, IntLit(length.value), RParen] else []) + us;
    Follow(TypeTok(base), vs);
  }

  lemma DefIs(name: string, us: seq<Token>)
    ensures var r, t := ReadDef([Ident(name)] + us), ReadType(us);
            r.Fail? || (t.Got? && r.value.length == t.value.1)
  {
    hide ReadType;
    Follow(Ident(name), us);
  }

  lemma {:induction false} DefsExtend(done: seq<ColumnDef>, ts: seq<Token>)
    ensures var r := ReadDefs(done, ts); r.Got? ==> done <= r.value
    decreases |ts|
  {
    hide ReadDef;
    if !Starts(ts, RParen) && !First(ts).Eof? {
      var d := ReadDef(ts);
      if d.Got? && Starts(d.rest, Comma) { DefsExtend(done + [d.value], d.rest[1..]); }
    }
  }

  /** A list of definitions is read back only when each of them is well formed. */
  lemma {:induction false} DefsMisread(done: seq<ColumnDef>, ds: seq<ColumnDef>, k: nat, rest: seq<Token>)
    requires k < |ds| && !DefWF(ds[k]) && forall i :: 0 <= i < k ==> DefWF(ds[i])
    ensures var r := ReadDefs(done, PrintDefs(ds) + ([RParen] + rest)); r.Fail? || r.value != done + ds
    decreases k
  {
    hide PrintDef, ReadDef, PrintMoreDefs, PrintDefs, ReadDefs, DefWF, First;
    var tail := [RParen] + rest;
    var us := PrintMoreDefs(ds[1..]) + tail;
    DefsShape(ds, tail);
    DefsFollow(ds[1..], rest);
    DefStart(ds[0], us);
    if k == 0 {
      DefMisread(ds[0], us);
      FirstDefDecides(done, ds, PrintDef(ds[0]) + us);
    } else {
      var vs := PrintDefs(ds[1..]) + tail;
      DefsShape(ds[1..], tail);
      DefBack(ds[0], us);
      NextDef(done, ds[0], PrintDef(ds[0]) + us, vs);
      DefsMisread(done + [ds[0]], ds[1..], k - 1, rest);
      assert done + ds == (done + [ds[0]]) + ds[1..];
    }
  }

  lemma DefsFollow(ds: seq<ColumnDef>, rest: seq<Token>)
    ensures var ts := PrintMoreDefs(ds) + ([RParen] + rest); Starts(ts, Comma) || Starts(ts, RParen)
  {
    hide PrintDef;
  }

  lemma FirstDefDecides(done: seq<ColumnDef>, ds: seq<ColumnDef>, ts: seq<Token>)
    requires ds != [] && First(ts).Ident? && (ReadDef(ts).Fail? || ReadDef(ts).value != ds[0])
    ensures var r := ReadDefs(done, ts); r.Fail? || r.value != done + ds
  {
    hide ReadDef;
    var d := ReadDef(ts);
    if d.Got? {
      if Starts(d.rest, Comma) { DefsExtend(done + [d.value], d.rest[1..]); }
      assert (done + ds)[|done|] == ds[0];
      assert (done + [d.value])[|done|] == d.value;
    }
  }

  lemma CreateMisread(table: string, ds: seq<ColumnDef>, rest: seq<Token>)
    requires exists i :: 0 <= i < |ds| && !DefWF(ds[i])
    ensures var r := ReadStmt(PrintStmt(CreateTableStmt(table, ds)) + rest);
            r.Fail? || r.value != CreateTableStmt(table, ds)
  {
    hide PrintDefs, ReadDefs, PrintStmt, ReadStmt, ReadCreate, DefWF;
    var us := PrintDefs(ds) + ([RParen] + rest);
    var k := FirstBad(ds);
    DefsMisread([], ds, k, rest);
    assert [] + ds == ds;
    CreateShape(table, ds, rest);
    CreateIs(table, us);
    Dispatched(CreateTok, [TableTok, Ident(table), LParen] + us);
  }

  lemma FirstBad(ds: seq<ColumnDef>) returns (k: nat)
    requires exists i :: 0 <= i < |ds| && !DefWF(ds[i])
    ensures k < |ds| && !DefWF(ds[k]) && forall i :: 0 <= i < k ==> DefWF(ds[i])
  {
    k := 0;
    while DefWF(ds[k])
      invariant k < |ds| && forall i :: 0 <= i < k ==> DefWF(ds[i])
      decreases |ds| - k
    {
      k := k + 1;
    }
  }

  lemma CreateIs(table: string, us: seq<Token>)
    ensures var r, ds := ReadCreate([TableTok, Ident(table), LParen] + us), ReadDefs([], us);
            r.Fail? || (ds.Got? && r.value == CreateTableStmt(table, ds.value))
  {
    hide ReadDefs;
    var ts := [TableTok, Ident(table), LParen] + us;
    assert ts[1..] == [Ident(table), LParen] + us && ts[2..] == [LParen] + us && ts[3..] == us;
  }

  // ----- all statements

  /** A statement over well-formed expressions is read back, up to the semicolon or the end of input, exactly when it is
      well formed: the select list is a star or items, comma tables come before joins, joins other than comma tables
      have a keyword and a condition, OFFSET has a LIMIT, neither is negative, INSERT has values, UPDATE has
      assignments, and exactly VARCHAR columns have a length. */
  lemma StatementBackIff(s: Stmt, rest: seq<Token>)
    requires ExprsWF(s) && (rest == [] || rest[0] == Semicolon)
    ensures ReadStmt(PrintStmt(s) + rest) == Got(s, rest) <==> StmtWF(s)
  {
    hide PrintStmt, ReadStmt, WF, AllWF, JoinsWF, TailWF, DefWF;
    if StmtWF(s) {
      StatementBack(s, rest);
    } else {
      match s
      case SelectStmt(_, _, _, _, _, _) => SelectMisread(s, rest);
      case InsertStmt(table, columns, values) => InsertMisread(table, columns, rest);
      case UpdateStmt(table, xs, filter) => UpdateMisread(table, filter, rest);
      case DeleteStmt(table, filter) => assert false;
      case CreateTableStmt(table, defs) => CreateMisread(table, defs, rest);
    }
  }

  // ----- a SELECT that the parser itself builds

  lemma CrossJoinRead(t: TableRef, us: seq<Token>)
    requires TableEnds(us) && !Starts(us, OnTok)
    ensures ReadJoin([CrossTok, JoinTok] + (PrintTable(t) + us)) == Got(JoinClause(CROSS, t, None), us)
    ensures StartsJoin([CrossTok, JoinTok] + (PrintTable(t) + us))
  {
    hide PrintTable, ReadTable, TableEnds, ReadJoinType, StartsJoin, ReadExpression;
    JoinTypeBack(CROSS, PrintTable(t) + us);
    Follow(JoinTok, PrintTable(t) + us);
    TableBack(t, us);
  }

  function CrossAfterOn(a: TableRef, b: TableRef, on: Expr, c: TableRef): Stmt {
    SelectStmt(false, true, [], a, [JoinClause(INNER, b, Some(on)), JoinClause(CROSS, c, None)],
               Tail(None, [], None, [], None, None))
  }

  /** SELECT * FROM a INNER JOIN b ON on CROSS JOIN c */
  function CrossAfterOnText(a: TableRef, b: TableRef, on: Expr, c: TableRef): seq<Token> {
    [SelectTok, Star, FromTok] + (PrintTable(a) +
        (PrintJoin(JoinClause(INNER, b, Some(on))) + ([CrossTok, JoinTok] + PrintTable(c))))
  }

  lemma CrossAfterOnJoins(a: TableRef, b: TableRef, on: Expr, c: TableRef, us: seq<Token>)
    requires WF(on) && us == [CrossTok, JoinTok] + (PrintTable(c) + [])
    ensures var inner := JoinClause(INNER, b, Some(on));
            var js := PrintJoin(inner) + us;
            && ReadTable(PrintTable(a) + js) == Got(a, js) && ReadCommaTables([], js) == Got([], js)
            && ReadJoins([], js) == Got([inner, JoinClause(CROSS, c, None)], [])
  {
    hide PrintTable, PrintJoin, ReadTable, ReadCommaTables, ReadJoins, ReadJoin, WF, TableEnds, Ends, StartsJoin;
    var inner, cross := JoinClause(INNER, b, Some(on)), JoinClause(CROSS, c, None);
    var js := PrintJoin(inner) + us;
    AtEnd();
    CrossJoinRead(c, []);
    JoinWords(PrintTable(c) + []);
    JoinBack(inner, us);
    TableBack(a, js);
    NoCommaTable([], js);
    TwoJoins(inner, cross, js, us);
  }

  lemma TwoJoins(j: JoinClause, k: JoinClause, js: seq<Token>, us: seq<Token>)
    requires StartsJoin(js) && ReadJoin(js) == Got(j, us) && StartsJoin(us) && ReadJoin(us) == Got(k, [])
    ensures ReadJoins([], js) == Got([j, k], [])
  {
    hide ReadJoins, ReadJoin, StartsJoin;
    AtEnd();
    OneJoin([], js, j, us);
    OneJoin([j], us, k, []);
    NoJoin([j, k], []);
    assert [] + [j] == [j] && [j] + [k] == [j, k];
  }

  lemma CrossAfterOnShape(a: TableRef, b: TableRef, on: Expr, c: TableRef)
    ensures var us := [CrossTok, JoinTok] + (PrintTable(c) + []);
            CrossAfterOnText(a, b, on, c)
            == [SelectTok] + ([Star] + ([FromTok] + (PrintTable(a) + (PrintJoin(JoinClause(INNER, b, Some(on))) + us))))
  {
    hide PrintTable, PrintJoin;
    assert PrintTable(c) + [] == PrintTable(c);
    var ts := PrintTable(a) + (PrintJoin(JoinClause(INNER, b, Some(on))) + ([CrossTok, JoinTok] + PrintTable(c)));
    assert [SelectTok, Star, FromTok] + ts == [SelectTok] + ([Star] + ([FromTok] + ts));
  }

  lemma CrossAfterOnIsRead(a: TableRef, b: TableRef, on: Expr, c: TableRef)
    requires WF(on)
    ensures ReadStmt(CrossAfterOnText(a, b, on, c)) == Got(CrossAfterOn(a, b, on, c), [])
  {
    hide ReadStmt, PrintTable, PrintJoin, ReadSelect, ReadHead, ReadTable, ReadCommaTables, ReadJoins, ReadTail, WF,
         CrossAfterOnText;
    var us := [CrossTok, JoinTok] + (PrintTable(c) + []);
    var js := PrintJoin(JoinClause(INNER, b, Some(on))) + us;
    var hs := [Star] + ([FromTok] + (PrintTable(a) + js));
    CrossAfterOnJoins(a, b, on, c, us);
    CrossAfterOnShape(a, b, on, c);
    AtEnd();
    StarRead([FromTok] + (PrintTable(a) + js));
    assert hs == [] + hs;
    SelectRead(hs, false, hs, PrintTable(a) + js, a, js);
    Dispatched(SelectTok, hs);
  }

  /** The parser accepts it, but what its tree prints is not read back. */
  lemma CrossAfterOnIsLost(a: TableRef, b: TableRef, on: Expr, c: TableRef)
    requires WF(on)
    ensures ReadStmt(CrossAfterOnText(a, b, on, c)) == Got(CrossAfterOn(a, b, on, c), [])
    ensures ReadStmt(PrintStmt(CrossAfterOn(a, b, on, c))) != Got(CrossAfterOn(a, b, on, c), [])
  {
    hide ReadStmt, PrintStmt, CrossAfterOnText, WF, AllWF;
    var s := CrossAfterOn(a, b, on, c);
    CrossAfterOnIsRead(a, b, on, c);
    assert s.joins[1].kind.CROSS? && !s.joins[0].kind.CROSS?;
    EmptyList();
    StatementBackIff(s, []);
    assert PrintStmt(s) + [] == PrintStmt(s);
  }

  lemma EmptyList()
    ensures AllWF([])
  {
  }

  lemma StarRead(rest: seq<Token>)
    ensures ReadHead([Star] + rest) == Got((true, []), rest) && !Starts([Star] + rest, DistinctTok)
  {
    Follow(Star, rest);
  }

  lemma JoinWords(us: seq<Token>)
    ensures Ends([CrossTok, JoinTok] + us) && !Starts([CrossTok, JoinTok] + us, Comma)
  {
  }

  lemma AtEnd()
    ensures TableEnds([]) && !StartsJoin([]) && ReadTail([]) == Got(Tail(None, [], None, [], None, None), [])
  {
  }
}
