/** Every statement, whatever its expressions, is read back from what it prints exactly when it is well formed. */
module SqlWholeStatement {
  import opened Wrappers
  import opened SqlAst
  import opened SqlGrammar
  import opened SqlRoundTrip
  import opened SqlStatements
  import opened SqlStatementRoundTrip
  import opened SqlStatementExact
  import B = SqlBalance
  import K = SqlTokensKept
  import W = SqlWholeTree

  // ----- an expression where it was printed

  /** An expression that is read off its own print, up to no parenthesis, ends with it and is well formed. */
  lemma Here(x: Expr, t: seq<Token>)
    requires K.Named(Print(x) + t) && W.Clear(t)
    requires var r := ReadExpression(Print(x) + t); r.Got? && r.value == x && W.Clear(r.rest)
    ensures ReadExpression(Print(x) + t) == Got(x, t) && WF(x)
  {
    hide ReadExpression, Print, K.Named, WF, W.Clear;
    W.ExpressionEnds(x, t);
    AsRule(Print(x) + t, x, t);
    W.OnlyWF(ExpressionRule, x, t);
  }

  lemma AsRule(ts: seq<Token>, x: Expr, t: seq<Token>)
    requires ReadExpression(ts) == Got(x, t)
    ensures Reads(ExpressionRule, ts, x, t)
  {
    hide ReadExpression;
  }

  lemma ListHere(es: seq<Expr>, t: seq<Token>, zs: seq<Token>)
    requires K.Named(PrintList(es) + t) && W.Clear(t) && W.Clear(zs) && ReadList(PrintList(es) + t) == Got(es, zs)
    ensures zs == t && es != [] && AllWF(es)
  {
    hide ReadList, Print, PrintList, K.Named, K.Strip, WF;
    var ts := PrintList(es) + t;
    K.ListKept(ts);
    B.ListPast(ts);
    K.StripCat(PrintList(es), t);
    assert [] + K.Strip(ts) == K.Strip(ts);
    W.SuffixCat(PrintList(es), t);
    W.SamePlace(ts, zs, t);
    W.ListOnlyWF(es, t);
  }

  // ----- the clauses after the tables

  lemma GroupFrom(es: seq<Expr>, rest: seq<Token>)
    requires From(3, rest)
    ensures From(2, PrintGroup(es) + rest)
  {
    hide PrintList, PrintGroup, From;
    GroupShape(es, rest);
    FromLater(2, rest);
    FromWords(2, GroupTok, ByTok, PrintList(es) + rest);
  }

  lemma OrderFrom(items: seq<OrderByItem>, rest: seq<Token>)
    requires From(5, rest)
    ensures From(4, PrintOrderBy(items) + rest)
  {
    hide PrintOrder, PrintMoreOrder, PrintOrderBy, From;
    FromLater(4, rest);
    if items == [] {
      FromIsNot(5, rest);
      NoOrder(rest);
    } else {
      OrderByShape(items, rest);
      FromWords(4, OrderTok, ByTok, PrintOrder(items[0]) + (PrintMoreOrder(items[1..]) + rest));
    }
  }

  /** A clause read off its own print. */
  lemma ClauseOnly(word: Token, e: Option<Expr>, t: seq<Token>, zs: seq<Token>)
    requires K.Named(PrintClause(word, e) + t) && W.Clear(t) && W.Clear(zs)
    requires ReadClause(word, PrintClause(word, e) + t) == Got(e, zs)
    ensures zs == t && OptionWF(e)
  {
    hide Print, PrintClause, ReadExpression, K.Named, WF, W.Clear;
    ClauseShape(word, e, t);
    if e.Some? {
      Follow(word, Print(e.value) + t);
      W.StillNamed([word], Print(e.value) + t);
      Here(e.value, t);
    }
  }

  lemma ClauseClear(word: Token, ts: seq<Token>)
    requires !K.IsParen(word) && ReadClause(word, ts).Got? && W.Clear(ReadClause(word, ts).rest)
    ensures W.Clear(ts)
  {
    hide ReadExpression;
  }

  lemma GroupOnly(es: seq<Expr>, t: seq<Token>, zs: seq<Token>)
    requires K.Named(PrintGroup(es) + t) && W.Clear(t) && W.Clear(zs)
    requires ReadGroup(PrintGroup(es) + t) == Got(es, zs)
    ensures zs == t && AllWF(es)
  {
    hide PrintList, PrintGroup, ReadList, K.Named, WF, W.Clear;
    GroupShape(es, t);
    if es == [] {
      if Starts(t, GroupTok) { K.ListKept(t[2..]); }
    } else {
      FollowTwo(GroupTok, ByTok, PrintList(es) + t);
      W.StillNamed([GroupTok, ByTok], PrintList(es) + t);
      ListHere(es, t, zs);
    }
  }

  lemma GroupClear(ts: seq<Token>)
    requires ReadGroup(ts).Got? && W.Clear(ReadGroup(ts).rest)
    ensures W.Clear(ts)
  {
    hide ReadList;
  }

  lemma {:induction false} OrderExtends(done: seq<OrderByItem>, ts: seq<Token>)
    ensures var r := ReadMoreOrder(done, ts);
            r.Got? ==> |done| <= |r.value| && r.value[..|done|] == done
                       && if Starts(ts, Comma) then |done| < |r.value| else r == Got(done, ts)
    decreases |ts|
  {
    hide ReadOrderItem;
    if Starts(ts, Comma) {
      var i := ReadOrderItem(ts[1..]);
      if i.Got? {
        OrderExtends(done + [i.value], i.rest);
        assert (done + [i.value])[..|done|] == done;
      }
    }
  }

  lemma OrderShape(i: OrderByItem, u: seq<Token>)
    ensures PrintOrder(i) + u == Print(i.expr) + ([if i.descending then DescTok else AscTok] + u)
  {
    hide Print;
  }

  lemma OrderItemIs(ts: seq<Token>)
    requires ReadOrderItem(ts).Got?
    ensures var x, y := ReadExpression(ts), ReadOrderItem(ts);
            && x.Got? && x.value == y.value.expr && (W.Clear(y.rest) ==> W.Clear(x.rest))
            && (Starts(x.rest, DescTok) || Starts(x.rest, AscTok) ==> y.rest == x.rest[1..])
  {
    hide ReadExpression;
  }

  lemma OrderFound(done: seq<OrderByItem>, y: OrderByItem, us: seq<Token>, i: OrderByItem, more: seq<OrderByItem>,
        zs: seq<Token>)
    requires ReadMoreOrder(done + [y], us) == Got(done + [i] + more, zs) && W.Clear(zs)
    ensures y == i && W.Clear(us)
  {
    hide ReadMoreOrder;
    OrderExtends(done + [y], us);
    assert (done + [y])[|done|] == y && (done + [i] + more)[|done|] == i;
  }

  /** An item of ORDER BY read off its own print. */
  lemma OrderItemOnly(done: seq<OrderByItem>, i: OrderByItem, more: seq<OrderByItem>, u: seq<Token>, zs: seq<Token>)
    requires K.Named(PrintOrder(i) + u) && W.Clear(zs)
    requires var y := ReadOrderItem(PrintOrder(i) + u);
             y.Got? && ReadMoreOrder(done + [y.value], y.rest) == Got(done + [i] + more, zs)
    ensures ReadOrderItem(PrintOrder(i) + u) == Got(i, u) && WF(i.expr)
  {
    hide Print, PrintOrder, ReadExpression, ReadOrderItem, ReadMoreOrder, K.Named, WF;
    var t := [if i.descending then DescTok else AscTok] + u;
    var y := ReadOrderItem(PrintOrder(i) + u);
    OrderFound(done, y.value, y.rest, i, more, zs);
    OrderShape(i, u);
    OrderItemIs(Print(i.expr) + t);
    Here(i.expr, t);
    assert t[1..] == u;
  }

  lemma {:induction false} MoreOrderOnly(done: seq<OrderByItem>, items: seq<OrderByItem>, t: seq<Token>,
        zs: seq<Token>)
    requires K.Named(PrintMoreOrder(items) + t) && W.Clear(zs) && !Starts(t, Comma)
    requires ReadMoreOrder(done, PrintMoreOrder(items) + t) == Got(done + items, zs)
    ensures zs == t && forall i :: 0 <= i < |items| ==> WF(items[i].expr)
    decreases items
  {
    hide Print, PrintOrder, PrintMoreOrder, ReadOrderItem, ReadMoreOrder, K.Named, WF, W.Clear;
    MoreOrderShape(items, t);
    if items == [] {
      NoMoreOrder(done, t);
    } else {
      var u := PrintMoreOrder(items[1..]) + t;
      W.StillNamed([Comma], PrintOrder(items[0]) + u);
      MoreOrderStep(done, PrintOrder(items[0]) + u);
      assert done + [items[0]] + items[1..] == done + items;
      OrderItemOnly(done, items[0], items[1..], u, zs);
      W.StillNamed(PrintOrder(items[0]), u);
      MoreOrderOnly(done + [items[0]], items[1..], t, zs);
    }
  }

  lemma MoreOrderStep(done: seq<OrderByItem>, us: seq<Token>)
    ensures var i := ReadOrderItem(us);
            ReadMoreOrder(done, [Comma] + us) == if i.Fail? then Fail else ReadMoreOrder(done + [i.value], i.rest)
  {
    hide ReadOrderItem;
    Follow(Comma, us);
  }

  lemma OrderByOnly(items: seq<OrderByItem>, t: seq<Token>, zs: seq<Token>)
    requires K.Named(PrintOrderBy(items) + t) && From(5, t) && W.Clear(zs)
    requires ReadOrderBy(PrintOrderBy(items) + t) == Got(items, zs)
    ensures zs == t && forall i :: 0 <= i < |items| ==> WF(items[i].expr)
  {
    hide PrintOrder, PrintOrderBy, PrintMoreOrder, ReadMoreOrder, ReadOrderBy, K.Named, WF, From, W.Clear;
    if items == [] {
      FromIsNot(5, t);
      NoOrder(t);
    } else {
      FromPlain(5, t);
      OrderByShape(items, t);
      W.StillNamed([OrderTok, ByTok], PrintOrder(items[0]) + (PrintMoreOrder(items[1..]) + t));
      OrderByStep(PrintOrder(items[0]) + (PrintMoreOrder(items[1..]) + t));
      SomeOrder(items, t, zs);
    }
  }

  lemma SomeOrder(items: seq<OrderByItem>, t: seq<Token>, zs: seq<Token>)
    requires items != [] && K.Named(PrintOrder(items[0]) + (PrintMoreOrder(items[1..]) + t)) && W.Clear(zs)
    requires !Starts(t, Comma)
    requires var y := ReadOrderItem(PrintOrder(items[0]) + (PrintMoreOrder(items[1..]) + t));
             y.Got? && ReadMoreOrder([y.value], y.rest) == Got(items, zs)
    ensures zs == t && forall i :: 0 <= i < |items| ==> WF(items[i].expr)
  {
    hide PrintOrder, PrintMoreOrder, ReadOrderItem, ReadMoreOrder, K.Named, WF, W.Clear;
    var u := PrintMoreOrder(items[1..]) + t;
    var y := ReadOrderItem(PrintOrder(items[0]) + u);
    assert [] + [y.value] == [y.value] && [] + [items[0]] + items[1..] == items;
    OrderItemOnly([], items[0], items[1..], u, zs);
    W.StillNamed(PrintOrder(items[0]), u);
    assert [items[0]] + items[1..] == items;
    MoreOrderOnly([items[0]], items[1..], t, zs);
  }

  lemma OrderByStep(us: seq<Token>)
    ensures var i := ReadOrderItem(us);
            ReadOrderBy([OrderTok, ByTok] + us) == if i.Fail? then Fail else ReadMoreOrder([i.value], i.rest)
  {
    hide ReadOrderItem, ReadMoreOrder;
    FollowTwo(OrderTok, ByTok, us);
  }

  lemma OrderClear(ts: seq<Token>)
    requires ReadOrderBy(ts).Got? && W.Clear(ReadOrderBy(ts).rest)
    ensures W.Clear(ts)
  {
    hide ReadOrderItem, ReadMoreOrder;
  }

  lemma LimitClear(ts: seq<Token>)
    requires ReadLimit(ts).Got? && W.Clear(ReadLimit(ts).rest)
    ensures W.Clear(ts)
  {
  }

  /** What the clauses were read from, last to first. */
  lemma TailClear(ts: seq<Token>)
    requires ReadTail(ts).Got? && W.Clear(ReadTail(ts).rest)
    ensures var w := ReadClause(WhereTok, ts);
            && w.Got? && W.Clear(ts) && W.Clear(w.rest)
            && var g := ReadGroup(w.rest);
               && g.Got? && W.Clear(g.rest)
               && var h := ReadClause(HavingTok, g.rest);
                  && h.Got? && W.Clear(h.rest)
                  && var o := ReadOrderBy(h.rest);
                     && o.Got? && W.Clear(o.rest) && ReadLimit(o.rest).Got?
                     && ReadTail(ts).value == Tail(w.value, g.value, h.value, o.value, ReadLimit(o.rest).value.0,
                                                   ReadLimit(o.rest).value.1)
  {
    hide ReadClause, ReadGroup, ReadOrderBy, ReadLimit, W.Clear;
    var w := ReadClause(WhereTok, ts);
    var g := ReadGroup(w.rest);
    var h := ReadClause(HavingTok, g.rest);
    var o := ReadOrderBy(h.rest);
    LimitClear(o.rest);
    OrderClear(h.rest);
    ClauseClear(HavingTok, g.rest);
    GroupClear(w.rest);
    ClauseClear(WhereTok, ts);
  }

  lemma TailFrom(t: Tail, rest: seq<Token>)
    requires From(7, rest)
    ensures var l := PrintLimit(t.limit, t.offset) + rest;
            var o := PrintOrderBy(t.orderBy) + l;
            var h := PrintClause(HavingTok, t.having) + o;
            var g := PrintGroup(t.groupBy) + h;
            && From(5, l) && From(4, o) && From(3, h) && From(2, g)
            && From(1, PrintTail(t) + rest) && PrintTail(t) + rest == PrintClause(WhereTok, t.filter) + g
  {
    hide PrintClause, PrintGroup, PrintOrderBy, PrintLimit, PrintTail, From, ReadLimit, LimitWF;
    var l := PrintLimit(t.limit, t.offset) + rest;
    var o := PrintOrderBy(t.orderBy) + l;
    var h := PrintClause(HavingTok, t.having) + o;
    LimitBackIff(t.limit, t.offset, rest);
    OrderFrom(t.orderBy, l);
    ClauseFrom(HavingTok, 3, t.having, o);
    GroupFrom(t.groupBy, h);
    ClauseFrom(WhereTok, 1, t.filter, PrintGroup(t.groupBy) + h);
    TailShape(t, rest);
  }

  /** The clauses after the tables, read off their own print, have well-formed expressions. */
  lemma TailOnly(t: Tail, rest: seq<Token>)
    requires From(7, rest) && K.Named(PrintTail(t) + rest) && ReadTail(PrintTail(t) + rest) == Got(t, rest)
    ensures TailExprsWF(t)
  {
    hide ReadClause, ReadGroup, ReadOrderBy, ReadLimit, ReadTail, PrintClause, PrintGroup, PrintOrderBy, PrintLimit,
         PrintTail, From, K.Named, WF, OptionWF, W.Clear;
    var l := PrintLimit(t.limit, t.offset) + rest;
    var o := PrintOrderBy(t.orderBy) + l;
    var h := PrintClause(HavingTok, t.having) + o;
    var g := PrintGroup(t.groupBy) + h;
    TailFrom(t, rest);
    FromClear(7, rest);
    TailClear(PrintTail(t) + rest);
    FromClear(2, g);
    ClauseOnly(WhereTok, t.filter, g, ReadClause(WhereTok, PrintTail(t) + rest).rest);
    W.StillNamed(PrintClause(WhereTok, t.filter), g);
    FromClear(3, h);
    GroupOnly(t.groupBy, h, ReadGroup(g).rest);
    W.StillNamed(PrintGroup(t.groupBy), h);
    FromClear(4, o);
    ClauseOnly(HavingTok, t.having, o, ReadClause(HavingTok, h).rest);
    W.StillNamed(PrintClause(HavingTok, t.having), o);
    OrderByOnly(t.orderBy, l, ReadOrderBy(o).rest);
  }

  // ----- the select list

  lemma {:induction false} ItemsExtend(done: seq<SelectItem>, ts: seq<Token>)
    ensures var r := ReadMoreItems(done, ts);
            r.Got? ==> |done| <= |r.value| && r.value[..|done|] == done
                       && if Starts(ts, Comma) then |done| < |r.value| else r == Got(done, ts)
    decreases |ts|
  {
    hide ReadItem;
    if Starts(ts, Comma) {
      var i := ReadItem(ts[1..]);
      if i.Got? {
        ItemsExtend(done + [i.value], i.rest);
        assert (done + [i.value])[..|done|] == done;
      }
    }
  }

  lemma ItemFound(done: seq<SelectItem>, y: SelectItem, us: seq<Token>, i: SelectItem, more: seq<SelectItem>,
        zs: seq<Token>)
    requires ReadMoreItems(done + [y], us) == Got(done + [i] + more, zs) && Starts(zs, FromTok)
    ensures y == i && W.Clear(us)
  {
    hide ReadMoreItems;
    ItemsExtend(done + [y], us);
    assert (done + [y])[|done|] == y && (done + [i] + more)[|done|] == i;
  }

  function Alias(alias: string): seq<Token> { if alias == "" then [] else [AsTok, Ident(alias)] }

  lemma ItemShape(i: SelectItem, u: seq<Token>)
    ensures PrintItem(i) + u == Print(i.expr) + (Alias(i.alias) + u)
    ensures W.Clear(u) ==> W.Clear(Alias(i.alias) + u)
  {
    hide Print;
  }

  lemma ItemIs(ts: seq<Token>)
    requires ReadItem(ts).Got? && W.Clear(ReadItem(ts).rest)
    ensures var x, y := ReadExpression(ts), ReadItem(ts);
            && x.Got? && x.value == y.value.expr && W.Clear(x.rest)
            && ReadAlias(x.rest) == Got(y.value.alias, y.rest)
  {
    hide ReadExpression;
  }

  /** An item of the select list read off its own print. */
  lemma ItemOnly(done: seq<SelectItem>, i: SelectItem, more: seq<SelectItem>, u: seq<Token>, zs: seq<Token>)
    requires K.Named(PrintItem(i) + u) && Starts(zs, FromTok) && TableEnds(u) && W.Clear(u)
    requires var y := ReadItem(PrintItem(i) + u);
             y.Got? && ReadMoreItems(done + [y.value], y.rest) == Got(done + [i] + more, zs)
    ensures ReadItem(PrintItem(i) + u) == Got(i, u) && WF(i.expr)
  {
    hide Print, PrintItem, ReadExpression, ReadItem, ReadMoreItems, ReadAlias, K.Named, WF, W.Clear, TableEnds;
    var y := ReadItem(PrintItem(i) + u);
    ItemFound(done, y.value, y.rest, i, more, zs);
    ItemShape(i, u);
    ItemIs(PrintItem(i) + u);
    Here(i.expr, Alias(i.alias) + u);
    AliasBack(i.alias, u);
  }

  /** What follows an item. */
  lemma ItemsFollow(items: seq<SelectItem>, t: seq<Token>)
    requires Starts(t, FromTok)
    ensures var u := PrintMoreItems(items) + t; TableEnds(u) && W.Clear(u)
  {
    hide PrintItem;
    MoreItemsShape(items, t);
  }

  lemma {:induction false} MoreItemsOnly(done: seq<SelectItem>, items: seq<SelectItem>, t: seq<Token>,
        zs: seq<Token>)
    requires K.Named(PrintMoreItems(items) + t) && Starts(zs, FromTok) && Starts(t, FromTok)
    requires ReadMoreItems(done, PrintMoreItems(items) + t) == Got(done + items, zs)
    ensures zs == t && forall i :: 0 <= i < |items| ==> WF(items[i].expr)
    decreases items
  {
    hide PrintItem, PrintMoreItems, ReadItem, ReadMoreItems, K.Named, WF, W.Clear, TableEnds;
    MoreItemsShape(items, t);
    if items == [] {
      NoMoreItems(done, t);
    } else {
      var u := PrintMoreItems(items[1..]) + t;
      W.StillNamed([Comma], PrintItem(items[0]) + u);
      MoreItemsStep(done, PrintItem(items[0]) + u);
      assert done + [items[0]] + items[1..] == done + items;
      ItemsFollow(items[1..], t);
      ItemOnly(done, items[0], items[1..], u, zs);
      W.StillNamed(PrintItem(items[0]), u);
      MoreItemsOnly(done + [items[0]], items[1..], t, zs);
    }
  }

  lemma MoreItemsStep(done: seq<SelectItem>, us: seq<Token>)
    ensures var i := ReadItem(us);
            ReadMoreItems(done, [Comma] + us) == if i.Fail? then Fail else ReadMoreItems(done + [i.value], i.rest)
  {
    hide ReadItem;
    Follow(Comma, us);
  }

  lemma ItemsOnly(items: seq<SelectItem>, t: seq<Token>, zs: seq<Token>)
    requires items != [] && K.Named(PrintItem(items[0]) + (PrintMoreItems(items[1..]) + t))
    requires Starts(zs, FromTok) && Starts(t, FromTok)
    requires var y := ReadItem(PrintItem(items[0]) + (PrintMoreItems(items[1..]) + t));
             y.Got? && ReadMoreItems([y.value], y.rest) == Got(items, zs)
    ensures zs == t && forall i :: 0 <= i < |items| ==> WF(items[i].expr)
  {
    hide PrintItem, PrintMoreItems, ReadItem, ReadMoreItems, K.Named, WF, W.Clear, TableEnds;
    var u := PrintMoreItems(items[1..]) + t;
    var y := ReadItem(PrintItem(items[0]) + u);
    assert [] + [y.value] == [y.value] && [] + [items[0]] + items[1..] == items;
    ItemsFollow(items[1..], t);
    ItemOnly([], items[0], items[1..], u, zs);
    W.StillNamed(PrintItem(items[0]), u);
    assert [items[0]] + items[1..] == items;
    MoreItemsOnly([items[0]], items[1..], t, zs);
  }

  /** A select list read off its own print. */
  lemma HeadOnly(all: bool, items: seq<SelectItem>, t: seq<Token>, zs: seq<Token>)
    requires K.Named(PrintHead(false, all, items) + t) && Starts(zs, FromTok) && Starts(t, FromTok)
    requires ReadHead(PrintHead(false, all, items) + t) == Got((all, items), zs)
    ensures zs == t && forall i :: 0 <= i < |items| ==> WF(items[i].expr)
  {
    hide PrintItem, PrintMoreItems, PrintHead, ReadItem, ReadMoreItems, ReadHead, K.Named, WF;
    HeadIs(PrintHead(false, all, items) + t);
    PlainHeadShape(all, items, t);
    if items != [] {
      ItemsOnly(items, t, zs);
    } else {
      Follow(Star, t);
    }
  }

  lemma PlainHeadShape(all: bool, items: seq<SelectItem>, t: seq<Token>)
    ensures var ts := PrintHead(false, all, items) + t;
            if all then ts == [Star] + t
            else items != [] ==> ts == PrintItem(items[0]) + (PrintMoreItems(items[1..]) + t)
  {
    hide PrintItem, PrintMoreItems;
  }

  lemma HeadIs(ts: seq<Token>)
    requires ReadHead(ts).Got?
    ensures var r := ReadHead(ts);
            if r.value.0 then Starts(ts, Star) && r == Got((true, []), ts[1..])
            else var y := ReadItem(ts);
                 y.Got? && ReadMoreItems([y.value], y.rest) == Got(r.value.1, r.rest) && r.value.1 != []
  {
    hide ReadItem, ReadMoreItems;
    if !Starts(ts, Star) {
      var y := ReadItem(ts);
      ItemsExtend([y.value], y.rest);
    }
  }

  // ----- the tables

  lemma {:induction false} JoinsExtend(done: seq<JoinClause>, ts: seq<Token>)
    ensures var r := ReadJoins(done, ts);
            r.Got? ==> |done| <= |r.value| && r.value[..|done|] == done && (!StartsJoin(ts) ==> r == Got(done, ts))
    decreases |ts|
  {
    hide ReadJoin, StartsJoin;
    if StartsJoin(ts) {
      var j := ReadJoin(ts);
      if j.Got? {
        JoinsExtend(done + [j.value], j.rest);
        assert (done + [j.value])[..|done|] == done;
      }
    }
  }

  lemma JoinStep(done: seq<JoinClause>, ts: seq<Token>)
    requires StartsJoin(ts)
    ensures var j := ReadJoin(ts);
            ReadJoins(done, ts) == if j.Fail? then Fail else ReadJoins(done + [j.value], j.rest)
  {
    hide ReadJoin, StartsJoin;
  }

  /** A join with keyword and condition is read up to the condition. */
  lemma KeywordJoin(j: JoinClause, u: seq<Token>)
    requires Keyword(j)
    ensures var x := ReadExpression(Print(j.condition.value) + u);
            StartsJoin(PrintJoin(j) + u) && ReadJoin(PrintJoin(j) + u)
            == if x.Fail? then Fail else Got(j.(condition := Some(x.value)), x.rest)
  {
    hide Print, PrintTable, ReadTable, ReadJoinType, StartsJoin, PrintJoin, JoinWord, ReadExpression, Ends, TableEnds;
    var us := [OnTok] + (Print(j.condition.value) + u);
    JoinShape(j, u);
    JoinTypeBack(j.kind, PrintTable(j.table) + us);
    Follow(JoinTok, PrintTable(j.table) + us);
    Follow(OnTok, Print(j.condition.value) + u);
    OnEndsTable(Print(j.condition.value) + u);
    TableBack(j.table, us);
  }

  lemma JoinNamed(j: JoinClause, u: seq<Token>)
    requires Keyword(j) && K.Named(PrintJoin(j) + u)
    ensures K.Named(Print(j.condition.value) + u) && K.Named(u)
  {
    hide Print, PrintTable, PrintJoin, JoinWord, K.Named;
    var us := Print(j.condition.value) + u;
    JoinShape(j, u);
    W.StillNamed([JoinWord(j.kind), JoinTok], PrintTable(j.table) + ([OnTok] + us));
    W.StillNamed(PrintTable(j.table), [OnTok] + us);
    W.StillNamed([OnTok], us);
    W.StillNamed(Print(j.condition.value), u);
  }

  lemma StartsJoinClear(ts: seq<Token>)
    requires StartsJoin(ts)
    ensures W.Clear(ts)
  {
  }

  lemma JoinFound(done: seq<JoinClause>, y: JoinClause, us: seq<Token>, j: JoinClause, more: seq<JoinClause>,
        zs: seq<Token>)
    requires ReadJoins(done + [y], us) == Got(done + [j] + more, zs) && W.Clear(zs)
    ensures y == j && W.Clear(us)
  {
    hide ReadJoins, StartsJoin, W.Clear;
    JoinsExtend(done + [y], us);
    assert (done + [y])[|done|] == y && (done + [j] + more)[|done|] == j;
    if StartsJoin(us) { StartsJoinClear(us); }
  }

  /** The joins read off their own print. */
  lemma {:induction false} JoinsOnly(done: seq<JoinClause>, js: seq<JoinClause>, t: seq<Token>, zs: seq<Token>)
    requires K.Named(PrintJoins(js) + t) && From(1, t) && W.Clear(zs)
    requires ReadJoins(done, PrintJoins(js) + t) == Got(done + js, zs)
    ensures zs == t && ConditionsWF(js)
    decreases js
  {
    hide PrintJoin, PrintJoins, ReadJoin, ReadJoins, K.Named, WF, OptionWF, W.Clear, From, StartsJoin, TableEnds, Ends,
         PlainCross, Keyword;
    JoinsShape(js, t);
    if js == [] {
      FromPlain(1, t);
      NoJoin(done, t);
    } else {
      var u := PrintJoins(js[1..]) + t;
      JoinsFollow(js[1..], t);
      JoinsClear(js[1..], t);
      assert [js[0]] + js[1..] == js;
      OneJoinOnly(done, js[0], js[1..], t, u, zs);
      assert done + [js[0]] + js[1..] == done + js;
      JoinsOnly(done + [js[0]], js[1..], t, zs);
      assert forall i :: 1 <= i < |js| ==> js[i] == js[1..][i - 1];
    }
  }

  lemma JoinsClear(js: seq<JoinClause>, t: seq<Token>)
    requires From(1, t)
    ensures W.Clear(PrintJoins(js) + t)
  {
    hide PrintTable, Print;
    JoinsShape(js, t);
    FromClear(1, t);
  }

  lemma OneJoinOnly(done: seq<JoinClause>, j: JoinClause, more: seq<JoinClause>, t: seq<Token>, u: seq<Token>,
        zs: seq<Token>)
    requires K.Named(PrintJoin(j) + u) && W.Clear(zs) && TableEnds(u) && !Starts(u, OnTok) && W.Clear(u)
    requires ReadJoins(done, PrintJoin(j) + u) == Got(done + ([j] + more), zs)
    ensures ReadJoins(done + [j], u) == Got(done + [j] + more, zs) && OptionWF(j.condition) && K.Named(u)
  {
    hide Print, PrintJoin, ReadJoin, ReadJoins, ReadExpression, K.Named, WF, W.Clear, StartsJoin, TableEnds;
    assert done + ([j] + more) == done + [j] + more && |done + ([j] + more)| > |done|;
    if Keyword(j) {
      var x := ReadExpression(Print(j.condition.value) + u);
      KeywordJoin(j, u);
      JoinStep(done, PrintJoin(j) + u);
      JoinFound(done, j.(condition := Some(x.value)), x.rest, j, more, zs);
      JoinNamed(j, u);
      Here(j.condition.value, u);
    } else if PlainCross(j) {
      PlainCrossShape(j, u);
      CommaStops(done, PrintTable(j.table) + u);
      assert false;
    } else {
      MisfitFails(done, j, u);
      assert false;
    }
  }

  // ----- SELECT

  /** What SELECT reads, one part after the other. */
  lemma SelectIs(us: seq<Token>)
    requires ReadSelect(us).Got?
    ensures ReadSelect(us).value.SelectStmt?
    ensures var s := ReadSelect(us).value;
            var hs := if s.distinct then us[1..] else us;
            && (s.distinct <==> Starts(us, DistinctTok))
            && var h := ReadHead(hs);
               && h.Got? && h.value == (s.all, s.items) && Starts(h.rest, FromTok)
               && var t := ReadTable(h.rest[1..]);
                  && t.Got? && t.value == s.from
                  && var c := ReadCommaTables([], t.rest);
                     && c.Got?
                     && var j := ReadJoins(c.value, c.rest);
                        && j.Got? && j.value == s.joins && ReadTail(j.rest) == Got(s.tail, ReadSelect(us).rest)
  {
    hide ReadHead, ReadTable, ReadCommaTables, ReadJoins, ReadTail;
  }

  /** The tables after the first one, read off their own print. */
  lemma TablesOnly(js: seq<JoinClause>, t: seq<Token>, zs: seq<Token>)
    requires K.Named(PrintJoins(js) + t) && From(1, t) && W.Clear(zs)
    requires var c := ReadCommaTables([], PrintJoins(js) + t); c.Got? && ReadJoins(c.value, c.rest) == Got(js, zs)
    ensures zs == t && ConditionsWF(js) && TableEnds(PrintJoins(js) + t)
  {
    hide PrintJoins, ReadJoins, ReadCommaTables, K.Named, WF, OptionWF, W.Clear, From, TableEnds, Ends, PlainCross;
    var k := Commas(js);
    JoinsFollow(js, t);
    JoinsFollow(js[k..], t);
    CrossLike(js, k);
    CommaTablesBack([], js, k, t);
    assert [] + js[..k] == js[..k] && js[..k] + js[k..] == js;
    NamedJoins(js, k, t);
    JoinsOnly(js[..k], js[k..], t, zs);
    assert forall i :: k <= i < |js| ==> js[i] == js[k..][i - k];
  }

  lemma CrossLike(js: seq<JoinClause>, k: nat)
    requires k <= |js| && forall i :: 0 <= i < k ==> PlainCross(js[i])
    ensures forall i :: 0 <= i < k ==> js[i].kind.CROSS? && js[i].condition.None? && OptionWF(js[i].condition)
  {
  }

  lemma {:induction false} NamedJoins(js: seq<JoinClause>, k: nat, t: seq<Token>)
    requires k <= |js| && K.Named(PrintJoins(js) + t)
    ensures K.Named(PrintJoins(js[k..]) + t)
    decreases js
  {
    hide PrintJoins, PrintJoin, K.Named;
    if k == 0 {
      assert js[0..] == js;
    } else {
      JoinsShape(js, t);
      W.StillNamed(PrintJoin(js[0]), PrintJoins(js[1..]) + t);
      NamedJoins(js[1..], k - 1, t);
      assert js[1..][k - 1..] == js[k..];
    }
  }

  lemma SelectOnly(s: Stmt, rest: seq<Token>)
    requires s.SelectStmt? && From(7, rest)
    requires K.Named(PrintStmt(s) + rest) && ReadStmt(PrintStmt(s) + rest) == Got(s, rest)
    ensures ExprsWF(s)
  {
    hide PrintStmt, PrintHead, PrintTable, PrintJoins, PrintTail, ReadStmt, ReadSelect, ReadHead, ReadTable,
         ReadCommaTables, ReadJoins, ReadTail, K.Named, WF, ConditionsWF, TailExprsWF, From, TableEnds, W.Clear;
    var tail := PrintTail(s.tail) + rest;
    var js := PrintJoins(s.joins) + tail;
    var ts := PrintTable(s.from) + js;
    var hs := PrintHead(false, s.all, s.items) + ([FromTok] + ts);
    var us := (if s.distinct then [DistinctTok] else []) + hs;
    SelectShape(s, rest);
    Dispatched(SelectTok, us);
    SelectIs(us);
    W.StillNamed([SelectTok], us);
    W.StillNamed(if s.distinct then [DistinctTok] else [], hs);
    DistinctShape(s.distinct, hs);
    Follow(FromTok, ts);
    HeadOnly(s.all, s.items, [FromTok] + ts, ReadHead(hs).rest);
    W.StillNamed(PrintHead(false, s.all, s.items), [FromTok] + ts);
    W.StillNamed([FromTok], ts);
    W.StillNamed(PrintTable(s.from), js);
    W.StillNamed(PrintJoins(s.joins), tail);
    TailFrom(s.tail, rest);
    JoinsFollow(s.joins, tail);
    TableBack(s.from, js);
    var c := ReadCommaTables([], js);
    var j := ReadJoins(c.value, c.rest);
    FromClear(7, rest);
    TailClear(j.rest);
    TablesOnly(s.joins, tail, j.rest);
    TailOnly(s.tail, rest);
  }

  lemma DistinctShape(distinct: bool, hs: seq<Token>)
    ensures var us := (if distinct then [DistinctTok] else []) + hs; hs == if distinct then us[1..] else us
  {
  }

  // ----- the other statements

  lemma InsertOnly(table: string, columns: seq<string>, values: seq<Expr>, rest: seq<Token>)
    requires var s := InsertStmt(table, columns, values);
             K.Named(PrintStmt(s) + rest) && ReadStmt(PrintStmt(s) + rest) == Got(s, rest)
    ensures AllWF(values)
  {
    hide PrintStmt, PrintNames, PrintList, ReadStmt, ReadInsert, ReadColumns, ReadList, K.Named, WF, AllWF;
    var vs := PrintList(values) + ([RParen] + rest);
    var cs := if columns == [] then [] else [LParen] + PrintNames(columns) + [RParen];
    var us := cs + ([ValuesTok, LParen] + vs);
    InsertShape(table, columns, values, rest);
    Dispatched(InsertTok, [IntoTok, Ident(table)] + us);
    ValuesIsNoParen(vs);
    ColumnsBack(columns, [ValuesTok, LParen] + vs);
    InsertIs(table, us, columns, vs, values, rest);
    W.StillNamed([InsertTok], [IntoTok, Ident(table)] + us);
    W.StillNamed([IntoTok, Ident(table)], us);
    W.StillNamed(cs, [ValuesTok, LParen] + vs);
    W.StillNamed([ValuesTok, LParen], vs);
    W.ListOnlyWF(values, [RParen] + rest);
  }

  lemma InsertIs(table: string, us: seq<Token>, columns: seq<string>, vs: seq<Token>, values: seq<Expr>,
        rest: seq<Token>)
    requires ReadColumns(us) == Got(columns, [ValuesTok, LParen] + vs)
    requires ReadInsert([IntoTok, Ident(table)] + us) == Got(InsertStmt(table, columns, values), rest)
    ensures ReadList(vs) == Got(values, [RParen] + rest)
  {
    hide ReadColumns, ReadList;
    FollowTwo(IntoTok, Ident(table), us);
    FollowTwo(ValuesTok, LParen, vs);
    W.Reattach(RParen, ReadList(vs).rest);
  }

  lemma {:induction false} AssignmentsExtend(done: seq<(string, Expr)>, ts: seq<Token>)
    ensures var r := ReadMoreAssignments(done, ts);
            r.Got? ==> |done| <= |r.value| && r.value[..|done|] == done
                       && if Starts(ts, Comma) then |done| < |r.value| else r == Got(done, ts)
    decreases |ts|
  {
    hide ReadAssignment;
    if Starts(ts, Comma) {
      var a := ReadAssignment(ts[1..]);
      if a.Got? {
        AssignmentsExtend(done + [a.value], a.rest);
        assert (done + [a.value])[..|done|] == done;
      }
    }
  }

  lemma AssignmentFound(done: seq<(string, Expr)>, y: (string, Expr), us: seq<Token>, a: (string, Expr),
        more: seq<(string, Expr)>, zs: seq<Token>)
    requires ReadMoreAssignments(done + [y], us) == Got(done + [a] + more, zs) && W.Clear(zs)
    ensures y == a && W.Clear(us)
  {
    hide ReadMoreAssignments;
    AssignmentsExtend(done + [y], us);
    assert (done + [y])[|done|] == y && (done + [a] + more)[|done|] == a;
  }

  lemma AssignmentShape(a: (string, Expr), u: seq<Token>)
    ensures PrintAssignment(a) + u == [Ident(a.0), EqTok] + (Print(a.1) + u)
    ensures var y, x := ReadAssignment(PrintAssignment(a) + u), ReadExpression(Print(a.1) + u);
            y == if x.Fail? then Fail else Got((a.0, x.value), x.rest)
  {
    hide Print, ReadExpression;
    Cat([Ident(a.0), EqTok], Print(a.1), u);
    FollowTwo(Ident(a.0), EqTok, Print(a.1) + u);
  }

  /** An assignment read off its own print. */
  lemma AssignmentOnly(done: seq<(string, Expr)>, a: (string, Expr), more: seq<(string, Expr)>, u: seq<Token>,
        zs: seq<Token>)
    requires K.Named(PrintAssignment(a) + u) && W.Clear(zs) && W.Clear(u)
    requires var y := ReadAssignment(PrintAssignment(a) + u);
             y.Got? && ReadMoreAssignments(done + [y.value], y.rest) == Got(done + [a] + more, zs)
    ensures ReadAssignment(PrintAssignment(a) + u) == Got(a, u) && WF(a.1) && K.Named(u)
  {
    hide Print, PrintAssignment, ReadExpression, ReadAssignment, ReadMoreAssignments, K.Named, WF, W.Clear;
    var y := ReadAssignment(PrintAssignment(a) + u);
    AssignmentFound(done, y.value, y.rest, a, more, zs);
    AssignmentShape(a, u);
    W.StillNamed([Ident(a.0), EqTok], Print(a.1) + u);
    Here(a.1, u);
    W.StillNamed(Print(a.1), u);
  }

  lemma AssignmentsClear(xs: seq<(string, Expr)>, t: seq<Token>)
    requires W.Clear(t)
    ensures W.Clear(PrintMoreAssignments(xs) + t)
  {
    hide PrintAssignment;
    MoreAssignmentsShape(xs, t);
  }

  lemma MoreAssignmentsStep(done: seq<(string, Expr)>, us: seq<Token>)
    ensures var a := ReadAssignment(us);
            ReadMoreAssignments(done, [Comma] + us)
            == if a.Fail? then Fail else ReadMoreAssignments(done + [a.value], a.rest)
  {
    hide ReadAssignment;
    Follow(Comma, us);
  }

  lemma {:induction false} MoreAssignmentsOnly(done: seq<(string, Expr)>, xs: seq<(string, Expr)>, t: seq<Token>,
        zs: seq<Token>)
    requires K.Named(PrintMoreAssignments(xs) + t) && W.Clear(zs) && W.Clear(t) && !Starts(t, Comma)
    requires ReadMoreAssignments(done, PrintMoreAssignments(xs) + t) == Got(done + xs, zs)
    ensures zs == t && forall i :: 0 <= i < |xs| ==> WF(xs[i].1)
    decreases xs
  {
    hide PrintAssignment, PrintMoreAssignments, ReadAssignment, ReadMoreAssignments, K.Named, WF, W.Clear;
    MoreAssignmentsShape(xs, t);
    if xs == [] {
      NoMoreAssignments(done, t);
    } else {
      var u := PrintMoreAssignments(xs[1..]) + t;
      W.StillNamed([Comma], PrintAssignment(xs[0]) + u);
      MoreAssignmentsStep(done, PrintAssignment(xs[0]) + u);
      assert done + [xs[0]] + xs[1..] == done + xs;
      AssignmentsClear(xs[1..], t);
      AssignmentOnly(done, xs[0], xs[1..], u, zs);
      MoreAssignmentsOnly(done + [xs[0]], xs[1..], t, zs);
    }
  }

  lemma AssignmentsOnly(xs: seq<(string, Expr)>, t: seq<Token>, zs: seq<Token>)
    requires xs != [] && K.Named(PrintAssignment(xs[0]) + (PrintMoreAssignments(xs[1..]) + t))
    requires W.Clear(zs) && W.Clear(t) && !Starts(t, Comma)
    requires var y := ReadAssignment(PrintAssignment(xs[0]) + (PrintMoreAssignments(xs[1..]) + t));
             y.Got? && ReadMoreAssignments([y.value], y.rest) == Got(xs, zs)
    ensures zs == t && forall i :: 0 <= i < |xs| ==> WF(xs[i].1)
  {
    hide PrintAssignment, PrintMoreAssignments, ReadAssignment, ReadMoreAssignments, K.Named, WF, W.Clear;
    var u := PrintMoreAssignments(xs[1..]) + t;
    var y := ReadAssignment(PrintAssignment(xs[0]) + u);
    assert [] + [y.value] == [y.value] && [] + [xs[0]] + xs[1..] == xs;
    AssignmentsClear(xs[1..], t);
    AssignmentOnly([], xs[0], xs[1..], u, zs);
    assert [xs[0]] + xs[1..] == xs;
    MoreAssignmentsOnly([xs[0]], xs[1..], t, zs);
  }

  lemma UpdateIs(table: string, us: seq<Token>)
    requires ReadUpdate([Ident(table), SetTok] + us).Got?
    ensures var r, y := ReadUpdate([Ident(table), SetTok] + us), ReadAssignment(us);
            && r.value.UpdateStmt? && y.Got?
            && var xs := ReadMoreAssignments([y.value], y.rest);
               && xs.Got? && xs.value == r.value.assignments && xs.value != []
               && ReadClause(WhereTok, xs.rest) == Got(r.value.filter, r.rest)
  {
    hide ReadAssignment, ReadMoreAssignments, ReadClause;
    FollowTwo(Ident(table), SetTok, us);
    AssignmentsExtend([ReadAssignment(us).value], ReadAssignment(us).rest);
  }

  lemma UpdateOnly(table: string, xs: seq<(string, Expr)>, filter: Option<Expr>, rest: seq<Token>)
    requires xs != [] && From(7, rest)
    requires var s := UpdateStmt(table, xs, filter);
             K.Named(PrintStmt(s) + rest) && ReadStmt(PrintStmt(s) + rest) == Got(s, rest)
    ensures (forall i :: 0 <= i < |xs| ==> WF(xs[i].1)) && OptionWF(filter)
  {
    hide PrintStmt, PrintAssignment, PrintMoreAssignments, PrintClause, ReadStmt, ReadUpdate, ReadAssignment,
         ReadMoreAssignments, ReadClause, K.Named, WF, OptionWF, From, W.Clear;
    var w := PrintClause(WhereTok, filter) + rest;
    var u := PrintMoreAssignments(xs[1..]) + w;
    var us := PrintAssignment(xs[0]) + u;
    UpdateShape(table, xs, filter, rest);
    Dispatched(UpdateTok, [Ident(table), SetTok] + us);
    UpdateIs(table, us);
    UpdateNamed(table, PrintAssignment(xs[0]), PrintMoreAssignments(xs[1..]), w);
    WhereFrom(filter, rest);
    var y := ReadAssignment(us);
    var zs := ReadMoreAssignments([y.value], y.rest).rest;
    ClauseClear(WhereTok, zs);
    AssignmentsOnly(xs, w, zs);
    ClauseOnly(WhereTok, filter, rest, rest);
  }

  lemma UpdateNamed(table: string, a: seq<Token>, more: seq<Token>, w: seq<Token>)
    requires K.Named([UpdateTok] + ([Ident(table), SetTok] + (a + (more + w))))
    ensures K.Named(a + (more + w)) && K.Named(w)
  {
    hide K.Named;
    W.StillNamed([UpdateTok], [Ident(table), SetTok] + (a + (more + w)));
    W.StillNamed([Ident(table), SetTok], a + (more + w));
    W.StillNamed(a, more + w);
    W.StillNamed(more, w);
  }

  lemma DeleteOnly(table: string, filter: Option<Expr>, rest: seq<Token>)
    requires From(7, rest)
    requires var s := DeleteStmt(table, filter);
             K.Named(PrintStmt(s) + rest) && ReadStmt(PrintStmt(s) + rest) == Got(s, rest)
    ensures OptionWF(filter)
  {
    hide PrintStmt, PrintClause, ReadStmt, ReadDelete, ReadClause, K.Named, WF, OptionWF, From, W.Clear;
    var w := PrintClause(WhereTok, filter) + rest;
    DeleteShape(table, filter, rest);
    DeleteDispatched([FromTok, Ident(table)] + w);
    DeleteIs(table, w);
    W.StillNamed([DeleteTok], [FromTok, Ident(table)] + w);
    W.StillNamed([FromTok, Ident(table)], w);
    FromClear(7, rest);
    ClauseOnly(WhereTok, filter, rest, rest);
  }

  lemma DeleteDispatched(us: seq<Token>)
    ensures ReadStmt([DeleteTok] + us) == ReadDelete(us)
  {
    hide ReadSelect, ReadInsert, ReadUpdate, ReadDelete, ReadCreate, ReadDrop;
    Follow(DeleteTok, us);
  }

  lemma DeleteIs(table: string, w: seq<Token>)
    ensures var r, c := ReadDelete([FromTok, Ident(table)] + w), ReadClause(WhereTok, w);
            r == if c.Fail? then Fail else Got(DeleteStmt(table, c.value), c.rest)
  {
    hide ReadClause;
    FollowTwo(FromTok, Ident(table), w);
  }

  // ----- no empty identifier before a dot

  /** Tokens that can follow any name. */
  predicate Tidy(ts: seq<Token>) { K.Named(ts) && !Starts(ts, Dot) }

  lemma TidyWord(t: Token, ts: seq<Token>)
    requires Tidy(ts) && t != Dot
    ensures Tidy([t] + ts)
  {
    assert ([t] + ts)[1..] == ts;
  }

  lemma TidyWords(t: Token, u: Token, ts: seq<Token>)
    requires Tidy(ts) && t != Dot && u != Dot
    ensures Tidy([t, u] + ts)
  {
    hide Tidy;
    TidyWord(u, ts);
    TidyWord(t, [u] + ts);
    assert [t, u] + ts == [t] + ([u] + ts);
  }

  lemma TidyPrint(e: Expr, ts: seq<Token>)
    requires Tidy(ts)
    ensures Tidy(Print(e) + ts)
  {
    hide Print, K.Named, B.Past;
    B.Printed(e, ts);
  }

  lemma TidyList(es: seq<Expr>, ts: seq<Token>)
    requires Tidy(ts)
    ensures Tidy(PrintList(es) + ts)
  {
    hide PrintList, K.Named, B.Past;
    B.PrintedList(es, ts);
  }

  lemma TidyTable(t: TableRef, ts: seq<Token>)
    requires Tidy(ts)
    ensures Tidy(PrintTable(t) + ts)
  {
    hide Tidy;
    TidyWord(Ident(t.name), ts);
    TidyWords(AsTok, Ident(t.alias), ts);
    TidyWord(Ident(t.name), [AsTok, Ident(t.alias)] + ts);
    assert PrintTable(t) + ts
           == [Ident(t.name)] + if t.alias == "" then ts else [AsTok, Ident(t.alias)] + ts;
  }

  lemma TidyJoin(j: JoinClause, ts: seq<Token>)
    requires Tidy(ts)
    ensures Tidy(PrintJoin(j) + ts)
  {
    hide Tidy, PrintTable, Print, PrintJoin;
    TidyTable(j.table, ts);
    if PlainCross(j) {
      TidyWord(Comma, PrintTable(j.table) + ts);
      PlainCrossShape(j, ts);
    } else if j.condition.None? {
      TidyWords(JoinWord(j.kind), JoinTok, PrintTable(j.table) + ts);
      NoConditionShape(j, ts);
    } else {
      TidyPrint(j.condition.value, ts);
      TidyWord(OnTok, Print(j.condition.value) + ts);
      TidyTable(j.table, [OnTok] + (Print(j.condition.value) + ts));
      TidyWords(JoinWord(j.kind), JoinTok, PrintTable(j.table) + ([OnTok] + (Print(j.condition.value) + ts)));
      JoinShape(j, ts);
    }
  }

  lemma {:induction false} TidyJoins(js: seq<JoinClause>, ts: seq<Token>)
    requires Tidy(ts)
    ensures Tidy(PrintJoins(js) + ts)
    decreases js
  {
    hide Tidy, PrintJoins, PrintJoin;
    JoinsShape(js, ts);
    if js != [] {
      TidyJoins(js[1..], ts);
      TidyJoin(js[0], PrintJoins(js[1..]) + ts);
    }
  }

  lemma TidyItem(i: SelectItem, ts: seq<Token>)
    requires Tidy(ts)
    ensures Tidy(PrintItem(i) + ts)
  {
    hide Tidy, Print, PrintItem;
    TidyWords(AsTok, Ident(i.alias), ts);
    assert Alias(i.alias) + ts == if i.alias == "" then ts else [AsTok, Ident(i.alias)] + ts;
    TidyPrint(i.expr, Alias(i.alias) + ts);
    ItemShape(i, ts);
  }

  lemma {:induction false} TidyItems(items: seq<SelectItem>, ts: seq<Token>)
    requires Tidy(ts)
    ensures Tidy(PrintMoreItems(items) + ts)
    decreases items
  {
    hide Tidy, PrintMoreItems, PrintItem;
    MoreItemsShape(items, ts);
    if items != [] {
      TidyItems(items[1..], ts);
      TidyItem(items[0], PrintMoreItems(items[1..]) + ts);
      TidyWord(Comma, PrintItem(items[0]) + (PrintMoreItems(items[1..]) + ts));
    }
  }

  lemma TidyHead(all: bool, items: seq<SelectItem>, ts: seq<Token>)
    requires Tidy(ts)
    ensures Tidy(PrintHead(false, all, items) + ts)
  {
    hide Tidy, PrintMoreItems, PrintItem, PrintHead;
    PlainHeadShape(all, items, ts);
    if all {
      TidyWord(Star, ts);
    } else if items != [] {
      TidyItems(items[1..], ts);
      TidyItem(items[0], PrintMoreItems(items[1..]) + ts);
    } else {
      EmptyHead(ts);
    }
  }

  lemma EmptyHead(ts: seq<Token>)
    ensures PrintHead(false, false, []) + ts == ts
  {
  }

  lemma TidyClause(word: Token, e: Option<Expr>, ts: seq<Token>)
    requires Tidy(ts) && word != Dot
    ensures Tidy(PrintClause(word, e) + ts)
  {
    hide Tidy, Print, PrintClause;
    ClauseShape(word, e, ts);
    if e.Some? {
      TidyPrint(e.value, ts);
      TidyWord(word, Print(e.value) + ts);
    }
  }

  lemma TidyOrder(i: OrderByItem, ts: seq<Token>)
    requires Tidy(ts)
    ensures Tidy(PrintOrder(i) + ts)
  {
    hide Tidy, Print, PrintOrder;
    var word := if i.descending then DescTok else AscTok;
    TidyWord(word, ts);
    TidyPrint(i.expr, [word] + ts);
    OrderShape(i, ts);
  }

  lemma {:induction false} TidyMoreOrder(items: seq<OrderByItem>, ts: seq<Token>)
    requires Tidy(ts)
    ensures Tidy(PrintMoreOrder(items) + ts)
    decreases items
  {
    hide Tidy, PrintMoreOrder, PrintOrder;
    MoreOrderShape(items, ts);
    if items != [] {
      TidyMoreOrder(items[1..], ts);
      TidyOrder(items[0], PrintMoreOrder(items[1..]) + ts);
      TidyWord(Comma, PrintOrder(items[0]) + (PrintMoreOrder(items[1..]) + ts));
    }
  }

  lemma TidyLimit(limit: Option<int>, offset: Option<int>, ts: seq<Token>)
    requires Tidy(ts)
    ensures Tidy(PrintLimit(limit, offset) + ts)
  {
    hide Tidy, PrintNumber;
    var o := (if offset.Some? then [OffsetTok] + PrintNumber(offset.value) else []) + ts;
    assert offset.None? ==> o == ts;
    if offset.Some? {
      TidyNumber(OffsetTok, offset.value, ts);
    }
    if limit.Some? {
      TidyNumber(LimitTok, limit.value, o);
      assert PrintLimit(limit, offset) + ts == [LimitTok] + PrintNumber(limit.value) + o;
    } else {
      assert PrintLimit(limit, offset) + ts == o;
    }
  }

  lemma TidyNumber(word: Token, i: int, ts: seq<Token>)
    requires Tidy(ts) && word != Dot
    ensures Tidy([word] + PrintNumber(i) + ts)
  {
    hide Tidy;
    if i >= 0 {
      TidyWords(word, IntLit(i), ts);
      assert [word] + PrintNumber(i) + ts == [word, IntLit(i)] + ts;
    } else {
      TidyWords(Minus, IntLit(-i), ts);
      TidyWord(word, [Minus, IntLit(-i)] + ts);
      assert [word] + PrintNumber(i) + ts == [word] + ([Minus, IntLit(-i)] + ts);
    }
  }

  lemma TidyTail(t: Tail, ts: seq<Token>)
    requires Tidy(ts)
    ensures Tidy(PrintTail(t) + ts)
  {
    hide Tidy, PrintClause, PrintGroup, PrintOrderBy, PrintLimit, PrintTail, PrintOrder, PrintMoreOrder, PrintList;
    var l := PrintLimit(t.limit, t.offset) + ts;
    var o := PrintOrderBy(t.orderBy) + l;
    var h := PrintClause(HavingTok, t.having) + o;
    TidyLimit(t.limit, t.offset, ts);
    if t.orderBy != [] {
      TidyMoreOrder(t.orderBy[1..], l);
      TidyOrder(t.orderBy[0], PrintMoreOrder(t.orderBy[1..]) + l);
      TidyWords(OrderTok, ByTok, PrintOrder(t.orderBy[0]) + (PrintMoreOrder(t.orderBy[1..]) + l));
      OrderByShape(t.orderBy, l);
    } else {
      NoOrderShape(l);
    }
    TidyClause(HavingTok, t.having, o);
    TidyList(t.groupBy, h);
    TidyWords(GroupTok, ByTok, PrintList(t.groupBy) + h);
    GroupShape(t.groupBy, h);
    TidyClause(WhereTok, t.filter, PrintGroup(t.groupBy) + h);
    TailShape(t, ts);
  }

  lemma NoOrderShape(ts: seq<Token>)
    ensures PrintOrderBy([]) + ts == ts
  {
  }

  lemma TidySelect(s: Stmt, ts: seq<Token>)
    requires s.SelectStmt? && Tidy(ts)
    ensures Tidy(PrintStmt(s) + ts)
  {
    hide Tidy, PrintStmt, PrintHead, PrintTable, PrintJoins, PrintTail;
    var js := PrintJoins(s.joins) + (PrintTail(s.tail) + ts);
    var hs := PrintHead(false, s.all, s.items) + ([FromTok] + (PrintTable(s.from) + js));
    TidyTail(s.tail, ts);
    TidyJoins(s.joins, PrintTail(s.tail) + ts);
    TidyTable(s.from, js);
    TidyWord(FromTok, PrintTable(s.from) + js);
    TidyHead(s.all, s.items, [FromTok] + (PrintTable(s.from) + js));
    TidyWord(DistinctTok, hs);
    var us := (if s.distinct then [DistinctTok] else []) + hs;
    assert !s.distinct ==> us == hs;
    TidyWord(SelectTok, us);
    SelectShape(s, ts);
  }

  lemma {:induction false} TidyNames(names: seq<string>, ts: seq<Token>)
    requires Tidy(ts)
    ensures Tidy(PrintNames(names) + ts)
    decreases names
  {
    hide Tidy;
    if |names| == 1 {
      TidyWord(Ident(names[0]), ts);
      assert PrintNames(names) + ts == [Ident(names[0])] + ts;
    } else if names != [] {
      TidyNames(names[1..], ts);
      TidyWords(Ident(names[0]), Comma, PrintNames(names[1..]) + ts);
      assert PrintNames(names) + ts == [Ident(names[0]), Comma] + (PrintNames(names[1..]) + ts);
    } else {
      assert PrintNames(names) + ts == ts;
    }
  }

  lemma TidyInsert(table: string, columns: seq<string>, values: seq<Expr>, ts: seq<Token>)
    requires Tidy(ts)
    ensures Tidy(PrintStmt(InsertStmt(table, columns, values)) + ts)
  {
    hide Tidy, PrintStmt, PrintNames, PrintList;
    var vs := [ValuesTok, LParen] + (PrintList(values) + ([RParen] + ts));
    TidyWord(RParen, ts);
    TidyList(values, [RParen] + ts);
    TidyWords(ValuesTok, LParen, PrintList(values) + ([RParen] + ts));
    TidyWord(RParen, vs);
    TidyNames(columns, [RParen] + vs);
    TidyWord(LParen, PrintNames(columns) + ([RParen] + vs));
    var cs := (if columns == [] then [] else [LParen] + PrintNames(columns) + [RParen]) + vs;
    assert cs == if columns == [] then vs else [LParen] + (PrintNames(columns) + ([RParen] + vs));
    TidyWords(IntoTok, Ident(table), cs);
    TidyWord(InsertTok, [IntoTok, Ident(table)] + cs);
    InsertShape(table, columns, values, ts);
  }

  lemma TidyAssignment(a: (string, Expr), ts: seq<Token>)
    requires Tidy(ts)
    ensures Tidy(PrintAssignment(a) + ts)
  {
    hide Tidy, Print, PrintAssignment, ReadAssignment;
    TidyPrint(a.1, ts);
    TidyWords(Ident(a.0), EqTok, Print(a.1) + ts);
    AssignmentShape(a, ts);
  }

  lemma {:induction false} TidyAssignments(xs: seq<(string, Expr)>, ts: seq<Token>)
    requires Tidy(ts)
    ensures Tidy(PrintMoreAssignments(xs) + ts)
    decreases xs
  {
    hide Tidy, PrintMoreAssignments, PrintAssignment;
    MoreAssignmentsShape(xs, ts);
    if xs != [] {
      TidyAssignments(xs[1..], ts);
      TidyAssignment(xs[0], PrintMoreAssignments(xs[1..]) + ts);
      TidyWord(Comma, PrintAssignment(xs[0]) + (PrintMoreAssignments(xs[1..]) + ts));
    }
  }

  lemma TidyUpdate(table: string, xs: seq<(string, Expr)>, filter: Option<Expr>, ts: seq<Token>)
    requires Tidy(ts) && xs != []
    ensures Tidy(PrintStmt(UpdateStmt(table, xs, filter)) + ts)
  {
    hide Tidy, PrintStmt, PrintAssignment, PrintMoreAssignments, PrintClause;
    var w := PrintClause(WhereTok, filter) + ts;
    var us := PrintAssignment(xs[0]) + (PrintMoreAssignments(xs[1..]) + w);
    TidyClause(WhereTok, filter, ts);
    TidyAssignments(xs[1..], w);
    TidyAssignment(xs[0], PrintMoreAssignments(xs[1..]) + w);
    TidyWords(Ident(table), SetTok, us);
    TidyWord(UpdateTok, [Ident(table), SetTok] + us);
    UpdateShape(table, xs, filter, ts);
  }

  lemma TidyDelete(table: string, filter: Option<Expr>, ts: seq<Token>)
    requires Tidy(ts)
    ensures Tidy(PrintStmt(DeleteStmt(table, filter)) + ts)
  {
    hide Tidy, PrintStmt, PrintClause;
    TidyClause(WhereTok, filter, ts);
    TidyWords(FromTok, Ident(table), PrintClause(WhereTok, filter) + ts);
    TidyWord(DeleteTok, [FromTok, Ident(table)] + (PrintClause(WhereTok, filter) + ts));
    DeleteShape(table, filter, ts);
  }

  // ----- every statement

  lemma Ended(rest: seq<Token>)
    requires rest == [] || rest[0] == Semicolon
    ensures From(7, rest) && !Starts(rest, Dot)
  {
  }

  /** A statement that is read back has well-formed expressions. */
  lemma OnlyExprsWF(s: Stmt, rest: seq<Token>)
    requires (rest == [] || rest[0] == Semicolon) && K.Named(rest) && ReadStmt(PrintStmt(s) + rest) == Got(s, rest)
    ensures ExprsWF(s)
  {
    hide PrintStmt, ReadStmt, K.Named, WF, AllWF, OptionWF, ConditionsWF, TailExprsWF, From;
    Ended(rest);
    match s {
      case SelectStmt(_, _, _, _, _, _) => TidySelect(s, rest); SelectOnly(s, rest);
      case InsertStmt(table, columns, values) =>
        TidyInsert(table, columns, values, rest);
        InsertOnly(table, columns, values, rest);
      case UpdateStmt(table, xs, filter) =>
        if xs == [] {
          UpdateMisread(table, filter, rest);
          assert false;
        }
        TidyUpdate(table, xs, filter, rest);
        UpdateOnly(table, xs, filter, rest);
      case DeleteStmt(table, filter) =>
        TidyDelete(table, filter, rest);
        DeleteOnly(table, filter, rest);
      case CreateTableStmt(_, _) =>
      case DropTableStmt(_, _) =>
    }
  }

  /** The main statement: a statement is read back from what it prints, up to the semicolon or the end of input,
      exactly when it is well formed. */
  lemma EveryStatementBackIff(s: Stmt, rest: seq<Token>)
    requires (rest == [] || rest[0] == Semicolon) && K.Named(rest)
    ensures ReadStmt(PrintStmt(s) + rest) == Got(s, rest) <==> StmtWF(s)
  {
    hide PrintStmt, ReadStmt, K.Named, WF, AllWF, ExprsWF, JoinsWF, TailWF, DefWF;
    if StmtWF(s) {
      StatementBack(s, rest);
    } else if ReadStmt(PrintStmt(s) + rest) == Got(s, rest) {
      OnlyExprsWF(s, rest);
      StatementBackIff(s, rest);
    }
  }
}
