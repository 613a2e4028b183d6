/**
 UPDATE and DELETE statements: a reader for them, following sections 13.7 and 13.10 of
 ISO/IEC 9075:1992, and the SET list the builders print, read back item by item.
 */
module SqlStatement {
  import opened Common
  import opened SqlText
  import opened SqlGrammar
  import opened SqlBuilder
  import opened SqlWhere

  /** The right side of an assignment: an operand, or a column plus one. */
  datatype SetValue = Assigned(operand: Operand) | Incremented(col: string)

  datatype SetClause = SetClause(target: string, value: SetValue)

  /** A table by its quoted name, or by the text the user gave to From. */
  datatype TableRef = Named(name: string) | Verbatim(sql: string)

  datatype Statement =
    | Update(table: TableRef, sets: seq<SetClause>, where: Option<Cond>)
    | Delete(table: TableRef, where: Option<Cond>)

  // ---------------------------------------------------------------- the reader

  function ParseTable(i: Input): Parsed<TableRef> {
    if i.toks == [] then Fail
    else if i.toks[0].Ident? then Ok(Named(i.toks[0].name), Skip(i, 1))
    else if i.toks[0].Opaque? && i.toks[0].holes == 0 then Ok(Verbatim(i.toks[0].sql), Skip(i, 1))
    else Fail
  }

  function ParseSet(i: Input): (r: Parsed<SetClause>)
    ensures r.Ok? ==> |r.rest.toks| < |i.toks|
  {
    if |i.toks| < 2 || !i.toks[0].Ident? || i.toks[1] != Punct('=') then Fail
    else
      var v := ParseOperand(Skip(i, 2));
      if v.Fail? then Fail
      else if v.value.Col? && v.value.table.None? && At(v.rest, 0, Punct('+')) && At(v.rest, 1, Punct('1'))
      then Ok(SetClause(i.toks[0].name, Incremented(v.value.name)), Skip(v.rest, 2))
      else Ok(SetClause(i.toks[0].name, Assigned(v.value)), v.rest)
  }

  function ParseSets(i: Input): (r: Parsed<seq<SetClause>>)
    ensures r.Ok? ==> |r.rest.toks| < |i.toks|
    decreases |i.toks|
  {
    var s := ParseSet(i);
    if s.Fail? then Fail
    else if !At(s.rest, 0, Punct(',')) then Ok([s.value], s.rest)
    else
      var more := ParseSets(Skip(s.rest, 1));
      if more.Fail? then Fail else Ok([s.value] + more.value, more.rest)
  }

  /** The optional WHERE clause and the final semicolon; no token and no argument may be left. */
  function ParseTail(i: Input): Option<Option<Cond>> {
    if !At(i, 0, Word("WHERE")) then if i == End() then Some(None) else None
    else
      var c := ParseCond(Skip(i, 1));
      if c.Ok? && c.rest == End() then Some(Some(c.value)) else None
  }

  function End(): Input {
    Input([Punct(';')], [])
  }

  function ParseStatement(i: Input): Option<Statement> {
    if At(i, 0, Word("UPDATE")) then
      var t := ParseTable(Skip(i, 1));
      if t.Fail? || !At(t.rest, 0, Word("SET")) then None
      else
        var s := ParseSets(Skip(t.rest, 1));
        if s.Fail? then None
        else
          var w := ParseTail(s.rest);
          if w.None? then None else Some(Update(t.value, s.value, w.value))
    else if At(i, 0, Word("DELETE")) && At(i, 1, Word("FROM")) then
      var t := ParseTable(Skip(i, 2));
      if t.Fail? then None
      else
        var w := ParseTail(t.rest);
        if w.None? then None else Some(Delete(t.value, w.value))
    else None
  }

  // ---------------------------------------------------------------- the SET list

  /** What the builders write into a SET list: a bound value, version=version+1, an expression. */
  datatype Item = Param(col: string, v: Val) | Bump(col: string) | Given(col: string, e: Expr)

  function EmitItem(x: Ctx, item: Item): Option<Out> {
    match item
    case Param(col, v) => EmitVersion(x, col, v)
    case Bump(col) => SqlBuilder.Join(Name(x, col),
                                      SqlBuilder.Join(Plain("="), SqlBuilder.Join(Name(x, col), Plain("+1"))))
    case Given(col, e) => SqlBuilder.Join(Name(x, col), SqlBuilder.Join(Plain("="), Emit(x, e)))
  }

  function EmitItems(x: Ctx, items: seq<Item>): Option<Out> {
    if items == [] then Plain("")
    else if |items| == 1 then EmitItem(x, items[0])
    else SqlBuilder.Join(EmitItems(x, items[..|items| - 1]),
                         SqlBuilder.Join(Plain(","), EmitItem(x, items[|items| - 1])))
  }

  /** An expression the constructors build: an operand or a predicate. */
  predicate ExprOk(x: Ctx, e: Expr) {
    OperandOk(x, e) || CondOk(x, e)
  }

  function ExprToks(x: Ctx, e: Expr): seq<Token>
    requires ExprOk(x, e)
  {
    if OperandOk(x, e) then OperandToks(x, e) else CondToks(x, e)
  }

  function ExprArgs(x: Ctx, e: Expr): seq<Val>
    requires ExprOk(x, e)
  {
    if OperandOk(x, e) then OperandArgs(x, e) else CondArgs(x, e)
  }

  predicate ItemKnown(x: Ctx, item: Item) {
    item.Given? ==> ExprOk(x, item.e)
  }

  /** What may stand on the right of an assignment: an operand, or a raw fragment made a predicate. */
  predicate ItemOk(x: Ctx, item: Item) {
    item.Given? ==> OperandOk(x, item.e) || (CondOk(x, item.e) && item.e.op == "")
  }

  function ItemToks(x: Ctx, item: Item): seq<Token>
    requires ItemKnown(x, item)
  {
    match item
    case Param(col, _) => [Ident(col), Punct('='), Punct('?')]
    case Bump(col) => [Ident(col), Punct('='), Ident(col), Punct('+'), Punct('1')]
    case Given(col, e) => [Ident(col)] + ([Punct('=')] + ExprToks(x, e))
  }

  function ItemArgs(x: Ctx, item: Item): seq<Val>
    requires ItemKnown(x, item)
  {
    match item
    case Param(_, v) => [v]
    case Bump(_) => []
    case Given(_, e) => ExprArgs(x, e)
  }

  function ItemClause(x: Ctx, item: Item): SetClause
    requires ItemOk(x, item)
  {
    match item
    case Param(col, v) => SetClause(col, Assigned(Lit(v)))
    case Bump(col) => SetClause(col, Incremented(col))
    case Given(col, e) => SetClause(col, Assigned(OperandTree(x, if OperandOk(x, e) then e else e.left)))
  }

  predicate ItemsKnown(x: Ctx, items: seq<Item>) {
    forall k :: 0 <= k < |items| ==> ItemKnown(x, items[k])
  }

  predicate ItemsOk(x: Ctx, items: seq<Item>) {
    forall k :: 0 <= k < |items| ==> ItemOk(x, items[k])
  }

  function Clauses(x: Ctx, items: seq<Item>): seq<SetClause>
    requires ItemsOk(x, items)
  {
    seq(|items|, k requires 0 <= k < |items| => ItemClause(x, items[k]))
  }

  function ItemThen(x: Ctx, item: Item, i: Input): Input
    requires ItemKnown(x, item)
  {
    Input(ItemToks(x, item) + i.toks, ItemArgs(x, item) + i.args)
  }

  /** The items with commas between them, in front of an input. */
  function Listed(x: Ctx, items: seq<Item>, i: Input): Input
    requires ItemsKnown(x, items)
  {
    if items == [] then i
    else if |items| == 1 then ItemThen(x, items[0], i)
    else ItemThen(x, items[0], Prefixed(Punct(','), Listed(x, items[1..], i)))
  }

  lemma {:induction false} ListedSnoc(x: Ctx, items: seq<Item>, last: Item, i: Input)
    requires ItemsKnown(x, items) && ItemKnown(x, last) && items != []
    ensures ItemsKnown(x, items + [last])
    ensures Listed(x, items + [last], i) == Listed(x, items, Prefixed(Punct(','), ItemThen(x, last, i)))
  {
    hide ItemKnown, ItemThen;
    var all := items + [last];
    assert all[1..] == items[1..] + [last];
    if |items| > 1 {
      ListedSnoc(x, items[1..], last, i);
    } else {
      assert all[1..] == [last];
    }
  }

  // ---------------------------------------------------------------- its text

  lemma LexItem(x: Ctx, item: Item, rest: Text)
    requires IsQuote(x.q) && ItemKnown(x, item) && Boundary(x.q, rest)
    ensures LexesTo(x, EmitItem(x, item), ItemToks(x, item), ItemArgs(x, item), rest)
  {
    hide Lex, Quoted, Emit, EmitSub, OperandToks, OperandArgs, CondToks, CondArgs, CondOk, OperandOk;
    match item {
      case Param(col, v) => LexVersion(x, col, v, rest);
      case Bump(col) => LexBump(x, col, rest);
      case Given(col, e) =>
        if OperandOk(x, e) {
          LexOperand(x, e, rest);
          NotGrouped(x, e);
        } else {
          LexCond(x, e, rest);
        }
        LexTarget(x, col, Emit(x, e), ExprToks(x, e), ExprArgs(x, e), rest);
    }
  }

  lemma NotGrouped(x: Ctx, e: Expr)
    requires OperandOk(x, e)
    ensures EmitSub(x, e) == Emit(x, e)
  {
  }

  lemma LexTarget(x: Ctx, col: string, out: Option<Out>, ts: seq<Token>, args: seq<Val>, rest: Text)
    requires IsQuote(x.q) && LexesTo(x, out, ts, args, rest)
    ensures LexesTo(x, SqlBuilder.Join(Name(x, col), SqlBuilder.Join(Plain("="), out)),
                    [Ident(col)] + ([Punct('=')] + ts), args, rest)
  {
    hide Lex, Quoted;
    assert Txt("=") == [Ch('=')];
    LexPunct(x.q, '=', out.value.text + rest);
    LexJoin(x, Plain("="), [Punct('=')], [], out, ts, args, rest);
    var tail := SqlBuilder.Join(Plain("="), out);
    assert tail.value.text + rest == [Ch('=')] + (out.value.text + rest);
    LexIdent(x.q, col, tail.value.text + rest);
    LexJoin(x, Name(x, col), [Ident(col)], [], tail, [Punct('=')] + ts, args, rest);
    assert [] + args == args;
  }

  lemma LexBump(x: Ctx, col: string, rest: Text)
    requires IsQuote(x.q)
    ensures LexesTo(x, EmitItem(x, Bump(col)), ItemToks(x, Bump(col)), [], rest)
  {
    hide Lex, Quoted;
    var t := [Ch('1')] + rest;
    LexPunct(x.q, '1', rest);
    LexPunct(x.q, '+', t);
    assert Txt("+1") + rest == [Ch('+')] + t;
    LexIdent(x.q, col, Txt("+1") + rest);
    var right := SqlBuilder.Join(Name(x, col), Plain("+1"));
    assert Quoted(x.q, col) + Txt("+1") + rest == Quoted(x.q, col) + (Txt("+1") + rest);
    assert LexesTo(x, right, [Ident(col), Punct('+'), Punct('1')], [], rest);
    LexTarget(x, col, right, [Ident(col), Punct('+'), Punct('1')], [], rest);
    assert ItemToks(x, Bump(col)) == [Ident(col)] + ([Punct('=')] + [Ident(col), Punct('+'), Punct('1')]);
  }

  lemma SeenItem(x: Ctx, item: Item, rest: Text, more: seq<Val>)
    requires IsQuote(x.q) && ItemKnown(x, item) && Boundary(x.q, rest)
    ensures EmitItem(x, item).Some?
    ensures Seen(x, EmitItem(x, item), rest, more) == ItemThen(x, item, Input(Lex(x.q, rest), more))
  {
    hide Lex, EmitItem, ItemToks, ItemArgs, ItemKnown;
    LexItem(x, item, rest);
  }

  /** A comma in front of an item. */
  lemma SeenComma(x: Ctx, item: Item, rest: Text, more: seq<Val>)
    requires IsQuote(x.q) && ItemKnown(x, item) && Boundary(x.q, rest)
    ensures var out := SqlBuilder.Join(Plain(","), EmitItem(x, item));
            && out.Some? && Boundary(x.q, out.value.text + rest)
            && Seen(x, out, rest, more) == Prefixed(Punct(','), ItemThen(x, item, Input(Lex(x.q, rest), more)))
  {
    hide Lex, EmitItem, ItemThen, ItemKnown, Txt;
    SeenItem(x, item, rest, more);
    var t := EmitItem(x, item).value.text + rest;
    LexComma(x, t);
    SeenJoin(x, Plain(","), [Punct(',')], [], EmitItem(x, item), rest, more);
    assert [] + Seen(x, EmitItem(x, item), rest, more).args == Seen(x, EmitItem(x, item), rest, more).args;
    assert Txt(",") + EmitItem(x, item).value.text + rest == Txt(",") + t;
  }

  lemma LexComma(x: Ctx, rest: Text)
    requires IsQuote(x.q)
    ensures LexesTo(x, Plain(","), [Punct(',')], [], rest) && Boundary(x.q, Txt(",") + rest)
  {
    hide Lex;
    assert Txt(",") == [Ch(',')];
    LexPunct(x.q, ',', rest);
  }

  /** What the database reads of the SET list: the items in order, one comma between two of them. */
  lemma {:induction false} LexItems(x: Ctx, items: seq<Item>, rest: Text, more: seq<Val>)
    requires IsQuote(x.q) && ItemsKnown(x, items) && Boundary(x.q, rest)
    ensures EmitItems(x, items).Some?
    ensures Seen(x, EmitItems(x, items), rest, more) == Listed(x, items, Input(Lex(x.q, rest), more))
  {
    hide Lex, EmitItem, ItemThen, ItemKnown;
    if items == [] {
      assert Txt("") + rest == rest && [] + more == more;
    } else if |items| == 1 {
      SeenItem(x, items[0], rest, more);
    } else {
      var front, last := items[..|items| - 1], items[|items| - 1];
      var tail := SqlBuilder.Join(Plain(","), EmitItem(x, last));
      SeenComma(x, last, rest, more);
      LexItems(x, front, tail.value.text + rest, tail.value.args + more);
      assert items == front + [last];
      ListedSnoc(x, front, last, Input(Lex(x.q, rest), more));
      SeenFront(x, EmitItems(x, front), tail, rest, more);
    }
  }

  lemma SeenFront(x: Ctx, a: Option<Out>, b: Option<Out>, rest: Text, more: seq<Val>)
    requires a.Some? && b.Some?
    ensures Seen(x, SqlBuilder.Join(a, b), rest, more) == Seen(x, a, b.value.text + rest, b.value.args + more)
  {
    hide Lex;
    assert a.value.text + b.value.text + rest == a.value.text + (b.value.text + rest);
    assert a.value.args + b.value.args + more == a.value.args + (b.value.args + more);
  }

  // ---------------------------------------------------------------- reading it back

  /** Nothing that would continue an assignment. */
  predicate EndsItem(i: Input) {
    Ends(i) && !At(i, 0, Punct('+'))
  }

  lemma ParamReads(x: Ctx, col: string, v: Val, i: Input)
    requires EndsItem(i)
    ensures ParseSet(ItemThen(x, Param(col, v), i)) == Ok(SetClause(col, Assigned(Lit(v))), i)
  {
    var all := ItemThen(x, Param(col, v), i);
    assert all.toks[2..][1..] == i.toks && all.args[1..] == i.args;
  }

  lemma BumpReads(x: Ctx, col: string, i: Input)
    ensures ParseSet(ItemThen(x, Bump(col), i)) == Ok(SetClause(col, Incremented(col)), i)
  {
    var all := ItemThen(x, Bump(col), i);
    var right := Skip(all, 2);
    assert all.args == i.args;
    assert right.toks[0] == Ident(col) && right.toks[1] == Punct('+') && right.toks[2] == Punct('1');
    assert right.toks[1..][2..] == i.toks;
  }

  lemma GivenReads(x: Ctx, col: string, e: Expr, i: Input)
    requires ItemOk(x, Given(col, e)) && EndsItem(i)
    ensures ParseSet(ItemThen(x, Given(col, e), i)) == Ok(ItemClause(x, Given(col, e)), i)
  {
    var o := if OperandOk(x, e) then e else e.left;
    assert OperandOk(x, o) && ExprToks(x, e) == OperandToks(x, o) && ExprArgs(x, e) == OperandArgs(x, o);
    OperandReads(x, o, i);
    hide ParseOperand, OperandToks, OperandArgs, OperandTree, OperandOk, ExprToks, ExprArgs, CondOk;
    AfterTarget(col, OperandToks(x, o), OperandArgs(x, o), i);
  }

  lemma AfterTarget(col: string, ts: seq<Token>, args: seq<Val>, i: Input)
    ensures var all := Input([Ident(col)] + ([Punct('=')] + ts) + i.toks, args + i.args);
            && |all.toks| >= 2 && all.toks[0] == Ident(col) && all.toks[1] == Punct('=')
            && Skip(all, 2) == Input(ts + i.toks, args + i.args)
  {
    var toks := [Ident(col)] + ([Punct('=')] + ts) + i.toks;
    assert toks[2..] == ts + i.toks;
  }

  lemma ItemReads(x: Ctx, item: Item, i: Input)
    requires ItemOk(x, item) && EndsItem(i)
    ensures ParseSet(ItemThen(x, item, i)) == Ok(ItemClause(x, item), i)
  {
    hide ParseSet, ItemThen;
    match item {
      case Param(col, v) => ParamReads(x, col, v, i);
      case Bump(col) => BumpReads(x, col, i);
      case Given(col, e) => GivenReads(x, col, e, i);
    }
  }

  lemma OkIsKnown(x: Ctx, items: seq<Item>)
    requires ItemsOk(x, items)
    ensures ItemsKnown(x, items)
  {
    hide OperandOk, CondOk;
  }

  lemma {:induction false} ItemsRead(x: Ctx, items: seq<Item>, i: Input)
    requires ItemsOk(x, items) && ItemsKnown(x, items) && items != [] && EndsItem(i) && !At(i, 0, Punct(','))
    ensures ParseSets(Listed(x, items, i)) == Ok(Clauses(x, items), i)
  {
    hide ItemOk, ItemThen, ParseSet, ItemClause;
    if |items| == 1 {
      ItemReads(x, items[0], i);
      assert Clauses(x, items) == [ItemClause(x, items[0])];
    } else {
      var more := Listed(x, items[1..], i);
      ItemReads(x, items[0], Prefixed(Punct(','), more));
      SkipPrefixed(Punct(','), more);
      ItemsRead(x, items[1..], i);
      assert Clauses(x, items) == [ItemClause(x, items[0])] + Clauses(x, items[1..]);
    }
  }

  // ---------------------------------------------------------------- a predicate in an assignment

  /** Reading has failed, or has stopped in front of a comparison. */
  predicate Stuck<A>(r: Parsed<A>) {
    r.Ok? ==> r.rest.toks != [] && r.rest.toks[0].Punct? && IsComparison(r.rest.toks[0].c)
  }

  lemma GroupIsNoOperand(j: Input)
    requires |j.toks| > 1 && j.toks[0] == Punct('(') && !j.toks[1].Opaque?
    ensures ParseOperand(j).Fail?
  {
  }

  lemma NotIsNoOperand(j: Input)
    requires |j.toks| > 2 && j.toks[0] == Word("NOT") && (j.toks[2].Ident? ==> !At(j, 3, Punct(')')))
    ensures ParseOperand(j).Fail?
  {
  }

  lemma ComparisonIsNoOperand(x: Ctx, e: Expr, i: Input)
    requires CondOk(x, e) && IsCompareOp(e.op)
    ensures Stuck(ParseOperand(Input(CondToks(x, e) + i.toks, CondArgs(x, e) + i.args)))
  {
    var j := Input(CondToks(x, e) + i.toks, CondArgs(x, e) + i.args);
    hide OperandToks, OperandArgs, OperandTree, ParseOperand, OperandOk;
    var mid := Prefixed(Punct(e.op[0]), Input(OperandToks(x, e.right) + i.toks, OperandArgs(x, e.right) + i.args));
    assert j.toks == OperandToks(x, e.left) + mid.toks;
    assert j.args == OperandArgs(x, e.left) + mid.args;
    OperandReads(x, e.left, mid);
  }

  /** The tokens of a predicate that is no raw fragment do not read as an operand, or leave a comparison behind. */
  lemma PredicateIsNoOperand(x: Ctx, e: Expr, i: Input)
    requires CondOk(x, e) && e.op != ""
    ensures Stuck(ParseOperand(Input(CondToks(x, e) + i.toks, CondArgs(x, e) + i.args)))
  {
    hide ParseOperand, OperandToks, OperandOk, CondArgs;
    var j := Input(CondToks(x, e) + i.toks, CondArgs(x, e) + i.args);
    if e.op == "AND" || e.op == "OR" {
      FirstToken(x, e.left);
      assert j.toks[0] == Punct('(') && j.toks[1] == CondToks(x, e.left)[0];
      GroupIsNoOperand(j);
    } else if e.op == "NOT" {
      SecondToken(x, e.right);
      var ts := CondToks(x, e.right);
      assert j.toks[0] == Word("NOT") && j.toks[2] == ts[0];
      assert |ts| > 1 ==> j.toks[3] == ts[1];
      NotIsNoOperand(j);
    } else {
      ComparisonIsNoOperand(x, e, i);
    }
  }

  /** A column at the front of a predicate is not alone in it. */
  lemma SecondToken(x: Ctx, e: Expr)
    requires CondOk(x, e)
    ensures CondToks(x, e) != []
    ensures CondToks(x, e)[0].Ident? ==> |CondToks(x, e)| > 1 && CondToks(x, e)[1] != Punct(')')
  {
  }

  lemma PredicateItemSticks(x: Ctx, item: Item, i: Input)
    requires ItemKnown(x, item) && !ItemOk(x, item)
    ensures Stuck(ParseSet(ItemThen(x, item, i)))
  {
    assert ExprToks(x, item.e) == CondToks(x, item.e) && ExprArgs(x, item.e) == CondArgs(x, item.e);
    PredicateIsNoOperand(x, item.e, i);
    hide ParseOperand, CondToks, CondArgs, CondOk, ExprToks, ExprArgs, OperandOk;
    AfterTarget(item.col, CondToks(x, item.e), CondArgs(x, item.e), i);
  }

  /** A SET list with a predicate in it is not read to its end. */
  lemma {:induction false} ListSticks(x: Ctx, items: seq<Item>, i: Input)
    requires ItemsKnown(x, items) && !ItemsOk(x, items)
    ensures Stuck(ParseSets(Listed(x, items, i)))
  {
    hide ItemOk, ItemKnown, ItemThen, ParseSet, ItemClause;
    var rest := if |items| == 1 then i else Prefixed(Punct(','), Listed(x, items[1..], i));
    if !ItemOk(x, items[0]) {
      PredicateItemSticks(x, items[0], rest);
    } else {
      assert ItemsKnown(x, items[1..]) && !ItemsOk(x, items[1..]);
      ListSticks(x, items[1..], i);
      ItemReads(x, items[0], rest);
      SkipPrefixed(Punct(','), Listed(x, items[1..], i));
    }
  }

  lemma StuckIsNoTail(r: Parsed<seq<SetClause>>)
    requires Stuck(r) && r.Ok?
    ensures ParseTail(r.rest) == None
  {
  }

  // ---------------------------------------------------------------- whole statements

  /** The filter and the semicolon read as the filter's tree. */
  lemma TailReads(x: Ctx, f: Filter)
    requires IsQuote(x.q) && FilterOk(x, f)
    ensures var out := SqlBuilder.Join(EmitFilter(x, f), Plain(";"));
            && out.Some? && Boundary(x.q, out.value.text)
            && var i := Input(Lex(x.q, out.value.text), out.value.args);
               && EndsItem(i) && !At(i, 0, Punct(',')) && i.toks != [] && !i.toks[0].Ident?
               && (IsEmpty(f) ==> ParseTail(i) == Some(None))
               && (!IsEmpty(f) ==> ParseTail(i) == Some(Some(FilterTree(x, f))))
  {
    hide Lex, EmitConditions, FilterInput, FilterTree, FilterOk, ParseCond;
    var semi := Txt(";");
    assert semi == [Ch(';')] + [];
    LexPunct(x.q, ';', []);
    LexNothing(x.q);
    assert Input(Lex(x.q, semi), []) == End();
    if IsEmpty(f) {
      assert Txt("") + semi == semi;
    } else {
      LexFilter(x, f, semi, []);
      var out := SqlBuilder.Join(EmitFilter(x, f), Plain(";"));
      FilterReads(x, f, End());
      SkipPrefixed(Word("WHERE"), FilterInput(x, f, End()));
    }
  }
}
