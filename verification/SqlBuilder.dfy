/**
 The predicate printer of orm/builder.go over the trees of orm/predicate.go, orm/column.go,
 orm/aggregate.go and orm/expression.go, and the proof that what it prints reads back as the
 same tree with every placeholder bound to its own argument.
 */
module SqlBuilder {
  import opened Common
  import opened SqlText
  import opened SqlGrammar

  /** A table's name and the columns of its fields. */
  datatype Meta = Meta(tableName: string, columns: map<string, string>)

  /** A table reference; its entity may be unknown to the registry. */
  datatype Table = Table(entity: Option<Meta>, alias: string)

  datatype Expr =
    | NoExpr
    | Column(name: string, table: Option<Table>, alias: string)
    | Value(v: Val)
    | Aggregate(fn: string, arg: string, alias: string)
    | Pred(left: Expr, op: string, right: Expr)
    | RawExpr(sql: string, holes: nat, params: seq<Val>)
    | Unsupported

  function AndOf(l: Expr, r: Expr): Expr { Pred(l, "AND", r) }
  function OrOf(l: Expr, r: Expr): Expr { Pred(l, "OR", r) }

  /** The dialect's quote character and the model's columns. */
  datatype Ctx = Ctx(q: char, columns: map<string, string>)

  datatype Out = Out(text: Text, args: seq<Val>)

  function Join(a: Option<Out>, b: Option<Out>): Option<Out> {
    if a.None? || b.None? then None else Some(Out(a.value.text + b.value.text, a.value.args + b.value.args))
  }

  function Plain(s: string): Option<Out> {
    Some(Out(Txt(s), []))
  }

  function Name(x: Ctx, name: string): Option<Out> {
    Some(Out(Quoted(x.q, name), []))
  }

  // ---------------------------------------------------------------- what is printed

  /** None stands for the error returns: an unknown field, an unknown entity, an unsupported expression. */
  function EmitColumn(x: Ctx, name: string, table: Option<Table>, alias: string): Option<Out> {
    match table
    case None =>
      if name !in x.columns then None
      else if alias == "" then Name(x, x.columns[name])
      else Join(Join(Name(x, x.columns[name]), Plain(" AS ")), Name(x, alias))
    case Some(t) =>
      if t.entity.None? || name !in t.entity.value.columns then None
      else Join(Join(Name(x, if t.alias == "" then t.entity.value.tableName else t.alias), Plain(".")),
                Name(x, t.entity.value.columns[name]))
  }

  function EmitAggregate(x: Ctx, fn: string, arg: string, alias: string): Option<Out> {
    if alias == "" then EmitCall(x, fn, arg) else Join(Join(EmitCall(x, fn, arg), Plain(" AS ")), Name(x, alias))
  }

  function EmitCall(x: Ctx, fn: string, arg: string): Option<Out> {
    Join(Join(Join(Plain(fn), Plain("(")), EmitColumn(x, arg, None, "")), Plain(")"))
  }

  function Emit(x: Ctx, e: Expr): Option<Out>
    decreases e, 0
  {
    match e
    case NoExpr => Plain("")
    case Column(name, table, _) => EmitColumn(x, name, table, "")
    case Value(v) => Some(Out(Txt("?"), [v]))
    case Aggregate(fn, arg, alias) => EmitAggregate(x, fn, arg, alias)
    case Pred(l, op, r) =>
      Join(Join(EmitSub(x, l), Plain(if op == "" then "" else " " + op + " ")), EmitSub(x, r))
    case RawExpr(sql, holes, params) => Some(Out([Ch('('), SqlText.Raw(sql, holes), Ch(')')], params))
    case Unsupported => None
  }

  function EmitSub(x: Ctx, e: Expr): Option<Out>
    decreases e, 1
  {
    if e.Pred? then Join(Join(Plain("("), Emit(x, e)), Plain(")")) else Emit(x, e)
  }

  /** Several predicates are combined by AND, to the left. */
  function Folded(ps: seq<Expr>): Expr
    requires ps != []
  {
    if |ps| == 1 then ps[0] else AndOf(Folded(ps[..|ps| - 1]), ps[|ps| - 1])
  }

  // ---------------------------------------------------------------- the printer as the source runs it

  class Builder {
    const x: Ctx
    var text: Text
    var args: seq<Val>

    constructor (x: Ctx)
      ensures this.x == x && text == [] && args == []
    {
      this.x, text, args := x, [], [];
    }

    /** This output has been appended. */
    twostate predicate Appended(new out: Option<Out>)
      reads this
    {
      out.Some? && text == old(text) + out.value.text && args == old(args) + out.value.args
    }

    method Quote(name: string)
      modifies this`text
      ensures text == old(text) + Quoted(x.q, name)
    {
      text := text + [Ch(x.q)];
      var i := 0;
      ghost var start := text;
      assert name[0..] == name;
      while i < |name|
        invariant 0 <= i <= |name|
        invariant text + Doubled(x.q, name[i..]) == start + Doubled(x.q, name)
      {
        assert name[i..][1..] == name[i + 1..];
        if name[i] == x.q {
          text := text + [Ch(x.q), Ch(x.q)];
        } else {
          text := text + [Ch(name[i])];
        }
        i := i + 1;
      }
      assert name[i..] == "";
      assert text == start + Doubled(x.q, name);
      text := text + [Ch(x.q)];
    }

    method Write(s: string)
      modifies this`text
      ensures text == old(text) + Txt(s)
    {
      text := text + Txt(s);
    }

    method BuildColumn(name: string, table: Option<Table>, alias: string) returns (ok: bool)
      modifies this
      ensures ok <==> EmitColumn(x, name, table, alias).Some?
      ensures ok ==> Appended(EmitColumn(x, name, table, alias))
    {
      hide Quoted;
      match table {
        case None =>
          if name !in x.columns { return false; }
          Quote(x.columns[name]);
          if alias != "" {
            Write(" AS ");
            Quote(alias);
          }
        case Some(t) =>
          if t.entity.None? { return false; }
          if name !in t.entity.value.columns { return false; }
          Quote(if t.alias == "" then t.entity.value.tableName else t.alias);
          Write(".");
          Quote(t.entity.value.columns[name]);
      }
      return true;
    }

    method BuildAggregate(fn: string, arg: string, alias: string) returns (ok: bool)
      modifies this
      ensures ok <==> EmitAggregate(x, fn, arg, alias).Some?
      ensures ok ==> Appended(EmitAggregate(x, fn, arg, alias))
    {
      hide Quoted, EmitCall, Txt;
      ok := BuildCall(fn, arg);
      if !ok { return; }
      if alias != "" {
        Write(" AS ");
        Quote(alias);
      }
    }

    method BuildCall(fn: string, arg: string) returns (ok: bool)
      modifies this
      ensures ok <==> EmitCall(x, fn, arg).Some?
      ensures ok ==> Appended(EmitCall(x, fn, arg))
    {
      hide Quoted, EmitColumn, Txt;
      Write(fn);
      Write("(");
      ok := BuildColumn(arg, None, "");
      if !ok { return; }
      Write(")");
    }

    method BuildExpression(e: Expr) returns (ok: bool)
      modifies this
      ensures ok <==> Emit(x, e).Some?
      ensures ok ==> Appended(Emit(x, e))
      decreases e, 1
    {
      hide Quoted, EmitColumn, EmitAggregate;
      match e {
        case NoExpr => assert text + Txt("") == text;
        case Column(name, table, _) =>
          ok := BuildColumn(name, table, "");
          return;
        case Value(v) =>
          Write("?");
          args := args + [v];
        case Aggregate(fn, arg, alias) =>
          ok := BuildAggregate(fn, arg, alias);
          return;
        case Pred(_, _, _) =>
          ok := BuildBinaryExpr(e);
          return;
        case RawExpr(sql, holes, params) =>
          text := text + [Ch('(')];
          text := text + [SqlText.Raw(sql, holes)];
          args := args + params;
          text := text + [Ch(')')];
        case Unsupported => return false;
      }
      return true;
    }

    method BuildBinaryExpr(e: Expr) returns (ok: bool)
      requires e.Pred?
      modifies this
      ensures ok <==> Emit(x, e).Some?
      ensures ok ==> Appended(Emit(x, e))
      decreases e, 0
    {
      hide EmitSub;
      ok := BuildSubExpr(e.left);
      if !ok { return; }
      if e.op != "" {
        Write(" " + e.op + " ");
      }
      if e.right != NoExpr {
        ok := BuildSubExpr(e.right);
      } else {
        assert EmitSub(x, NoExpr) == Plain("") by { NothingIsPrinted(x); }
      }
    }

    method BuildSubExpr(e: Expr) returns (ok: bool)
      modifies this
      ensures ok <==> EmitSub(x, e).Some?
      ensures ok ==> Appended(EmitSub(x, e))
      decreases e, 2
    {
      hide Emit;
      if e.Pred? {
        Write("(");
        ok := BuildBinaryExpr(e);
        if !ok { return; }
        Write(")");
      } else {
        ok := BuildExpression(e);
      }
    }

    method BuildPredicates(ps: seq<Expr>) returns (ok: bool)
      requires ps != []
      modifies this
      ensures ok <==> Emit(x, Folded(ps)).Some?
      ensures ok ==> Appended(Emit(x, Folded(ps)))
    {
      var p := ps[0];
      for i := 1 to |ps|
        invariant p == Folded(ps[..i])
      {
        assert ps[..i + 1][..i] == ps[..i];
        p := AndOf(p, ps[i]);
      }
      assert ps[..|ps|] == ps;
      ok := BuildExpression(p);
    }
  }

  lemma NothingIsPrinted(x: Ctx)
    ensures EmitSub(x, NoExpr) == Plain("")
  {
  }

  // ---------------------------------------------------------------- the trees behind the printed text

  predicate ColumnOk(x: Ctx, name: string, table: Option<Table>) {
    match table
    case None => name in x.columns
    case Some(t) => t.entity.Some? && name in t.entity.value.columns
  }

  function ColumnTree(x: Ctx, name: string, table: Option<Table>): Operand
    requires ColumnOk(x, name, table)
  {
    match table
    case None => Col(None, x.columns[name])
    case Some(t) => Col(Some(if t.alias == "" then t.entity.value.tableName else t.alias), t.entity.value.columns[name])
  }

  /** A column of a joined table is named by the table's alias if it has one, else by the table. */
  lemma ColumnIsQualified(x: Ctx, name: string, t: Table, rest: Text)
    requires IsQuote(x.q) && Boundary(x.q, rest) && ColumnOk(x, name, Some(t))
    ensures var out := EmitColumn(x, name, Some(t), "");
            && out.Some? && out.value.args == []
            && Lex(x.q, out.value.text + rest)
            == [Ident(if t.alias != "" then t.alias else t.entity.value.tableName), Punct('.'),
                Ident(t.entity.value.columns[name])] + Lex(x.q, rest)
  {
    hide Lex, Quoted;
    LexColumn(x, name, Some(t), rest);
  }

  /** The function names the constructors use are words; NOT is not among them. */
  predicate CallOk(x: Ctx, e: Expr) {
    e.Aggregate? && e.alias == "" && IsWord(e.fn) && e.fn != "NOT" && e.arg in x.columns
  }

  /** What may stand in a comparison: the left side has no raw fragment, the right side may have any. */
  predicate OperandOk(x: Ctx, e: Expr) {
    match e
    case Column(name, table, _) => ColumnOk(x, name, table)
    case Value(_) => true
    case Aggregate(_, _, _) => CallOk(x, e)
    case RawExpr(_, holes, params) => holes == |params|
    case _ => false
  }

  function OperandTree(x: Ctx, e: Expr): Operand
    requires OperandOk(x, e)
  {
    match e
    case Column(name, table, _) => ColumnTree(x, name, table)
    case Value(v) => Lit(v)
    case Aggregate(fn, arg, _) => Agg(fn, x.columns[arg])
    case RawExpr(sql, _, params) => RawVal(sql, params)
  }

  predicate IsCompareOp(op: string) {
    |op| == 1 && IsComparison(op[0])
  }

  /** The predicate trees the constructors build over known fields, with an operand on each side of a comparison. */
  predicate CondOk(x: Ctx, e: Expr) {
    && e.Pred?
    && (if e.op == "AND" || e.op == "OR" then CondOk(x, e.left) && CondOk(x, e.right)
        else if e.op == "NOT" then e.left.NoExpr? && CondOk(x, e.right)
        else if e.op == "" then e.left.RawExpr? && e.left.holes == |e.left.params| && e.right.NoExpr?
        else IsCompareOp(e.op) && (e.left.Column? || e.left.Aggregate?) && OperandOk(x, e.left)
             && OperandOk(x, e.right))
  }

  function CondTree(x: Ctx, e: Expr): Cond
    requires CondOk(x, e)
  {
    if e.op == "AND" then And(CondTree(x, e.left), CondTree(x, e.right))
    else if e.op == "OR" then Or(CondTree(x, e.left), CondTree(x, e.right))
    else if e.op == "NOT" then Not(CondTree(x, e.right))
    else if e.op == "" then RawCond(e.left.sql, e.left.params)
    else Cmp(e.op[0], OperandTree(x, e.left), OperandTree(x, e.right))
  }

  function OperandToks(x: Ctx, e: Expr): seq<Token>
    requires OperandOk(x, e)
  {
    match e
    case Column(name, table, _) =>
      var c := ColumnTree(x, name, table);
      if c.table.None? then [Ident(c.name)] else [Ident(c.table.value), Punct('.'), Ident(c.name)]
    case Value(_) => [Punct('?')]
    case Aggregate(fn, arg, _) => [Word(fn), Punct('('), Ident(x.columns[arg]), Punct(')')]
    case RawExpr(sql, holes, _) => [Punct('('), Opaque(sql, holes), Punct(')')]
  }

  function OperandArgs(x: Ctx, e: Expr): seq<Val>
    requires OperandOk(x, e)
  {
    match e
    case Value(v) => [v]
    case RawExpr(_, _, params) => params
    case _ => []
  }

  function Group(ts: seq<Token>): seq<Token> {
    [Punct('(')] + ts + [Punct(')')]
  }

  function CondToks(x: Ctx, e: Expr): seq<Token>
    requires CondOk(x, e)
  {
    if e.op == "AND" || e.op == "OR" then Group(CondToks(x, e.left)) + ([Word(e.op)] + Group(CondToks(x, e.right)))
    else if e.op == "NOT" then [Word("NOT")] + Group(CondToks(x, e.right))
    else if e.op == "" then OperandToks(x, e.left)
    else OperandToks(x, e.left) + ([Punct(e.op[0])] + OperandToks(x, e.right))
  }

  function CondArgs(x: Ctx, e: Expr): seq<Val>
    requires CondOk(x, e)
  {
    if e.op == "AND" || e.op == "OR" then CondArgs(x, e.left) + CondArgs(x, e.right)
    else if e.op == "NOT" then CondArgs(x, e.right)
    else if e.op == "" then OperandArgs(x, e.left)
    else OperandArgs(x, e.left) + OperandArgs(x, e.right)
  }

  // ---------------------------------------------------------------- the text's tokens

  ghost predicate LexesTo(x: Ctx, out: Option<Out>, ts: seq<Token>, args: seq<Val>, rest: Text) {
    out.Some? && out.value.args == args && Lex(x.q, out.value.text + rest) == ts + Lex(x.q, rest)
  }

  lemma LexColumn(x: Ctx, name: string, table: Option<Table>, rest: Text)
    requires IsQuote(x.q) && Boundary(x.q, rest) && ColumnOk(x, name, table)
    ensures LexesTo(x, EmitColumn(x, name, table, ""), OperandToks(x, Column(name, table, "")), [], rest)
  {
    hide Lex, Quoted;
    var c := ColumnTree(x, name, table);
    LexIdent(x.q, c.name, rest);
    if c.table.Some? {
      var tail := Quoted(x.q, c.name) + rest;
      LexPunct(x.q, '.', tail);
      LexIdent(x.q, c.table.value, [Ch('.')] + tail);
      assert Txt(".") == [Ch('.')];
      assert Quoted(x.q, c.table.value) + Txt(".") + Quoted(x.q, c.name) + rest
          == Quoted(x.q, c.table.value) + ([Ch('.')] + tail);
    }
  }

  lemma LexCall(x: Ctx, e: Expr, rest: Text)
    requires IsQuote(x.q) && Boundary(x.q, rest) && CallOk(x, e)
    ensures LexesTo(x, Emit(x, e), OperandToks(x, e), [], rest)
  {
    hide Lex, Quoted;
    var col := x.columns[e.arg];
    var t1 := [Ch(')')] + rest;
    var t2 := Quoted(x.q, col) + t1;
    var t3 := [Ch('(')] + t2;
    LexPunct(x.q, ')', rest);
    LexIdent(x.q, col, t1);
    LexPunct(x.q, '(', t2);
    LexWord(x.q, e.fn, t3);
    assert Txt("(") == [Ch('(')] && Txt(")") == [Ch(')')];
    assert Txt(e.fn) + Txt("(") + Quoted(x.q, col) + Txt(")") + rest == Txt(e.fn) + t3;
  }

  lemma LexAlias(x: Ctx, alias: string, rest: Text)
    requires IsQuote(x.q) && Boundary(x.q, rest)
    ensures Boundary(x.q, Txt(" AS ") + (Quoted(x.q, alias) + rest))
    ensures Lex(x.q, Txt(" AS ") + (Quoted(x.q, alias) + rest)) == [Word("AS"), Ident(alias)] + Lex(x.q, rest)
  {
    hide Lex, Quoted;
    LexIdent(x.q, alias, rest);
    LexSpacedWord(x.q, "AS", Quoted(x.q, alias) + rest);
    assert " " + "AS" + " " == " AS ";
    assert Txt(" AS ")[0] == Ch(' ');
  }

  /** A column or an aggregate with an alias reads as itself, the word AS and the alias. */
  lemma AliasIsRead(x: Ctx, name: string, fn: string, alias: string, rest: Text)
    requires IsQuote(x.q) && Boundary(x.q, rest) && alias != "" && name in x.columns && IsWord(fn) && fn != "NOT"
    ensures LexesTo(x, EmitColumn(x, name, None, alias), [Ident(x.columns[name]), Word("AS"), Ident(alias)], [], rest)
    ensures LexesTo(x, EmitAggregate(x, fn, name, alias),
                    [Word(fn), Punct('('), Ident(x.columns[name]), Punct(')'), Word("AS"), Ident(alias)], [], rest)
  {
    hide Lex, Quoted;
    var tail := Txt(" AS ") + (Quoted(x.q, alias) + rest);
    LexAlias(x, alias, rest);
    var col := x.columns[name];
    LexIdent(x.q, col, tail);
    assert Quoted(x.q, col) + Txt(" AS ") + Quoted(x.q, alias) + rest == Quoted(x.q, col) + tail;
    LexCall(x, Aggregate(fn, name, ""), tail);
    var call := EmitCall(x, fn, name);
    assert call.value.text + Txt(" AS ") + Quoted(x.q, alias) + rest == call.value.text + tail;
  }

  lemma LexOperand(x: Ctx, e: Expr, rest: Text)
    requires IsQuote(x.q) && Boundary(x.q, rest) && OperandOk(x, e)
    ensures LexesTo(x, EmitSub(x, e), OperandToks(x, e), OperandArgs(x, e), rest)
  {
    hide Lex, Quoted, EmitColumn, EmitAggregate;
    match e {
      case Column(name, table, _) => LexColumn(x, name, table, rest);
      case Value(v) =>
        LexPunct(x.q, '?', rest);
        assert Txt("?") == [Ch('?')];
      case Aggregate(_, _, _) => LexCall(x, e, rest);
      case RawExpr(sql, holes, params) =>
        var t1 := [Ch(')')] + rest;
        LexPunct(x.q, ')', rest);
        LexRaw(x.q, sql, holes, t1);
        LexPunct(x.q, '(', [SqlText.Raw(sql, holes)] + t1);
        assert [Ch('('), SqlText.Raw(sql, holes), Ch(')')] + rest == [Ch('(')] + ([SqlText.Raw(sql, holes)] + t1);
    }
  }

  /** Two outputs one after the other. */
  lemma LexJoin(x: Ctx, a: Option<Out>, ta: seq<Token>, ga: seq<Val>, b: Option<Out>, tb: seq<Token>, gb: seq<Val>,
                rest: Text)
    requires LexesTo(x, b, tb, gb, rest) && LexesTo(x, a, ta, ga, b.value.text + rest)
    ensures LexesTo(x, Join(a, b), ta + tb, ga + gb, rest)
  {
    hide Lex;
    assert a.value.text + b.value.text + rest == a.value.text + (b.value.text + rest);
  }

  lemma LexParen(x: Ctx, c: char, rest: Text)
    requires IsQuote(x.q) && (c == '(' || c == ')')
    ensures LexesTo(x, Plain([c]), [Punct(c)], [], rest)
  {
    hide Lex;
    LexPunct(x.q, c, rest);
    assert Txt([c]) == [Ch(c)];
  }

  lemma LexOp(x: Ctx, op: string, rest: Text)
    requires IsQuote(x.q) && (IsCompareOp(op) || (IsWord(op) && op != ""))
    ensures LexesTo(x, Plain(" " + op + " "), [if IsCompareOp(op) then Punct(op[0]) else Word(op)], [], rest)
  {
    hide Lex, Txt;
    if IsCompareOp(op) {
      LexSpacedPunct(x.q, op[0], rest);
      assert " " + op + " " == [' ', op[0], ' '];
    } else {
      LexSpacedWord(x.q, op, rest);
    }
  }

  lemma LexGroupOf(x: Ctx, out: Option<Out>, ts: seq<Token>, args: seq<Val>, rest: Text)
    requires IsQuote(x.q) && LexesTo(x, out, ts, args, Txt(")") + rest)
    ensures LexesTo(x, Join(Join(Plain("("), out), Plain(")")), Group(ts), args, rest)
  {
    hide Lex, Txt;
    LexParen(x, ')', rest);
    LexParen(x, '(', out.value.text + (Txt(")") + rest));
    LexJoin(x, Plain("("), [Punct('(')], [], out, ts, args, Txt(")") + rest);
    LexJoin(x, Join(Plain("("), out), [Punct('(')] + ts, args, Plain(")"), [Punct(')')], [], rest);
  }

  lemma ParenIsBoundary(x: Ctx, rest: Text)
    requires IsQuote(x.q)
    ensures Boundary(x.q, Txt(")") + rest)
  {
  }

  lemma SpaceIsBoundary(x: Ctx, op: string, rest: Text)
    requires IsQuote(x.q)
    ensures Boundary(x.q, Txt(" " + op + " ") + rest)
  {
    var t := Txt(" " + op + " ");
    assert (t + rest)[0] == t[0] == Ch(' ');
  }

  /** A sub-predicate is printed in parentheses, whatever follows. */
  lemma {:induction false} LexGroup(x: Ctx, e: Expr, rest: Text)
    requires IsQuote(x.q) && CondOk(x, e)
    ensures LexesTo(x, EmitSub(x, e), Group(CondToks(x, e)), CondArgs(x, e), rest)
    decreases e, 1
  {
    assert EmitSub(x, e) == Join(Join(Plain("("), Emit(x, e)), Plain(")"));
    hide Lex, LexesTo, Emit, EmitSub, CondToks, CondArgs;
    ParenIsBoundary(x, rest);
    LexCond(x, e, Txt(")") + rest);
    LexGroupOf(x, Emit(x, e), CondToks(x, e), CondArgs(x, e), rest);
  }

  /** Left side, operator, right side. */
  lemma LexBinary(x: Ctx, e: Expr, op: Token, tl: seq<Token>, gl: seq<Val>, tr: seq<Token>, gr: seq<Val>, rest: Text)
    requires e.Pred? && IsQuote(x.q) && (IsCompareOp(e.op) || IsWord(e.op))
    requires op == if IsCompareOp(e.op) then Punct(e.op[0]) else Word(e.op)
    requires LexesTo(x, EmitSub(x, e.right), tr, gr, rest)
    requires LexesTo(x, EmitSub(x, e.left), tl, gl, Txt(" " + e.op + " ") + (EmitSub(x, e.right).value.text + rest))
    ensures LexesTo(x, Emit(x, e), tl + ([op] + tr), gl + gr, rest)
  {
    var mid := Plain(" " + e.op + " ");
    assert e.op != "";
    assert Emit(x, e) == Join(Join(EmitSub(x, e.left), mid), EmitSub(x, e.right));
    hide Lex, Emit, EmitSub, Txt;
    var tail := EmitSub(x, e.right).value.text + rest;
    LexOp(x, e.op, tail);
    LexJoin(x, EmitSub(x, e.left), tl, gl, mid, [op], [], tail);
    LexJoin(x, Join(EmitSub(x, e.left), mid), tl + [op], gl, EmitSub(x, e.right), tr, gr, rest);
    assert tl + [op] + tr == tl + ([op] + tr);
    assert gl + [] == gl;
  }

  /** The tokens of a printed predicate. */
  lemma {:induction false} LexCond(x: Ctx, e: Expr, rest: Text)
    requires IsQuote(x.q) && CondOk(x, e) && Boundary(x.q, rest)
    ensures LexesTo(x, Emit(x, e), CondToks(x, e), CondArgs(x, e), rest)
    decreases e, 0
  {
    hide Lex, Emit, EmitSub, LexesTo, OperandToks, OperandArgs, Txt;
    if e.op == "AND" || e.op == "OR" {
      LexGroup(x, e.right, rest);
      LexedIsSome(x, EmitSub(x, e.right), Group(CondToks(x, e.right)), CondArgs(x, e.right), rest);
      LexGroup(x, e.left, Txt(" " + e.op + " ") + (EmitSub(x, e.right).value.text + rest));
      LexBinary(x, e, Word(e.op), Group(CondToks(x, e.left)), CondArgs(x, e.left),
                Group(CondToks(x, e.right)), CondArgs(x, e.right), rest);
    } else if e.op == "NOT" {
      LexGroup(x, e.right, rest);
      LexNot(x, e, rest);
    } else if e.op == "" {
      LexOperand(x, e.left, rest);
      LexLoneRaw(x, e, rest);
    } else {
      LexCompare(x, e, rest);
    }
  }

  lemma LexedIsSome(x: Ctx, out: Option<Out>, ts: seq<Token>, args: seq<Val>, rest: Text)
    requires LexesTo(x, out, ts, args, rest)
    ensures out.Some?
  {
  }

  lemma LexNot(x: Ctx, e: Expr, rest: Text)
    requires IsQuote(x.q) && CondOk(x, e) && e.op == "NOT"
    requires LexesTo(x, EmitSub(x, e.right), Group(CondToks(x, e.right)), CondArgs(x, e.right), rest)
    ensures LexesTo(x, Emit(x, e), CondToks(x, e), CondArgs(x, e), rest)
  {
    var args, ts := CondArgs(x, e.right), Group(CondToks(x, e.right));
    assert CondArgs(x, e) == [] + args && CondToks(x, e) == [] + ([Word("NOT")] + ts);
    hide Lex, Emit, CondToks, CondArgs, CondOk, EmitSub;
    NothingIsPrinted(x);
    var tail := Txt(" " + e.op + " ") + (EmitSub(x, e.right).value.text + rest);
    assert Txt("") + tail == tail;
    LexBinary(x, e, Word("NOT"), [], [], ts, args, rest);
  }

  lemma LexCompare(x: Ctx, e: Expr, rest: Text)
    requires IsQuote(x.q) && CondOk(x, e) && IsCompareOp(e.op) && Boundary(x.q, rest)
    ensures LexesTo(x, Emit(x, e), CondToks(x, e), CondArgs(x, e), rest)
  {
    hide Lex, Emit, EmitSub, OperandToks, OperandArgs, OperandOk, Txt;
    LexOperand(x, e.right, rest);
    var tail := EmitSub(x, e.right).value.text + rest;
    SpaceIsBoundary(x, e.op, tail);
    LexOperand(x, e.left, Txt(" " + e.op + " ") + tail);
    LexBinary(x, e, Punct(e.op[0]), OperandToks(x, e.left), OperandArgs(x, e.left),
              OperandToks(x, e.right), OperandArgs(x, e.right), rest);
  }

  lemma LexLoneRaw(x: Ctx, e: Expr, rest: Text)
    requires CondOk(x, e) && e.op == ""
    requires LexesTo(x, EmitSub(x, e.left), OperandToks(x, e.left), OperandArgs(x, e.left), rest)
    ensures LexesTo(x, Emit(x, e), OperandToks(x, e.left), OperandArgs(x, e.left), rest)
  {
    var t := EmitSub(x, e.left).value.text;
    NothingIsPrinted(x);
    assert Emit(x, e) == Join(Join(EmitSub(x, e.left), Plain("")), Plain(""));
    assert t + Txt("") + Txt("") == t;
  }

  // ---------------------------------------------------------------- reading it back

  function GroupPiece(x: Ctx, e: Expr): Piece
    requires CondOk(x, e)
  {
    Piece(Group(CondToks(x, e)), CondArgs(x, e), CondTree(x, e))
  }

  function WholePiece(x: Ctx, e: Expr): Piece
    requires CondOk(x, e)
  {
    Piece(CondToks(x, e), CondArgs(x, e), CondTree(x, e))
  }

  /** The boolean factors of a printed predicate that is not an OR. */
  function Factors(x: Ctx, e: Expr): (ps: seq<Piece>)
    requires CondOk(x, e) && e.op != "OR"
    ensures ps != []
  {
    if e.op == "AND" then [GroupPiece(x, e.left), GroupPiece(x, e.right)] else [WholePiece(x, e)]
  }

  lemma OperandReads(x: Ctx, e: Expr, i: Input)
    requires OperandOk(x, e) && Ends(i)
    ensures ParseOperand(Input(OperandToks(x, e) + i.toks, OperandArgs(x, e) + i.args)) == Ok(OperandTree(x, e), i)
  {
    var j := Input(OperandToks(x, e) + i.toks, OperandArgs(x, e) + i.args);
    match e {
      case Column(name, table, _) =>
        if table.None? { assert j.toks[1..] == i.toks; } else { assert j.toks[3..] == i.toks; }
      case Value(v) => assert j.toks[1..] == i.toks && j.args[1..] == i.args;
      case Aggregate(fn, arg, _) => assert j.toks[4..] == i.toks;
      case RawExpr(sql, holes, params) =>
        assert j.toks[3..] == i.toks && j.args[holes..] == i.args && j.args[..holes] == params;
    }
  }

  lemma FirstToken(x: Ctx, e: Expr)
    requires CondOk(x, e)
    ensures CondToks(x, e) != [] && !CondToks(x, e)[0].Opaque?
  {
  }

  lemma FirstOfOperand(x: Ctx, e: Expr)
    requires OperandOk(x, e) && (e.Column? || e.Aggregate?)
    ensures OperandToks(x, e) != [] && !OperandToks(x, e)[0].Punct? && OperandToks(x, e)[0] != Word("NOT")
  {
  }

  lemma PredicateReads(x: Ctx, l: Expr, c: char, r: Expr, i: Input)
    requires OperandOk(x, l) && OperandOk(x, r) && IsComparison(c) && Ends(i)
    ensures ParsePredicate(Input(OperandToks(x, l) + ([Punct(c)] + OperandToks(x, r)) + i.toks,
                                 OperandArgs(x, l) + OperandArgs(x, r) + i.args))
         == Ok(Cmp(c, OperandTree(x, l), OperandTree(x, r)), i)
  {
    hide ParseOperand, OperandToks, OperandArgs, OperandTree, OperandOk;
    var right := Input(OperandToks(x, r) + i.toks, OperandArgs(x, r) + i.args);
    var mid := Prefixed(Punct(c), right);
    assert OperandToks(x, l) + ([Punct(c)] + OperandToks(x, r)) + i.toks == OperandToks(x, l) + mid.toks;
    assert OperandArgs(x, l) + OperandArgs(x, r) + i.args == OperandArgs(x, l) + mid.args;
    OperandReads(x, l, mid);
    OperandReads(x, r, i);
    SkipPrefixed(Punct(c), right);
  }

  /** A comparison reads as a predicate. */
  lemma CompareReads(x: Ctx, e: Expr, i: Input)
    requires CondOk(x, e) && IsCompareOp(e.op) && Ends(i)
    ensures ParseFactor(Then(WholePiece(x, e), i)) == Ok(CondTree(x, e), i)
  {
    FirstOfOperand(x, e.left);
    PredicateReads(x, e.left, e.op[0], e.right, i);
    hide ParsePredicate, OperandToks, OperandArgs, OperandTree, OperandOk;
    var all := Then(WholePiece(x, e), i);
    assert all.toks[0] == OperandToks(x, e.left)[0];
  }

  lemma {:induction false} GroupReads(x: Ctx, e: Expr)
    requires CondOk(x, e)
    ensures Reads(GroupPiece(x, e))
    ensures forall i :: ParsePrimary(Then(GroupPiece(x, e), i)) == Ok(CondTree(x, e), i)
    decreases e, 4
  {
    forall i: Input
      ensures ParsePrimary(Then(GroupPiece(x, e), i)) == Ok(CondTree(x, e), i)
      ensures ParseFactor(Then(GroupPiece(x, e), i)) == Ok(CondTree(x, e), i)
    {
      CondReadsBack(x, e, Prefixed(Punct(')'), i));
      GroupReadsAt(x, e, i);
    }
  }

  lemma GroupReadsAt(x: Ctx, e: Expr, i: Input)
    requires CondOk(x, e)
    requires ParseCond(Then(WholePiece(x, e), Prefixed(Punct(')'), i))) == Ok(CondTree(x, e), Prefixed(Punct(')'), i))
    ensures ParsePrimary(Then(GroupPiece(x, e), i)) == Ok(CondTree(x, e), i)
    ensures ParseFactor(Then(GroupPiece(x, e), i)) == Ok(CondTree(x, e), i)
  {
    FirstToken(x, e);
    hide ParseCond, CondToks, CondTree, CondOk;
    var inner := Then(WholePiece(x, e), Prefixed(Punct(')'), i));
    var all := Then(GroupPiece(x, e), i);
    assert all.toks == [Punct('(')] + inner.toks;
    assert all.toks[1..] == inner.toks && all.args == inner.args;
    assert Skip(all, 1) == inner;
    assert all.toks[1] == CondToks(x, e)[0];
    SkipPrefixed(Punct(')'), i);
  }

  lemma {:induction false} WholeReads(x: Ctx, e: Expr)
    requires CondOk(x, e) && e.op != "AND" && e.op != "OR"
    ensures Reads(WholePiece(x, e))
    decreases e, 0
  {
    if e.op == "NOT" { GroupReads(x, e.right); }
    hide ParseFactor, ParsePrimary;
    forall i: Input | Ends(i) ensures ParseFactor(Then(WholePiece(x, e), i)) == Ok(CondTree(x, e), i) {
      if e.op == "NOT" {
        NotReads(x, e, i);
      } else if e.op == "" {
        LoneRawReads(x, e, i);
      } else {
        CompareReads(x, e, i);
      }
    }
  }

  lemma NotReads(x: Ctx, e: Expr, i: Input)
    requires CondOk(x, e) && e.op == "NOT"
    requires ParsePrimary(Then(GroupPiece(x, e.right), i)) == Ok(CondTree(x, e.right), i)
    ensures ParseFactor(Then(WholePiece(x, e), i)) == Ok(CondTree(x, e), i)
  {
    var inner := Then(GroupPiece(x, e.right), i);
    assert Then(WholePiece(x, e), i).toks == [Word("NOT")] + inner.toks;
    hide ParsePrimary;
    SkipPrefixed(Word("NOT"), inner);
  }

  lemma LoneRawReads(x: Ctx, e: Expr, i: Input)
    requires CondOk(x, e) && e.op == ""
    ensures ParseFactor(Then(WholePiece(x, e), i)) == Ok(CondTree(x, e), i)
  {
    var all := Then(WholePiece(x, e), i);
    assert all.toks[3..] == i.toks && all.args[e.left.holes..] == i.args && all.args[..e.left.holes] == e.left.params;
  }

  lemma {:induction false} FactorsRead(x: Ctx, e: Expr)
    requires CondOk(x, e) && e.op != "OR"
    ensures AllRead(Factors(x, e))
    decreases e, 2
  {
    hide Reads, ParsePrimary, GroupPiece, WholePiece;
    if e.op == "AND" {
      GroupReads(x, e.left);
      GroupReads(x, e.right);
    } else {
      WholeReads(x, e);
    }
  }

  /** The printed text as its factors. */
  lemma AsFactors(x: Ctx, e: Expr, i: Input)
    requires CondOk(x, e)
    ensures e.op != "OR" ==> Then(WholePiece(x, e), i) == Conj(Factors(x, e), i)
    ensures e.op == "OR" ==>
              var r := Prefixed(Word("OR"), Conj([GroupPiece(x, e.right)], i));
              Then(WholePiece(x, e), i) == Conj([GroupPiece(x, e.left)], r)
    ensures e.op != "OR" ==> AndAll(Factors(x, e)[0].tree, Factors(x, e)[1..]) == CondTree(x, e)
  {
    if e.op == "AND" || e.op == "OR" {
      var l, r := GroupPiece(x, e.left), GroupPiece(x, e.right);
      TwoGroups(x, e, i);
      assert [l, r][1..] == [r] && [r][1..] == [];
    } else {
      assert Factors(x, e)[1..] == [];
    }
  }

  lemma TwoGroups(x: Ctx, e: Expr, i: Input)
    requires CondOk(x, e) && (e.op == "AND" || e.op == "OR")
    ensures Then(WholePiece(x, e), i)
         == Then(GroupPiece(x, e.left), Prefixed(Word(e.op), Then(GroupPiece(x, e.right), i)))
  {
    var l, r := GroupPiece(x, e.left), GroupPiece(x, e.right);
    assert CondToks(x, e) == l.toks + ([Word(e.op)] + r.toks);
    assert CondArgs(x, e) == l.args + r.args;
    hide CondToks, CondArgs, Group, CondTree;
    assert l.toks + ([Word(e.op)] + r.toks) + i.toks == l.toks + ([Word(e.op)] + (r.toks + i.toks));
    assert l.args + r.args + i.args == l.args + (r.args + i.args);
  }

  /** A printed predicate reads back as its own tree. */
  lemma {:induction false} CondReadsBack(x: Ctx, e: Expr, i: Input)
    requires CondOk(x, e) && Stops(i)
    ensures ParseCond(Then(WholePiece(x, e), i)) == Ok(CondTree(x, e), i)
    decreases e, 3
  {
    AsFactors(x, e, i);
    if e.op == "OR" { assert CondTree(x, e) == Or(CondTree(x, e.left), CondTree(x, e.right)); }
    hide Reads, ParsePrimary, ParseCond, CondTree;
    if e.op == "OR" {
      GroupReads(x, e.left);
      GroupReads(x, e.right);
      OrReads([GroupPiece(x, e.left)], [GroupPiece(x, e.right)], i);
    } else {
      FactorsRead(x, e);
      CondReads(Factors(x, e), i);
    }
  }

  /**
   The round trip: for every predicate tree over known fields, the emitted text reads back as
   the same tree, with the k-th placeholder bound to the k-th argument and none left over.
   */
  lemma PredicateRoundTrip(x: Ctx, e: Expr)
    requires IsQuote(x.q) && CondOk(x, e)
    ensures Emit(x, e).Some?
    ensures ParseCond(Input(Lex(x.q, Emit(x, e).value.text), Emit(x, e).value.args))
         == Ok(CondTree(x, e), Input([], []))
  {
    hide Lex, Emit, CondToks, CondArgs, CondTree, ParseCond, CondOk;
    LexCond(x, e, []);
    var out := Emit(x, e).value;
    assert out.text + [] == out.text;
    assert Lex(x.q, []) == [] by { LexNothing(x.q); }
    assert Input(Lex(x.q, out.text), out.args) == Then(WholePiece(x, e), Input([], []));
    CondReadsBack(x, e, Input([], []));
  }

  lemma LexNothing(q: char)
    ensures Lex(q, []) == []
  {
  }

  /** Combining allowed predicates by AND gives an allowed predicate, an OR only when it is a lone OR. */
  lemma {:induction false} FoldedOk(x: Ctx, ps: seq<Expr>)
    requires ps != [] && forall i :: 0 <= i < |ps| ==> CondOk(x, ps[i])
    ensures CondOk(x, Folded(ps)) && (Folded(ps).op == "OR" <==> |ps| == 1 && ps[0].op == "OR")
  {
    if |ps| > 1 { FoldedOk(x, ps[..|ps| - 1]); }
  }
}
