/**
 All predicate trees the constructors build: the right side of a comparison may itself be a
 predicate (orm/predicate.go, orm/column.go), which is printed in parentheses. A predicate in
 parentheses is no operand, so such a text is no search condition, wherever in the tree it is.
 */
module SqlNested {
  import opened Common
  import opened SqlText
  import opened SqlGrammar
  import opened SqlBuilder

  /** The predicate trees over known fields, a comparison with a predicate included. */
  predicate TreeOk(x: Ctx, e: Expr) {
    && e.Pred?
    && (if e.op == "AND" || e.op == "OR" then TreeOk(x, e.left) && TreeOk(x, e.right)
        else if e.op == "NOT" then e.left.NoExpr? && TreeOk(x, e.right)
        else if e.op == "" then e.left.RawExpr? && e.left.holes == |e.left.params| && e.right.NoExpr?
        else IsCompareOp(e.op) && (e.left.Column? || e.left.Aggregate?) && OperandOk(x, e.left)
             && (OperandOk(x, e.right) || TreeOk(x, e.right)))
  }

  function Toks(x: Ctx, e: Expr): seq<Token>
    requires TreeOk(x, e)
  {
    if e.op == "AND" || e.op == "OR" then Group(Toks(x, e.left)) + ([Word(e.op)] + Group(Toks(x, e.right)))
    else if e.op == "NOT" then [Word("NOT")] + Group(Toks(x, e.right))
    else if e.op == "" then OperandToks(x, e.left)
    else
      OperandToks(x, e.left)
      + ([Punct(e.op[0])] + if OperandOk(x, e.right) then OperandToks(x, e.right) else Group(Toks(x, e.right)))
  }

  function Args(x: Ctx, e: Expr): seq<Val>
    requires TreeOk(x, e)
  {
    if e.op == "AND" || e.op == "OR" then Args(x, e.left) + Args(x, e.right)
    else if e.op == "NOT" then Args(x, e.right)
    else if e.op == "" then OperandArgs(x, e.left)
    else OperandArgs(x, e.left) + if OperandOk(x, e.right) then OperandArgs(x, e.right) else Args(x, e.right)
  }

  lemma {:induction false} CondIsTree(x: Ctx, e: Expr)
    requires CondOk(x, e)
    ensures TreeOk(x, e) && Toks(x, e) == CondToks(x, e) && Args(x, e) == CondArgs(x, e)
  {
    hide OperandOk, OperandToks, OperandArgs;
    if e.op == "AND" || e.op == "OR" {
      CondIsTree(x, e.left);
      CondIsTree(x, e.right);
    } else if e.op == "NOT" {
      CondIsTree(x, e.right);
    }
  }

  // ---------------------------------------------------------------- the text's tokens

  lemma {:induction false} LexTreeGroup(x: Ctx, e: Expr, rest: Text)
    requires IsQuote(x.q) && TreeOk(x, e)
    ensures LexesTo(x, EmitSub(x, e), Group(Toks(x, e)), Args(x, e), rest)
    decreases e, 1
  {
    assert EmitSub(x, e) == SqlBuilder.Join(SqlBuilder.Join(Plain("("), Emit(x, e)), Plain(")"));
    hide Lex, LexesTo, Emit, EmitSub, Toks, Args;
    ParenIsBoundary(x, rest);
    LexTree(x, e, Txt(")") + rest);
    LexGroupOf(x, Emit(x, e), Toks(x, e), Args(x, e), rest);
  }

  /** The tokens of a printed tree. */
  lemma {:induction false} LexTree(x: Ctx, e: Expr, rest: Text)
    requires IsQuote(x.q) && TreeOk(x, e) && Boundary(x.q, rest)
    ensures LexesTo(x, Emit(x, e), Toks(x, e), Args(x, e), rest)
    decreases e, 0
  {
    hide Lex, Emit, EmitSub, LexesTo, OperandToks, OperandArgs, OperandOk, Txt;
    if e.op == "AND" || e.op == "OR" {
      LexTreeGroup(x, e.right, rest);
      LexedIsSome(x, EmitSub(x, e.right), Group(Toks(x, e.right)), Args(x, e.right), rest);
      LexTreeGroup(x, e.left, Txt(" " + e.op + " ") + (EmitSub(x, e.right).value.text + rest));
      LexBinary(x, e, Word(e.op), Group(Toks(x, e.left)), Args(x, e.left),
                Group(Toks(x, e.right)), Args(x, e.right), rest);
    } else if e.op == "NOT" {
      LexTreeGroup(x, e.right, rest);
      LexNotOf(x, e, rest);
    } else if e.op == "" {
      assert CondOk(x, e);
      CondIsTree(x, e);
      LexCond(x, e, rest);
    } else if OperandOk(x, e.right) {
      assert CondOk(x, e);
      CondIsTree(x, e);
      LexCond(x, e, rest);
    } else {
      LexTreeGroup(x, e.right, rest);
      LexNested(x, e, rest);
    }
  }

  lemma LexNotOf(x: Ctx, e: Expr, rest: Text)
    requires IsQuote(x.q) && TreeOk(x, e) && e.op == "NOT"
    requires LexesTo(x, EmitSub(x, e.right), Group(Toks(x, e.right)), Args(x, e.right), rest)
    ensures LexesTo(x, Emit(x, e), Toks(x, e), Args(x, e), rest)
  {
    var args, ts := Args(x, e.right), Group(Toks(x, e.right));
    assert Args(x, e) == [] + args && Toks(x, e) == [] + ([Word("NOT")] + ts);
    hide Lex, Emit, Toks, Args, TreeOk, EmitSub;
    NothingIsPrinted(x);
    var tail := Txt(" " + e.op + " ") + (EmitSub(x, e.right).value.text + rest);
    assert Txt("") + tail == tail;
    LexBinary(x, e, Word("NOT"), [], [], ts, args, rest);
  }

  lemma LexNested(x: Ctx, e: Expr, rest: Text)
    requires IsQuote(x.q) && TreeOk(x, e) && IsCompareOp(e.op) && !OperandOk(x, e.right)
    requires LexesTo(x, EmitSub(x, e.right), Group(Toks(x, e.right)), Args(x, e.right), rest)
    ensures LexesTo(x, Emit(x, e), Toks(x, e), Args(x, e), rest)
  {
    var ts, args := Group(Toks(x, e.right)), Args(x, e.right);
    assert Toks(x, e) == OperandToks(x, e.left) + ([Punct(e.op[0])] + ts);
    assert Args(x, e) == OperandArgs(x, e.left) + args;
    assert OperandOk(x, e.left);
    hide Lex, Emit, EmitSub, OperandToks, OperandArgs, OperandOk, Txt, Toks, Args, TreeOk;
    var tail := EmitSub(x, e.right).value.text + rest;
    SpaceIsBoundary(x, e.op, tail);
    LexOperand(x, e.left, Txt(" " + e.op + " ") + tail);
    LexBinary(x, e, Punct(e.op[0]), OperandToks(x, e.left), OperandArgs(x, e.left), ts, args, rest);
  }

  // ---------------------------------------------------------------- reading it

  /** The tree's text in front of an input, bare and in parentheses. */
  function Bare(x: Ctx, e: Expr, i: Input): Input
    requires TreeOk(x, e)
  {
    Input(Toks(x, e) + i.toks, Args(x, e) + i.args)
  }

  function Grouped(x: Ctx, e: Expr, i: Input): Input
    requires TreeOk(x, e)
  {
    Input(Group(Toks(x, e)) + i.toks, Args(x, e) + i.args)
  }

  lemma FirstOfTree(x: Ctx, e: Expr)
    requires TreeOk(x, e)
    ensures Toks(x, e) != [] && !Toks(x, e)[0].Opaque?
  {
  }

  lemma GroupFails(x: Ctx, e: Expr, i: Input)
    requires TreeOk(x, e) && ParseCond(Bare(x, e, Prefixed(Punct(')'), i))).Fail?
    ensures ParsePrimary(Grouped(x, e, i)).Fail? && ParseFactor(Grouped(x, e, i)).Fail?
  {
    FirstOfTree(x, e);
    hide ParseCond, Toks, Args, TreeOk;
    var inner, all := Bare(x, e, Prefixed(Punct(')'), i)), Grouped(x, e, i);
    assert all.toks == [Punct('(')] + inner.toks;
    assert all.toks[1..] == inner.toks && all.args == inner.args;
    assert Skip(all, 1) == inner;
    assert all.toks[1] == Toks(x, e)[0];
  }

  lemma GroupIsRead(x: Ctx, e: Expr, i: Input)
    requires CondOk(x, e)
    ensures TreeOk(x, e) && ParseFactor(Grouped(x, e, i)) == Ok(CondTree(x, e), i)
  {
    CondIsTree(x, e);
    GroupReads(x, e);
    hide ParsePrimary, CondToks, CondArgs, CondTree, Toks, Args, TreeOk, CondOk, ParseCond;
    assert Grouped(x, e, i) == Then(GroupPiece(x, e), i);
    FirstIsParen(x, e, i);
  }

  lemma FirstIsParen(x: Ctx, e: Expr, i: Input)
    requires TreeOk(x, e)
    ensures ParseFactor(Grouped(x, e, i)) == ParsePrimary(Grouped(x, e, i))
  {
    hide ParsePrimary, Toks, Args, TreeOk;
    assert Grouped(x, e, i).toks[0] == Punct('(');
  }

  /** What starts with an operand and a comparison is no predicate when no operand follows. */
  lemma NoSecondOperand(all: Input, o: Operand, c: char, right: Input)
    requires ParseOperand(all) == Ok(o, Prefixed(Punct(c), right)) && IsComparison(c) && ParseOperand(right).Fail?
    requires all.toks != [] && !all.toks[0].Punct? && all.toks[0] != Word("NOT")
    ensures ParseFactor(all).Fail?
  {
    hide ParseOperand;
    SkipPrefixed(Punct(c), right);
    assert ParsePredicate(all).Fail?;
  }

  lemma SplitAtOperator(x: Ctx, e: Expr, i: Input)
    requires TreeOk(x, e) && IsCompareOp(e.op) && !OperandOk(x, e.right)
    ensures var mid := Prefixed(Punct(e.op[0]), Grouped(x, e.right, i));
            Bare(x, e, i) == Input(OperandToks(x, e.left) + mid.toks, OperandArgs(x, e.left) + mid.args)
  {
    var l, ts, args := e.left, Group(Toks(x, e.right)), Args(x, e.right);
    assert Toks(x, e) == OperandToks(x, l) + ([Punct(e.op[0])] + ts);
    assert Args(x, e) == OperandArgs(x, l) + args;
    assert OperandOk(x, l);
    hide OperandToks, OperandArgs, OperandOk, Toks, Args, TreeOk, Group;
    var op := [Punct(e.op[0])];
    assert OperandToks(x, l) + (op + ts) + i.toks == OperandToks(x, l) + (op + (ts + i.toks));
    assert OperandArgs(x, l) + args + i.args == OperandArgs(x, l) + (args + i.args);
  }

  /** A comparison with a predicate is no predicate. */
  lemma NestedFails(x: Ctx, e: Expr, i: Input)
    requires TreeOk(x, e) && IsCompareOp(e.op) && !OperandOk(x, e.right)
    ensures ParseFactor(Bare(x, e, i)).Fail?
  {
    var l, right := e.left, Grouped(x, e.right, i);
    FirstOfOperand(x, l);
    assert OperandOk(x, l);
    hide ParseOperand, ParseFactor, OperandToks, OperandArgs, OperandTree, OperandOk, Toks, Args, Grouped, Bare;
    SplitAtOperator(x, e, i);
    GroupIsNoValue(x, e.right, i);
    OperandReads(x, l, Prefixed(Punct(e.op[0]), right));
    NoSecondOperand(Bare(x, e, i), OperandTree(x, l), e.op[0], right);
  }

  lemma GroupIsNoValue(x: Ctx, e: Expr, i: Input)
    requires TreeOk(x, e)
    ensures ParseOperand(Grouped(x, e, i)).Fail?
  {
    FirstOfTree(x, e);
    hide Toks, Args, TreeOk;
    var all := Grouped(x, e, i);
    assert all.toks[0] == Punct('(') && all.toks[1] == Toks(x, e)[0];
  }

  lemma TwoGroupsOf(x: Ctx, e: Expr, i: Input)
    requires TreeOk(x, e) && (e.op == "AND" || e.op == "OR")
    ensures Bare(x, e, i) == Grouped(x, e.left, Prefixed(Word(e.op), Grouped(x, e.right, i)))
  {
    var l, r := Group(Toks(x, e.left)), Group(Toks(x, e.right));
    assert Toks(x, e) == l + ([Word(e.op)] + r);
    assert Args(x, e) == Args(x, e.left) + Args(x, e.right);
    hide Toks, Args, Group, TreeOk;
    assert l + ([Word(e.op)] + r) + i.toks == l + ([Word(e.op)] + (r + i.toks));
    assert Args(x, e.left) + Args(x, e.right) + i.args == Args(x, e.left) + (Args(x, e.right) + i.args);
  }

  lemma NoFactorNoCond(i: Input)
    requires ParseFactor(i).Fail?
    ensures ParseTerm(i).Fail? && ParseCond(i).Fail?
  {
    hide ParseFactor;
  }

  lemma SecondFails(i: Input, op: string, l: Cond, j: Input)
    requires (op == "AND" || op == "OR") && ParseFactor(i) == Ok(l, Prefixed(Word(op), j)) && ParseFactor(j).Fail?
    ensures ParseCond(i).Fail?
  {
    hide ParseFactor;
    SkipPrefixed(Word(op), j);
    if op == "OR" {
      assert MoreFactors(l, Prefixed(Word(op), j)) == Ok(l, Prefixed(Word(op), j));
      assert ParseTerm(j).Fail?;
    } else {
      assert MoreFactors(l, Prefixed(Word(op), j)).Fail?;
    }
  }

  /** A tree with such a comparison anywhere reads as no search condition, whatever follows. */
  lemma {:induction false} TreeFails(x: Ctx, e: Expr, i: Input)
    requires TreeOk(x, e) && !CondOk(x, e)
    ensures ParseCond(Bare(x, e, i)).Fail?
  {
    hide ParseFactor, ParsePrimary, ParseCond, ParseTerm, Bare, Grouped, OperandOk;
    if e.op == "AND" || e.op == "OR" {
      TwoGroupsOf(x, e, i);
      var second := Grouped(x, e.right, i);
      var more := Prefixed(Word(e.op), second);
      if CondOk(x, e.left) {
        GroupIsRead(x, e.left, more);
        TreeFails(x, e.right, Prefixed(Punct(')'), i));
        GroupFails(x, e.right, i);
        SecondFails(Bare(x, e, i), e.op, CondTree(x, e.left), second);
      } else {
        TreeFails(x, e.left, Prefixed(Punct(')'), more));
        GroupFails(x, e.left, more);
        NoFactorNoCond(Bare(x, e, i));
      }
    } else if e.op == "NOT" {
      TreeFails(x, e.right, Prefixed(Punct(')'), i));
      GroupFails(x, e.right, i);
      NotFails(x, e, i);
    } else {
      NestedFails(x, e, i);
      NoFactorNoCond(Bare(x, e, i));
    }
  }

  lemma NotFails(x: Ctx, e: Expr, i: Input)
    requires TreeOk(x, e) && e.op == "NOT" && ParsePrimary(Grouped(x, e.right, i)).Fail?
    ensures ParseCond(Bare(x, e, i)).Fail?
  {
    var inner := Grouped(x, e.right, i);
    assert Bare(x, e, i) == Prefixed(Word("NOT"), inner);
    hide ParsePrimary, Toks, Args, TreeOk, Grouped, Bare;
    SkipPrefixed(Word("NOT"), inner);
    NoFactorNoCond(Bare(x, e, i));
  }

  /**
   The round trip, exactly: the text of every tree the constructors build over known fields reads
   back as the tree, with nothing left over, if no comparison in it has a predicate on its right;
   otherwise it reads as no search condition.
   */
  lemma TreeRoundTripExactly(x: Ctx, e: Expr)
    requires IsQuote(x.q) && TreeOk(x, e)
    ensures Emit(x, e).Some?
    ensures ParseCond(Input(Lex(x.q, Emit(x, e).value.text), Emit(x, e).value.args))
         == if CondOk(x, e) then Ok(CondTree(x, e), Input([], [])) else Fail
  {
    hide Lex, Emit, Toks, Args, CondTree, ParseCond, CondOk, TreeOk;
    LexTree(x, e, []);
    var out := Emit(x, e).value;
    assert out.text + [] == out.text;
    LexNothing(x.q);
    assert Input(Lex(x.q, out.text), out.args) == Bare(x, e, Input([], []));
    if CondOk(x, e) { PredicateRoundTrip(x, e); } else { TreeFails(x, e, Input([], [])); }
  }

  /** The smallest such text, `id` = (`id` = ?). */
  lemma ComparedComparison(v: Val)
    ensures var x := Ctx('`', map["Id" := "id"]);
            var inner := Pred(Column("Id", None, ""), "=", Value(v));
            var e := Pred(Column("Id", None, ""), "=", inner);
            && TreeOk(x, e) && !CondOk(x, e) && Emit(x, e).Some?
            && ParseCond(Input(Lex('`', Emit(x, e).value.text), Emit(x, e).value.args)).Fail?
  {
    var x := Ctx('`', map["Id" := "id"]);
    var inner := Pred(Column("Id", None, ""), "=", Value(v));
    var e := Pred(Column("Id", None, ""), "=", inner);
    assert TreeOk(x, inner) && TreeOk(x, e) && !CondOk(x, e);
    hide Lex, Emit, ParseCond, CondOk, TreeOk, CondTree;
    TreeRoundTripExactly(x, e);
  }
}
