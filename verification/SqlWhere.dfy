/**
 The WHERE clause with its automatic conditions (buildWhereWithSoftDelete in orm/builder.go
 and the version condition in orm/updater.go), and which rows the emitted text selects under
 SQL's three-valued logic.
 */
module SqlWhere {
  import opened Common
  import opened SqlText
  import opened SqlGrammar
  import opened SqlBuilder

  // ---------------------------------------------------------------- three-valued logic

  datatype Truth = T | F | U

  function Both(a: Truth, b: Truth): Truth {
    if a == F || b == F then F else if a == T && b == T then T else U
  }

  function Either(a: Truth, b: Truth): Truth {
    if a == T || b == T then T else if a == F && b == F then F else U
  }

  function Flip(a: Truth): Truth {
    if a == T then F else if a == F then T else U
  }

  type Row = map<string, Val>

  /** What the database makes of what the text leaves open: order, raw fragments, functions. */
  datatype Db = Db(less: (Val, Val) -> bool, rawCond: (string, seq<Val>, Row) -> Truth,
                   rawVal: (string, seq<Val>, Row) -> Val, call: (string, Val) -> Val)

  function ValueOf(row: Row, col: string): Val {
    if col in row then row[col] else Null
  }

  function EvalOperand(db: Db, row: Row, o: Operand): Val {
    match o
    case Col(_, name) => ValueOf(row, name)
    case Lit(v) => v
    case Agg(fn, col) => (db.call)(fn, ValueOf(row, col))
    case RawVal(sql, args) => (db.rawVal)(sql, args, row)
  }

  /** A comparison with NULL is unknown. */
  function Compare(db: Db, op: char, a: Val, b: Val): Truth {
    if a.Null? || b.Null? then U
    else if (if op == '=' then a == b else if op == '<' then (db.less)(a, b) else (db.less)(b, a)) then T
    else F
  }

  function Eval(db: Db, row: Row, c: Cond): Truth {
    match c
    case Or(l, r) => Either(Eval(db, row, l), Eval(db, row, r))
    case And(l, r) => Both(Eval(db, row, l), Eval(db, row, r))
    case Not(e) => Flip(Eval(db, row, e))
    case Cmp(op, x, y) => Compare(db, op, EvalOperand(db, row, x), EvalOperand(db, row, y))
    case IsNull(x) => if EvalOperand(db, row, x).Null? then T else F
    case RawCond(sql, args) => (db.rawCond)(sql, args, row)
  }

  /** A comparison holds exactly between values that are not NULL, and is unknown exactly when one is NULL. */
  lemma ComparisonMeans(db: Db, row: Row, op: char, x: Operand, y: Operand)
    ensures var a, b := EvalOperand(db, row, x), EvalOperand(db, row, y);
            && (Eval(db, row, Cmp('=', x, y)) == T <==> !a.Null? && a == b)
            && (Eval(db, row, Cmp('<', x, y)) == T <==> !a.Null? && !b.Null? && (db.less)(a, b))
            && (Eval(db, row, Cmp('>', x, y)) == T <==> !a.Null? && !b.Null? && (db.less)(b, a))
            && (Eval(db, row, Cmp(op, x, y)) == U <==> a.Null? || b.Null?)
  {
  }

  /** Three-valued logic: NOT keeps the unknown, and each connective is the dual of the other. */
  lemma LogicMeans(db: Db, row: Row, c: Cond, d: Cond)
    ensures Eval(db, row, Not(c)) == T <==> Eval(db, row, c) == F
    ensures Eval(db, row, Not(c)) == U <==> Eval(db, row, c) == U
    ensures Eval(db, row, And(c, d)) == T <==> Eval(db, row, c) == T && Eval(db, row, d) == T
    ensures Eval(db, row, Or(c, d)) == T <==> Eval(db, row, c) == T || Eval(db, row, d) == T
    ensures Eval(db, row, Not(And(c, d))) == Eval(db, row, Or(Not(c), Not(d)))
    ensures Eval(db, row, Not(Or(c, d))) == Eval(db, row, And(Not(c), Not(d)))
  {
  }

  // ---------------------------------------------------------------- the clause

  /** The soft-delete column, the user's predicates, and the version column with the expected value. */
  datatype Filter = Filter(deleted: Option<string>, where: seq<Expr>, version: Option<(string, Val)>)

  predicate FilterOk(x: Ctx, f: Filter) {
    forall i :: 0 <= i < |f.where| ==> CondOk(x, f.where[i])
  }

  predicate IsEmpty(f: Filter) {
    f.deleted.None? && f.where == [] && f.version.None?
  }

  /** A keyword between two spaces. */
  function Keyword(w: string): Option<Out> {
    Plain(" " + w + " ")
  }

  function EmitDeleted(x: Ctx, col: string): Option<Out> {
    SqlBuilder.Join(Name(x, col), Plain(" IS NULL"))
  }

  function EmitVersion(x: Ctx, col: string, v: Val): Option<Out> {
    SqlBuilder.Join(Name(x, col), Some(Out(Txt("=?"), [v])))
  }

  /** The soft-delete condition and the user's, without the leading keyword. */
  function EmitUser(x: Ctx, f: Filter): Option<Out> {
    if f.deleted.Some? && f.where != [] then
      SqlBuilder.Join(EmitDeleted(x, f.deleted.value), SqlBuilder.Join(Keyword("AND"), Emit(x, Folded(f.where))))
    else if f.deleted.Some? then EmitDeleted(x, f.deleted.value)
    else if f.where != [] then Emit(x, Folded(f.where))
    else Plain("")
  }

  /** All conditions: the version comes last. */
  function EmitConditions(x: Ctx, f: Filter): Option<Out> {
    if f.version.None? then EmitUser(x, f)
    else
      var v := EmitVersion(x, f.version.value.0, f.version.value.1);
      if f.deleted.None? && f.where == [] then v
      else SqlBuilder.Join(EmitUser(x, f), SqlBuilder.Join(Keyword("AND"), v))
  }

  function EmitFilter(x: Ctx, f: Filter): Option<Out> {
    if IsEmpty(f) then Plain("") else SqlBuilder.Join(Keyword("WHERE"), EmitConditions(x, f))
  }

  // ---------------------------------------------------------------- the tree it reads as

  function DeletedPiece(col: string): Piece {
    Piece([Ident(col), Word("IS"), Word("NULL")], [], IsNull(Col(None, col)))
  }

  function VersionPiece(col: string, v: Val): Piece {
    Piece([Ident(col), Punct('='), Punct('?')], [v], Cmp('=', Col(None, col), Lit(v)))
  }

  function Before(f: Filter): seq<Piece> {
    if f.deleted.Some? then [DeletedPiece(f.deleted.value)] else []
  }

  function After(f: Filter): seq<Piece> {
    if f.version.Some? then [VersionPiece(f.version.value.0, f.version.value.1)] else []
  }

  /** A single predicate with OR at its root: it is not parenthesised before the automatic conditions are added. */
  predicate LoneOr(f: Filter) {
    |f.where| == 1 && f.where[0].Pred? && f.where[0].op == "OR"
  }

  /** All conditions, when none of the user's is a lone OR. */
  function AllPieces(x: Ctx, f: Filter): seq<Piece>
    requires FilterOk(x, f) && !LoneOr(f)
  {
    FoldedOkIf(x, f);
    Before(f) + (if f.where == [] then [] else Factors(x, Folded(f.where))) + After(f)
  }

  lemma FoldedOkIf(x: Ctx, f: Filter)
    requires FilterOk(x, f)
    ensures f.where != [] ==> CondOk(x, Folded(f.where)) && (Folded(f.where).op == "OR" <==> LoneOr(f))
  {
    if f.where != [] { FoldedOk(x, f.where); }
  }

  function FilterInput(x: Ctx, f: Filter, i: Input): Input
    requires FilterOk(x, f)
  {
    if LoneOr(f) then
      var e := f.where[0];
      Conj(Before(f) + [GroupPiece(x, e.left)], Prefixed(Word("OR"), Conj([GroupPiece(x, e.right)] + After(f), i)))
    else Conj(AllPieces(x, f), i)
  }

  /** The tree the database reads. */
  function FilterTree(x: Ctx, f: Filter): Cond
    requires FilterOk(x, f) && !IsEmpty(f)
  {
    if LoneOr(f) then
      var e := f.where[0];
      Or(Chain(Before(f) + [GroupPiece(x, e.left)]), Chain([GroupPiece(x, e.right)] + After(f)))
    else
      FoldedOkIf(x, f);
      Chain(AllPieces(x, f))
  }

  function Chain(ps: seq<Piece>): Cond
    requires ps != []
  {
    AndAll(ps[0].tree, ps[1..])
  }

  lemma DeletedReads(col: string)
    ensures Reads(DeletedPiece(col))
  {
    var p := DeletedPiece(col);
    forall i: Input | Ends(i) ensures ParseFactor(Then(p, i)) == Ok(p.tree, i) {
      var all := Then(p, i);
      assert all.toks[1..][2..] == i.toks && all.args == i.args;
    }
  }

  lemma VersionReads(col: string, v: Val)
    ensures Reads(VersionPiece(col, v))
  {
    var p := VersionPiece(col, v);
    forall i: Input | Ends(i) ensures ParseFactor(Then(p, i)) == Ok(p.tree, i) {
      var all := Then(p, i);
      assert all.toks[1..][1..][1..] == i.toks && all.args[1..] == i.args;
    }
  }

  lemma AutomaticRead(f: Filter)
    ensures AllRead(Before(f)) && AllRead(After(f))
  {
    if f.deleted.Some? { DeletedReads(f.deleted.value); }
    if f.version.Some? { VersionReads(f.version.value.0, f.version.value.1); }
  }

  /** The clause reads as this tree. */
  lemma FilterReads(x: Ctx, f: Filter, i: Input)
    requires FilterOk(x, f) && !IsEmpty(f) && Stops(i)
    ensures ParseCond(FilterInput(x, f, i)) == Ok(FilterTree(x, f), i)
  {
    hide Reads, ParseCond, Conj;
    AutomaticRead(f);
    FoldedOkIf(x, f);
    if LoneOr(f) {
      var e := f.where[0];
      assert CondOk(x, e);
      GroupReads(x, e.left);
      GroupReads(x, e.right);
      OrReads(Before(f) + [GroupPiece(x, e.left)], [GroupPiece(x, e.right)] + After(f), i);
    } else {
      if f.where != [] { FactorsRead(x, Folded(f.where)); }
      CondReads(AllPieces(x, f), i);
    }
  }

  // ---------------------------------------------------------------- the text reads as that input

  /** What the database sees of an output followed by more text and more arguments. */
  function Seen(x: Ctx, out: Option<Out>, rest: Text, more: seq<Val>): Input
    requires out.Some?
  {
    Input(Lex(x.q, out.value.text + rest), out.value.args + more)
  }

  /** An output in front of another one. */
  lemma SeenJoin(x: Ctx, a: Option<Out>, ts: seq<Token>, args: seq<Val>, b: Option<Out>, rest: Text, more: seq<Val>)
    requires b.Some? && LexesTo(x, a, ts, args, b.value.text + rest)
    ensures SqlBuilder.Join(a, b).Some?
    ensures Seen(x, SqlBuilder.Join(a, b), rest, more)
         == Input(ts + Seen(x, b, rest, more).toks, args + Seen(x, b, rest, more).args)
  {
    hide Lex;
    assert a.value.text + b.value.text + rest == a.value.text + (b.value.text + rest);
    assert args + b.value.args + more == args + (b.value.args + more);
  }

  lemma LexDeleted(x: Ctx, col: string, rest: Text)
    requires IsQuote(x.q) && Boundary(x.q, rest)
    ensures LexesTo(x, EmitDeleted(x, col), DeletedPiece(col).toks, [], rest)
  {
    hide Lex, Quoted;
    var t := Txt("NULL") + rest;
    LexWord(x.q, "NULL", rest);
    LexSpacedWord(x.q, "IS", t);
    assert " IS NULL" == " " + "IS" + " " + "NULL";
    assert Txt(" IS NULL") + rest == Txt(" " + "IS" + " ") + t;
    assert Boundary(x.q, Txt(" IS NULL") + rest);
    LexIdent(x.q, col, Txt(" IS NULL") + rest);
    assert Quoted(x.q, col) + Txt(" IS NULL") + rest == Quoted(x.q, col) + (Txt(" IS NULL") + rest);
  }

  lemma LexVersion(x: Ctx, col: string, v: Val, rest: Text)
    requires IsQuote(x.q)
    ensures LexesTo(x, EmitVersion(x, col, v), VersionPiece(col, v).toks, [v], rest)
  {
    hide Lex, Quoted;
    var t := [Ch('?')] + rest;
    LexPunct(x.q, '?', rest);
    LexPunct(x.q, '=', t);
    LexIdent(x.q, col, [Ch('=')] + t);
    assert Quoted(x.q, col) + Txt("=?") + rest == Quoted(x.q, col) + ([Ch('=')] + t);
  }

  /** A keyword in front of an output. */
  lemma SeenKeyword(x: Ctx, w: string, b: Option<Out>, rest: Text, more: seq<Val>)
    requires IsQuote(x.q) && IsWord(w) && b.Some?
    ensures var out := SqlBuilder.Join(Keyword(w), b);
            && out.Some? && Boundary(x.q, out.value.text + rest)
            && Seen(x, out, rest, more) == Prefixed(Word(w), Seen(x, b, rest, more))
  {
    hide Lex, Txt;
    var t := Txt(" " + w + " ");
    LexSpacedWord(x.q, w, b.value.text + rest);
    SpaceIsBoundary(x, w, b.value.text + rest);
    assert t + b.value.text + rest == t + (b.value.text + rest);
    assert [] + b.value.args + more == b.value.args + more;
  }

  /** A condition in front of an output that begins at a boundary. */
  lemma SeenPiece(x: Ctx, a: Option<Out>, p: Piece, b: Option<Out>, rest: Text, more: seq<Val>)
    requires b.Some? && LexesTo(x, a, p.toks, p.args, b.value.text + rest)
    ensures SqlBuilder.Join(a, b).Some? && Seen(x, SqlBuilder.Join(a, b), rest, more) == Then(p, Seen(x, b, rest, more))
  {
    hide Lex;
    SeenJoin(x, a, p.toks, p.args, b, rest, more);
  }

  /** The clause in the order it is written. */
  function Written(x: Ctx, f: Filter, i: Input): Input
    requires FilterOk(x, f)
  {
    var j := if f.version.Some? then Then(VersionPiece(f.version.value.0, f.version.value.1), i) else i;
    var k := if f.version.Some? && (f.deleted.Some? || f.where != []) then Prefixed(Word("AND"), j) else j;
    WrittenUser(x, f, k)
  }

  function WrittenUser(x: Ctx, f: Filter, k: Input): Input
    requires FilterOk(x, f)
  {
    FoldedOkIf(x, f);
    var u := if f.where != [] then Then(WholePiece(x, Folded(f.where)), k) else k;
    if f.deleted.None? then u
    else Then(DeletedPiece(f.deleted.value), if f.where != [] then Prefixed(Word("AND"), u) else u)
  }

  lemma {:induction false} ConjConcat(ps: seq<Piece>, qs: seq<Piece>, i: Input)
    requires ps != [] && qs != []
    ensures Conj(ps + qs, i) == Conj(ps, Prefixed(Word("AND"), Conj(qs, i)))
  {
    if |ps| == 1 {
      assert (ps + qs)[1..] == qs;
    } else {
      assert (ps + qs)[1..] == ps[1..] + qs;
      ConjConcat(ps[1..], qs, i);
    }
  }

  /** A list of conditions in front of the pieces that follow it. */
  lemma ConjAfter(ps: seq<Piece>, qs: seq<Piece>, i: Input)
    ensures Conj(ps + qs, i)
         == Conj(ps, if ps != [] && qs != [] then Prefixed(Word("AND"), Conj(qs, i)) else Conj(qs, i))
  {
    if ps == [] { assert ps + qs == qs; }
    else if qs == [] { assert ps + qs == ps; }
    else { ConjConcat(ps, qs, i); }
  }

  lemma WrittenIsInput(x: Ctx, f: Filter, i: Input)
    requires FilterOk(x, f)
    ensures Written(x, f, i) == FilterInput(x, f, i)
  {
    FoldedOkIf(x, f);
    var j := Conj(After(f), i);
    var k := if f.version.Some? && (f.deleted.Some? || f.where != []) then Prefixed(Word("AND"), j) else j;
    if f.where == [] {
      assert AllPieces(x, f) == Before(f) + After(f);
      ConjAfter(Before(f), After(f), i);
    } else {
      var e := Folded(f.where);
      AsFactors(x, e, k);
      if LoneOr(f) {
        assert e == f.where[0];
        var l, r := GroupPiece(x, e.left), GroupPiece(x, e.right);
        ConjAfter([r], After(f), i);
        var more := Prefixed(Word("OR"), Conj([r] + After(f), i));
        ConjAfter(Before(f), [l], more);
      } else {
        var us := Factors(x, e);
        assert AllPieces(x, f) == Before(f) + (us + After(f));
        ConjAfter(us, After(f), i);
        ConjAfter(Before(f), us + After(f), i);
      }
    }
  }

  /** The user's part of the clause, in front of a text that starts no token in its middle. */
  lemma LexUser(x: Ctx, f: Filter, rest: Text, more: seq<Val>)
    requires IsQuote(x.q) && FilterOk(x, f) && Boundary(x.q, rest) && (f.deleted.Some? || f.where != [])
    ensures EmitUser(x, f).Some?
    ensures Seen(x, EmitUser(x, f), rest, more) == WrittenUser(x, f, Input(Lex(x.q, rest), more))
  {
    FoldedOkIf(x, f);
    hide Lex, Emit, CondToks, CondArgs, CondTree, EmitDeleted, CondOk, Keyword;
    if f.where != [] {
      LexCond(x, Folded(f.where), rest);
    }
    if f.deleted.Some? {
      var col := f.deleted.value;
      if f.where == [] {
        LexDeleted(x, col, rest);
      } else {
        var tail := SqlBuilder.Join(Keyword("AND"), Emit(x, Folded(f.where)));
        SeenKeyword(x, "AND", Emit(x, Folded(f.where)), rest, more);
        LexDeleted(x, col, tail.value.text + rest);
        SeenPiece(x, EmitDeleted(x, col), DeletedPiece(col), tail, rest, more);
      }
    }
  }

  lemma LexConditions(x: Ctx, f: Filter, rest: Text, more: seq<Val>)
    requires IsQuote(x.q) && FilterOk(x, f) && Boundary(x.q, rest) && !IsEmpty(f)
    ensures EmitConditions(x, f).Some?
    ensures Seen(x, EmitConditions(x, f), rest, more) == Written(x, f, Input(Lex(x.q, rest), more))
  {
    hide Lex, Emit, EmitUser, WrittenUser, Keyword, EmitVersion;
    if f.version.None? {
      LexUser(x, f, rest, more);
    } else {
      var (col, v) := f.version.value;
      var ver := EmitVersion(x, col, v);
      LexVersion(x, col, v, rest);
      if f.deleted.Some? || f.where != [] {
        SeenKeyword(x, "AND", ver, rest, more);
        UserThen(x, f, SqlBuilder.Join(Keyword("AND"), ver), rest, more);
      } else {
        NoUser(x, f, Seen(x, ver, rest, more));
      }
    }
  }

  lemma NoUser(x: Ctx, f: Filter, k: Input)
    requires FilterOk(x, f) && f.deleted.None? && f.where == []
    ensures WrittenUser(x, f, k) == k
  {
  }

  lemma UserThen(x: Ctx, f: Filter, tail: Option<Out>, rest: Text, more: seq<Val>)
    requires IsQuote(x.q) && FilterOk(x, f) && (f.deleted.Some? || f.where != [])
    requires tail.Some? && Boundary(x.q, tail.value.text + rest)
    ensures SqlBuilder.Join(EmitUser(x, f), tail).Some?
    ensures Seen(x, SqlBuilder.Join(EmitUser(x, f), tail), rest, more) == WrittenUser(x, f, Seen(x, tail, rest, more))
  {
    hide Lex, EmitUser, WrittenUser;
    LexUser(x, f, tail.value.text + rest, tail.value.args + more);
    var u := EmitUser(x, f);
    assert u.value.text + tail.value.text + rest == u.value.text + (tail.value.text + rest);
    assert u.value.args + tail.value.args + more == u.value.args + (tail.value.args + more);
  }

  /** What the database reads of the whole clause: the keyword, then the conditions. */
  lemma LexFilter(x: Ctx, f: Filter, rest: Text, more: seq<Val>)
    requires IsQuote(x.q) && FilterOk(x, f) && Boundary(x.q, rest) && !IsEmpty(f)
    ensures EmitFilter(x, f).Some? && Boundary(x.q, EmitFilter(x, f).value.text + rest)
    ensures Seen(x, EmitFilter(x, f), rest, more)
         == Prefixed(Word("WHERE"), FilterInput(x, f, Input(Lex(x.q, rest), more)))
  {
    hide Lex, EmitConditions, FilterInput, Written, Keyword, FilterOk;
    WrittenIsInput(x, f, Input(Lex(x.q, rest), more));
    LexConditions(x, f, rest, more);
    SeenKeyword(x, "WHERE", EmitConditions(x, f), rest, more);
  }

  // ---------------------------------------------------------------- the rows it selects

  lemma {:induction false} ChainTrue(db: Db, row: Row, acc: Cond, ps: seq<Piece>)
    ensures Eval(db, row, AndAll(acc, ps)) == T <==>
              Eval(db, row, acc) == T && forall k :: 0 <= k < |ps| ==> Eval(db, row, ps[k].tree) == T
    decreases |ps|
  {
    if ps != [] {
      ChainTrue(db, row, And(acc, ps[0].tree), ps[1..]);
      assert ps == [ps[0]] + ps[1..];
    }
  }

  ghost predicate AllTrue(db: Db, row: Row, ps: seq<Piece>) {
    forall k :: 0 <= k < |ps| ==> Eval(db, row, ps[k].tree) == T
  }

  lemma ChainMeans(db: Db, row: Row, ps: seq<Piece>)
    requires ps != []
    ensures Eval(db, row, Chain(ps)) == T <==> AllTrue(db, row, ps)
  {
    ChainTrue(db, row, ps[0].tree, ps[1..]);
    assert ps == [ps[0]] + ps[1..];
  }

  lemma {:induction false} FoldedMeans(x: Ctx, db: Db, row: Row, ps: seq<Expr>)
    requires ps != [] && forall i :: 0 <= i < |ps| ==> CondOk(x, ps[i])
    ensures CondOk(x, Folded(ps))
    ensures Eval(db, row, CondTree(x, Folded(ps))) == T <==>
              forall i :: 0 <= i < |ps| ==> Eval(db, row, CondTree(x, ps[i])) == T
  {
    hide CondOk, CondTree, Eval;
    FoldedOk(x, ps);
    if |ps| > 1 {
      var front, last := ps[..|ps| - 1], ps[|ps| - 1];
      FoldedOk(x, front);
      FoldedMeans(x, db, row, front);
      AndMeans(x, db, row, Folded(front), last);
      assert forall i :: 0 <= i < |front| ==> front[i] == ps[i];
    }
  }

  lemma AndMeans(x: Ctx, db: Db, row: Row, l: Expr, r: Expr)
    requires CondOk(x, l) && CondOk(x, r)
    ensures CondOk(x, AndOf(l, r))
    ensures Eval(db, row, CondTree(x, AndOf(l, r))) == T <==>
              Eval(db, row, CondTree(x, l)) == T && Eval(db, row, CondTree(x, r)) == T
  {
  }

  lemma OrMeans(x: Ctx, db: Db, row: Row, e: Expr)
    requires CondOk(x, e) && e.op == "OR"
    ensures CondOk(x, e.left) && CondOk(x, e.right)
    ensures Eval(db, row, CondTree(x, e)) == T <==>
              Eval(db, row, CondTree(x, e.left)) == T || Eval(db, row, CondTree(x, e.right)) == T
  {
  }

  lemma EitherTrue(db: Db, row: Row, a: Cond, b: Cond)
    ensures Eval(db, row, Or(a, b)) == T <==> Eval(db, row, a) == T || Eval(db, row, b) == T
  {
  }

  predicate Live(f: Filter, row: Row) {
    f.deleted.Some? ==> ValueOf(row, f.deleted.value).Null?
  }

  predicate VersionMatches(f: Filter, row: Row) {
    f.version.Some? ==> !f.version.value.1.Null? && ValueOf(row, f.version.value.0) == f.version.value.1
  }

  ghost predicate UserMatches(x: Ctx, db: Db, f: Filter, row: Row)
    requires FilterOk(x, f)
  {
    forall i :: 0 <= i < |f.where| ==> Eval(db, row, CondTree(x, f.where[i])) == T
  }

  /** The rows the clause is meant to select. */
  ghost predicate Intended(x: Ctx, db: Db, f: Filter, row: Row)
    requires FilterOk(x, f)
  {
    Live(f, row) && UserMatches(x, db, f, row) && VersionMatches(f, row)
  }

  lemma AutomaticMeans(db: Db, row: Row, f: Filter)
    ensures AllTrue(db, row, Before(f)) <==> Live(f, row)
    ensures AllTrue(db, row, After(f)) <==> VersionMatches(f, row)
  {
    if f.deleted.Some? { assert Before(f)[0].tree == IsNull(Col(None, f.deleted.value)); }
    if f.version.Some? { assert After(f)[0].tree == Cmp('=', Col(None, f.version.value.0), Lit(f.version.value.1)); }
  }

  lemma AllTrueConcat(db: Db, row: Row, ps: seq<Piece>, qs: seq<Piece>)
    ensures AllTrue(db, row, ps + qs) <==> AllTrue(db, row, ps) && AllTrue(db, row, qs)
  {
    if AllTrue(db, row, ps + qs) {
      forall k | 0 <= k < |ps| ensures Eval(db, row, ps[k].tree) == T { assert (ps + qs)[k] == ps[k]; }
      forall k | 0 <= k < |qs| ensures Eval(db, row, qs[k].tree) == T { assert (ps + qs)[|ps| + k] == qs[k]; }
    }
  }

  lemma UserMeans(x: Ctx, db: Db, row: Row, f: Filter)
    requires FilterOk(x, f) && f.where != [] && !LoneOr(f)
    ensures CondOk(x, Folded(f.where)) && Folded(f.where).op != "OR"
    ensures AllTrue(db, row, Factors(x, Folded(f.where))) <==> UserMatches(x, db, f, row)
  {
    FoldedOkIf(x, f);
    var e := Folded(f.where);
    AsFactors(x, e, Input([], []));
    ChainMeans(db, row, Factors(x, e));
    FoldedMeans(x, db, row, f.where);
  }

  /** Unless the user's condition is a lone OR, the clause selects exactly the intended rows. */
  lemma FilterMeans(x: Ctx, db: Db, row: Row, f: Filter)
    requires FilterOk(x, f) && !IsEmpty(f) && !LoneOr(f)
    ensures Eval(db, row, FilterTree(x, f)) == T <==> Intended(x, db, f, row)
  {
    hide Eval, AllTrue, CondTree, Factors;
    FoldedOkIf(x, f);
    AutomaticMeans(db, row, f);
    var us := if f.where == [] then [] else Factors(x, Folded(f.where));
    if f.where != [] { UserMeans(x, db, row, f); } else { NoneTrue(db, row); }
    ChainMeans(db, row, AllPieces(x, f));
    AllTrueConcat(db, row, Before(f) + us, After(f));
    AllTrueConcat(db, row, Before(f), us);
  }

  lemma NoneTrue(db: Db, row: Row)
    ensures AllTrue(db, row, [])
  {
  }

  /** With a lone OR each automatic condition binds to one side only. */
  lemma LoneOrSelects(x: Ctx, db: Db, row: Row, f: Filter)
    requires FilterOk(x, f) && LoneOr(f)
    ensures var e := f.where[0]; CondOk(x, e.left) && CondOk(x, e.right)
    ensures var e := f.where[0];
            Eval(db, row, FilterTree(x, f)) == T <==>
              || (Live(f, row) && Eval(db, row, CondTree(x, e.left)) == T)
              || (Eval(db, row, CondTree(x, e.right)) == T && VersionMatches(f, row))
  {
    var e := f.where[0];
    assert CondOk(x, e);
    hide AllTrue, Eval, CondTree, Chain, Live, VersionMatches;
    var l, r := GroupPiece(x, e.left), GroupPiece(x, e.right);
    EitherTrue(db, row, Chain(Before(f) + [l]), Chain([r] + After(f)));
    AutomaticMeans(db, row, f);
    ChainMeans(db, row, Before(f) + [l]);
    ChainMeans(db, row, [r] + After(f));
    AllTrueConcat(db, row, Before(f), [l]);
    AllTrueConcat(db, row, [r], After(f));
    OneTrue(db, row, l);
    OneTrue(db, row, r);
  }

  /**
   With a lone OR the clause and the intention part company exactly on live rows of the wrong
   version that match the left side, and on deleted rows of the right version that match the right side.
   */
  lemma LoneOrMeans(x: Ctx, db: Db, row: Row, f: Filter)
    requires FilterOk(x, f) && LoneOr(f)
    ensures var e := f.where[0]; CondOk(x, e.left) && CondOk(x, e.right)
    ensures var e := f.where[0];
            var l, r := Eval(db, row, CondTree(x, e.left)) == T, Eval(db, row, CondTree(x, e.right)) == T;
            (Eval(db, row, FilterTree(x, f)) == T <==> Intended(x, db, f, row)) <==>
              !(l && Live(f, row) && !VersionMatches(f, row)) && !(r && !Live(f, row) && VersionMatches(f, row))
  {
    LoneOrSelects(x, db, row, f);
    OrMeans(x, db, row, f.where[0]);
    hide Eval, CondTree, FilterTree, Live, VersionMatches;
    assert UserMatches(x, db, f, row) <==> Eval(db, row, CondTree(x, f.where[0])) == T;
  }

  lemma OneTrue(db: Db, row: Row, p: Piece)
    ensures AllTrue(db, row, [p]) <==> Eval(db, row, p.tree) == T
  {
    assert [p][0] == p;
  }
}
