/**
 A reader of search conditions, following section 8.12 of ISO/IEC 9075:1992: NOT binds more
 tightly than AND, and AND more tightly than OR, both to the left. Each placeholder takes the
 next argument, as a database binds them.
 */
module SqlGrammar {
  import opened Common
  import opened SqlText

  datatype Val = Null | Int(i: int) | Str(s: string)

  datatype Operand =
    | Col(table: Option<string>, name: string)
    | Lit(v: Val)
    | Agg(fn: string, col: string)
    | RawVal(sql: string, args: seq<Val>)

  datatype Cond =
    | Or(l: Cond, r: Cond)
    | And(l: Cond, r: Cond)
    | Not(e: Cond)
    | Cmp(op: char, x: Operand, y: Operand)
    | IsNull(x: Operand)
    | RawCond(sql: string, args: seq<Val>)

  /** What is left to read: tokens, and arguments for the placeholders among them. */
  datatype Input = Input(toks: seq<Token>, args: seq<Val>)

  datatype Parsed<+T> = Fail | Ok(value: T, rest: Input)

  predicate At(i: Input, k: nat, t: Token) {
    k < |i.toks| && i.toks[k] == t
  }

  function Skip(i: Input, n: nat): Input
    requires n <= |i.toks|
  {
    i.(toks := i.toks[n..])
  }

  /** `(` raw `)`, with the fragment's own arguments. */
  function RawGroup(i: Input): (r: Parsed<(string, seq<Val>)>)
    ensures r.Ok? ==> |r.rest.toks| < |i.toks|
  {
    if At(i, 0, Punct('(')) && |i.toks| > 1 && i.toks[1].Opaque? && At(i, 2, Punct(')')) && i.toks[1].holes <= |i.args|
    then Ok((i.toks[1].sql, i.args[..i.toks[1].holes]), Input(i.toks[3..], i.args[i.toks[1].holes..]))
    else Fail
  }

  function ParseOperand(i: Input): (r: Parsed<Operand>)
    ensures r.Ok? ==> |r.rest.toks| < |i.toks|
  {
    if i.toks == [] then Fail
    else
      match i.toks[0]
      case Ident(a) =>
        if At(i, 1, Punct('.')) && |i.toks| > 2 && i.toks[2].Ident?
        then Ok(Col(Some(a), i.toks[2].name), Skip(i, 3)) else Ok(Col(None, a), Skip(i, 1))
      case Word(f) =>
        if At(i, 1, Punct('(')) && |i.toks| > 2 && i.toks[2].Ident? && At(i, 3, Punct(')'))
        then Ok(Agg(f, i.toks[2].name), Skip(i, 4)) else Fail
      case Punct(c) =>
        if c == '?' && i.args != [] then Ok(Lit(i.args[0]), Input(i.toks[1..], i.args[1..]))
        else
          var r := RawGroup(i);
          if r.Ok? then Ok(RawVal(r.value.0, r.value.1), r.rest) else Fail
      case _ => Fail
  }

  predicate IsComparison(c: char) {
    c == '=' || c == '<' || c == '>'
  }

  function ParsePredicate(i: Input): (r: Parsed<Cond>)
    ensures r.Ok? ==> |r.rest.toks| < |i.toks|
  {
    var x := ParseOperand(i);
    if x.Fail? then Fail
    else if At(x.rest, 0, Word("IS")) && At(x.rest, 1, Word("NULL")) then Ok(IsNull(x.value), Skip(x.rest, 2))
    else if x.rest.toks != [] && x.rest.toks[0].Punct? && IsComparison(x.rest.toks[0].c) then
      var y := ParseOperand(Skip(x.rest, 1));
      if y.Fail? then Fail else Ok(Cmp(x.rest.toks[0].c, x.value, y.value), y.rest)
    else Fail
  }

  /** boolean primary: a predicate or a search condition in parentheses */
  function ParsePrimary(i: Input): (r: Parsed<Cond>)
    ensures r.Ok? ==> |r.rest.toks| < |i.toks|
    decreases |i.toks|, 0
  {
    var raw := RawGroup(i);
    if raw.Ok? then Ok(RawCond(raw.value.0, raw.value.1), raw.rest)
    else if At(i, 0, Punct('(')) then
      var c := ParseCond(Skip(i, 1));
      if c.Ok? && At(c.rest, 0, Punct(')')) then Ok(c.value, Skip(c.rest, 1)) else Fail
    else ParsePredicate(i)
  }

  /** boolean factor: [ NOT ] boolean primary */
  function ParseFactor(i: Input): (r: Parsed<Cond>)
    ensures r.Ok? ==> |r.rest.toks| < |i.toks|
    decreases |i.toks|, 1
  {
    if At(i, 0, Word("NOT")) then
      var p := ParsePrimary(Skip(i, 1));
      if p.Fail? then Fail else Ok(Not(p.value), p.rest)
    else ParsePrimary(i)
  }

  /** boolean term: boolean factor { AND boolean factor } */
  function ParseTerm(i: Input): (r: Parsed<Cond>)
    ensures r.Ok? ==> |r.rest.toks| < |i.toks|
    decreases |i.toks|, 3
  {
    var f := ParseFactor(i);
    if f.Fail? then Fail else MoreFactors(f.value, f.rest)
  }

  function MoreFactors(acc: Cond, i: Input): (r: Parsed<Cond>)
    ensures r.Ok? ==> |r.rest.toks| <= |i.toks|
    decreases |i.toks|, 2
  {
    if !At(i, 0, Word("AND")) then Ok(acc, i)
    else
      var f := ParseFactor(Skip(i, 1));
      if f.Fail? then Fail else MoreFactors(And(acc, f.value), f.rest)
  }

  /** search condition: boolean term { OR boolean term } */
  function ParseCond(i: Input): (r: Parsed<Cond>)
    ensures r.Ok? ==> |r.rest.toks| < |i.toks|
    decreases |i.toks|, 5
  {
    var t := ParseTerm(i);
    if t.Fail? then Fail else MoreTerms(t.value, t.rest)
  }

  function MoreTerms(acc: Cond, i: Input): (r: Parsed<Cond>)
    ensures r.Ok? ==> |r.rest.toks| <= |i.toks|
    decreases |i.toks|, 4
  {
    if !At(i, 0, Word("OR")) then Ok(acc, i)
    else
      var t := ParseTerm(Skip(i, 1));
      if t.Fail? then Fail else MoreTerms(Or(acc, t.value), t.rest)
  }

  // ---------------------------------------------------------------- reading what is written

  /** A stretch of tokens that reads as one boolean factor. */
  datatype Piece = Piece(toks: seq<Token>, args: seq<Val>, tree: Cond)

  function Then(p: Piece, i: Input): Input {
    Input(p.toks + i.toks, p.args + i.args)
  }

  /** Nothing that would continue an operand. */
  predicate Ends(i: Input) {
    !At(i, 0, Punct('.'))
  }

  ghost predicate Reads(p: Piece) {
    forall i :: Ends(i) ==> ParseFactor(Then(p, i)) == Ok(p.tree, i)
  }

  ghost predicate AllRead(ps: seq<Piece>) {
    forall k :: 0 <= k < |ps| ==> Reads(ps[k])
  }

  /** Pieces joined by AND, in front of an input. */
  function Conj(ps: seq<Piece>, i: Input): Input {
    if ps == [] then i
    else if |ps| == 1 then Then(ps[0], i)
    else Then(ps[0], Prefixed(Word("AND"), Conj(ps[1..], i)))
  }

  function Prefixed(t: Token, i: Input): Input {
    i.(toks := [t] + i.toks)
  }

  /** The trees of the pieces, combined to the left. */
  function AndAll(acc: Cond, ps: seq<Piece>): Cond
    decreases |ps|
  {
    if ps == [] then acc else AndAll(And(acc, ps[0].tree), ps[1..])
  }

  lemma SkipPrefixed(t: Token, i: Input)
    ensures At(Prefixed(t, i), 0, t) && Skip(Prefixed(t, i), 1) == i
  {
    assert ([t] + i.toks)[1..] == i.toks;
  }

  lemma {:induction false} MoreFactorsRead(acc: Cond, ps: seq<Piece>, i: Input)
    requires AllRead(ps) && ps != [] && Ends(i) && !At(i, 0, Word("AND"))
    ensures MoreFactors(acc, Prefixed(Word("AND"), Conj(ps, i))) == Ok(AndAll(acc, ps), i)
    decreases |ps|
  {
    hide ParseFactor, Reads;
    var rest := if |ps| == 1 then i else Prefixed(Word("AND"), Conj(ps[1..], i));
    assert Conj(ps, i) == Then(ps[0], rest);
    SkipPrefixed(Word("AND"), Conj(ps, i));
    assert Ends(rest);
    assert ParseFactor(Then(ps[0], rest)) == Ok(ps[0].tree, rest) by { ReadOne(ps[0], rest); }
    if |ps| > 1 {
      MoreFactorsRead(And(acc, ps[0].tree), ps[1..], i);
    } else {
      assert ps[1..] == [];
    }
  }

  lemma ReadOne(p: Piece, i: Input)
    requires Reads(p) && Ends(i)
    ensures ParseFactor(Then(p, i)) == Ok(p.tree, i)
  {
  }

  /** Pieces joined by AND read as one boolean term. */
  lemma TermReads(ps: seq<Piece>, i: Input)
    requires AllRead(ps) && ps != [] && Ends(i) && !At(i, 0, Word("AND"))
    ensures ParseTerm(Conj(ps, i)) == Ok(AndAll(ps[0].tree, ps[1..]), i)
  {
    hide ParseFactor, Reads;
    var rest := if |ps| == 1 then i else Prefixed(Word("AND"), Conj(ps[1..], i));
    assert Ends(rest);
    ReadOne(ps[0], rest);
    if |ps| > 1 { MoreFactorsRead(ps[0].tree, ps[1..], i); }
  }

  /** Nothing that would continue a search condition. */
  predicate Stops(i: Input) {
    Ends(i) && !At(i, 0, Word("AND")) && !At(i, 0, Word("OR"))
  }

  lemma CondReads(ps: seq<Piece>, i: Input)
    requires AllRead(ps) && ps != [] && Stops(i)
    ensures ParseCond(Conj(ps, i)) == Ok(AndAll(ps[0].tree, ps[1..]), i)
  {
    TermReads(ps, i);
  }

  /** Two conjunctions joined by OR. */
  lemma OrReads(ps: seq<Piece>, qs: seq<Piece>, i: Input)
    requires AllRead(ps) && AllRead(qs) && ps != [] && qs != [] && Stops(i)
    ensures ParseCond(Conj(ps, Prefixed(Word("OR"), Conj(qs, i))))
         == Ok(Or(AndAll(ps[0].tree, ps[1..]), AndAll(qs[0].tree, qs[1..])), i)
  {
    hide ParseTerm, AndAll, Conj, AllRead, Prefixed;
    var more := Prefixed(Word("OR"), Conj(qs, i));
    SkipPrefixed(Word("OR"), Conj(qs, i));
    TermReads(ps, more);
    TermReads(qs, i);
    OneMoreTerm(AndAll(ps[0].tree, ps[1..]), more, AndAll(qs[0].tree, qs[1..]), i);
  }

  lemma OneMoreTerm(acc: Cond, i: Input, t: Cond, rest: Input)
    requires At(i, 0, Word("OR")) && ParseTerm(Skip(i, 1)) == Ok(t, rest) && Stops(rest)
    ensures MoreTerms(acc, i) == Ok(Or(acc, t), rest)
  {
    hide ParseTerm;
  }
}
