/**
 SQL text and its tokens. The text the builder emits is a list of characters, except that a
 fragment the user wrote as raw SQL stays one opaque symbol with its number of placeholders.
 Identifiers are delimited and an embedded quote is doubled, as in section 5.2 of
 ISO/IEC 9075:1992, with the dialect's quote character.
 */
module SqlText {
  import opened Common

  datatype Sym = Ch(c: char) | Raw(sql: string, holes: nat)

  type Text = seq<Sym>

  datatype Token = Ident(name: string) | Word(w: string) | Punct(c: char) | Opaque(sql: string, holes: nat) | Bad

  /** The quote characters of the dialects. */
  predicate IsQuote(q: char) {
    q == '`' || q == '"'
  }

  predicate IsLetter(c: char) {
    'A' <= c <= 'Z' || 'a' <= c <= 'z' || c == '_'
  }

  function Txt(s: string): (t: Text)
    ensures |t| == |s|
  {
    seq(|s|, i requires 0 <= i < |s| => Ch(s[i]))
  }

  // ---------------------------------------------------------------- quoting

  function Doubled(q: char, name: string): Text {
    if name == "" then []
    else (if name[0] == q then [Ch(q), Ch(q)] else [Ch(name[0])]) + Doubled(q, name[1..])
  }

  function Quoted(q: char, name: string): Text {
    [Ch(q)] + Doubled(q, name) + [Ch(q)]
  }

  /** Reads a delimited identifier after its opening quote. */
  function ReadIdent(q: char, s: Text): (r: Option<(string, Text)>)
    ensures r.Some? ==> |r.value.1| < |s|
  {
    if s == [] || s[0].Raw? then None
    else if s[0].c == q then
      if |s| > 1 && s[1] == Ch(q) then
        var r := ReadIdent(q, s[2..]);
        if r.None? then None else Some(([q] + r.value.0, r.value.1))
      else Some(("", s[1..]))
    else
      var r := ReadIdent(q, s[1..]);
      if r.None? then None else Some(([s[0].c] + r.value.0, r.value.1))
  }

  predicate Starts(s: Text, c: char) {
    s != [] && s[0] == Ch(c)
  }

  /** A quoted name is read back whatever quotes it contains. */
  lemma {:induction false} ReadQuoted(q: char, name: string, rest: Text)
    requires !Starts(rest, q)
    ensures ReadIdent(q, Doubled(q, name) + [Ch(q)] + rest) == Some((name, rest))
  {
    var s := Doubled(q, name) + [Ch(q)] + rest;
    if name == "" {
      assert s == [Ch(q)] + rest;
      assert s[1..] == rest;
    } else {
      var tail := Doubled(q, name[1..]) + [Ch(q)] + rest;
      ReadQuoted(q, name[1..], rest);
      assert name == [name[0]] + name[1..];
      if name[0] == q {
        assert s[0] == s[1] == Ch(q);
        assert s[2..] == tail;
      } else {
        assert s[0] == Ch(name[0]);
        assert s[1..] == tail;
      }
    }
  }

  // ---------------------------------------------------------------- the lexer

  /** The letters at the front of the text. */
  function WordLength(s: Text): (n: nat)
    ensures n <= |s|
    ensures forall i :: 0 <= i < n ==> s[i].Ch? && IsLetter(s[i].c)
    ensures n < |s| ==> !(s[n].Ch? && IsLetter(s[n].c))
  {
    if s == [] || s[0].Raw? || !IsLetter(s[0].c) then 0 else 1 + WordLength(s[1..])
  }

  function Chars(s: Text): (w: string)
    requires forall i :: 0 <= i < |s| ==> s[i].Ch?
    ensures |w| == |s|
  {
    seq(|s|, i requires 0 <= i < |s| => s[i].c)
  }

  function Lex(q: char, s: Text): seq<Token>
    decreases |s|
  {
    if s == [] then []
    else
      match s[0]
      case Raw(sql, holes) => [Opaque(sql, holes)] + Lex(q, s[1..])
      case Ch(c) =>
        if c == ' ' then Lex(q, s[1..])
        else if c == q then
          var r := ReadIdent(q, s[1..]);
          if r.None? then [Bad] else [Ident(r.value.0)] + Lex(q, r.value.1)
        else if IsLetter(c) then
          var n := WordLength(s);
          [Word(Chars(s[..n]))] + Lex(q, s[n..])
        else [Punct(c)] + Lex(q, s[1..])
  }

  /** A token ends where this text begins. */
  predicate Boundary(q: char, s: Text) {
    s == [] || s[0].Raw? || (s[0].c != q && !IsLetter(s[0].c))
  }

  predicate IsPunct(q: char, c: char) {
    c != ' ' && c != q && !IsLetter(c)
  }

  predicate IsWord(w: string) {
    w != "" && forall i :: 0 <= i < |w| ==> IsLetter(w[i])
  }

  lemma LexIdent(q: char, name: string, rest: Text)
    requires IsQuote(q) && Boundary(q, rest)
    ensures Lex(q, Quoted(q, name) + rest) == [Ident(name)] + Lex(q, rest)
  {
    var s := Quoted(q, name) + rest;
    ReadQuoted(q, name, rest);
    assert s[1..] == Doubled(q, name) + [Ch(q)] + rest;
  }

  lemma LexPunct(q: char, c: char, rest: Text)
    requires IsPunct(q, c)
    ensures Lex(q, [Ch(c)] + rest) == [Punct(c)] + Lex(q, rest)
  {
    assert ([Ch(c)] + rest)[1..] == rest;
  }

  lemma LexSpace(q: char, rest: Text)
    ensures Lex(q, [Ch(' ')] + rest) == Lex(q, rest)
  {
    assert ([Ch(' ')] + rest)[1..] == rest;
  }

  lemma LexRaw(q: char, sql: string, holes: nat, rest: Text)
    ensures Lex(q, [Raw(sql, holes)] + rest) == [Opaque(sql, holes)] + Lex(q, rest)
  {
    assert ([Raw(sql, holes)] + rest)[1..] == rest;
  }

  lemma LexWord(q: char, w: string, rest: Text)
    requires IsQuote(q) && IsWord(w) && Boundary(q, rest)
    ensures Lex(q, Txt(w) + rest) == [Word(w)] + Lex(q, rest)
  {
    var s := Txt(w) + rest;
    var n := WordLength(s);
    assert s[0] == Ch(w[0]);
    assert forall i :: 0 <= i < |w| ==> s[i] == Ch(w[i]);
    assert rest != [] ==> s[|w|] == rest[0];
    assert n == |w|;
    assert s[..n] == Txt(w) && s[n..] == rest;
    assert Chars(s[..n]) == w;
  }

  /** A word between spaces, such as ` AND `. */
  lemma LexSpacedWord(q: char, w: string, rest: Text)
    requires IsQuote(q) && IsWord(w)
    ensures Lex(q, Txt(" " + w + " ") + rest) == [Word(w)] + Lex(q, rest)
  {
    var inner := Txt(w) + ([Ch(' ')] + rest);
    assert Txt(" " + w + " ") + rest == [Ch(' ')] + inner;
    LexSpace(q, inner);
    LexWord(q, w, [Ch(' ')] + rest);
    LexSpace(q, rest);
  }

  lemma LexSpacedPunct(q: char, c: char, rest: Text)
    requires IsPunct(q, c)
    ensures Lex(q, Txt([' ', c, ' ']) + rest) == [Punct(c)] + Lex(q, rest)
  {
    var inner := [Ch(c)] + ([Ch(' ')] + rest);
    assert Txt([' ', c, ' ']) + rest == [Ch(' ')] + inner;
    LexSpace(q, inner);
    LexPunct(q, c, [Ch(' ')] + rest);
    LexSpace(q, rest);
  }
}
