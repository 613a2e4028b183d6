/**
 The printed UPDATE and DELETE statements, read back: every column once, the version only as
 version+1, and every placeholder bound to its own argument up to the last condition.
 */
module SqlReadBack {
  import opened Common
  import opened SqlText
  import opened SqlGrammar
  import opened SqlBuilder
  import opened SqlWhere
  import opened SqlStatement
  import opened SqlUpdate

  /** The statement the database reads. */
  function ReadBack(q: char, out: Out): Option<Statement> {
    ParseStatement(Input(Lex(q, out.text), out.args))
  }

  function TableTree(m: Model, from: string): TableRef {
    if from == "" then Named(m.tableName) else Verbatim(from)
  }

  function Condition(x: Ctx, f: Filter): Option<Cond>
    requires FilterOk(x, f)
  {
    if IsEmpty(f) then None else Some(FilterTree(x, f))
  }

  /** A word and a space at the front. */
  lemma LexFirst(q: char, w: string, rest: Text)
    requires IsQuote(q) && IsWord(w)
    ensures Lex(q, Txt(w + " ") + rest) == [Word(w)] + Lex(q, rest)
  {
    hide Lex;
    var t := [Ch(' ')] + rest;
    LexSpace(q, rest);
    LexWord(q, w, t);
    assert Txt(w + " ") + rest == Txt(w) + t;
  }

  function TableToken(m: Model, from: string): Token {
    if from == "" then Ident(m.tableName) else Opaque(from, 0)
  }

  lemma LexTable(x: Ctx, m: Model, from: string, rest: Text)
    requires IsQuote(x.q) && Boundary(x.q, rest)
    ensures LexesTo(x, EmitTable(x, m, from), [TableToken(m, from)], [], rest)
  {
    hide Lex;
    if from == "" { LexIdent(x.q, m.tableName, rest); } else { LexRaw(x.q, from, 0, rest); }
  }

  /** The tokens in front of the SET list. */
  lemma LexHead(x: Ctx, m: Model, from: string, rest: Text)
    requires IsQuote(x.q)
    ensures LexesTo(x, EmitHead(x, m, from), [Word("UPDATE"), TableToken(m, from), Word("SET")], [], rest)
  {
    hide Lex, EmitTable, Txt, TableToken, Quoted;
    var first, table, last := Plain("UPDATE "), EmitTable(x, m, from), Keyword("SET");
    LexSpacedWord(x.q, "SET", rest);
    SpaceIsBoundary(x, "SET", rest);
    var t := last.value.text + rest;
    LexTable(x, m, from, t);
    assert "UPDATE " == "UPDATE" + " ";
    LexFirst(x.q, "UPDATE", table.value.text + t);
    LexJoin(x, first, [Word("UPDATE")], [], table, [TableToken(m, from)], [], t);
    LexJoin(x, SqlBuilder.Join(first, table), [Word("UPDATE")] + [TableToken(m, from)], [], last, [Word("SET")], [],
            rest);
    assert [Word("UPDATE")] + [TableToken(m, from)] + [Word("SET")]
             == [Word("UPDATE"), TableToken(m, from), Word("SET")];
  }

  /** What an UPDATE's head leaves to the rest of the reader. */
  lemma HeadReads(m: Model, from: string, i: Input)
    ensures ParseStatement(Input([Word("UPDATE"), TableToken(m, from), Word("SET")] + i.toks, i.args))
         == var s := ParseSets(i);
            if s.Fail? then None
            else var w := ParseTail(s.rest);
                 if w.None? then None else Some(Update(TableTree(m, from), s.value, w.value))
  {
    hide ParseSets, ParseTail;
    var all := Input([Word("UPDATE"), TableToken(m, from), Word("SET")] + i.toks, i.args);
    assert all.toks[1] == TableToken(m, from) && all.toks[2] == Word("SET");
    assert all.toks[1..][1..][1..] == i.toks;
  }

  /**
   An UPDATE made of a head, a SET list and a tail reads back as just that, unless the list is
   empty or assigns a predicate: then the text is no statement.
   */
  lemma AssembledReads(x: Ctx, m: Model, from: string, items: seq<Item>, f: Filter)
    requires IsQuote(x.q) && ItemsKnown(x, items) && FilterOk(x, f)
    ensures var out := SqlBuilder.Join(EmitHead(x, m, from), SqlBuilder.Join(EmitItems(x, items), EmitTail(x, f)));
            && out.Some?
            && ReadBack(x.q, out.value)
            == if items == [] || !ItemsOk(x, items) then None
               else Some(Update(TableTree(m, from), Clauses(x, items), Condition(x, f)))
  {
    hide Lex, EmitHead, EmitItems, EmitFilter, Listed, Clauses, FilterTree, ItemsOk, ItemsKnown, FilterOk, ParseTail,
      ParseStatement, ParseSets, IsEmpty, Txt;
    TailReads(x, f);
    var head, list, tail := EmitHead(x, m, from), EmitItems(x, items), EmitTail(x, f);
    var i := Input(Lex(x.q, tail.value.text), tail.value.args);
    LexItems(x, items, tail.value.text, tail.value.args);
    var rest := SqlBuilder.Join(list, tail);
    var j := Input(Lex(x.q, rest.value.text), rest.value.args);
    assert j == Listed(x, items, i);
    LexHead(x, m, from, rest.value.text);
    var all := SqlBuilder.Join(head, rest).value;
    assert Lex(x.q, all.text) == [Word("UPDATE"), TableToken(m, from), Word("SET")] + j.toks;
    assert all.args == j.args;
    HeadReads(m, from, j);
    if items == [] {
      NothingListed(x, i);
    } else if ItemsOk(x, items) {
      ItemsRead(x, items, i);
    } else {
      ListSticks(x, items, i);
      if ParseSets(j).Ok? { StuckIsNoTail(ParseSets(j)); }
    }
  }

  lemma NothingListed(x: Ctx, i: Input)
    requires i.toks != [] && !i.toks[0].Ident?
    ensures ItemsKnown(x, []) && ItemsOk(x, []) && Listed(x, [], i) == i && ParseSets(i).Fail?
  {
  }

  // ---------------------------------------------------------------- the UPDATE statement

  /** The fields are known and set, the version is a number, and the expressions are those the constructors build. */
  predicate RequestKnown(x: Ctx, m: Model, u: Request) {
    && IsQuote(x.q)
    && SetItems(x, m, u).Some? && ItemsKnown(x, SetItems(x, m, u).value)
    && FilterOf(m, u).Some? && FilterOk(x, FilterOf(m, u).value)
  }

  /** Besides, no predicate is assigned. */
  predicate RequestOk(x: Ctx, m: Model, u: Request) {
    RequestKnown(x, m, u) && ItemsOk(x, SetItems(x, m, u).value)
  }

  /**
   Every UPDATE reads back as its assignments in order and its conditions, with no argument
   left over, if and only if it assigns something and no predicate.
   */
  lemma UpdateRoundTrip(x: Ctx, m: Model, u: Request)
    requires RequestKnown(x, m, u)
    ensures EmitUpdate(x, m, u).Some?
    ensures ReadBack(x.q, EmitUpdate(x, m, u).value)
         == var items := SetItems(x, m, u).value;
            if items == [] || !ItemsOk(x, items) then None
            else Some(Update(Named(m.tableName), Clauses(x, items), Condition(x, FilterOf(m, u).value)))
  {
    hide ReadBack, EmitHead, EmitTail, EmitItems, SetItems, FilterOf, Clauses, Condition, ItemsOk, ItemsKnown, FilterOk;
    AssembledReads(x, m, "", SetItems(x, m, u).value, FilterOf(m, u).value);
  }

  /** A single assignment of a predicate other than a raw fragment: the text is built and reads as no statement. */
  lemma AssignedPredicateFails(x: Ctx, m: Model, name: string, e: Expr, where: seq<Expr>)
    requires IsQuote(x.q) && name in x.columns && CondOk(x, e) && e.op != ""
    requires forall i :: 0 <= i < |where| ==> CondOk(x, where[i])
    ensures var u := Request([AssignTo(name, e)], None, where);
            RequestKnown(x, m, u) && EmitUpdate(x, m, u).Some? && ReadBack(x.q, EmitUpdate(x, m, u).value).None?
  {
    var u, item := Request([AssignTo(name, e)], None, where), Given(x.columns[name], e);
    var none: seq<Item> := [];
    assert u.assigns[..0] == [] && ItemOf(x, None, u.assigns[0]) == Some(item);
    assert AssignItems(x, None, []) == Some(none) && none + [item] == [item];
    assert SetItems(x, m, u) == Some([item]);
    hide CondOk, EmitUpdate, ReadBack, SetItems, AssignItems;
    assert !ItemOk(x, [item][0]) by { PredicateIsNoItem(x, item); }
    UpdateRoundTrip(x, m, u);
  }

  lemma PredicateIsNoItem(x: Ctx, item: Item)
    requires item.Given? && CondOk(x, item.e) && item.e.op != ""
    ensures !ItemOk(x, item)
  {
  }

  /** UPDATE user SET id=id = ?, say: a known request whose text the database refuses. */
  lemma ComparisonAssignedToColumn(v: Val)
    ensures var x := Ctx('`', map["Id" := "id"]);
            var m := Model("user", [Field("Id", "id")], None, None);
            var u := Request([AssignTo("Id", Pred(Column("Id", None, ""), "=", Value(v)))], None, []);
            RequestKnown(x, m, u) && EmitUpdate(x, m, u).Some? && ReadBack('`', EmitUpdate(x, m, u).value).None?
  {
    var x := Ctx('`', map["Id" := "id"]);
    var e := Pred(Column("Id", None, ""), "=", Value(v));
    assert CondOk(x, e) && e.op != "";
    hide CondOk, EmitUpdate, ReadBack, SetItems, RequestKnown;
    AssignedPredicateFails(x, Model("user", [Field("Id", "id")], None, None), "Id", e, []);
  }

  // ---------------------------------------------------------------- the full-value SET list

  function Columns(fields: seq<Field>): map<string, string> {
    if fields == [] then map[]
    else Columns(fields[..|fields| - 1])[fields[|fields| - 1].goName := fields[|fields| - 1].colName]
  }

  function CtxOf(q: char, m: Model): Ctx {
    Ctx(q, Columns(m.fields))
  }

  /** Field names are those of a struct; the registry takes the special fields from the field list. */
  predicate ModelOk(m: Model) {
    && (forall i, j :: 0 <= i < j < |m.fields| ==> m.fields[i].goName != m.fields[j].goName)
    && (forall i, j :: 0 <= i < j < |m.fields| ==> m.fields[i].colName != m.fields[j].colName)
    && (m.version.Some? ==> m.version.value in m.fields)
    && (m.deleted.Some? ==> m.deleted.value in m.fields)
  }

  lemma {:induction false} ColumnOf(fields: seq<Field>, f: Field)
    requires forall i, j :: 0 <= i < j < |fields| ==> fields[i].goName != fields[j].goName
    requires f in fields
    ensures f.goName in Columns(fields) && Columns(fields)[f.goName] == f.colName
  {
    var front, last := fields[..|fields| - 1], fields[|fields| - 1];
    if f != last {
      assert f in front;
      ColumnOf(front, f);
    }
  }

  lemma {:induction false} KnownColumn(fields: seq<Field>, name: string) returns (f: Field)
    requires name in Columns(fields)
    ensures f in fields && f.goName == name
  {
    var front, last := fields[..|fields| - 1], fields[|fields| - 1];
    if name == last.goName { f := last; } else { f := KnownColumn(front, name); }
  }

  predicate HasFields(val: Instance, fields: seq<Field>) {
    forall k :: 0 <= k < |fields| ==> fields[k].goName in val
  }

  /** The fields that are written as bound values. */
  function Others(m: Model, fields: seq<Field>): seq<Field> {
    if fields == [] then []
    else
      var front, last := Others(m, fields[..|fields| - 1]), fields[|fields| - 1];
      if IsVersion(m, last.goName) then front else front + [last]
  }

  function BoundFields(val: Instance, fields: seq<Field>): seq<SetClause>
    requires HasFields(val, fields)
  {
    seq(|fields|, k requires 0 <= k < |fields| => SetClause(fields[k].colName, Assigned(Lit(val[fields[k].goName]))))
  }

  lemma {:induction false} OthersMeaning(m: Model, fields: seq<Field>)
    ensures forall f :: f in Others(m, fields) <==> f in fields && !IsVersion(m, f.goName)
  {
    hide IsVersion;
    if fields != [] {
      OthersMeaning(m, fields[..|fields| - 1]);
      assert fields == fields[..|fields| - 1] + [fields[|fields| - 1]];
    }
  }

  predicate ColumnsDiffer(fields: seq<Field>) {
    forall i, j :: 0 <= i < j < |fields| ==> fields[i].colName != fields[j].colName
  }

  lemma {:induction false} OthersDiffer(m: Model, fields: seq<Field>)
    requires ColumnsDiffer(fields)
    ensures ColumnsDiffer(Others(m, fields))
  {
    hide IsVersion;
    if fields != [] {
      var front, last := fields[..|fields| - 1], fields[|fields| - 1];
      OthersDiffer(m, front);
      forall k | 0 <= k < |Others(m, front)| ensures Others(m, front)[k].colName != last.colName {
        OthersMeaning(m, front);
        assert Others(m, front)[k] in front;
      }
    }
  }

  /** The printed items are exactly the bound fields. */
  lemma {:induction false} FieldItemsAre(x: Ctx, m: Model, val: Instance, fields: seq<Field>)
    requires HasFields(val, fields)
    requires forall k :: 0 <= k < |fields| ==>
               fields[k].goName in x.columns && x.columns[fields[k].goName] == fields[k].colName
    ensures HasFields(val, Others(m, fields))
    ensures FieldItems(x, m, val, fields).Some? && ItemsOk(x, FieldItems(x, m, val, fields).value)
    ensures Clauses(x, FieldItems(x, m, val, fields).value) == BoundFields(val, Others(m, fields))
  {
    if fields != [] {
      var front, last := fields[..|fields| - 1], fields[|fields| - 1];
      FieldItemsAre(x, m, val, front);
      var items := FieldItems(x, m, val, front).value;
      var item := Param(last.colName, val[last.goName]);
      assert Clauses(x, items + [item]) == Clauses(x, items) + [ItemClause(x, item)];
      assert !IsVersion(m, last.goName) ==>
               BoundFields(val, Others(m, fields)) == BoundFields(val, Others(m, front)) + [ItemClause(x, item)];
    }
  }

  /** The columns of a SET list. */
  function Targets(sets: seq<SetClause>): seq<string> {
    seq(|sets|, k requires 0 <= k < |sets| => sets[k].target)
  }

  /** What a full-value UPDATE should set: every other field to its value, the version to version+1. */
  function FullSets(m: Model, val: Instance): seq<SetClause>
    requires HasFields(val, Others(m, m.fields))
  {
    BoundFields(val, Others(m, m.fields))
      + if m.version.Some? then [SetClause(m.version.value.colName, Incremented(m.version.value.colName))] else []
  }

  lemma {:induction false} OthersHave(m: Model, val: Instance, fields: seq<Field>)
    requires HasFields(val, fields)
    ensures HasFields(val, Others(m, fields))
  {
    if fields != [] { OthersHave(m, val, fields[..|fields| - 1]); }
  }

  /** The version's field is an integer, as the registry makes sure. */
  predicate InstanceOk(m: Model, val: Instance) {
    HasFields(val, m.fields) && (m.version.Some? ==> m.version.value.goName in val && val[m.version.value.goName].Int?)
  }

  function FullFilter(m: Model, val: Instance, where: seq<Expr>): Filter
    requires InstanceOk(m, val)
  {
    Filter(DeletedCol(m), where,
           if m.version.None? then None
           else Some((m.version.value.colName, Int(Signed(val[m.version.value.goName].i)))))
  }

  lemma FullItems(q: char, m: Model, val: Instance, where: seq<Expr>)
    requires IsQuote(q) && ModelOk(m) && InstanceOk(m, val)
    ensures HasFields(val, Others(m, m.fields))
    ensures var items := SetItems(CtxOf(q, m), m, Request([], Some(val), where));
            items.Some? && ItemsOk(CtxOf(q, m), items.value) && Clauses(CtxOf(q, m), items.value) == FullSets(m, val)
  {
    var x := CtxOf(q, m);
    forall k | 0 <= k < |m.fields|
      ensures m.fields[k].goName in x.columns && x.columns[m.fields[k].goName] == m.fields[k].colName
    {
      ColumnOf(m.fields, m.fields[k]);
    }
    FieldItemsAre(x, m, val, m.fields);
    hide FieldItems, Columns, Others;
    var items := FieldItems(x, m, val, m.fields).value;
    if m.version.Some? {
      var col := m.version.value.colName;
      assert Clauses(x, items + [Bump(col)]) == Clauses(x, items) + [SetClause(col, Incremented(col))];
    }
  }

  /**
   A full-value UPDATE reads back as one assignment per column in field order, the version only
   as version+1 and last, wherever it stands among the fields; every argument is consumed up to
   the version of the last condition.
   */
  lemma FullUpdateReads(q: char, m: Model, val: Instance, where: seq<Expr>)
    requires IsQuote(q) && ModelOk(m) && m.fields != [] && InstanceOk(m, val)
    requires FilterOk(CtxOf(q, m), FullFilter(m, val, where))
    ensures HasFields(val, Others(m, m.fields))
    ensures var out := EmitUpdate(CtxOf(q, m), m, Request([], Some(val), where));
            && out.Some?
            && ReadBack(q, out.value)
            == Some(Update(Named(m.tableName), FullSets(m, val), Condition(CtxOf(q, m), FullFilter(m, val, where))))
  {
    hide ReadBack, EmitUpdate, SetItems, Columns, Others, FilterOk, Condition;
    var x, u := CtxOf(q, m), Request([], Some(val), where);
    FullItems(q, m, val, where);
    assert FilterOf(m, u) == Some(FullFilter(m, val, where));
    OkIsKnown(x, SetItems(x, m, u).value);
    UpdateRoundTrip(x, m, u);
    SomethingIsSet(m, val);
  }

  lemma SomethingIsSet(m: Model, val: Instance)
    requires ModelOk(m) && m.fields != [] && HasFields(val, Others(m, m.fields))
    ensures FullSets(m, val) != []
  {
    if m.version.None? {
      OthersMeaning(m, m.fields);
      assert m.fields[0] in Others(m, m.fields);
    }
  }

  /** Each column of the model is set exactly once. */
  lemma EachColumnOnce(m: Model, val: Instance)
    requires ModelOk(m) && HasFields(val, m.fields)
    ensures HasFields(val, Others(m, m.fields))
    ensures var ts := Targets(FullSets(m, val));
            && (forall i, j :: 0 <= i < j < |ts| ==> ts[i] != ts[j])
            && (forall col :: col in ts <==> exists f :: f in m.fields && f.colName == col)
  {
    OthersHave(m, val, m.fields);
    OthersMeaning(m, m.fields);
    OthersDiffer(m, m.fields);
    hide Others, HasFields, FullSets;
    var os, ts := Others(m, m.fields), Targets(FullSets(m, val));
    TargetsAre(m, val);
    forall k | 0 <= k < |os| && m.version.Some? ensures ts[k] != ts[|os|] {
      assert os[k] in os;
      DistinctColumns(m, os[k], m.version.value);
    }
    forall col ensures col in ts <==> exists f :: f in m.fields && f.colName == col {
      TargetsCover(m, val, col);
    }
  }

  lemma TargetsAre(m: Model, val: Instance)
    requires HasFields(val, Others(m, m.fields))
    ensures var os, ts := Others(m, m.fields), Targets(FullSets(m, val));
            && |ts| == |os| + (if m.version.Some? then 1 else 0)
            && (forall k :: 0 <= k < |os| ==> ts[k] == os[k].colName)
            && (m.version.Some? ==> ts[|os|] == m.version.value.colName)
  {
    hide Others;
  }

  lemma TargetsCover(m: Model, val: Instance, col: string)
    requires ModelOk(m) && HasFields(val, Others(m, m.fields))
    ensures col in Targets(FullSets(m, val)) <==> exists f :: f in m.fields && f.colName == col
  {
    hide Others, HasFields, FullSets, Targets, ModelOk;
    if f :| f in m.fields && f.colName == col { FieldIsTarget(m, val, f); }
    if col in Targets(FullSets(m, val)) { var f := TargetIsField(m, val, col); }
  }

  lemma FieldIsTarget(m: Model, val: Instance, f: Field)
    requires ModelOk(m) && HasFields(val, Others(m, m.fields)) && f in m.fields
    ensures f.colName in Targets(FullSets(m, val))
  {
    OthersMeaning(m, m.fields);
    TargetsAre(m, val);
    hide Others, HasFields, FullSets, Targets;
    var os, ts := Others(m, m.fields), Targets(FullSets(m, val));
    if IsVersion(m, f.goName) {
      SameField(m, f, m.version.value);
      assert ts[|os|] == f.colName;
    } else {
      var k :| 0 <= k < |os| && os[k] == f;
      assert ts[k] == f.colName;
    }
  }

  lemma TargetIsField(m: Model, val: Instance, col: string) returns (f: Field)
    requires ModelOk(m) && HasFields(val, Others(m, m.fields)) && col in Targets(FullSets(m, val))
    ensures f in m.fields && f.colName == col
  {
    OthersMeaning(m, m.fields);
    TargetsAre(m, val);
    hide Others, HasFields, FullSets, Targets;
    var os, ts := Others(m, m.fields), Targets(FullSets(m, val));
    var k :| 0 <= k < |ts| && ts[k] == col;
    if k < |os| {
      assert os[k] in os;
      f := os[k];
    } else {
      f := m.version.value;
    }
  }

  lemma DistinctColumns(m: Model, f: Field, g: Field)
    requires ModelOk(m) && f in m.fields && g in m.fields && f != g
    ensures f.colName != g.colName
  {
    var i :| 0 <= i < |m.fields| && m.fields[i] == f;
    var j :| 0 <= j < |m.fields| && m.fields[j] == g;
    assert i < j || j < i;
  }

  lemma SameField(m: Model, f: Field, g: Field)
    requires ModelOk(m) && f in m.fields && g in m.fields && f.goName == g.goName
    ensures f == g
  {
    var i :| 0 <= i < |m.fields| && m.fields[i] == f;
    var j :| 0 <= j < |m.fields| && m.fields[j] == g;
    assert !(i < j) && !(j < i);
  }

  // ---------------------------------------------------------------- the DELETE statement

  function DeleteFilter(m: Model, where: seq<Expr>): Filter {
    Filter(DeletedCol(m), where, None)
  }

  /** A DELETE of a model with a soft-delete column sets that column and nothing else; without one it deletes. */
  lemma DeleteRoundTrip(x: Ctx, m: Model, from: string, where: seq<Expr>, now: Val)
    requires IsQuote(x.q) && FilterOk(x, DeleteFilter(m, where))
    ensures EmitDelete(x, m, from, where, now).Some?
    ensures ReadBack(x.q, EmitDelete(x, m, from, where, now).value)
         == var c := Condition(x, DeleteFilter(m, where));
            if m.deleted.Some? then
              Some(Update(TableTree(m, from), [SetClause(m.deleted.value.colName, Assigned(Lit(now)))], c))
            else Some(Delete(TableTree(m, from), c))
  {
    hide ReadBack, EmitHead, EmitTail, EmitItems, Condition, FilterOk;
    if m.deleted.Some? {
      var item := Param(m.deleted.value.colName, now);
      AssembledReads(x, m, from, [item], DeleteFilter(m, where));
      assert Clauses(x, [item]) == [ItemClause(x, item)];
    } else {
      RealDeleteReads(x, m, from, DeleteFilter(m, where));
    }
  }

  lemma RealDeleteReads(x: Ctx, m: Model, from: string, f: Filter)
    requires IsQuote(x.q) && FilterOk(x, f)
    ensures var out := SqlBuilder.Join(SqlBuilder.Join(Plain("DELETE FROM "), EmitTable(x, m, from)), EmitTail(x, f));
            out.Some? && ReadBack(x.q, out.value) == Some(Delete(TableTree(m, from), Condition(x, f)))
  {
    hide Lex, EmitTable, EmitFilter, FilterTree, FilterOk, IsEmpty, ParseTail, Quoted, TableToken;
    TailReads(x, f);
    var first, table, tail := Plain("DELETE FROM "), EmitTable(x, m, from), EmitTail(x, f);
    var i := Input(Lex(x.q, tail.value.text), tail.value.args);
    LexTable(x, m, from, tail.value.text);
    var t := table.value.text + tail.value.text;
    LexSpacedWord(x.q, "FROM", t);
    SpaceIsBoundary(x, "FROM", t);
    LexWord(x.q, "DELETE", Txt(" " + "FROM" + " ") + t);
    assert Txt("DELETE FROM ") == Txt("DELETE") + Txt(" " + "FROM" + " ");
    var all := SqlBuilder.Join(SqlBuilder.Join(first, table), tail).value;
    assert all.text == Txt("DELETE") + (Txt(" " + "FROM" + " ") + t);
    assert Lex(x.q, all.text) == [Word("DELETE")] + ([Word("FROM")] + ([TableToken(m, from)] + i.toks));
    assert all.args == i.args;
    DeleteHeadReads(m, from, i);
  }

  lemma DeleteHeadReads(m: Model, from: string, i: Input)
    ensures ParseStatement(Input([Word("DELETE")] + ([Word("FROM")] + ([TableToken(m, from)] + i.toks)), i.args))
         == var w := ParseTail(i); if w.None? then None else Some(Delete(TableTree(m, from), w.value))
  {
    hide ParseTail;
    var all := Input([Word("DELETE")] + ([Word("FROM")] + ([TableToken(m, from)] + i.toks)), i.args);
    assert all.toks[2..][1..] == i.toks;
    assert all.toks[2] == TableToken(m, from);
  }
}
