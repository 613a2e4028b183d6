/**
 The UPDATE builder of orm/updater.go and the DELETE builder of orm/delete.go, with the
 rewriting of a DELETE into an UPDATE for models with a soft-delete column.
 */
module SqlUpdate {
  import opened Common
  import opened SqlText
  import opened SqlGrammar
  import opened SqlBuilder
  import opened SqlWhere
  import opened SqlStatement

  datatype Field = Field(goName: string, colName: string)

  /** What the registry knows of a struct. */
  datatype Model = Model(tableName: string, fields: seq<Field>, deleted: Option<Field>, version: Option<Field>)

  datatype Assign = AssignTo(column: string, e: Expr) | AssignColumn(name: string)

  /** A struct instance: its fields by name. */
  type Instance = map<string, Val>

  datatype Request = Request(assigns: seq<Assign>, val: Option<Instance>, where: seq<Expr>)

  predicate IsVersion(m: Model, goName: string) {
    m.version.Some? && m.version.value.goName == goName
  }

  function Target(a: Assign): string {
    match a
    case AssignTo(column, _) => column
    case AssignColumn(name) => name
  }

  predicate ExplicitlySet(m: Model, assigns: seq<Assign>) {
    exists k :: 0 <= k < |assigns| && IsVersion(m, Target(assigns[k]))
  }

  // ---------------------------------------------------------------- what is written

  function ItemOf(x: Ctx, val: Option<Instance>, a: Assign): Option<Item> {
    if Target(a) !in x.columns then None
    else
      match a
      case AssignTo(column, e) => Some(Given(x.columns[column], e))
      case AssignColumn(name) =>
        if val.None? || name !in val.value then None else Some(Param(x.columns[name], val.value[name]))
  }

  function AssignItems(x: Ctx, val: Option<Instance>, assigns: seq<Assign>): Option<seq<Item>> {
    if assigns == [] then Some([])
    else
      var front := AssignItems(x, val, assigns[..|assigns| - 1]);
      var last := ItemOf(x, val, assigns[|assigns| - 1]);
      if front.None? || last.None? then None else Some(front.value + [last.value])
  }

  /** Every field but the version, in order. */
  function FieldItems(x: Ctx, m: Model, val: Instance, fields: seq<Field>): Option<seq<Item>> {
    if fields == [] then Some([])
    else
      var front := FieldItems(x, m, val, fields[..|fields| - 1]);
      var name := fields[|fields| - 1].goName;
      if front.None? || IsVersion(m, name) then front
      else if name !in x.columns || name !in val then None
      else Some(front.value + [Param(x.columns[name], val[name])])
  }

  predicate Bumps(m: Model, u: Request) {
    m.version.Some? && u.val.Some? && !ExplicitlySet(m, u.assigns)
  }

  function SetItems(x: Ctx, m: Model, u: Request): Option<seq<Item>> {
    var items :=
      if u.assigns != [] then AssignItems(x, u.val, u.assigns)
      else if u.val.None? then None
      else FieldItems(x, m, u.val.value, m.fields);
    if items.Some? && Bumps(m, u) then Some(items.value + [Bump(m.version.value.colName)]) else items
  }

  const TWO63 := 0x8000_0000_0000_0000

  /** The version is passed on as a signed 64-bit number; an unsigned one above its range wraps. */
  function Signed(i: int): int {
    if i >= TWO63 then i - 2 * TWO63 else i
  }

  function ReadVersion(val: Instance, f: Field): Option<Val> {
    if f.goName in val && val[f.goName].Int? then Some(Int(Signed(val[f.goName].i))) else None
  }

  function DeletedCol(m: Model): Option<string> {
    if m.deleted.Some? then Some(m.deleted.value.colName) else None
  }

  function FilterOf(m: Model, u: Request): Option<Filter> {
    if m.version.None? || u.val.None? then Some(Filter(DeletedCol(m), u.where, None))
    else
      var v := ReadVersion(u.val.value, m.version.value);
      if v.None? then None else Some(Filter(DeletedCol(m), u.where, Some((m.version.value.colName, v.value))))
  }

  /** A table by name, or as the user wrote it. */
  function EmitTable(x: Ctx, m: Model, from: string): Option<Out> {
    if from == "" then Name(x, m.tableName) else Some(Out([SqlText.Raw(from, 0)], []))
  }

  function EmitHead(x: Ctx, m: Model, from: string): Option<Out> {
    SqlBuilder.Join(SqlBuilder.Join(Plain("UPDATE "), EmitTable(x, m, from)), Keyword("SET"))
  }

  function EmitTail(x: Ctx, f: Filter): Option<Out> {
    SqlBuilder.Join(EmitFilter(x, f), Plain(";"))
  }

  function EmitSets(x: Ctx, items: Option<seq<Item>>): Option<Out> {
    if items.None? then None else EmitItems(x, items.value)
  }

  /** The whole statement; None stands for the error returns. */
  function EmitUpdate(x: Ctx, m: Model, u: Request): Option<Out> {
    var f := FilterOf(m, u);
    if f.None? then None
    else SqlBuilder.Join(EmitHead(x, m, ""), SqlBuilder.Join(EmitSets(x, SetItems(x, m, u)), EmitTail(x, f.value)))
  }

  function EmitSoftDelete(x: Ctx, m: Model, from: string, col: string, now: Val, tail: Option<Out>): Option<Out> {
    SqlBuilder.Join(EmitHead(x, m, from), SqlBuilder.Join(EmitItems(x, [Param(col, now)]), tail))
  }

  /** A DELETE is rewritten when the model has a soft-delete column. */
  function EmitDelete(x: Ctx, m: Model, from: string, where: seq<Expr>, now: Val): Option<Out> {
    var tail := EmitTail(x, Filter(DeletedCol(m), where, None));
    if m.deleted.Some? then EmitSoftDelete(x, m, from, m.deleted.value.colName, now, tail)
    else SqlBuilder.Join(SqlBuilder.Join(Plain("DELETE FROM "), EmitTable(x, m, from)), tail)
  }

  // ---------------------------------------------------------------- the builders as the source runs them

  lemma ItemsSnoc(x: Ctx, items: seq<Item>, last: Item)
    ensures EmitItems(x, items + [last])
         == if items == [] then EmitItem(x, last)
            else SqlBuilder.Join(EmitItems(x, items), SqlBuilder.Join(Plain(","), EmitItem(x, last)))
  {
    hide EmitItem;
    assert (items + [last])[..|items|] == items;
  }

  /** Once a prefix of the assignments fails, so does the whole list. */
  lemma {:induction false} AssignsFail(x: Ctx, val: Option<Instance>, assigns: seq<Assign>, n: nat)
    requires n <= |assigns| && EmitSets(x, AssignItems(x, val, assigns[..n])).None?
    ensures EmitSets(x, AssignItems(x, val, assigns)).None?
  {
    hide EmitItem, ItemOf;
    if n == |assigns| {
      assert assigns[..n] == assigns;
    } else {
      var front := assigns[..|assigns| - 1];
      assert front[..n] == assigns[..n];
      AssignsFail(x, val, front, n);
      var fronts, last := AssignItems(x, val, front), ItemOf(x, val, assigns[|assigns| - 1]);
      if fronts.Some? && last.Some? { ItemsSnoc(x, fronts.value, last.value); }
    }
  }

  lemma {:induction false} FieldsFail(x: Ctx, m: Model, val: Instance, fields: seq<Field>, n: nat)
    requires n <= |fields| && FieldItems(x, m, val, fields[..n]).None?
    ensures FieldItems(x, m, val, fields).None?
  {
    if n == |fields| {
      assert fields[..n] == fields;
    } else {
      assert fields[..|fields| - 1][..n] == fields[..n];
      FieldsFail(x, m, val, fields[..|fields| - 1], n);
    }
  }

  lemma Assoc(a: Option<Out>, b: Option<Out>, c: Option<Out>)
    ensures SqlBuilder.Join(SqlBuilder.Join(a, b), c) == SqlBuilder.Join(a, SqlBuilder.Join(b, c))
  {
    if a.Some? && b.Some? && c.Some? {
      assert a.value.text + b.value.text + c.value.text == a.value.text + (b.value.text + c.value.text);
      assert a.value.args + b.value.args + c.value.args == a.value.args + (b.value.args + c.value.args);
    }
  }

  /** Three outputs appended one after the other. */
  lemma ThreeParts(t: Text, g: seq<Val>, a: Option<Out>, b: Option<Out>, c: Option<Out>)
    ensures var all := SqlBuilder.Join(a, SqlBuilder.Join(b, c));
            && (all.Some? <==> a.Some? && b.Some? && c.Some?)
            && (all.Some? ==> && t + a.value.text + b.value.text + c.value.text == t + all.value.text
                              && g + a.value.args + b.value.args + c.value.args == g + all.value.args)
  {
    if a.Some? && b.Some? && c.Some? {
      assert t + a.value.text + b.value.text + c.value.text == t + (a.value.text + (b.value.text + c.value.text));
      assert g + a.value.args + b.value.args + c.value.args == g + (a.value.args + (b.value.args + c.value.args));
    }
  }

  /** `t`=? with its argument. */
  method BuildParam(b: Builder, col: string, v: Val)
    modifies b
    ensures b.Appended(EmitItem(b.x, Param(col, v)))
  {
    hide Quoted;
    b.Quote(col);
    b.Write("=?");
    b.args := b.args + [v];
  }

  method BuildBump(b: Builder, col: string)
    modifies b`text
    ensures b.Appended(EmitItem(b.x, Bump(col)))
  {
    hide Quoted, Txt;
    b.Quote(col);
    b.Write("=");
    b.Quote(col);
    b.Write("+1");
    var n := Quoted(b.x.q, col);
    assert old(b.text) + n + Txt("=") + n + Txt("+1") == old(b.text) + (n + (Txt("=") + (n + Txt("+1"))));
  }

  method BuildTable(b: Builder, m: Model, from: string)
    modifies b
    ensures b.Appended(EmitTable(b.x, m, from))
  {
    hide Quoted;
    if from == "" {
      b.Quote(m.tableName);
    } else {
      b.text := b.text + [SqlText.Raw(from, 0)];
    }
  }

  method BuildHead(b: Builder, m: Model, from: string)
    modifies b
    ensures b.Appended(EmitHead(b.x, m, from))
  {
    hide EmitTable, Txt;
    b.Write("UPDATE ");
    BuildTable(b, m, from);
    assert " SET " == " " + "SET" + " ";
    b.Write(" SET ");
  }

  /** The clause with the soft-delete condition, without its version. */
  method BuildWhere(b: Builder, deleted: Option<string>, where: seq<Expr>) returns (ok: bool)
    modifies b
    ensures ok <==> EmitFilter(b.x, Filter(deleted, where, None)).Some?
    ensures ok ==> b.Appended(EmitFilter(b.x, Filter(deleted, where, None)))
  {
    hide Quoted, Emit, Txt;
    var f := Filter(deleted, where, None);
    if deleted.None? && where == [] {
      NothingWritten(b.text);
      return true;
    }
    assert " WHERE " == " " + "WHERE" + " ";
    b.Write(" WHERE ");
    ghost var start := b.text;
    if deleted.Some? {
      b.Quote(deleted.value);
      b.Write(" IS NULL");
    }
    if where != [] {
      if deleted.Some? {
        assert " AND " == " " + "AND" + " ";
        b.Write(" AND ");
      }
      ok := b.BuildPredicates(where);
      if !ok { return; }
    }
    ok := true;
    assert b.text == start + EmitUser(b.x, f).value.text;
    assert b.args == old(b.args) + EmitUser(b.x, f).value.args;
  }

  method BuildTail(b: Builder, deleted: Option<string>, where: seq<Expr>) returns (ok: bool)
    modifies b
    ensures ok <==> EmitTail(b.x, Filter(deleted, where, None)).Some?
    ensures ok ==> b.Appended(EmitTail(b.x, Filter(deleted, where, None)))
  {
    hide EmitFilter, Txt;
    ok := BuildWhere(b, deleted, where);
    if ok { b.Write(";"); }
  }

  lemma NothingWritten(t: Text)
    ensures t + Txt("") == t
  {
  }

  class Updater {
    const m: Model
    const b: Builder
    var assigns: seq<Assign>
    var val: Option<Instance>
    var where: seq<Expr>

    constructor (m: Model, b: Builder)
      ensures this.m == m && this.b == b && this.Req() == Request([], None, [])
    {
      this.m, this.b, assigns, val, where := m, b, [], None, [];
    }

    /** The request the setters have put together. */
    function Req(): Request
      reads this
    {
      Request(assigns, val, where)
    }

    method VersionColumnExplicitlySet() returns (r: bool)
      ensures r <==> ExplicitlySet(m, assigns)
    {
      if m.version.None? { return false; }
      var k := 0;
      while k < |assigns|
        invariant 0 <= k <= |assigns|
        invariant forall j :: 0 <= j < k ==> !IsVersion(m, Target(assigns[j]))
      {
        if Target(assigns[k]) == m.version.value.goName { return true; }
        k := k + 1;
      }
      return false;
    }

    method BuildAssign(a: Assign) returns (ok: bool)
      modifies b
      ensures ok <==> ItemOf(b.x, val, a).Some? && EmitItem(b.x, ItemOf(b.x, val, a).value).Some?
      ensures ok ==> b.Appended(EmitItem(b.x, ItemOf(b.x, val, a).value))
    {
      hide Quoted, Emit, Txt;
      match a {
        case AssignTo(column, e) =>
          ok := b.BuildColumn(column, None, "");
          if !ok { return; }
          b.Write("=");
          ok := b.BuildExpression(e);
          if ok {
            var n, out := Quoted(b.x.q, b.x.columns[column]), Emit(b.x, e).value;
            assert old(b.text) + n + Txt("=") + out.text == old(b.text) + (n + (Txt("=") + out.text));
            assert old(b.args) + [] + [] + out.args == old(b.args) + ([] + ([] + out.args));
          }
        case AssignColumn(name) =>
          if val.None? || name !in val.value { return false; }
          ok := b.BuildColumn(name, None, "");
          if !ok { return; }
          b.Write("=?");
          b.args := b.args + [val.value[name]];
      }
    }

    /** The SET list of the given assignments. */
    method BuildAssigns() returns (ok: bool)
      modifies b
      ensures ok <==> EmitSets(b.x, AssignItems(b.x, val, assigns)).Some?
      ensures ok ==> b.Appended(EmitSets(b.x, AssignItems(b.x, val, assigns)))
    {
      hide EmitItem, ItemOf, EmitItems;
      var k := 0;
      assert assigns[..0] == [];
      StartOfList(b.x, b.text);
      while k < |assigns|
        invariant 0 <= k <= |assigns|
        invariant b.Appended(EmitSets(b.x, AssignItems(b.x, val, assigns[..k])))
      {
        ghost var front := AssignItems(b.x, val, assigns[..k]);
        assert assigns[..k + 1][..k] == assigns[..k];
        SizeOfItems(b.x, val, assigns[..k]);
        if k > 0 { b.Write(","); }
        ok := BuildAssign(assigns[k]);
        ghost var last := ItemOf(b.x, val, assigns[k]);
        if last.Some? { ItemsSnoc(b.x, front.value, last.value); }
        if !ok {
          AssignsFail(b.x, val, assigns, k + 1);
          return;
        }
        if k == 0 { StartOfList(b.x, old(b.text)); }
        k := k + 1;
      }
      assert assigns[..k] == assigns;
      ok := true;
    }

    /** The fields of a whole instance: the version is skipped, wherever it stands. */
    method BuildFieldList() returns (ok: bool, first: bool)
      requires val.Some?
      modifies b
      ensures var items := FieldItems(b.x, m, val.value, m.fields);
              && (ok <==> items.Some?)
              && (ok ==> (first <==> items.value == []) && b.Appended(EmitItems(b.x, items.value)))
    {
      hide EmitItem, EmitItems;
      first := true;
      var k := 0;
      assert m.fields[..0] == [];
      StartOfList(b.x, b.text);
      while k < |m.fields|
        invariant 0 <= k <= |m.fields|
        invariant FieldItems(b.x, m, val.value, m.fields[..k]).Some?
        invariant first <==> FieldItems(b.x, m, val.value, m.fields[..k]).value == []
        invariant b.Appended(EmitItems(b.x, FieldItems(b.x, m, val.value, m.fields[..k]).value))
      {
        var name := m.fields[k].goName;
        ghost var front := FieldItems(b.x, m, val.value, m.fields[..k]).value;
        assert m.fields[..k + 1][..k] == m.fields[..k];
        k := k + 1;
        if m.version.Some? && name == m.version.value.goName { continue; }
        if !first { b.Write(","); }
        if name !in b.x.columns || name !in val.value {
          FieldsFail(b.x, m, val.value, m.fields, k);
          return false, first;
        }
        if first { StartOfList(b.x, old(b.text)); }
        first := false;
        BuildParam(b, b.x.columns[name], val.value[name]);
        ItemsSnoc(b.x, front, Param(b.x.columns[name], val.value[name]));
      }
      assert m.fields[..k] == m.fields;
      ok := true;
    }

    /** The SET list of a whole instance: its fields, then the version's increment. */
    method BuildFields() returns (ok: bool)
      requires val.Some?
      modifies b
      ensures ok <==> EmitSets(b.x, SetItems(b.x, m, Request([], val, where))).Some?
      ensures ok ==> b.Appended(EmitSets(b.x, SetItems(b.x, m, Request([], val, where))))
    {
      hide EmitItem, EmitItems, FieldItems, Txt;
      var first;
      ok, first := BuildFieldList();
      if !ok { return; }
      ghost var front := FieldItems(b.x, m, val.value, m.fields).value;
      if m.version.Some? {
        if !first { b.Write(","); } else { StartOfList(b.x, old(b.text)); }
        BuildBump(b, m.version.value.colName);
        ItemsSnoc(b.x, front, Bump(m.version.value.colName));
      }
    }

    method BuildSets() returns (ok: bool)
      modifies b
      ensures ok <==> EmitSets(b.x, SetItems(b.x, m, Req())).Some?
      ensures ok ==> b.Appended(EmitSets(b.x, SetItems(b.x, m, Req())))
    {
      hide EmitItem, EmitItems, AssignItems, FieldItems;
      if |assigns| > 0 {
        ghost var items := AssignItems(b.x, val, assigns);
        ok := BuildAssigns();
        var explicit := VersionColumnExplicitlySet();
        if items.Some? {
          SizeOfItems(b.x, val, assigns);
          if Bumps(m, Req()) { ItemsSnoc(b.x, items.value, Bump(m.version.value.colName)); }
        }
        if !ok { return; }
        if m.version.Some? && val.Some? && !explicit {
          b.Write(",");
          BuildBump(b, m.version.value.colName);
        }
      } else {
        if val.None? { return false; }
        ok := BuildFields();
      }
    }

    /** The version condition, with the keyword that connects it. */
    method BuildVersion() returns (ok: bool)
      requires m.version.Some? && val.Some?
      modifies b
      ensures ok <==> ReadVersion(val.value, m.version.value).Some?
      ensures ok ==> b.Appended(EmitCheck(b.x, m.deleted.Some? || where != [], m.version.value.colName,
                                          ReadVersion(val.value, m.version.value).value))
    {
      hide EmitItem, Txt;
      if m.deleted.Some? || |where| > 0 {
        assert " AND " == " " + "AND" + " ";
        b.Write(" AND ");
      } else {
        assert " WHERE " == " " + "WHERE" + " ";
        b.Write(" WHERE ");
      }
      var v := ReadVersion(val.value, m.version.value);
      if v.None? { return false; }
      BuildParam(b, m.version.value.colName, v.value);
      ok := true;
    }

    method BuildFilter() returns (ok: bool)
      modifies b
      ensures ok <==> FilterOf(m, Req()).Some? && EmitFilter(b.x, FilterOf(m, Req()).value).Some?
      ensures ok ==> b.Appended(EmitFilter(b.x, FilterOf(m, Req()).value))
    {
      hide EmitFilter, EmitCheck;
      ghost var plain := Filter(DeletedCol(m), where, None);
      ok := BuildWhere(b, DeletedCol(m), where);
      if m.version.Some? && val.Some? {
        ghost var f := FilterOf(m, Req());
        if f.Some? {
          AddVersion(b.x, plain, f.value.version.value.0, f.value.version.value.1);
          assert f.value == plain.(version := f.value.version);
        }
        if !ok { return; }
        ok := BuildVersion();
      }
    }

    /** The statement, appended to whatever the builder already holds. */
    method Build() returns (ok: bool)
      modifies b
      ensures ok <==> EmitUpdate(b.x, m, Req()).Some?
      ensures ok ==> b.Appended(EmitUpdate(b.x, m, Req()))
    {
      hide EmitHead, SetItems, EmitSets, FilterOf, EmitTail, SqlBuilder.Join;
      ghost var head, sets := EmitHead(b.x, m, ""), EmitSets(b.x, SetItems(b.x, m, Req()));
      if FilterOf(m, Req()).Some? {
        ThreeParts(b.text, b.args, head, sets, EmitTail(b.x, FilterOf(m, Req()).value));
      }
      HeadIsWritten(b.x, m, "");
      BuildHead(b, m, "");
      ok := BuildSets();
      if !ok { return; }
      ok := BuildEnd();
    }

    method BuildEnd() returns (ok: bool)
      modifies b
      ensures ok <==> FilterOf(m, Req()).Some? && EmitTail(b.x, FilterOf(m, Req()).value).Some?
      ensures ok ==> b.Appended(EmitTail(b.x, FilterOf(m, Req()).value))
    {
      hide EmitFilter, FilterOf, Txt;
      ok := BuildFilter();
      if ok { b.Write(";"); }
    }
  }

  lemma OneParam(x: Ctx, col: string, v: Val)
    ensures EmitItem(x, Param(col, v)).Some? && EmitItems(x, [Param(col, v)]) == EmitItem(x, Param(col, v))
  {
  }

  lemma HeadIsWritten(x: Ctx, m: Model, from: string)
    ensures EmitHead(x, m, from).Some?
  {
  }

  lemma StartOfList(x: Ctx, t: Text)
    ensures EmitItems(x, []) == Plain("") && t + Txt("") == t
  {
  }

  lemma {:induction false} SizeOfItems(x: Ctx, val: Option<Instance>, assigns: seq<Assign>)
    ensures AssignItems(x, val, assigns).Some? ==> |AssignItems(x, val, assigns).value| == |assigns|
  {
    if assigns != [] { SizeOfItems(x, val, assigns[..|assigns| - 1]); }
  }

  /** The version condition after its keyword. */
  function EmitCheck(x: Ctx, hasWhere: bool, col: string, v: Val): (out: Option<Out>)
    ensures out.Some?
  {
    SqlBuilder.Join(if hasWhere then Keyword("AND") else Keyword("WHERE"), EmitItem(x, Param(col, v)))
  }

  /** Adding the version to a clause written without it. */
  lemma AddVersion(x: Ctx, f: Filter, col: string, v: Val)
    requires f.version.None?
    ensures EmitFilter(x, f.(version := Some((col, v))))
         == SqlBuilder.Join(EmitFilter(x, f), EmitCheck(x, !IsEmpty(f), col, v))
  {
    hide Emit, Quoted, Txt;
    var ver := EmitVersion(x, col, v);
    var g := f.(version := Some((col, v)));
    if IsEmpty(f) {
      var tail := SqlBuilder.Join(Keyword("WHERE"), ver);
      assert [] + tail.value.args == tail.value.args;
      StartsEmpty(tail.value.text);
    } else {
      assert EmitUser(x, g) == EmitUser(x, f);
      Assoc(Keyword("WHERE"), EmitUser(x, f), SqlBuilder.Join(Keyword("AND"), ver));
    }
  }

  lemma StartsEmpty(t: Text)
    ensures Txt("") + t == t
  {
  }

  class Deleter {
    const m: Model
    const b: Builder
    var tableName: string
    var where: seq<Expr>

    constructor (m: Model, b: Builder)
      ensures this.m == m && this.b == b && tableName == "" && where == []
    {
      this.m, this.b, tableName, where := m, b, "", [];
    }

    method Build(now: Val) returns (ok: bool)
      modifies b
      ensures ok <==> EmitDelete(b.x, m, tableName, where, now).Some?
      ensures ok ==> b.Appended(EmitDelete(b.x, m, tableName, where, now))
    {
      hide EmitTable, EmitTail, EmitSoftDelete, Txt;
      if m.deleted.Some? {
        ok := BuildSoftDelete(now);
        return;
      }
      TableIsWritten(b.x, m, tableName);
      b.Write("DELETE FROM ");
      BuildTable(b, m, tableName);
      ok := BuildTail(b, None, where);
    }

    method BuildSoftDelete(now: Val) returns (ok: bool)
      requires m.deleted.Some?
      modifies b
      ensures var out := EmitSoftDelete(b.x, m, tableName, m.deleted.value.colName, now,
                                        EmitTail(b.x, Filter(DeletedCol(m), where, None)));
              && (ok <==> out.Some?) && (ok ==> b.Appended(out))
    {
      hide EmitHead, EmitItem, EmitItems, EmitTail, Txt, Quoted, SqlBuilder.Join;
      ghost var head, stamp := EmitHead(b.x, m, tableName), EmitItem(b.x, Param(m.deleted.value.colName, now));
      ThreeParts(b.text, b.args, head, stamp, EmitTail(b.x, Filter(DeletedCol(m), where, None)));
      HeadIsWritten(b.x, m, tableName);
      OneParam(b.x, m.deleted.value.colName, now);
      BuildHead(b, m, tableName);
      BuildParam(b, m.deleted.value.colName, now);
      ok := BuildTail(b, DeletedCol(m), where);
    }
  }

  lemma TableIsWritten(x: Ctx, m: Model, from: string)
    ensures EmitTable(x, m, from).Some?
  {
  }
}
