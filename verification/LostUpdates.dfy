/**
 What optimistic locking does not protect: an update without an instance between a read and
 the full-value update that follows it, an update that assigns the version explicitly, versions
 beyond a signed number, and conditions that are a lone OR. Each failing case comes with a run.
 */
module LostUpdates {
  import opened Common
  import opened SqlText
  import opened SqlGrammar
  import opened SqlBuilder
  import opened SqlWhere
  import opened SqlStatement
  import opened SqlUpdate
  import opened SqlReadBack
  import opened OptimisticLock

  // ---------------------------------------------------------------- who may have changed the row

  /** A well-formed action that leaves the version to the builder. */
  predicate Ordinary(s: Setting, a: Action) {
    WellFormed(s, a) && !Assigns(s, a)
  }

  /** An update without an instance: it neither checks nor raises the version. */
  predicate IsBatch(a: Action) {
    a.DoUpdate? && a.u.val.None?
  }

  /** No update without an instance hits the row during a run. */
  predicate NoBatchHit(s: Setting, rows: Rows, actions: seq<Action>, r: nat) {
    actions == [] ||
    (!(IsBatch(actions[0]) && Touches(s, rows, actions[0], r))
     && NoBatchHit(s, Step(s, rows, actions[0]), actions[1..], r))
  }

  predicate IsDeleted(s: Setting, row: Row) {
    s.m.deleted.Some? && !ValueOf(row, s.m.deleted.value.colName).Null?
  }

  lemma DeleteMarks(s: Setting, rows: Rows, a: Action, r: nat)
    requires SettingOk(s) && WellFormed(s, a) && a.DoDelete?
    ensures Touches(s, rows, a, r) && r in Step(s, rows, a) ==> IsDeleted(s, Step(s, rows, a)[r])
  {
    hide StatementOf, FilterFor, Condition;
    StatementIs(s, a);
    if r in rows && s.m.deleted.Some? { HitRow(s, rows, a, r); }
  }

  /** A row hit neither by an Update(val) nor by an update without an instance is as it was, or deleted. */
  lemma {:induction false} OthersOnlyDelete(s: Setting, rows: Rows, actions: seq<Action>, r: nat)
    requires SettingOk(s) && AllWellFormed(s, actions) && r in rows && r in Run(s, rows, actions)
    requires Wins(s, rows, actions, r) == 0 && NoBatchHit(s, rows, actions, r)
    ensures Run(s, rows, actions)[r] == rows[r] || IsDeleted(s, Run(s, rows, actions)[r])
    decreases |actions|
  {
    hide Step, Touches, WellFormed, ModelOk, IsDeleted;
    if actions != [] {
      var a, next := actions[0], Step(s, rows, actions[0]);
      RowsOnlyGo(s, next, actions[1..]);
      assert r in Run(s, next, actions[1..]).Keys;
      if Touches(s, rows, a, r) { DeleteMarks(s, rows, a, r); } else { NotHitNotChanged(s, rows, a, r); }
      OthersOnlyDelete(s, next, actions[1..], r);
    }
  }

  lemma NotHitNotChanged(s: Setting, rows: Rows, a: Action, r: nat)
    requires r in rows && !Touches(s, rows, a, r)
    ensures r in Step(s, rows, a) && Step(s, rows, a)[r] == rows[r]
  {
    hide StatementOf, Selects, Apply;
  }

  /**
   When an update hits a row that had the version it holds before other statements ran, then
   none of those was an Update(val) that hit the row, unless the version was assigned explicitly,
   and the row is unchanged since, unless besides an update without an instance hit it.
   */
  lemma UnchangedSinceRead(s: Setting, rows: Rows, between: seq<Action>, a: Action, r: nat)
    requires SettingOk(s) && AllWellFormed(s, between) && WellFormed(s, a) && Versioned(s, a) && !IsLoneOr(a)
    requires r in rows && VersionOf(s, rows[r]) == Held(s, a)
    ensures Touches(s, Run(s, rows, between), a, r) && Unassigned(s, rows, between, r) ==>
              && Wins(s, rows, between, r) == 0
              && (NoBatchHit(s, rows, between, r) ==> Run(s, rows, between)[r] == rows[r])
  {
    hide Step, StatementOf, WellFormed, ModelOk, Wins, Run, FilterFor, NoBatchHit, Unassigned;
    if Touches(s, Run(s, rows, between), a, r) && Unassigned(s, rows, between, r) {
      NoLostUpdate(s, rows, between, a, r);
      HitHasHeldVersion(s, Run(s, rows, between), a, r);
      FilterForOk(s, a);
      if NoBatchHit(s, rows, between, r) { OthersOnlyDelete(s, rows, between, r); }
    }
  }

  // ---------------------------------------------------------------- what a full-value update leaves of it

  /** With distinct targets each clause decides its own column. */
  lemma {:induction false} Decides(db: Db, row: Row, sets: seq<SetClause>, k: nat)
    requires k < |sets| && forall i, j :: 0 <= i < j < |sets| ==> sets[i].target != sets[j].target
    ensures ValueOf(Apply(db, row, sets), sets[k].target) == NewValue(db, row, sets[k].value)
  {
    if k < |sets| - 1 {
      var front := sets[..|sets| - 1];
      assert front[k] == sets[k];
      Decides(db, row, front, k);
    }
  }

  function FullUpdate(val: Instance, where: seq<Expr>): Action {
    DoUpdate(Request([], Some(val), where))
  }

  lemma FullClauses(s: Setting, val: Instance, where: seq<Expr>)
    requires SettingOk(s) && InstanceOk(s.m, val) && WellFormed(s, FullUpdate(val, where))
    ensures HasFields(val, Others(s.m, s.m.fields)) && ClausesOf(s, FullUpdate(val, where)) == FullSets(s.m, val)
  {
    hide SetItems, Columns, Others;
    FullItems(s.q, s.m, val, where);
  }

  /** A full-value update makes every column of a row it hits that of the instance, and raises the version. */
  lemma FullUpdateOverwrites(s: Setting, rows: Rows, val: Instance, where: seq<Expr>, f: Field, r: nat)
    requires SettingOk(s) && InstanceOk(s.m, val) && WellFormed(s, FullUpdate(val, where))
    requires f in s.m.fields && r in rows
    ensures r in Step(s, rows, FullUpdate(val, where)) && f.goName in val
    ensures Touches(s, rows, FullUpdate(val, where), r) ==>
              ValueOf(Step(s, rows, FullUpdate(val, where))[r], f.colName)
              == if IsVersion(s.m, f.goName) then NewValue(s.db, rows[r], Incremented(f.colName)) else val[f.goName]
  {
    hide Step, StatementOf, WellFormed, ClausesOf, Apply, Others, FullSets, ModelOk, Columns;
    HitRow(s, rows, FullUpdate(val, where), r);
    FullClauses(s, val, where);
    var k := ClauseOf(s.m, val, f);
    DistinctTargets(s.m, val);
    Decides(s.db, rows[r], FullSets(s.m, val), k);
  }

  lemma DistinctTargets(m: Model, val: Instance)
    requires ModelOk(m) && HasFields(val, m.fields) && HasFields(val, Others(m, m.fields))
    ensures var sets := FullSets(m, val); forall i, j :: 0 <= i < j < |sets| ==> sets[i].target != sets[j].target
  {
    EachColumnOnce(m, val);
    hide Others, FullSets, ModelOk;
    var sets := FullSets(m, val);
    var ts := Targets(sets);
    assert forall i :: 0 <= i < |sets| ==> ts[i] == sets[i].target;
  }

  /** Where a field stands in the SET list. */
  lemma ClauseOf(m: Model, val: Instance, f: Field) returns (k: nat)
    requires ModelOk(m) && HasFields(val, m.fields) && HasFields(val, Others(m, m.fields)) && f in m.fields
    ensures f.goName in val && k < |FullSets(m, val)|
    ensures FullSets(m, val)[k] == SetClause(f.colName, if IsVersion(m, f.goName) then Incremented(f.colName)
                                                        else Assigned(Lit(val[f.goName])))
  {
    OthersMeaning(m, m.fields);
    var os := Others(m, m.fields);
    hide Others;
    if IsVersion(m, f.goName) {
      SameField(m, f, m.version.value);
      k := |os|;
    } else {
      k :| 0 <= k < |os| && os[k] == f;
    }
  }

  /**
   An instance is read and an update without an instance runs: the full-value update of the
   instance then still hits the row if and only if the row is live, matches, and was not assigned
   another version; and then nothing of the other update is left in any column of the model.
   */
  lemma BatchUpdateIsLostExactly(s: Setting, rows: Rows, b: Action, val: Instance, where: seq<Expr>, f: Field, r: nat)
    requires SettingOk(s) && WellFormed(s, b) && IsBatch(b)
    requires InstanceOk(s.m, val) && WellFormed(s, FullUpdate(val, where)) && !IsLoneOr(FullUpdate(val, where))
    requires f in s.m.fields && !IsVersion(s.m, f.goName)
    requires r in rows && VersionOf(s, rows[r]) == Held(s, FullUpdate(val, where))
    ensures f.goName in val && FilterOk(X(s), FilterFor(s, FullUpdate(val, where)))
    ensures var a, between := FullUpdate(val, where), Step(s, rows, b);
            && r in between
            && (Touches(s, between, a, r) <==>
                && Live(FilterFor(s, a), between[r]) && UserMatches(X(s), s.db, FilterFor(s, a), between[r])
                && (Assigns(s, b) && Touches(s, rows, b, r) ==>
                      AssignedValue(s, b.u.val, LastAssign(s.m, b.u.assigns).value, rows[r]) == Held(s, a)))
            && (Touches(s, between, a, r) ==>
                  r in Step(s, between, a) && ValueOf(Step(s, between, a)[r], f.colName) == val[f.goName])
  {
    hide Step, StatementOf, WellFormed, ModelOk, FilterFor, UserMatches, Live, FilterOk, AssignedValue, Touches,
      IsLoneOr, ClausesOf, InstanceOk;
    var a, between := FullUpdate(val, where), Step(s, rows, b);
    FilterForOk(s, a);
    HitRow(s, rows, b, r);
    StepVersion(s, rows, b, r);
    FullUpdateOverwrites(s, between, val, where, f, r);
    if Touches(s, between, a, r) { HitHasHeldVersion(s, between, a, r); }
    if Live(FilterFor(s, a), between[r]) && UserMatches(X(s), s.db, FilterFor(s, a), between[r])
       && VersionOf(s, between[r]) == Held(s, a) { MatchingRowIsHit(s, between, a, r); }
  }

  // ---------------------------------------------------------------- an update that assigns the version

  /** An Update(val) that sets one field and assigns the version the value the instance holds. */
  function Pin(m: Model, f: Field, x: Val, val: Instance, where: seq<Expr>): Action
    requires m.version.Some?
  {
    DoUpdate(Request([AssignTo(f.goName, Value(x)), AssignColumn(m.version.value.goName)], Some(val), where))
  }

  lemma PinItems(s: Setting, f: Field, x: Val, val: Instance, where: seq<Expr>)
    requires SettingOk(s) && f in s.m.fields && s.m.version.value.goName in val
    ensures var v := s.m.version.value;
            SetItems(X(s), s.m, Pin(s.m, f, x, val, where).u)
            == Some([Given(f.colName, Value(x)), Param(v.colName, val[v.goName])])
  {
    var u, v := Pin(s.m, f, x, val, where).u, s.m.version.value;
    ColumnOf(s.m.fields, f);
    VersionColumn(s);
    hide Columns, ModelOk;
    var none: seq<Item> := [];
    assert u.assigns[..1] == [u.assigns[0]] && u.assigns[..1][..0] == [];
    assert AssignItems(X(s), u.val, []) == Some(none);
    assert none + [Given(f.colName, Value(x))] == [Given(f.colName, Value(x))];
    assert AssignItems(X(s), u.val, u.assigns[..1]) == Some([Given(f.colName, Value(x))]);
    assert ItemOf(X(s), u.val, u.assigns[1]) == Some(Param(v.colName, val[v.goName]));
    var both := [Given(f.colName, Value(x)), Param(v.colName, val[v.goName])];
    assert [Given(f.colName, Value(x))] + [Param(v.colName, val[v.goName])] == both;
    assert AssignItems(X(s), u.val, u.assigns) == Some(both);
    assert IsVersion(s.m, Target(u.assigns[1]));
  }

  lemma PinOk(s: Setting, f: Field, x: Val, val: Instance, where: seq<Expr>)
    requires SettingOk(s) && InstanceOk(s.m, val) && f in s.m.fields
    requires forall i :: 0 <= i < |where| ==> CondOk(X(s), where[i])
    ensures var a, v := Pin(s.m, f, x, val, where), s.m.version.value;
            && WellFormed(s, a) && Versioned(s, a) && Assigns(s, a) && FilterFor(s, a) == FullFilter(s.m, val, where)
            && ClausesOf(s, a)
            == [SetClause(f.colName, Assigned(Lit(x))), SetClause(v.colName, Assigned(Lit(val[v.goName])))]
  {
    var a, v := Pin(s.m, f, x, val, where), s.m.version.value;
    PinItems(s, f, x, val, where);
    hide Columns, ModelOk, SetItems, CondOk;
    assert FilterOf(s.m, a.u) == Some(FullFilter(s.m, val, where));
    assert IsVersion(s.m, Target(a.u.assigns[1]));
  }

  lemma PinLeaves(db: Db, row: Row, c: string, x: Val, d: string, y: Val)
    requires c != d && y.Int? && ValueOf(row, d) == y
    ensures Apply(db, row, [SetClause(c, Assigned(Lit(x))), SetClause(d, Assigned(Lit(y)))]) == row[c := x]
  {
    var sets := [SetClause(c, Assigned(Lit(x))), SetClause(d, Assigned(Lit(y)))];
    assert sets[..1] == [SetClause(c, Assigned(Lit(x)))];
    ApplyOne(db, row, c, x);
    assert row[c := x][d := y] == row[c := x];
  }

  /** It sets the field and leaves the version as it was. */
  lemma PinKeepsVersion(s: Setting, rows: Rows, f: Field, x: Val, val: Instance, where: seq<Expr>, r: nat)
    requires SettingOk(s) && InstanceOk(s.m, val) && f in s.m.fields && !IsVersion(s.m, f.goName)
    requires forall i :: 0 <= i < |where| ==> CondOk(X(s), where[i])
    requires val[s.m.version.value.goName].i < TWO63 && !IsLoneOr(FullUpdate(val, where))
    ensures var a := Pin(s.m, f, x, val, where);
            Touches(s, rows, a, r) ==> r in Step(s, rows, a) && Step(s, rows, a)[r] == rows[r][f.colName := x]
  {
    var a, v := Pin(s.m, f, x, val, where), s.m.version.value;
    PinOk(s, f, x, val, where);
    assert Held(s, a) == val[v.goName] && (IsLoneOr(a) <==> IsLoneOr(FullUpdate(val, where)));
    hide Columns, SetItems, WellFormed, StatementOf, FilterFor, ClausesOf, CondOk, Step, Touches, Apply, ModelOk, Pin,
      InstanceOk, IsLoneOr, FullUpdate, FilterOk, UserMatches, Live;
    if Touches(s, rows, a, r) {
      HitHasHeldVersion(s, rows, a, r);
      HitStays(s, rows, a, r);
      HitRow(s, rows, a, r);
      DistinctColumns(s.m, f, v);
      PinLeaves(s.db, rows[r], f.colName, x, v.colName, val[v.goName]);
    }
  }

  /**
   A lost update of an Update(val): one instance, held by two callers. The first sets a field and
   assigns the version its own value; the full-value update of the second still succeeds and
   undoes it, in every table and for every condition that the row still matches.
   */
  lemma PinnedUpdateIsLost(s: Setting, rows: Rows, f: Field, x: Val, val: Instance, where: seq<Expr>, r: nat)
    requires SettingOk(s) && InstanceOk(s.m, val) && f in s.m.fields && !IsVersion(s.m, f.goName)
    requires forall i :: 0 <= i < |where| ==> CondOk(X(s), where[i])
    requires val[s.m.version.value.goName].i < TWO63 && !IsLoneOr(FullUpdate(val, where))
    ensures var first, second := Pin(s.m, f, x, val, where), FullUpdate(val, where);
            && WellFormed(s, first) && Versioned(s, first) && Assigns(s, first)
            && Ordinary(s, second) && Versioned(s, second) && Held(s, first) == Held(s, second)
    ensures FilterOk(X(s), FilterFor(s, FullUpdate(val, where)))
    ensures var first, second := Pin(s.m, f, x, val, where), FullUpdate(val, where);
            var next := Step(s, rows, first);
            Touches(s, rows, first, r) ==>
              && r in next && next[r] == rows[r][f.colName := x] && Wins(s, rows, [first], r) == 1
              && (Live(FilterFor(s, second), next[r]) && UserMatches(X(s), s.db, FilterFor(s, second), next[r]) ==>
                    && Touches(s, next, second, r) && r in Step(s, next, second)
                    && f.goName in val && ValueOf(Step(s, next, second)[r], f.colName) == val[f.goName])
  {
    var first, second := Pin(s.m, f, x, val, where), FullUpdate(val, where);
    PinOk(s, f, x, val, where);
    FullIsOrdinary(s, val, where);
    var v := s.m.version.value;
    assert Held(s, first) == Held(s, second) == val[v.goName];
    hide Columns, SetItems, WellFormed, StatementOf, FilterFor, ClausesOf, CondOk, Step, Touches, ModelOk, UserMatches,
      Live, FilterOk, InstanceOk;
    if Touches(s, rows, first, r) {
      var next := Step(s, rows, first);
      PinKeepsVersion(s, rows, f, x, val, where, r);
      HitHasHeldVersion(s, rows, first, r);
      DistinctColumns(s.m, f, v);
      assert [first][1..] == [];
      if Live(FilterFor(s, second), next[r]) && UserMatches(X(s), s.db, FilterFor(s, second), next[r]) {
        MatchingRowIsHit(s, next, second, r);
        FullUpdateOverwrites(s, next, val, where, f, r);
      }
    }
  }

  // ---------------------------------------------------------------- runs

  const ID := Field("Id", "id")
  const NAME := Field("Name", "name")
  const VER := Field("Version", "version")

  /** A versioned table with an id and a name and without soft deletion. */
  predicate UserTable(s: Setting) {
    SettingOk(s) && s.m.deleted.None? && s.m.version == Some(VER) && ID in s.m.fields && NAME in s.m.fields
  }

  /** The row of user 1. */
  predicate IsUser(s: Setting, rows: Rows, r: nat)
    requires UserTable(s)
  {
    r in rows && ValueOf(rows[r], "id") == Int(1) && VersionOf(s, rows[r]).Int?
  }

  function IdIs(i: int): Expr {
    Pred(Column("Id", None, ""), "=", Value(Int(i)))
  }

  /** The condition id = 1 OR id = 2. */
  function OneOrTwo(): Expr {
    OrOf(IdIs(1), IdIs(2))
  }

  lemma IdIsMeans(x: Ctx, db: Db, row: Row, i: int)
    requires "Id" in x.columns && x.columns["Id"] == "id"
    ensures CondOk(x, IdIs(i)) && (Eval(db, row, CondTree(x, IdIs(i))) == T <==> ValueOf(row, "id") == Int(i))
  {
    var e := IdIs(i);
    assert CondTree(x, e) == Cmp('=', Col(None, "id"), Lit(Int(i)));
  }

  /** Such tables, rows and instances exist, for every name and version. */
  lemma UserExists(db: Db, name: Val, mine: Val, held: int, version: int)
    ensures var s := Setting('`', Model("user", [ID, NAME, VER], None, Some(VER)), db);
            var rows: Rows := map[0 := map["id" := Int(1), "name" := name, "version" := Int(version)]];
            var val: Instance := map["Id" := Int(1), "Name" := mine, "Version" := Int(held)];
            UserTable(s) && IsUser(s, rows, 0) && InstanceOk(s.m, val)
  {
  }

  lemma UserColumns(s: Setting)
    requires UserTable(s)
    ensures var cols := X(s).columns;
            "Id" in cols && cols["Id"] == "id" && "Name" in cols && cols["Name"] == "name"
  {
    ColumnOf(s.m.fields, ID);
    ColumnOf(s.m.fields, NAME);
  }

  lemma UserMatchesId(s: Setting, rows: Rows, r: nat)
    requires UserTable(s) && IsUser(s, rows, r)
    ensures CondOk(X(s), IdIs(1)) && CondOk(X(s), IdIs(2)) && CondOk(X(s), OneOrTwo())
    ensures Eval(s.db, rows[r], CondTree(X(s), IdIs(1))) == T
  {
    UserColumns(s);
    hide Columns, CondTree, Eval, ModelOk;
    IdIsMeans(X(s), s.db, rows[r], 1);
    IdIsMeans(X(s), s.db, rows[r], 2);
  }

  /** A full-value update with a well-formed condition is well formed. */
  lemma FullIsOrdinary(s: Setting, val: Instance, where: seq<Expr>)
    requires SettingOk(s) && InstanceOk(s.m, val) && forall i :: 0 <= i < |where| ==> CondOk(X(s), where[i])
    ensures var a := FullUpdate(val, where);
            && Ordinary(s, a) && Versioned(s, a) && FilterFor(s, a) == FullFilter(s.m, val, where)
            && FilterOk(X(s), FilterFor(s, a))
  {
    hide SetItems, Columns, Others, CondOk;
    FullItems(s.q, s.m, val, where);
    assert FilterOf(s.m, Request([], Some(val), where)) == Some(FullFilter(s.m, val, where));
  }

  /** UPDATE user SET name=? WHERE id=1, without an instance. */
  function Rename(name: Val): Action {
    DoUpdate(Request([AssignTo("Name", Value(name))], None, [IdIs(1)]))
  }

  lemma RenameItems(s: Setting, name: Val)
    requires UserTable(s)
    ensures SetItems(X(s), s.m, Rename(name).u) == Some([Given("name", Value(name))])
  {
    var u := Rename(name).u;
    UserColumns(s);
    hide Columns, ModelOk;
    var none: seq<Item> := [];
    assert u.assigns[..0] == [] && ItemOf(X(s), None, u.assigns[0]) == Some(Given("name", Value(name)));
    assert AssignItems(X(s), None, []) == Some(none);
    assert none + [Given("name", Value(name))] == [Given("name", Value(name))];
  }

  lemma RenameOk(s: Setting, name: Val)
    requires UserTable(s) && CondOk(X(s), IdIs(1))
    ensures Ordinary(s, Rename(name)) && FilterFor(s, Rename(name)) == Filter(None, [IdIs(1)], None)
    ensures ClausesOf(s, Rename(name)) == [SetClause("name", Assigned(Lit(name)))]
  {
    RenameItems(s, name);
    hide Columns, ModelOk, SetItems, CondOk;
    assert Clauses(X(s), [Given("name", Value(name))]) == [ItemClause(X(s), Given("name", Value(name)))];
    var u := Rename(name).u;
    assert Target(u.assigns[0]) == "Name";
  }

  /** The rename hits its row and sets the name, nothing else. */
  lemma RenameRuns(s: Setting, rows: Rows, name: Val, r: nat)
    requires UserTable(s) && IsUser(s, rows, r)
    ensures r in Step(s, rows, Rename(name)) && Step(s, rows, Rename(name))[r] == rows[r]["name" := name]
  {
    var a := Rename(name);
    UserMatchesId(s, rows, r);
    RenameOk(s, name);
    hide Columns, ModelOk, SetItems, WellFormed, StatementOf, FilterFor, ClausesOf, CondTree, CondOk, Eval, Step, IdIs;
    StatementIs(s, a);
    HitExactly(s, rows, a, r);
    HitRow(s, rows, a, r);
    ApplyOne(s.db, rows[r], "name", name);
  }

  lemma ApplyOne(db: Db, row: Row, col: string, v: Val)
    ensures Apply(db, row, [SetClause(col, Assigned(Lit(v)))]) == row[col := v]
  {
    assert [SetClause(col, Assigned(Lit(v)))][..0] == [];
  }

  lemma UpdateOfUserHits(s: Setting, rows: Rows, val: Instance, r: nat)
    requires UserTable(s) && IsUser(s, rows, r) && InstanceOk(s.m, val)
    ensures var a := FullUpdate(val, [IdIs(1)]);
            && Ordinary(s, a) && Versioned(s, a) && !IsLoneOr(a) && Held(s, a) == Int(Signed(val["Version"].i))
            && (VersionOf(s, rows[r]) == Held(s, a) ==> Touches(s, rows, a, r))
  {
    var a := FullUpdate(val, [IdIs(1)]);
    UserMatchesId(s, rows, r);
    FullIsOrdinary(s, val, [IdIs(1)]);
    hide Columns, ModelOk, SetItems, WellFormed, StatementOf, FilterFor, CondTree, CondOk, Eval, Step, Touches;
    if VersionOf(s, rows[r]) == Held(s, a) { MatchingRowIsHit(s, rows, a, r); }
  }

  /**
   A lost update: an instance is read, a rename without an instance is committed, and the full-value
   update of the instance still succeeds and undoes the rename.
   */
  lemma RenameIsLost(s: Setting, rows: Rows, name: Val, val: Instance, r: nat)
    requires UserTable(s) && IsUser(s, rows, r) && InstanceOk(s.m, val)
    requires val["Version"] == VersionOf(s, rows[r]) && val["Version"].i < TWO63
    ensures var between, a := Step(s, rows, Rename(name)), FullUpdate(val, [IdIs(1)]);
            && Ordinary(s, Rename(name)) && Ordinary(s, a) && Versioned(s, a) && VersionOf(s, rows[r]) == Held(s, a)
            && r in between && ValueOf(between[r], "name") == name
            && Touches(s, between, a, r) && r in Step(s, between, a)
            && "Name" in val && ValueOf(Step(s, between, a)[r], "name") == val["Name"]
  {
    var between := Step(s, rows, Rename(name));
    UserMatchesId(s, rows, r);
    RenameOk(s, name);
    RenameRuns(s, rows, name, r);
    assert IsUser(s, between, r) && VersionOf(s, between[r]) == VersionOf(s, rows[r]);
    hide Step, WellFormed, FilterFor, Touches, ClausesOf, IdIs;
    UpdateOfUserHits(s, between, val, r);
    UserIsOverwritten(s, between, val, [IdIs(1)], r);
  }

  /**
   The same with user 1: the first caller renames and assigns the version it holds, and the
   full-value update of the second, of the same version, succeeds and undoes the rename.
   */
  lemma PinnedRenameIsLost(s: Setting, rows: Rows, name: Val, val: Instance, r: nat)
    requires UserTable(s) && IsUser(s, rows, r) && InstanceOk(s.m, val)
    requires val["Version"] == VersionOf(s, rows[r]) && val["Version"].i < TWO63
    ensures var first, second := Pin(s.m, NAME, name, val, [IdIs(1)]), FullUpdate(val, [IdIs(1)]);
            var between := Step(s, rows, first);
            && Touches(s, rows, first, r) && r in between && between[r] == rows[r]["name" := name]
            && Touches(s, between, second, r) && r in Step(s, between, second)
            && "Name" in val && ValueOf(Step(s, between, second)[r], "name") == val["Name"]
  {
    var between := Step(s, rows, Pin(s.m, NAME, name, val, [IdIs(1)]));
    PinHitsUser(s, rows, name, val, r);
    PinnedUserIs(s, rows, name, val, r);
    hide Step, WellFormed, FilterFor, Touches, ClausesOf, IdIs, Pin, ModelOk, InstanceOk;
    UpdateOfUserHits(s, between, val, r);
    UserIsOverwritten(s, between, val, [IdIs(1)], r);
  }

  lemma PinnedUserIs(s: Setting, rows: Rows, name: Val, val: Instance, r: nat)
    requires UserTable(s) && IsUser(s, rows, r) && InstanceOk(s.m, val) && val["Version"].i < TWO63
    ensures var first := Pin(s.m, NAME, name, val, [IdIs(1)]);
            var between := Step(s, rows, first);
            Touches(s, rows, first, r) ==>
              && r in between && between[r] == rows[r]["name" := name]
              && IsUser(s, between, r) && VersionOf(s, between[r]) == VersionOf(s, rows[r])
  {
    UserMatchesId(s, rows, r);
    NameIsNotVersion();
    RenamedIsUser(rows[r], name);
    hide Columns, CondTree, CondOk, Eval, Step, Touches, ModelOk, InstanceOk, IdIs, Pin, ValueOf;
    PinKeepsVersion(s, rows, NAME, name, val, [IdIs(1)], r);
  }

  lemma RenamedIsUser(row: Row, name: Val)
    ensures ValueOf(row["name" := name], "id") == ValueOf(row, "id")
    ensures ValueOf(row["name" := name], "version") == ValueOf(row, "version")
  {
  }

  lemma PinHitsUser(s: Setting, rows: Rows, name: Val, val: Instance, r: nat)
    requires UserTable(s) && IsUser(s, rows, r) && InstanceOk(s.m, val)
    requires val["Version"] == VersionOf(s, rows[r]) && val["Version"].i < TWO63
    ensures Touches(s, rows, Pin(s.m, NAME, name, val, [IdIs(1)]), r)
  {
    var a := Pin(s.m, NAME, name, val, [IdIs(1)]);
    UserMatchesId(s, rows, r);
    PinOk(s, NAME, name, val, [IdIs(1)]);
    hide Columns, ModelOk, SetItems, WellFormed, StatementOf, FilterFor, ClausesOf, CondTree, CondOk, Eval, Step,
      Touches, IdIs;
    MatchingRowIsHit(s, rows, a, r);
  }

  /** A version of 2^63 or more, read and sent back, is a conflict although nothing else has run. */
  lemma WideVersionConflicts(s: Setting, rows: Rows, val: Instance, r: nat)
    requires UserTable(s) && IsUser(s, rows, r) && rows.Keys == {r} && InstanceOk(s.m, val)
    requires val["Version"] == VersionOf(s, rows[r]) && val["Version"].i >= TWO63
    ensures var a := FullUpdate(val, [IdIs(1)]);
            Ordinary(s, a) && Versioned(s, a) && Report(s, rows, a) == Conflict && Step(s, rows, a) == rows
  {
    var a := FullUpdate(val, [IdIs(1)]);
    UpdateOfUserHits(s, rows, val, r);
    FilterForOk(s, a);
    hide Columns, ModelOk, SetItems, WellFormed, StatementOf, FilterFor, Step, Report, UserMatches, Touches;
    StaleConflicts(s, rows, a, r);
  }

  /** A stale instance overwrites row 1 through the condition id = 1 OR id = 2. */
  lemma LoneOrLosesAnUpdate(s: Setting, rows: Rows, val: Instance, r: nat)
    requires UserTable(s) && IsUser(s, rows, r) && InstanceOk(s.m, val)
    requires Int(Signed(val["Version"].i)) != VersionOf(s, rows[r])
    ensures var a := FullUpdate(val, [OneOrTwo()]);
            && Ordinary(s, a) && Versioned(s, a) && VersionOf(s, rows[r]) != Held(s, a)
            && r in Step(s, rows, a)
            && "Name" in val && ValueOf(Step(s, rows, a)[r], "name") == val["Name"]
            && VersionOf(s, Step(s, rows, a)[r]) == Int(VersionOf(s, rows[r]).i + 1)
  {
    StaleUserIsHit(s, rows, val, r);
    hide UserTable, IsUser, InstanceOk, WellFormed, FilterFor, Step, Touches, OneOrTwo;
    UserIsOverwritten(s, rows, val, [OneOrTwo()], r);
  }

  lemma UserIsOverwritten(s: Setting, rows: Rows, val: Instance, where: seq<Expr>, r: nat)
    requires UserTable(s) && IsUser(s, rows, r) && InstanceOk(s.m, val) && WellFormed(s, FullUpdate(val, where))
    ensures var next := Step(s, rows, FullUpdate(val, where));
            Touches(s, rows, FullUpdate(val, where), r) ==>
              && r in next && "Name" in val && ValueOf(next[r], "name") == val["Name"]
              && VersionOf(s, next[r]) == Int(VersionOf(s, rows[r]).i + 1)
  {
    assert VER in s.m.fields;
    NameIsNotVersion();
    hide ModelOk, WellFormed, Step, Touches;
    RowIsOverwritten(s, rows, val, where, NAME, VER, r);
  }

  lemma NameIsNotVersion()
    ensures NAME.goName != VER.goName
  {
    assert |NAME.goName| != |VER.goName|;
  }

  lemma RowIsOverwritten(s: Setting, rows: Rows, val: Instance, where: seq<Expr>, f: Field, v: Field, r: nat)
    requires SettingOk(s) && InstanceOk(s.m, val) && WellFormed(s, FullUpdate(val, where))
    requires f in s.m.fields && v in s.m.fields && s.m.version == Some(v) && f.goName != v.goName
    requires r in rows && VersionOf(s, rows[r]).Int?
    ensures var next := Step(s, rows, FullUpdate(val, where));
            Touches(s, rows, FullUpdate(val, where), r) ==>
              && r in next && f.goName in val && ValueOf(next[r], f.colName) == val[f.goName]
              && VersionOf(s, next[r]) == Int(VersionOf(s, rows[r]).i + 1)
  {
    hide ModelOk, InstanceOk, WellFormed, Step, Touches, ValueOf;
    FullUpdateOverwrites(s, rows, val, where, f, r);
    VersionIsRaised(s, rows, val, where, r);
  }

  lemma VersionIsRaised(s: Setting, rows: Rows, val: Instance, where: seq<Expr>, r: nat)
    requires SettingOk(s) && InstanceOk(s.m, val) && WellFormed(s, FullUpdate(val, where))
    requires r in rows && VersionOf(s, rows[r]).Int?
    ensures var next := Step(s, rows, FullUpdate(val, where));
            r in next && (Touches(s, rows, FullUpdate(val, where), r) ==>
              VersionOf(s, next[r]) == Int(VersionOf(s, rows[r]).i + 1))
  {
    FullAssignsNothing(s, val, where);
    hide ModelOk, InstanceOk, WellFormed, Step, Touches, ValueOf, Assigns, Versioned, FullUpdate;
    HitRaises(s, rows, FullUpdate(val, where), r);
  }

  lemma HitRaises(s: Setting, rows: Rows, a: Action, r: nat)
    requires SettingOk(s) && WellFormed(s, a) && Versioned(s, a) && !Assigns(s, a)
    requires r in rows && VersionOf(s, rows[r]).Int?
    ensures r in Step(s, rows, a)
    ensures Touches(s, rows, a, r) ==> VersionOf(s, Step(s, rows, a)[r]) == Int(VersionOf(s, rows[r]).i + 1)
  {
    hide ModelOk, WellFormed, Step, Touches, ValueOf, Assigns, Apply, ClausesOf;
    HitRow(s, rows, a, r);
    OneMoreWin(s, rows, a, r);
  }

  lemma FullAssignsNothing(s: Setting, val: Instance, where: seq<Expr>)
    requires s.m.version.Some?
    ensures !Assigns(s, FullUpdate(val, where)) && Versioned(s, FullUpdate(val, where))
  {
  }

  lemma StaleUserIsHit(s: Setting, rows: Rows, val: Instance, r: nat)
    requires UserTable(s) && IsUser(s, rows, r) && InstanceOk(s.m, val)
    requires Int(Signed(val["Version"].i)) != VersionOf(s, rows[r])
    ensures var a := FullUpdate(val, [OneOrTwo()]);
            && Ordinary(s, a) && Versioned(s, a) && VersionOf(s, rows[r]) != Held(s, a) && Touches(s, rows, a, r)
  {
    UserMatchesId(s, rows, r);
    FullIsOrdinary(s, val, [OneOrTwo()]);
    hide Columns, ModelOk, SetItems, WellFormed, StatementOf, FilterFor, CondTree, CondOk, Eval, Step, Touches;
    StaleHitExactly(s, rows, FullUpdate(val, [OneOrTwo()]), r);
  }

  /**
   A DELETE with the condition id = 1 OR id = 2 stamps an already deleted row 2 again with the
   new time, in every table with an id column.
   */
  lemma LoneOrDeletesTwice(s: Setting, rows: Rows, now: Val, r: nat)
    requires IsQuote(s.q) && ModelOk(s.m) && s.m.deleted.Some? && ID in s.m.fields && !now.Null?
    requires r in rows && ValueOf(rows[r], "id") == Int(2) && !ValueOf(rows[r], s.m.deleted.value.colName).Null?
    ensures var next := Step(s, rows, DoDelete([OneOrTwo()], now));
            r in next && next[r] == rows[r][s.m.deleted.value.colName := now]
  {
    var a, col := DoDelete([OneOrTwo()], now), s.m.deleted.value.colName;
    ColumnOf(s.m.fields, ID);
    hide Columns, CondTree, Eval, FilterTree, Touches, StatementOf, ModelOk, Step;
    IdIsMeans(X(s), s.db, rows[r], 1);
    IdIsMeans(X(s), s.db, rows[r], 2);
    assert CondOk(X(s), OneOrTwo());
    StatementIs(s, a);
    DeletedHitExactly(s, rows, a, r);
    HitRow(s, rows, a, r);
    ApplyOne(s.db, rows[r], col, now);
  }
}
