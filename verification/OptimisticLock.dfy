/**
 Optimistic locking over all interleavings of statements (orm/updater.go): each execution
 builds its text, the database reads the text back and applies it to the table atomically,
 and the caller learns whether any row was affected.
 */
module OptimisticLock {
  import opened Common
  import opened SqlText
  import opened SqlGrammar
  import opened SqlBuilder
  import opened SqlWhere
  import opened SqlStatement
  import opened SqlUpdate
  import opened SqlReadBack

  // ---------------------------------------------------------------- the table

  /** The rows of the model's table, by identity. */
  type Rows = map<nat, Row>

  predicate Selects(db: Db, c: Option<Cond>, row: Row) {
    c.Some? ==> Eval(db, row, c.value) == T
  }

  function NewValue(db: Db, row: Row, v: SetValue): Val {
    match v
    case Assigned(o) => EvalOperand(db, row, o)
    case Incremented(col) => if ValueOf(row, col).Int? then Int(ValueOf(row, col).i + 1) else Null
  }

  /** All right sides are taken from the row before the update. */
  function Apply(db: Db, row: Row, sets: seq<SetClause>): Row {
    if sets == [] then row
    else
      var last := sets[|sets| - 1];
      Apply(db, row, sets[..|sets| - 1])[last.target := NewValue(db, row, last.value)]
  }

  function Execute(db: Db, rows: Rows, st: Statement): Rows {
    match st
    case Update(_, sets, w) =>
      map r | r in rows :: if Selects(db, w, rows[r]) then Apply(db, rows[r], sets) else rows[r]
    case Delete(_, w) => map r | r in rows && !Selects(db, w, rows[r]) :: rows[r]
  }

  // ---------------------------------------------------------------- executions

  datatype Setting = Setting(q: char, m: Model, db: Db)

  datatype Action = DoUpdate(u: Request) | DoDelete(where: seq<Expr>, now: Val)

  /** What the caller is told: a build error, ErrOptimisticLock, or success. */
  datatype Outcome = Failed | Conflict | Done

  function X(s: Setting): Ctx {
    CtxOf(s.q, s.m)
  }

  function TextOf(s: Setting, a: Action): Option<Out> {
    match a
    case DoUpdate(u) => EmitUpdate(X(s), s.m, u)
    case DoDelete(where, now) => EmitDelete(X(s), s.m, "", where, now)
  }

  /** The statement the database makes of the text. */
  function StatementOf(s: Setting, a: Action): Option<Statement> {
    if TextOf(s, a).None? then None else ReadBack(s.q, TextOf(s, a).value)
  }

  function Step(s: Setting, rows: Rows, a: Action): Rows {
    if StatementOf(s, a).None? then rows else Execute(s.db, rows, StatementOf(s, a).value)
  }

  predicate Touches(s: Setting, rows: Rows, a: Action, r: nat) {
    r in rows && StatementOf(s, a).Some? && Selects(s.db, StatementOf(s, a).value.where, rows[r])
  }

  /** An Update(val) on a model with a version field. */
  predicate Versioned(s: Setting, a: Action) {
    a.DoUpdate? && s.m.version.Some? && a.u.val.Some?
  }

  ghost function Report(s: Setting, rows: Rows, a: Action): Outcome {
    if StatementOf(s, a).None? then Failed
    else if Versioned(s, a) && forall r :: r in rows ==> !Touches(s, rows, a, r) then Conflict
    else Done
  }

  function Run(s: Setting, rows: Rows, actions: seq<Action>): Rows {
    if actions == [] then rows else Run(s, Step(s, rows, actions[0]), actions[1..])
  }

  // ---------------------------------------------------------------- the callers' side

  predicate SettingOk(s: Setting) {
    IsQuote(s.q) && ModelOk(s.m) && s.m.version.Some? && s.m.deleted != s.m.version
  }

  /** Known fields, values for them, the expressions the constructors build, and a time of deletion. */
  predicate WellFormed(s: Setting, a: Action) {
    match a
    case DoUpdate(u) => RequestOk(X(s), s.m, u)
    case DoDelete(where, now) => FilterOk(X(s), DeleteFilter(s.m, where)) && !now.Null?
  }

  /** An update that assigns the version itself: the increment is dropped, the check of the version is not. */
  predicate Assigns(s: Setting, a: Action) {
    a.DoUpdate? && ExplicitlySet(s.m, a.u.assigns)
  }

  function Where(a: Action): seq<Expr> {
    match a
    case DoUpdate(u) => u.where
    case DoDelete(where, _) => where
  }

  predicate IsLoneOr(a: Action) {
    |Where(a)| == 1 && Where(a)[0].Pred? && Where(a)[0].op == "OR"
  }

  predicate AllWellFormed(s: Setting, actions: seq<Action>) {
    forall k :: 0 <= k < |actions| ==> WellFormed(s, actions[k])
  }

  function FilterFor(s: Setting, a: Action): Filter
    requires WellFormed(s, a)
  {
    match a
    case DoUpdate(u) => FilterOf(s.m, u).value
    case DoDelete(where, _) => DeleteFilter(s.m, where)
  }

  /** The version the caller's instance holds, as it is sent. */
  function Held(s: Setting, a: Action): Val
    requires WellFormed(s, a) && Versioned(s, a)
  {
    FilterFor(s, a).version.value.1
  }

  function VersionOf(s: Setting, row: Row): Val
    requires s.m.version.Some?
  {
    ValueOf(row, s.m.version.value.colName)
  }

  // ---------------------------------------------------------------- one statement

  function ClausesOf(s: Setting, a: Action): seq<SetClause>
    requires WellFormed(s, a)
  {
    match a
    case DoUpdate(u) => Clauses(X(s), SetItems(X(s), s.m, u).value)
    case DoDelete(_, now) =>
      if s.m.deleted.Some? then [SetClause(s.m.deleted.value.colName, Assigned(Lit(now)))] else []
  }

  /** What the database runs, from the round trips. */
  lemma StatementIs(s: Setting, a: Action)
    requires IsQuote(s.q) && WellFormed(s, a)
    ensures StatementOf(s, a).Some? ==>
              var st := StatementOf(s, a).value;
              && st.where == Condition(X(s), FilterFor(s, a))
              && (st.Update? ==> st.sets == ClausesOf(s, a))
    ensures a.DoUpdate? && StatementOf(s, a).Some? ==> StatementOf(s, a).value.Update?
    ensures a.DoUpdate? && ClausesOf(s, a) != [] ==> StatementOf(s, a).Some?
    ensures a.DoDelete? ==> StatementOf(s, a).Some? && (StatementOf(s, a).value.Update? <==> s.m.deleted.Some?)
  {
    hide ReadBack, EmitUpdate, EmitDelete, SetItems, FilterOf, FilterOk, Condition, ItemsOk;
    match a {
      case DoUpdate(u) =>
        UpdateRoundTrip(X(s), s.m, u);
      case DoDelete(where, now) => DeleteRoundTrip(X(s), s.m, "", where, now);
    }
  }

  lemma {:induction false} Untouched(db: Db, row: Row, sets: seq<SetClause>, col: string)
    requires forall k :: 0 <= k < |sets| ==> sets[k].target != col
    ensures ValueOf(Apply(db, row, sets), col) == ValueOf(row, col)
  {
    if sets != [] { Untouched(db, row, sets[..|sets| - 1], col); }
  }

  // ---------------------------------------------------------------- the version after a hit

  /** A version after n increments by the database. */
  function Raised(v: Val, n: nat): Val {
    if n == 0 then v else if v.Int? then Int(v.i + n) else Null
  }

  predicate IsAssigned(assigns: seq<Assign>, name: string) {
    exists k :: 0 <= k < |assigns| && Target(assigns[k]) == name
  }

  /** The last assignment to a field. */
  function LastTo(assigns: seq<Assign>, name: string): (r: Option<Assign>)
    ensures r.Some? <==> IsAssigned(assigns, name)
    ensures r.Some? ==> Target(r.value) == name
  {
    if assigns == [] then None
    else
      var front, last := assigns[..|assigns| - 1], assigns[|assigns| - 1];
      assert IsAssigned(assigns, name) <==> IsAssigned(front, name) || Target(last) == name by {
        assert forall k :: 0 <= k < |front| ==> front[k] == assigns[k];
      }
      if Target(last) == name then Some(last) else LastTo(front, name)
  }

  /** The last assignment whose target is the version. */
  function LastAssign(m: Model, assigns: seq<Assign>): (r: Option<Assign>)
    ensures r.Some? <==> ExplicitlySet(m, assigns)
  {
    if m.version.None? then None else LastTo(assigns, m.version.value.goName)
  }

  /** The value an assignment gives, taken from the row before the update. */
  function AssignedValue(s: Setting, val: Option<Instance>, a: Assign, row: Row): Val {
    match a
    case AssignTo(_, e) =>
      if OperandOk(X(s), e) then EvalOperand(s.db, row, OperandTree(X(s), e))
      else if e.Pred? && OperandOk(X(s), e.left) then EvalOperand(s.db, row, OperandTree(X(s), e.left))
      else Null
    case AssignColumn(name) => if val.Some? && name in val.value then val.value[name] else Null
  }

  /** What a hit makes of the version: what was assigned to it last, or one more for an Update(val). */
  function VersionAfter(s: Setting, a: Action, row: Row): Val
    requires s.m.version.Some?
  {
    if a.DoDelete? then VersionOf(s, row)
    else
      var e := LastAssign(s.m, a.u.assigns);
      if e.Some? then AssignedValue(s, a.u.val, e.value, row)
      else if a.u.val.Some? then Raised(VersionOf(s, row), 1)
      else VersionOf(s, row)
  }

  lemma VersionColumn(s: Setting)
    requires SettingOk(s)
    ensures var f := s.m.version.value; f.goName in X(s).columns && X(s).columns[f.goName] == f.colName
  {
    ColumnOf(s.m.fields, s.m.version.value);
  }

  lemma ItemGives(s: Setting, val: Option<Instance>, a: Assign, row: Row)
    requires ItemOf(X(s), val, a).Some? && ItemOk(X(s), ItemOf(X(s), val, a).value)
    ensures var c := ItemClause(X(s), ItemOf(X(s), val, a).value);
            Target(a) in X(s).columns && c.target == X(s).columns[Target(a)]
            && NewValue(s.db, row, c.value) == AssignedValue(s, val, a, row)
  {
    hide OperandTree, X;
  }

  lemma ClausesSnoc(x: Ctx, items: seq<Item>, last: Item)
    requires ItemsOk(x, items + [last])
    ensures ItemsOk(x, items) && ItemOk(x, last)
    ensures Clauses(x, items + [last]) == Clauses(x, items) + [ItemClause(x, last)]
  {
    hide ItemOk, ItemClause;
    assert (items + [last])[|items|] == last;
    assert forall k :: 0 <= k < |items| ==> (items + [last])[k] == items[k];
  }

  lemma ApplySnoc(db: Db, row: Row, sets: seq<SetClause>, last: SetClause)
    ensures Apply(db, row, sets + [last]) == Apply(db, row, sets)[last.target := NewValue(db, row, last.value)]
  {
    hide NewValue;
    assert (sets + [last])[..|sets|] == sets;
  }

  /** The column of an assignment's target is that of a field exactly when it names the field. */
  lemma TargetColumn(s: Setting, a: Assign, f: Field)
    requires SettingOk(s) && f in s.m.fields && Target(a) in X(s).columns
    ensures X(s).columns[Target(a)] == f.colName <==> Target(a) == f.goName
  {
    var g := KnownColumn(s.m.fields, Target(a));
    ColumnOf(s.m.fields, g);
    if g.goName == f.goName { SameField(s.m, f, g); } else { DistinctColumns(s.m, f, g); }
  }

  /** Of several assignments to a field the last one stands, and a field that is not assigned stays. */
  lemma {:induction false} AssignsField(s: Setting, row: Row, val: Option<Instance>, assigns: seq<Assign>, f: Field)
    requires SettingOk(s) && f in s.m.fields && AssignItems(X(s), val, assigns).Some?
    requires ItemsOk(X(s), AssignItems(X(s), val, assigns).value)
    ensures var e := LastTo(assigns, f.goName);
            ValueOf(Apply(s.db, row, Clauses(X(s), AssignItems(X(s), val, assigns).value)), f.colName)
            == if e.Some? then AssignedValue(s, val, e.value, row) else ValueOf(row, f.colName)
  {
    hide Columns, ModelOk, ItemsOk, ItemOk, Clauses, Apply, ItemOf, AssignedValue, ItemClause, NewValue;
    if assigns == [] {
      EmptyApplies(s, row);
    } else {
      var front, last := assigns[..|assigns| - 1], assigns[|assigns| - 1];
      var items, item := AssignItems(X(s), val, front).value, ItemOf(X(s), val, last).value;
      ClausesSnoc(X(s), items, item);
      ApplySnoc(s.db, row, Clauses(X(s), items), ItemClause(X(s), item));
      AssignsField(s, row, val, front, f);
      ItemGives(s, val, last, row);
      TargetColumn(s, last, f);
    }
  }

  lemma EmptyApplies(s: Setting, row: Row)
    ensures ItemsOk(X(s), []) && Apply(s.db, row, Clauses(X(s), [])) == row
  {
  }

  /** What an update with assignments makes of a field of a row that it hits. */
  function FieldAfter(s: Setting, u: Request, f: Field, row: Row): Val {
    var e := LastTo(u.assigns, f.goName);
    if e.Some? then AssignedValue(s, u.val, e.value, row)
    else if IsVersion(s.m, f.goName) && u.val.Some? then Raised(ValueOf(row, f.colName), 1)
    else ValueOf(row, f.colName)
  }

  lemma AssignedItems(s: Setting, u: Request)
    requires WellFormed(s, DoUpdate(u)) && u.assigns != []
    ensures var items := AssignItems(X(s), u.val, u.assigns);
            && items.Some? && SetItems(X(s), s.m, u).Some? && ItemsOk(X(s), SetItems(X(s), s.m, u).value)
            && ClausesOf(s, DoUpdate(u)) == Clauses(X(s), SetItems(X(s), s.m, u).value)
            && (Bumps(s.m, u) ==> SetItems(X(s), s.m, u).value == items.value + [Bump(s.m.version.value.colName)])
            && (!Bumps(s.m, u) ==> SetItems(X(s), s.m, u).value == items.value)
  {
    hide AssignItems, ItemsOk, Clauses, X;
  }

  lemma UpdateField(s: Setting, row: Row, u: Request, f: Field)
    requires SettingOk(s) && WellFormed(s, DoUpdate(u)) && u.assigns != [] && f in s.m.fields
    ensures ValueOf(Apply(s.db, row, ClausesOf(s, DoUpdate(u))), f.colName) == FieldAfter(s, u, f, row)
  {
    AssignedItems(s, u);
    hide WellFormed, ModelOk, AssignItems, ItemsOk, Clauses, Apply, AssignedValue, X, ItemClause, LastTo, SetItems,
      ClausesOf, Raised;
    if Bumps(s.m, u) {
      BumpedField(s, row, u, f);
    } else {
      AssignsField(s, row, u.val, u.assigns, f);
      VersionAssigned(s.m, u.assigns);
    }
  }

  lemma BumpedField(s: Setting, row: Row, u: Request, f: Field)
    requires SettingOk(s) && WellFormed(s, DoUpdate(u)) && u.assigns != [] && f in s.m.fields && Bumps(s.m, u)
    ensures ValueOf(Apply(s.db, row, ClausesOf(s, DoUpdate(u))), f.colName) == FieldAfter(s, u, f, row)
  {
    AssignedItems(s, u);
    hide WellFormed, ModelOk, AssignItems, ItemsOk, Clauses, Apply, AssignedValue, X, ItemClause, LastTo, SetItems,
      ClausesOf, Raised, NewValue;
    var x, v, items := X(s), s.m.version.value, AssignItems(X(s), u.val, u.assigns).value;
    var bump := Bump(v.colName);
    ClausesSnoc(x, items, bump);
    ApplySnoc(s.db, row, Clauses(x, items), ItemClause(x, bump));
    BumpRaises(s, row, x);
    AssignsField(s, row, u.val, u.assigns, f);
    NotAssigned(s.m, u.assigns);
    if f.goName == v.goName { SameField(s.m, f, v); } else { DistinctColumns(s.m, f, v); }
  }

  lemma NotAssigned(m: Model, assigns: seq<Assign>)
    requires m.version.Some? && !ExplicitlySet(m, assigns)
    ensures LastTo(assigns, m.version.value.goName).None?
  {
  }

  lemma VersionAssigned(m: Model, assigns: seq<Assign>)
    ensures m.version.Some? && ExplicitlySet(m, assigns) ==> LastTo(assigns, m.version.value.goName).Some?
  {
  }

  /**
   What an update with assignments does to a row: every field of a row it hits gets its last
   assignment, or, if it is the version of an Update(val), one more, or stays; other rows stay.
   */
  lemma UpdateSetsFields(s: Setting, rows: Rows, u: Request, f: Field, r: nat)
    requires SettingOk(s) && WellFormed(s, DoUpdate(u)) && u.assigns != [] && f in s.m.fields && r in rows
    ensures var next := Step(s, rows, DoUpdate(u));
            && r in next
            && (Touches(s, rows, DoUpdate(u), r) ==> ValueOf(next[r], f.colName) == FieldAfter(s, u, f, rows[r]))
            && (!Touches(s, rows, DoUpdate(u), r) ==> next[r] == rows[r])
  {
    hide StatementOf, WellFormed, ClausesOf, Apply, FilterFor, ModelOk, Selects, FieldAfter, Step, Touches;
    HitRow(s, rows, DoUpdate(u), r);
    UpdateField(s, rows[r], u, f);
  }

  lemma UpdateVersion(s: Setting, row: Row, u: Request)
    requires SettingOk(s) && WellFormed(s, DoUpdate(u))
    ensures VersionOf(s, Apply(s.db, row, ClausesOf(s, DoUpdate(u)))) == VersionAfter(s, DoUpdate(u), row)
  {
    var x, items := X(s), SetItems(X(s), s.m, u).value;
    hide ModelOk, AssignItems, FieldItems, ItemsOk, Clauses, Apply, AssignedValue, X, ItemClause;
    if Bumps(s.m, u) {
      var front, bump := items[..|items| - 1], Bump(s.m.version.value.colName);
      assert items == front + [bump];
      ClausesSnoc(x, front, bump);
      ApplySnoc(s.db, row, Clauses(x, front), ItemClause(x, bump));
      BumpRaises(s, row, x);
    } else {
      AssignsField(s, row, u.val, u.assigns, s.m.version.value);
    }
  }

  lemma BumpRaises(s: Setting, row: Row, x: Ctx)
    requires s.m.version.Some?
    ensures var c := ItemClause(x, Bump(s.m.version.value.colName));
            c.target == s.m.version.value.colName && NewValue(s.db, row, c.value) == Raised(VersionOf(s, row), 1)
  {
  }

  /** What one statement makes of a row's version. */
  lemma StepVersion(s: Setting, rows: Rows, a: Action, r: nat)
    requires SettingOk(s) && WellFormed(s, a) && r in rows && r in Step(s, rows, a)
    ensures VersionOf(s, Step(s, rows, a)[r])
         == if Touches(s, rows, a, r) then VersionAfter(s, a, rows[r]) else VersionOf(s, rows[r])
  {
    hide StatementOf, WellFormed, ClausesOf, Apply, FilterFor, Condition, ModelOk, Selects, AssignedValue;
    StatementIs(s, a);
    if a.DoUpdate? {
      UpdateVersion(s, rows[r], a.u);
    } else if s.m.deleted.Some? {
      DeleteSparesVersion(s, rows[r], a);
    }
  }

  lemma DeleteSparesVersion(s: Setting, row: Row, a: Action)
    requires SettingOk(s) && WellFormed(s, a) && a.DoDelete? && s.m.deleted.Some?
    ensures VersionOf(s, Apply(s.db, row, ClausesOf(s, a))) == VersionOf(s, row)
  {
    DistinctColumns(s.m, s.m.deleted.value, s.m.version.value);
    Untouched(s.db, row, ClausesOf(s, a), s.m.version.value.colName);
  }

  lemma FilterForOk(s: Setting, a: Action)
    requires WellFormed(s, a)
    ensures FilterOk(X(s), FilterFor(s, a)) && (LoneOr(FilterFor(s, a)) <==> IsLoneOr(a))
    ensures FilterFor(s, a).deleted == DeletedCol(s.m)
    ensures FilterFor(s, a).where == Where(a)
    ensures Versioned(s, a) <==> FilterFor(s, a).version.Some?
    ensures Versioned(s, a) ==> FilterFor(s, a).version.value.0 == s.m.version.value.colName && Held(s, a).Int?
  {
  }

  /** Unless the condition is a lone OR, a statement hits exactly the rows it is meant for. */
  lemma HitExactly(s: Setting, rows: Rows, a: Action, r: nat)
    requires IsQuote(s.q) && WellFormed(s, a) && !IsLoneOr(a) && StatementOf(s, a).Some? && r in rows
    ensures FilterOk(X(s), FilterFor(s, a))
    ensures Touches(s, rows, a, r) <==> Intended(X(s), s.db, FilterFor(s, a), rows[r])
  {
    hide StatementOf, WellFormed, Eval, FilterTree, FilterOk, FilterFor, LoneOr, IsLoneOr;
    StatementIs(s, a);
    FilterForOk(s, a);
    if !IsEmpty(FilterFor(s, a)) { FilterMeans(X(s), s.db, rows[r], FilterFor(s, a)); }
  }

  /** A row hit by a versioned update has the version the update holds, unless the condition is a lone OR. */
  lemma HitHasHeldVersion(s: Setting, rows: Rows, a: Action, r: nat)
    requires SettingOk(s) && WellFormed(s, a) && Versioned(s, a) && !IsLoneOr(a) && Touches(s, rows, a, r)
    ensures VersionOf(s, rows[r]) == Held(s, a)
    ensures Live(FilterFor(s, a), rows[r])
    ensures FilterOk(X(s), FilterFor(s, a)) && UserMatches(X(s), s.db, FilterFor(s, a), rows[r])
  {
    hide StatementOf, WellFormed, UserMatches, Live, FilterOk, FilterFor, IsLoneOr;
    FilterForOk(s, a);
    HitExactly(s, rows, a, r);
  }

  lemma SomethingIsAssigned(s: Setting, u: Request)
    requires SettingOk(s) && WellFormed(s, DoUpdate(u)) && u.val.Some?
    ensures ClausesOf(s, DoUpdate(u)) != []
  {
    hide FieldItems, ItemOf, ItemsOk, FilterOk, X;
    assert |ClausesOf(s, DoUpdate(u))| == |SetItems(X(s), s.m, u).value|;
  }

  /** A versioned update of a well-formed model is always a statement. */
  lemma VersionedIsBuilt(s: Setting, a: Action)
    requires SettingOk(s) && WellFormed(s, a) && Versioned(s, a)
    ensures StatementOf(s, a).Some? && StatementOf(s, a).value.Update?
  {
    SomethingIsAssigned(s, a.u);
    hide StatementOf, WellFormed, ClausesOf;
    StatementIs(s, a);
  }

  /** Conversely a versioned update hits every live row of its version that matches its condition. */
  lemma MatchingRowIsHit(s: Setting, rows: Rows, a: Action, r: nat)
    requires SettingOk(s) && WellFormed(s, a) && Versioned(s, a) && !IsLoneOr(a) && r in rows
    requires VersionOf(s, rows[r]) == Held(s, a) && Live(FilterFor(s, a), rows[r])
    requires FilterOk(X(s), FilterFor(s, a)) && UserMatches(X(s), s.db, FilterFor(s, a), rows[r])
    ensures Touches(s, rows, a, r)
  {
    hide StatementOf, WellFormed, UserMatches, Live, FilterOk, FilterFor, IsLoneOr;
    VersionedIsBuilt(s, a);
    FilterForOk(s, a);
    HitExactly(s, rows, a, r);
  }

  /** What a hit makes of a row. */
  lemma HitRow(s: Setting, rows: Rows, a: Action, r: nat)
    requires IsQuote(s.q) && WellFormed(s, a) && (a.DoUpdate? || s.m.deleted.Some?) && r in rows
    ensures r in Step(s, rows, a)
    ensures Step(s, rows, a)[r] == if Touches(s, rows, a, r) then Apply(s.db, rows[r], ClausesOf(s, a)) else rows[r]
  {
    hide StatementOf, WellFormed, ClausesOf, Apply, FilterFor, Condition, Selects;
    StatementIs(s, a);
  }

  /** Without a soft-delete column a DELETE removes exactly the rows it is meant for, and changes no other. */
  lemma DeleteRemovesExactly(s: Setting, rows: Rows, a: Action, r: nat)
    requires IsQuote(s.q) && s.m.deleted.None? && a.DoDelete? && WellFormed(s, a) && !IsLoneOr(a) && r in rows
    ensures FilterOk(X(s), FilterFor(s, a))
    ensures r in Step(s, rows, a) <==> !UserMatches(X(s), s.db, FilterFor(s, a), rows[r])
    ensures r in Step(s, rows, a) ==> Step(s, rows, a)[r] == rows[r]
  {
    hide StatementOf, WellFormed, UserMatches, FilterFor, IsLoneOr, Condition, Selects;
    StatementIs(s, a);
    FilterForOk(s, a);
    HitExactly(s, rows, a, r);
  }

  // ---------------------------------------------------------------- whole runs

  /** Rows never appear, they only go. */
  lemma {:induction false} RowsOnlyGo(s: Setting, rows: Rows, actions: seq<Action>)
    ensures Run(s, rows, actions).Keys <= rows.Keys
    decreases |actions|
  {
    hide StatementOf, Selects, Apply;
    if actions != [] { RowsOnlyGo(s, Step(s, rows, actions[0]), actions[1..]); }
  }

  lemma {:induction false} RunConcat(s: Setting, rows: Rows, before: seq<Action>, after: seq<Action>)
    ensures Run(s, rows, before + after) == Run(s, Run(s, rows, before), after)
    decreases |before|
  {
    hide Step;
    if before == [] {
      assert before + after == after;
    } else {
      assert (before + after)[1..] == before[1..] + after;
      RunConcat(s, Step(s, rows, before[0]), before[1..], after);
    }
  }

  /** How many versioned updates hit the row during a run. */
  function Wins(s: Setting, rows: Rows, actions: seq<Action>, r: nat): nat {
    if actions == [] then 0
    else
      var hit := if Versioned(s, actions[0]) && Touches(s, rows, actions[0], r) then 1 else 0;
      hit + Wins(s, Step(s, rows, actions[0]), actions[1..], r)
  }

  /** No explicit assignment of the version hits the row during a run. */
  predicate Unassigned(s: Setting, rows: Rows, actions: seq<Action>, r: nat) {
    actions == [] ||
    (!(Assigns(s, actions[0]) && Touches(s, rows, actions[0], r))
     && Unassigned(s, Step(s, rows, actions[0]), actions[1..], r))
  }

  lemma OneMoreWin(s: Setting, rows: Rows, a: Action, r: nat)
    requires SettingOk(s) && WellFormed(s, a) && r in rows && r in Step(s, rows, a)
    requires !(Assigns(s, a) && Touches(s, rows, a, r))
    ensures VersionOf(s, Step(s, rows, a)[r])
         == Raised(VersionOf(s, rows[r]), if Versioned(s, a) && Touches(s, rows, a, r) then 1 else 0)
  {
    hide Step, Touches, WellFormed, ModelOk, AssignedValue;
    StepVersion(s, rows, a, r);
  }

  /**
   Over every run in which the row's version is not assigned explicitly, the version rises by
   exactly one per Update(val) that hits the row.
   */
  lemma {:induction false} VersionCountsWins(s: Setting, rows: Rows, actions: seq<Action>, r: nat)
    requires SettingOk(s) && AllWellFormed(s, actions)
    ensures r in Run(s, rows, actions) ==> r in rows
    ensures r in Run(s, rows, actions) && Unassigned(s, rows, actions, r) ==>
              VersionOf(s, Run(s, rows, actions)[r]) == Raised(VersionOf(s, rows[r]), Wins(s, rows, actions, r))
    decreases |actions|
  {
    hide Step, Touches, WellFormed, ModelOk, Versioned, Assigns;
    RowsOnlyGo(s, rows, actions);
    assert r in Run(s, rows, actions) ==> r in Run(s, rows, actions).Keys;
    if actions != [] && r in Run(s, rows, actions) && Unassigned(s, rows, actions, r) {
      var next := Step(s, rows, actions[0]);
      VersionCountsWins(s, next, actions[1..], r);
      OneMoreWin(s, rows, actions[0], r);
    }
  }

  /**
   In every other run, split at the last explicit assignment that hits the row: the version is
   what was assigned there, plus one per Update(val) that hit the row after it.
   */
  lemma VersionSinceAssigned(s: Setting, rows: Rows, before: seq<Action>, e: Action, after: seq<Action>, r: nat)
    requires SettingOk(s) && AllWellFormed(s, before) && WellFormed(s, e) && AllWellFormed(s, after) && Assigns(s, e)
    ensures var then0 := Run(s, rows, before);
            var then1 := Step(s, then0, e);
            var end := Run(s, rows, before + [e] + after);
            && (r in end ==> r in then0)
            && (r in end && Touches(s, then0, e, r) && Unassigned(s, then1, after, r) ==>
                  VersionOf(s, end[r])
                  == Raised(AssignedValue(s, e.u.val, LastAssign(s.m, e.u.assigns).value, then0[r]),
                            Wins(s, then1, after, r)))
  {
    hide Step, Touches, WellFormed, ModelOk, Raised, AssignedValue, Unassigned, Wins, Run;
    var then0 := Run(s, rows, before);
    var then1 := Step(s, then0, e);
    var end := Run(s, then1, after);
    RunThrough(s, rows, before, e, after);
    VersionCountsWins(s, then1, after, r);
    if r in end {
      StepOnlyGoes(s, then0, e, r);
      StepVersion(s, then0, e, r);
    }
  }

  lemma StepOnlyGoes(s: Setting, rows: Rows, a: Action, r: nat)
    ensures r in Step(s, rows, a) ==> r in rows
  {
    hide StatementOf, Selects, Apply;
  }

  lemma RunThrough(s: Setting, rows: Rows, before: seq<Action>, e: Action, after: seq<Action>)
    ensures Run(s, rows, before + [e] + after) == Run(s, Step(s, Run(s, rows, before), e), after)
  {
    hide Step;
    assert before + [e] + after == before + ([e] + after);
    RunConcat(s, rows, before, [e] + after);
    assert ([e] + after)[1..] == after;
  }

  /** The state in front of the k-th action. */
  function StateAt(s: Setting, rows: Rows, actions: seq<Action>, k: nat): Rows
    requires k <= |actions|
  {
    Run(s, rows, actions[..k])
  }

  /**
   No lost update: in a run that does not assign the version explicitly, an update hits a row that
   had the version it holds at the start, is live and matches, if and only if no other Update(val)
   has hit the row.
   */
  lemma NoLostUpdate(s: Setting, rows: Rows, between: seq<Action>, a: Action, r: nat)
    requires SettingOk(s) && AllWellFormed(s, between) && WellFormed(s, a) && Versioned(s, a) && !IsLoneOr(a)
    requires r in rows && VersionOf(s, rows[r]) == Held(s, a)
    ensures FilterOk(X(s), FilterFor(s, a))
    ensures var end := Run(s, rows, between);
            Unassigned(s, rows, between, r) ==>
              && (Touches(s, end, a, r) ==> Wins(s, rows, between, r) == 0)
              && (r in end && Live(FilterFor(s, a), end[r]) && UserMatches(X(s), s.db, FilterFor(s, a), end[r]) ==>
                    (Touches(s, end, a, r) <==> Wins(s, rows, between, r) == 0))
  {
    hide Step, ModelOk, WellFormed, StatementOf, Run, Wins, FilterFor, IsLoneOr, UserMatches, Live, Unassigned,
      FilterOk;
    var end := Run(s, rows, between);
    FilterForOk(s, a);
    VersionCountsWins(s, rows, between, r);
    if Touches(s, end, a, r) { HitHasHeldVersion(s, end, a, r); }
    if r in end && Live(FilterFor(s, a), end[r]) && UserMatches(X(s), s.db, FilterFor(s, a), end[r])
       && VersionOf(s, end[r]) == Held(s, a) { MatchingRowIsHit(s, end, a, r); }
  }

  /**
   Two updates that hold the same version: after the first has hit a row, the second passes the
   check of a live, matching row if and only if the first assigned the version the value it held.
   */
  lemma SameVersionTwiceExactly(s: Setting, rows: Rows, first: Action, second: Action, r: nat)
    requires SettingOk(s) && WellFormed(s, first) && Versioned(s, first) && !IsLoneOr(first)
    requires WellFormed(s, second) && Versioned(s, second) && !IsLoneOr(second) && Held(s, second) == Held(s, first)
    ensures FilterOk(X(s), FilterFor(s, second))
    ensures Touches(s, rows, first, r) ==>
              var next := Step(s, rows, first);
              && r in next
              && (Live(FilterFor(s, second), next[r]) && UserMatches(X(s), s.db, FilterFor(s, second), next[r]) ==>
                    (Touches(s, next, second, r) <==>
                     Assigns(s, first)
                     && AssignedValue(s, first.u.val, LastAssign(s.m, first.u.assigns).value, rows[r])
                        == Held(s, first)))
  {
    hide Step, ModelOk, WellFormed, StatementOf, FilterFor, IsLoneOr, UserMatches, Live, FilterOk, AssignedValue,
      Touches;
    FilterForOk(s, first);
    FilterForOk(s, second);
    if Touches(s, rows, first, r) {
      var next := Step(s, rows, first);
      HitHasHeldVersion(s, rows, first, r);
      HitStays(s, rows, first, r);
      StepVersion(s, rows, first, r);
      if Touches(s, next, second, r) { HitHasHeldVersion(s, next, second, r); }
      if Live(FilterFor(s, second), next[r]) && UserMatches(X(s), s.db, FilterFor(s, second), next[r])
         && VersionOf(s, next[r]) == Held(s, second) { MatchingRowIsHit(s, next, second, r); }
    }
  }

  lemma HitStays(s: Setting, rows: Rows, a: Action, r: nat)
    requires IsQuote(s.q) && WellFormed(s, a) && a.DoUpdate? && Touches(s, rows, a, r)
    ensures r in rows && r in Step(s, rows, a)
  {
    hide Step, WellFormed, StatementOf, ClausesOf;
    HitRow(s, rows, a, r);
  }

  /** Of two updates that hit a row whose version is not assigned in between the later one holds the greater version. */
  lemma WinnersHoldDifferentVersions(s: Setting, rows: Rows, actions: seq<Action>, i: nat, j: nat, r: nat)
    requires SettingOk(s) && AllWellFormed(s, actions) && i < j < |actions|
    requires Versioned(s, actions[i]) && !IsLoneOr(actions[i]) && Versioned(s, actions[j]) && !IsLoneOr(actions[j])
    ensures Held(s, actions[i]).Int? && Held(s, actions[j]).Int?
    ensures Touches(s, StateAt(s, rows, actions, i), actions[i], r)
            && Touches(s, StateAt(s, rows, actions, j), actions[j], r)
            && Unassigned(s, StateAt(s, rows, actions, i), actions[i..j], r) ==>
              Held(s, actions[i]).i < Held(s, actions[j]).i
  {
    hide Step, ModelOk, WellFormed, StatementOf, Run, FilterFor, IsLoneOr, Versioned, Unassigned;
    FilterForOk(s, actions[i]);
    FilterForOk(s, actions[j]);
    var was, now, between := StateAt(s, rows, actions, i), StateAt(s, rows, actions, j), actions[i..j];
    if Touches(s, was, actions[i], r) && Touches(s, now, actions[j], r) && Unassigned(s, was, between, r) {
      HitHasHeldVersion(s, was, actions[i], r);
      HitHasHeldVersion(s, now, actions[j], r);
      assert actions[..j] == actions[..i] + between;
      RunConcat(s, rows, actions[..i], between);
      VersionCountsWins(s, was, between, r);
      assert between[0] == actions[i];
    }
  }

  /** The caller's condition picks out one row: no other row of the table matches it. */
  ghost predicate OnlyRow(s: Setting, rows: Rows, a: Action, r: nat)
    requires WellFormed(s, a) && FilterOk(X(s), FilterFor(s, a))
  {
    forall k :: k in rows && k != r ==> !UserMatches(X(s), s.db, FilterFor(s, a), rows[k])
  }

  /** A row that an update is meant for: live, matching, of the version the instance holds. */
  ghost predicate Meant(s: Setting, a: Action, row: Row)
    requires SettingOk(s) && WellFormed(s, a) && Versioned(s, a) && FilterOk(X(s), FilterFor(s, a))
  {
    Live(FilterFor(s, a), row) && VersionOf(s, row) == Held(s, a) && UserMatches(X(s), s.db, FilterFor(s, a), row)
  }

  /** Only an Update(val) of a versioned model can be a conflict: deletes and updates without an instance succeed. */
  lemma OthersNeverConflict(s: Setting, rows: Rows, a: Action)
    requires IsQuote(s.q) && WellFormed(s, a) && !Versioned(s, a)
    ensures Report(s, rows, a) == if a.DoUpdate? && ClausesOf(s, a) == [] then Failed else Done
  {
    hide StatementOf, ClausesOf, FilterFor, Condition;
    StatementIs(s, a);
    if a.DoUpdate? { NothingToSet(s, a.u); }
  }

  lemma NothingToSet(s: Setting, u: Request)
    requires IsQuote(s.q) && WellFormed(s, DoUpdate(u))
    ensures ClausesOf(s, DoUpdate(u)) == [] ==> StatementOf(s, DoUpdate(u)).None?
  {
    hide ReadBack, EmitUpdate, SetItems, FilterOf, FilterOk, Condition, ItemsOk;
    UpdateRoundTrip(X(s), s.m, u);
    assert |ClausesOf(s, DoUpdate(u))| == |SetItems(X(s), s.m, u).value|;
  }

  /** A conflict is reported if and only if no row is meant, and then nothing changes. */
  lemma ConflictExactly(s: Setting, rows: Rows, a: Action)
    requires SettingOk(s) && WellFormed(s, a) && Versioned(s, a) && !IsLoneOr(a)
    ensures FilterOk(X(s), FilterFor(s, a))
    ensures Report(s, rows, a) == Conflict <==> forall r :: r in rows ==> !Meant(s, a, rows[r])
    ensures Report(s, rows, a) == Conflict ==> Step(s, rows, a) == rows
  {
    FilterForOk(s, a);
    hide StatementOf, WellFormed, ModelOk, UserMatches, FilterOk, FilterFor, IsLoneOr, Touches, Step, Live;
    VersionedIsBuilt(s, a);
    forall r | r in rows ensures Touches(s, rows, a, r) <==> Meant(s, a, rows[r]) {
      if Touches(s, rows, a, r) { HitHasHeldVersion(s, rows, a, r); }
      if Meant(s, a, rows[r]) { MatchingRowIsHit(s, rows, a, r); }
    }
    if Report(s, rows, a) == Conflict { NothingHit(s, rows, a); }
  }

  /** An update that is meant for one row, but not of that row's version, is a conflict. */
  lemma StaleConflicts(s: Setting, rows: Rows, a: Action, r: nat)
    requires SettingOk(s) && WellFormed(s, a) && Versioned(s, a) && !IsLoneOr(a)
    requires FilterOk(X(s), FilterFor(s, a)) && OnlyRow(s, rows, a, r)
    requires r in rows ==> VersionOf(s, rows[r]) != Held(s, a)
    ensures Report(s, rows, a) == Conflict && Step(s, rows, a) == rows
  {
    hide WellFormed, ModelOk, UserMatches, FilterOk, FilterFor, IsLoneOr, Report, Step, Live;
    ConflictExactly(s, rows, a);
  }

  lemma NothingHit(s: Setting, rows: Rows, a: Action)
    requires StatementOf(s, a).Some? && StatementOf(s, a).value.Update?
    requires forall r :: r in rows ==> !Touches(s, rows, a, r)
    ensures Step(s, rows, a) == rows
  {
    hide StatementOf, Selects, Apply;
    var next := Step(s, rows, a);
    forall r | r in rows ensures r in next && next[r] == rows[r] { assert !Touches(s, rows, a, r); }
    assert next.Keys == rows.Keys;
  }

  /**
   Once a single-row update has succeeded, executing it again is reported as a conflict and
   changes nothing, whatever happened in between, unless the version was assigned explicitly.
   */
  lemma RetryConflicts(s: Setting, rows: Rows, a: Action, between: seq<Action>, r: nat)
    requires SettingOk(s) && WellFormed(s, a) && Versioned(s, a) && !IsLoneOr(a) && AllWellFormed(s, between)
    ensures FilterOk(X(s), FilterFor(s, a))
    ensures var now := Run(s, Step(s, rows, a), between);
            Touches(s, rows, a, r) && !Assigns(s, a) && Unassigned(s, Step(s, rows, a), between, r) ==>
              (OnlyRow(s, now, a, r) ==> Report(s, now, a) == Conflict && Step(s, now, a) == now)
  {
    hide ModelOk, WellFormed, StatementOf, FilterFor, IsLoneOr, FilterOk, UserMatches, Report, Step, Run, Touches,
      OnlyRow, Unassigned;
    var next := Step(s, rows, a);
    var now := Run(s, next, between);
    FilterForOk(s, a);
    if Touches(s, rows, a, r) && !Assigns(s, a) && Unassigned(s, next, between, r) && OnlyRow(s, now, a, r) {
      HitHasHeldVersion(s, rows, a, r);
      HitStays(s, rows, a, r);
      OneMoreWin(s, rows, a, r);
      VersionCountsWins(s, next, between, r);
      StaleConflicts(s, now, a, r);
    }
  }

  /**
   An update from an instance that was just read succeeds on its live, matching row if and only
   if the version is below 2^63: above that it is sent as a negative number.
   */
  lemma FreshUpdateSucceedsExactly(s: Setting, rows: Rows, a: Action, r: nat)
    requires SettingOk(s) && WellFormed(s, a) && Versioned(s, a) && !IsLoneOr(a) && r in rows
    requires FilterOk(X(s), FilterFor(s, a)) && UserMatches(X(s), s.db, FilterFor(s, a), rows[r])
             && Live(FilterFor(s, a), rows[r])
    requires var name := s.m.version.value.goName; name in a.u.val.value && a.u.val.value[name] == VersionOf(s, rows[r])
    ensures VersionOf(s, rows[r]).Int? && (Touches(s, rows, a, r) <==> VersionOf(s, rows[r]).i < TWO63)
  {
    var v := a.u.val.value[s.m.version.value.goName];
    assert v.Int? && Held(s, a) == Int(Signed(v.i));
    hide ModelOk, WellFormed, StatementOf, FilterFor, IsLoneOr, FilterOk, UserMatches, Live, Touches;
    if Touches(s, rows, a, r) { HitHasHeldVersion(s, rows, a, r); }
    if v.i < TWO63 { MatchingRowIsHit(s, rows, a, r); }
  }

  // ---------------------------------------------------------------- soft-deleted rows

  predicate NoLoneOr(actions: seq<Action>) {
    forall k :: 0 <= k < |actions| ==> !IsLoneOr(actions[k])
  }

  lemma DeletedRowIsNotHit(s: Setting, rows: Rows, a: Action, r: nat)
    requires IsQuote(s.q) && s.m.deleted.Some? && WellFormed(s, a) && !IsLoneOr(a)
    requires r in rows && !ValueOf(rows[r], s.m.deleted.value.colName).Null?
    ensures !Touches(s, rows, a, r) && r in Step(s, rows, a) && Step(s, rows, a)[r] == rows[r]
  {
    hide StatementOf, WellFormed, UserMatches, FilterFor, IsLoneOr, Apply, Step;
    FilterForOk(s, a);
    if StatementOf(s, a).Some? { HitExactly(s, rows, a, r); }
    HitRow(s, rows, a, r);
  }

  /** A soft-deleted row never changes again, whatever is updated or deleted. */
  lemma {:induction false} DeletedRowIsFrozen(s: Setting, rows: Rows, actions: seq<Action>, r: nat)
    requires IsQuote(s.q) && s.m.deleted.Some? && AllWellFormed(s, actions) && NoLoneOr(actions)
    requires r in rows && !ValueOf(rows[r], s.m.deleted.value.colName).Null?
    ensures r in Run(s, rows, actions) && Run(s, rows, actions)[r] == rows[r]
    decreases |actions|
  {
    hide Step, WellFormed, IsLoneOr;
    if actions != [] {
      DeletedRowIsNotHit(s, rows, actions[0], r);
      DeletedRowIsFrozen(s, Step(s, rows, actions[0]), actions[1..], r);
    }
  }

  // ---------------------------------------------------------------- the excluded case

  /** With a lone OR an update hits a row of another version exactly when the row is live and matches the left side. */
  lemma StaleHitExactly(s: Setting, rows: Rows, a: Action, r: nat)
    requires SettingOk(s) && WellFormed(s, a) && Versioned(s, a) && IsLoneOr(a) && r in rows
    requires VersionOf(s, rows[r]) != Held(s, a)
    ensures FilterOk(X(s), FilterFor(s, a)) && CondOk(X(s), Where(a)[0].left)
    ensures Touches(s, rows, a, r) <==>
              Live(FilterFor(s, a), rows[r]) && Eval(s.db, rows[r], CondTree(X(s), Where(a)[0].left)) == T
  {
    SomethingIsAssigned(s, a.u);
    hide StatementOf, WellFormed, Eval, FilterTree, FilterOk, FilterFor, LoneOr, CondTree, Live, ClausesOf;
    StatementIs(s, a);
    FilterForOk(s, a);
    LoneOrSelects(X(s), s.db, rows[r], FilterFor(s, a));
  }

  /** With a lone OR a deleted row is hit exactly when it matches the right side and the version, if one is checked. */
  lemma LoneOrHitsDeleted(s: Setting, rows: Rows, a: Action, r: nat)
    requires IsQuote(s.q) && s.m.deleted.Some? && WellFormed(s, a) && IsLoneOr(a) && r in rows
             && StatementOf(s, a).Some?
    requires !ValueOf(rows[r], s.m.deleted.value.colName).Null?
    ensures FilterOk(X(s), FilterFor(s, a)) && CondOk(X(s), Where(a)[0].right)
    ensures Touches(s, rows, a, r) <==>
              Eval(s.db, rows[r], CondTree(X(s), Where(a)[0].right)) == T && VersionMatches(FilterFor(s, a), rows[r])
  {
    hide StatementOf, WellFormed, Eval, FilterTree, FilterOk, FilterFor, LoneOr, CondTree, VersionMatches;
    StatementIs(s, a);
    FilterForOk(s, a);
    LoneOrSelects(X(s), s.db, rows[r], FilterFor(s, a));
  }

  /**
   A deleted row is hit if and only if the condition is a lone OR whose right side it matches,
   the version included if one is checked; every other statement leaves it as it is.
   */
  lemma DeletedHitExactly(s: Setting, rows: Rows, a: Action, r: nat)
    requires IsQuote(s.q) && s.m.deleted.Some? && WellFormed(s, a) && r in rows
    requires !ValueOf(rows[r], s.m.deleted.value.colName).Null?
    ensures IsLoneOr(a) ==> CondOk(X(s), Where(a)[0].right)
    ensures Touches(s, rows, a, r) <==>
              && StatementOf(s, a).Some? && IsLoneOr(a)
              && Eval(s.db, rows[r], CondTree(X(s), Where(a)[0].right)) == T && VersionMatches(FilterFor(s, a), rows[r])
    ensures !Touches(s, rows, a, r) ==> r in Step(s, rows, a) && Step(s, rows, a)[r] == rows[r]
  {
    if IsLoneOr(a) { assert CondOk(X(s), Where(a)[0]) by { FilterForOk(s, a); } }
    hide WellFormed, FilterFor, CondTree, Eval, VersionMatches, StatementOf, Step;
    if IsLoneOr(a) && StatementOf(s, a).Some? { LoneOrHitsDeleted(s, rows, a, r); }
    if !IsLoneOr(a) { DeletedRowIsNotHit(s, rows, a, r); }
    HitRow(s, rows, a, r);
  }
}
