/**
 The routing tree of one HTTP method (web/route.go). Nodes live in one growing list and
 refer to each other by position, which stands for the source's pointers; registering a
 route updates nodes in place. A node's pattern is the list of segments that leads to it.
 Regular expressions are opaque: whether one compiles and whether it matches a segment
 are parameters. A panic ends a registration and leaves what it has built so far.
 */
module Router {
  import opened Common

  datatype Kind = Static | Regex | Param | Any

  datatype Node = Node(kind: Kind, path: string, children: map<string, nat>,
                       star: Option<nat>, param: Option<nat>, regex: Option<nat>,
                       paramName: string, regExpr: Option<string>, handler: Option<nat>)

  type Pattern = seq<string>

  // ---------------------------------------------------------------- segments

  /** Position of the first '(' after the colon, or |s|. */
  function ParenAt(s: string): (i: nat)
    ensures i <= |s|
    ensures i < |s| ==> s[i] == '('
    ensures forall j :: 0 <= j < i ==> s[j] != '('
  {
    if s == "" || s[0] == '(' then 0 else 1 + ParenAt(s[1..])
  }

  /** `:name(expr)`, as the source splits it. */
  predicate IsRegexSegment(seg: string) {
    seg != "" && seg[0] == ':' && ParenAt(seg[1..]) < |seg| - 2 && seg[|seg| - 1] == ')'
  }

  function KindOf(seg: string): Kind {
    if seg == "*" then Any
    else if seg != "" && seg[0] == ':' then (if IsRegexSegment(seg) then Regex else Param)
    else Static
  }

  function NameOf(seg: string): string {
    match KindOf(seg)
    case Regex => seg[1..][..ParenAt(seg[1..])]
    case Param => seg[1..]
    case _ => ""
  }

  function ExprOf(seg: string): string {
    if KindOf(seg).Regex? then seg[ParenAt(seg[1..]) + 2..|seg| - 1] else ""
  }

  /** `:name(expr)` with no parenthesis in the name. */
  function RegexText(n: string, e: string): string {
    ":" + n + "(" + e + ")"
  }

  lemma {:induction false} ParenAfter(n: string, rest: string)
    requires '(' !in n
    ensures ParenAt(n + "(" + rest) == |n|
  {
    if n != "" {
      assert (n + "(" + rest)[1..] == n[1..] + "(" + rest;
      ParenAfter(n[1..], rest);
    }
  }

  /** What such a segment says. */
  lemma RegexSegmentSays(n: string, e: string)
    requires '(' !in n
    ensures var seg := RegexText(n, e); KindOf(seg).Regex? && NameOf(seg) == n && ExprOf(seg) == e
  {
    var seg := RegexText(n, e);
    assert seg[1..] == n + "(" + (e + ")");
    ParenAfter(n, e + ")");
    assert seg[1..][..|n|] == n;
    assert seg[|n| + 2..|seg| - 1] == e;
  }

  /** And every segment of the kind is one. */
  lemma RegexSegmentIs(seg: string)
    requires KindOf(seg).Regex?
    ensures '(' !in NameOf(seg) && seg == RegexText(NameOf(seg), ExprOf(seg))
  {
    var i := ParenAt(seg[1..]);
    assert seg[i + 1] == '(' && seg[|seg| - 1] == ')';
    assert seg == [seg[0]] + seg[1..][..i] + [seg[i + 1]] + seg[i + 2..|seg| - 1] + [seg[|seg| - 1]];
  }

  /** The kind of a segment, told by its text: star, `:name(expr)`, another `:name`, or plain. */
  lemma KindExactly(seg: string)
    ensures KindOf(seg).Any? <==> seg == "*"
    ensures KindOf(seg).Static? <==> seg != "*" && !(seg != "" && seg[0] == ':')
    ensures KindOf(seg).Regex? <==> exists n, e :: '(' !in n && seg == RegexText(n, e)
    ensures KindOf(seg).Param? ==> ":" + NameOf(seg) == seg
  {
    if KindOf(seg).Regex? { RegexSegmentIs(seg); }
    if n, e :| '(' !in n && seg == RegexText(n, e) { RegexSegmentSays(n, e); }
    if KindOf(seg).Param? { assert seg == [seg[0]] + seg[1..]; }
  }

  /** The segment binds the parameter n: it is `:n`, or `:n(expr)`. */
  ghost predicate Named(seg: string, n: string) {
    n != "" && ((KindOf(seg).Param? && seg == ":" + n) || exists e :: '(' !in n && seg == RegexText(n, e))
  }

  lemma NameExactly(seg: string, n: string)
    ensures Named(seg, n) <==> n != "" && NameOf(seg) == n
  {
    if e :| '(' !in n && seg == RegexText(n, e) { RegexSegmentSays(n, e); }
    if KindOf(seg).Regex? { RegexSegmentIs(seg); }
    if KindOf(seg).Param? {
      KindExactly(seg);
      assert (":" + n)[1..] == n;
    }
  }

  function NewNode(seg: string): Node {
    Node(KindOf(seg), seg, map[], None, None, None, NameOf(seg),
         if KindOf(seg).Regex? then Some(ExprOf(seg)) else None, None)
  }

  // ---------------------------------------------------------------- the shape of a tree

  ghost predicate IsEdge(n: Node, seg: string, c: nat) {
    match KindOf(seg)
    case Any => n.star == Some(c)
    case Param => n.param == Some(c)
    case Regex => n.regex == Some(c)
    case Static => seg in n.children && n.children[seg] == c
  }

  /** The list, the pattern of each node and its parent. */
  datatype Tree = Tree(nodes: seq<Node>, pats: seq<Pattern>, parents: seq<nat>)

  ghost predicate LeadsTo(t: Tree, i: nat, c: nat, kind: Kind)
    requires |t.nodes| == |t.pats| && i < |t.nodes|
  {
    && i < c < |t.nodes| && t.nodes[c].kind == kind == KindOf(t.nodes[c].path)
    && t.pats[c] == t.pats[i] + [t.nodes[c].path]
  }

  /** Star, parameter and regular expression children exclude each other. */
  ghost predicate Exclusive(n: Node) {
    && (n.star.Some? ==> n.param.None? && n.regex.None?)
    && (n.param.Some? ==> n.regex.None?)
  }

  ghost predicate NodeOk(t: Tree, i: nat)
    requires |t.nodes| == |t.pats| && i < |t.nodes|
  {
    var n := t.nodes[i];
    && Exclusive(n)
    && (forall s :: s in n.children ==>
          s != "" && LeadsTo(t, i, n.children[s], Static) && t.nodes[n.children[s]].path == s)
    && (n.star.Some? ==> LeadsTo(t, i, n.star.value, Any))
    && (n.param.Some? ==> LeadsTo(t, i, n.param.value, Param))
    && (n.regex.Some? ==> LeadsTo(t, i, n.regex.value, Regex))
  }

  /** Every node but the root hangs from its parent and carries what its segment says. */
  ghost predicate HangsOk(t: Tree, c: nat)
    requires |t.nodes| == |t.pats| == |t.parents| && 0 < c < |t.nodes|
  {
    var n, p := t.nodes[c], t.parents[c];
    && p < c && IsEdge(t.nodes[p], n.path, c) && t.pats[c] == t.pats[p] + [n.path]
    && n.kind == KindOf(n.path) && n.paramName == NameOf(n.path)
    && n.regExpr == (if KindOf(n.path).Regex? then Some(ExprOf(n.path)) else None)
  }

  ghost predicate Shape(t: Tree) {
    && |t.nodes| == |t.pats| == |t.parents| > 0 && t.pats[0] == []
    && t.nodes[0].kind.Static? && t.nodes[0].regExpr.None? && t.nodes[0].paramName == ""
    && (forall i :: 0 <= i < |t.nodes| ==> NodeOk(t, i))
    && (forall c :: 0 < c < |t.nodes| ==> HangsOk(t, c))
  }

  /** Two nodes never have the same pattern. */
  lemma {:induction false} PatternsAreUnique(t: Tree, i: nat, j: nat)
    requires Shape(t) && i < |t.nodes| && j < |t.nodes| && t.pats[i] == t.pats[j]
    ensures i == j
    decreases i
  {
    assert i > 0 ==> HangsOk(t, i);
    assert j > 0 ==> HangsOk(t, j);
    if i > 0 && j > 0 {
      var p := t.pats[i];
      assert p[..|p| - 1] == t.pats[t.parents[i]] == t.pats[t.parents[j]];
      assert p[|p| - 1] == t.nodes[i].path == t.nodes[j].path;
      PatternsAreUnique(t, t.parents[i], t.parents[j]);
    }
  }

  /** The node for a prefix of a node's pattern. */
  lemma {:induction false} PrefixNode(t: Tree, c: nat, k: nat) returns (i: nat)
    requires Shape(t) && c < |t.nodes| && k <= |t.pats[c]|
    ensures i <= c && t.pats[i] == t.pats[c][..k]
    decreases c
  {
    if k == |t.pats[c]| {
      i := c;
      assert t.pats[c][..k] == t.pats[c];
    } else {
      assert HangsOk(t, c);
      i := PrefixNode(t, t.parents[c], k);
      assert t.pats[c][..k] == t.pats[t.parents[c]][..k];
    }
  }

  // ---------------------------------------------------------------- growing a tree

  function WithEdge(n: Node, seg: string, c: nat): Node {
    match KindOf(seg)
    case Any => n.(star := Some(c))
    case Param => n.(param := Some(c))
    case Regex => n.(regex := Some(c))
    case Static => n.(children := n.children[seg := c])
  }

  ghost function Grow(t: Tree, i: nat, seg: string): Tree
    requires |t.nodes| == |t.pats| && i < |t.nodes|
  {
    Tree(t.nodes[i := WithEdge(t.nodes[i], seg, |t.nodes|)] + [NewNode(seg)], t.pats + [t.pats[i] + [seg]],
         t.parents + [i])
  }

  /** A new child may be hung where the kinds already present allow it. */
  predicate Free(n: Node, seg: string) {
    match KindOf(seg)
    case Any => n.star.None? && n.param.None? && n.regex.None?
    case Param => n.star.None? && n.param.None? && n.regex.None?
    case Regex => n.star.None? && n.param.None? && n.regex.None?
    case Static => seg !in n.children
  }

  lemma GrowLeadsTo(t: Tree, i: nat, seg: string, j: nat, c: nat, kind: Kind)
    requires |t.nodes| == |t.pats| && i < |t.nodes| && j < |t.nodes| && LeadsTo(t, j, c, kind)
    ensures c < |t.nodes| && LeadsTo(Grow(t, i, seg), j, c, kind) && Grow(t, i, seg).nodes[c].path == t.nodes[c].path
  {
    hide KindOf, NameOf, ExprOf;
  }

  lemma NewEdgeLeads(t: Tree, i: nat, seg: string)
    requires |t.nodes| == |t.pats| && i < |t.nodes|
    ensures LeadsTo(Grow(t, i, seg), i, |t.nodes|, KindOf(seg)) && Grow(t, i, seg).nodes[|t.nodes|].path == seg
  {
    hide KindOf, NameOf, ExprOf;
  }

  lemma GrowNodeOk(t: Tree, i: nat, seg: string, j: nat)
    requires Shape(t) && i < |t.nodes| && seg != "" && Free(t.nodes[i], seg) && j <= |t.nodes|
    ensures NodeOk(Grow(t, i, seg), j)
  {
    hide KindOf, NameOf, ExprOf, LeadsTo, Shape;
    ShapeSizes(t);
    var t' := Grow(t, i, seg);
    if j < |t.nodes| {
      var n := t.nodes[j];
      assert NodeOk(t, j) by { ShapeNode(t, j); }
      forall s | s in n.children
        ensures LeadsTo(t', j, n.children[s], Static) && n.children[s] < |t'.nodes| && t'.nodes[n.children[s]].path == s
      {
        GrowLeadsTo(t, i, seg, j, n.children[s], Static);
      }
      if n.star.Some? { GrowLeadsTo(t, i, seg, j, n.star.value, Any); }
      if n.param.Some? { GrowLeadsTo(t, i, seg, j, n.param.value, Param); }
      if n.regex.Some? { GrowLeadsTo(t, i, seg, j, n.regex.value, Regex); }
      NewEdgeLeads(t, i, seg);
    }
  }

  lemma ShapeNode(t: Tree, j: nat)
    requires Shape(t) && j < |t.nodes|
    ensures |t.nodes| == |t.pats| && NodeOk(t, j)
  {
  }

  lemma GrowHangsOk(t: Tree, i: nat, seg: string, c: nat)
    requires Shape(t) && i < |t.nodes| && seg != "" && Free(t.nodes[i], seg) && 0 < c <= |t.nodes|
    ensures HangsOk(Grow(t, i, seg), c)
  {
    hide KindOf, NameOf, ExprOf;
    if c < |t.nodes| { assert HangsOk(t, c); }
  }

  /** Hanging a new node where it is allowed keeps the shape. */
  lemma GrowKeepsShape(t: Tree, i: nat, seg: string)
    requires Shape(t) && i < |t.nodes| && seg != "" && Free(t.nodes[i], seg)
    ensures Shape(Grow(t, i, seg))
  {
    hide KindOf, NameOf, ExprOf, NodeOk, HangsOk;
    var t' := Grow(t, i, seg);
    forall j | 0 <= j < |t'.nodes| ensures NodeOk(t', j) { GrowNodeOk(t, i, seg, j); }
    forall c | 0 < c < |t'.nodes| ensures HangsOk(t', c) { GrowHangsOk(t, i, seg, c); }
  }

  // ---------------------------------------------------------------- registering

  /** What registering one segment under a node does. */
  datatype Turn = Conflict | Fresh | Existing(c: nat)

  function TurnAt(nodes: seq<Node>, n: Node, seg: string, compiles: string -> bool): Turn {
    match KindOf(seg)
    case Any =>
      if n.param.Some? || n.regex.Some? then Conflict else if n.star.Some? then Existing(n.star.value) else Fresh
    case Param =>
      if n.star.Some? || n.regex.Some? then Conflict
      else if n.param.None? then Fresh
      else if n.param.value < |nodes| && nodes[n.param.value].path == seg then Existing(n.param.value)
      else Conflict
    case Regex =>
      if n.star.Some? || n.param.Some? then Conflict
      else if n.regex.None? then (if compiles(ExprOf(seg)) then Fresh else Conflict)
      // the check compares with the fields of the node itself, not with those of its child
      else if n.regExpr.None? || n.regExpr.value != ExprOf(seg) || n.paramName != NameOf(seg) then Conflict
      else Existing(n.regex.value)
    case Static => if seg in n.children then Existing(n.children[seg]) else Fresh
  }

  /** Whether a walk from a node of the tree (or from a node made on this walk) meets no conflict. */
  ghost predicate Walkable(nodes: seq<Node>, at: Option<nat>, segs: seq<string>, compiles: string -> bool)
    decreases |segs|
  {
    segs == [] ||
    (&& segs[0] != ""
     && if at.None? || at.value >= |nodes|
        then (KindOf(segs[0]).Regex? ==> compiles(ExprOf(segs[0]))) && Walkable(nodes, None, segs[1..], compiles)
        else
          match TurnAt(nodes, nodes[at.value], segs[0], compiles)
          case Conflict => false
          case Fresh => Walkable(nodes, None, segs[1..], compiles)
          case Existing(c) => !KindOf(segs[0]).Regex? && Walkable(nodes, Some(c), segs[1..], compiles))
  }

  ghost predicate Leaf(n: Node) {
    n.children == map[] && n.star.None? && n.param.None? && n.regex.None?
  }

  ghost predicate NoRegex(p: Pattern) {
    forall k :: 0 <= k < |p| ==> !KindOf(p[k]).Regex?
  }

  /** The handlers in the tree are exactly the registered routes. */
  ghost predicate Serves(t: Tree, routes: map<Pattern, nat>)
    requires |t.nodes| == |t.pats|
  {
    && (forall i :: 0 <= i < |t.nodes| && t.nodes[i].handler.Some? ==>
          t.pats[i] in routes && routes[t.pats[i]] == t.nodes[i].handler.value)
    && (forall p :: p in routes ==> HasHandler(t, p, routes[p]))
  }

  ghost predicate HasHandler(t: Tree, p: Pattern, h: nat)
    requires |t.nodes| == |t.pats|
  {
    exists i :: 0 <= i < |t.nodes| && t.pats[i] == p && t.nodes[i].handler == Some(h)
  }

  function Split(s: string): (r: seq<string>)
    ensures |r| >= 1
    ensures forall i :: 0 <= i < |r| ==> '/' !in r[i]
  {
    if s == "" then [""]
    else
      var rest := Split(s[1..]);
      if s[0] == '/' then [""] + rest else [[s[0]] + rest[0]] + rest[1..]
  }

  function Join(parts: seq<string>): string
    requires |parts| >= 1
  {
    if |parts| == 1 then parts[0] else parts[0] + "/" + Join(parts[1..])
  }

  /** Splitting loses nothing. */
  lemma {:induction false} JoinSplit(s: string)
    ensures Join(Split(s)) == s
  {
    if s != "" {
      JoinSplit(s[1..]);
      var rest := Split(s[1..]);
      if s[0] == '/' {
        assert Split(s)[1..] == rest;
      } else {
        assert Split(s)[1..] == rest[1..];
      }
    }
  }

  lemma {:induction false} SplitInFront(s: string, rest: string)
    requires '/' !in s
    ensures Split(s + "/" + rest) == [s] + Split(rest)
  {
    var whole := s + "/" + rest;
    if s == "" {
      assert whole[1..] == rest;
    } else {
      SplitInFront(s[1..], rest);
      assert whole[1..] == s[1..] + "/" + rest;
      assert s == [s[0]] + s[1..] && whole[0] == s[0];
    }
  }

  lemma {:induction false} SplitOne(s: string)
    requires '/' !in s
    ensures Split(s) == [s]
  {
    if s != "" {
      SplitOne(s[1..]);
      assert s == [s[0]] + s[1..];
    }
  }

  /** And joining segments without slashes is undone by it. */
  lemma {:induction false} SplitJoin(parts: seq<string>)
    requires |parts| >= 1 && forall i :: 0 <= i < |parts| ==> '/' !in parts[i]
    ensures Split(Join(parts)) == parts
    decreases |parts|
  {
    if |parts| == 1 {
      SplitOne(parts[0]);
    } else {
      SplitJoin(parts[1..]);
      SplitInFront(parts[0], Join(parts[1..]));
    }
  }

  predicate WellFormed(path: string) {
    path != "" && path[0] == '/' && (path == "/" || path[|path| - 1] != '/')
  }

  function PatternOf(path: string): Pattern
    requires path != ""
  {
    if path == "/" then [] else Split(path[1..])
  }

  lemma GrowServes(t: Tree, i: nat, seg: string, routes: map<Pattern, nat>)
    requires |t.nodes| == |t.pats| && i < |t.nodes| && Serves(t, routes)
    ensures Serves(Grow(t, i, seg), routes)
  {
    var t' := Grow(t, i, seg);
    forall p | p in routes ensures HasHandler(t', p, routes[p]) {
      assert HasHandler(t, p, routes[p]);
      var j :| 0 <= j < |t.nodes| && t.pats[j] == p && t.nodes[j].handler == Some(routes[p]);
      assert t'.pats[j] == p && t'.nodes[j].handler == Some(routes[p]);
    }
  }

  ghost function Handle(t: Tree, c: nat, h: nat): Tree
    requires c < |t.nodes|
  {
    t.(nodes := t.nodes[c := t.nodes[c].(handler := Some(h))])
  }

  lemma HandleKeepsShape(t: Tree, c: nat, h: nat)
    requires Shape(t) && c < |t.nodes|
    ensures Shape(Handle(t, c, h))
  {
    hide KindOf, NameOf, ExprOf;
    var t' := Handle(t, c, h);
    forall j | 0 <= j < |t'.nodes| ensures NodeOk(t', j) { assert NodeOk(t, j); }
    forall j | 0 < j < |t'.nodes| ensures HangsOk(t', j) { assert HangsOk(t, j); }
  }

  lemma HandleServes(t: Tree, c: nat, h: nat, routes: map<Pattern, nat>)
    requires Shape(t) && c < |t.nodes| && Serves(t, routes) && t.nodes[c].handler.None?
    ensures t.pats[c] !in routes && Serves(Handle(t, c, h), routes[t.pats[c] := h])
  {
    hide NodeOk, HangsOk;
    var t', r' := Handle(t, c, h), routes[t.pats[c] := h];
    if t.pats[c] in routes {
      assert HasHandler(t, t.pats[c], routes[t.pats[c]]);
      var j :| 0 <= j < |t.nodes| && t.pats[j] == t.pats[c] && t.nodes[j].handler == Some(routes[t.pats[c]]);
      PatternsAreUnique(t, c, j);
    }
    forall i | 0 <= i < |t'.nodes| && t'.nodes[i].handler.Some?
      ensures t'.pats[i] in r' && r'[t'.pats[i]] == t'.nodes[i].handler.value
    {
      if t.pats[i] == t.pats[c] { PatternsAreUnique(t, c, i); }
    }
    forall p | p in r' ensures HasHandler(t', p, r'[p]) {
      if p == t.pats[c] {
        assert t'.pats[c] == p;
      } else {
        assert HasHandler(t, p, routes[p]);
        var j :| 0 <= j < |t.nodes| && t.pats[j] == p && t.nodes[j].handler == Some(routes[p]);
        assert t'.pats[j] == p;
      }
    }
  }

  /** On a tree node reached without passing a regular expression, an existing expression child always conflicts. */
  lemma RegexNeverReused(t: Tree, i: nat, seg: string, compiles: string -> bool)
    requires Shape(t) && i < |t.nodes| && KindOf(seg).Regex? && (NoRegex(t.pats[i]) || Leaf(t.nodes[i]))
    ensures !TurnAt(t.nodes, t.nodes[i], seg, compiles).Existing?
  {
    hide NodeOk;
    if i > 0 && t.nodes[i].regex.Some? {
      assert HangsOk(t, i);
      assert t.pats[i][|t.pats[i]| - 1] == t.nodes[i].path;
    }
  }

  datatype MatchInfo = MatchInfo(node: nat, params: map<string, string>, matchedPath: string)

  function TrimLeft(s: string): string {
    if s != "" && s[0] == '/' then TrimLeft(s[1..]) else s
  }

  function TrimRight(s: string): string {
    if s != "" && s[|s| - 1] == '/' then TrimRight(s[..|s| - 1]) else s
  }

  function Trim(s: string): string {
    TrimRight(TrimLeft(s))
  }

  ghost predicate AllSlashes(s: string) {
    forall i :: 0 <= i < |s| ==> s[i] == '/'
  }

  lemma OneMoreSlash(s: string, b: string, t: string)
    requires s != "" && s[0] == '/' && s[1..] == b + t && AllSlashes(b)
    ensures AllSlashes("/" + b) && s == "/" + b + t
  {
    assert s == [s[0]] + s[1..];
  }

  lemma {:induction false} TrimLeftCuts(s: string) returns (a: string)
    ensures AllSlashes(a) && s == a + TrimLeft(s)
    ensures TrimLeft(s) == "" || TrimLeft(s)[0] != '/'
  {
    if s != "" && s[0] == '/' {
      var b := TrimLeftCuts(s[1..]);
      a := "/" + b;
      OneMoreSlash(s, b, TrimLeft(s[1..]));
    } else {
      a := "";
    }
  }

  lemma {:induction false} TrimRightCuts(s: string) returns (b: string)
    ensures AllSlashes(b) && s == TrimRight(s) + b
    ensures TrimRight(s) == "" || (TrimRight(s)[|TrimRight(s)| - 1] != '/' && TrimRight(s)[0] == s[0])
  {
    if s != "" && s[|s| - 1] == '/' {
      var c := TrimRightCuts(s[..|s| - 1]);
      b := c + "/";
      assert s == s[..|s| - 1] + [s[|s| - 1]];
    } else {
      b := "";
    }
  }

  /** Trimming cuts off exactly the slashes at both ends. */
  lemma TrimExactly(s: string) returns (a: string, b: string)
    ensures AllSlashes(a) && AllSlashes(b) && s == a + Trim(s) + b
    ensures Trim(s) == "" || (Trim(s)[0] != '/' && Trim(s)[|Trim(s)| - 1] != '/')
  {
    a := TrimLeftCuts(s);
    b := TrimRightCuts(TrimLeft(s));
  }

  /** Parameter values by name; a repeated name keeps the last value. */
  function ParamsOf(p: Pattern, segs: seq<string>): map<string, string>
    requires |p| <= |segs|
  {
    if p == [] then map[]
    else
      var k := |p| - 1;
      var before := ParamsOf(p[..k], segs);
      if NameOf(p[k]) == "" then before else before[NameOf(p[k]) := segs[k]]
  }

  function PathText(p: Pattern): string {
    if p == [] then "" else PathText(p[..|p| - 1]) + "/" + p[|p| - 1]
  }

  /** Some segment of the pattern binds n. */
  ghost predicate Binds(p: Pattern, n: string) {
    exists k :: 0 <= k < |p| && Named(p[k], n)
  }

  /** The k-th segment binds n and no later one does. */
  ghost predicate LastNamed(p: Pattern, k: nat, n: string) {
    k < |p| && Named(p[k], n) && forall j :: k < j < |p| ==> !Named(p[j], n)
  }

  /** The parameters are those that the pattern binds, each with the request's segment at its last place. */
  lemma {:induction false} ParamOf(p: Pattern, segs: seq<string>, n: string)
    requires |p| <= |segs|
    ensures n in ParamsOf(p, segs) <==> Binds(p, n)
    ensures forall k: nat :: LastNamed(p, k, n) ==> ParamsOf(p, segs)[n] == segs[k]
  {
    hide Named, NameOf;
    if p != [] {
      var front, last := p[..|p| - 1], p[|p| - 1];
      ParamOf(front, segs, n);
      NameExactly(last, n);
      BindsSnoc(p, n);
      forall k: nat | LastNamed(p, k, n) ensures n in ParamsOf(p, segs) && ParamsOf(p, segs)[n] == segs[k] {
        if k < |front| {
          assert forall j :: 0 <= j < |front| ==> front[j] == p[j];
          assert LastNamed(front, k, n) && !Named(p[|p| - 1], n);
        }
      }
    }
  }

  lemma BindsSnoc(p: Pattern, n: string)
    requires p != []
    ensures Binds(p, n) <==> Binds(p[..|p| - 1], n) || Named(p[|p| - 1], n)
  {
    hide Named;
    if Binds(p[..|p| - 1], n) {
      var k :| 0 <= k < |p| - 1 && Named(p[..|p| - 1][k], n);
      assert Named(p[k], n);
    }
  }

  lemma ParamsMean(p: Pattern, segs: seq<string>)
    requires |p| <= |segs|
    ensures forall n :: n in ParamsOf(p, segs) <==> Binds(p, n)
    ensures forall n, k: nat :: LastNamed(p, k, n) ==> n in ParamsOf(p, segs) && ParamsOf(p, segs)[n] == segs[k]
  {
    hide Named, ParamsOf;
    forall n ensures n in ParamsOf(p, segs) <==> Binds(p, n) { ParamOf(p, segs, n); }
    forall n, k: nat | LastNamed(p, k, n) ensures n in ParamsOf(p, segs) && ParamsOf(p, segs)[n] == segs[k] {
      ParamOf(p, segs, n);
    }
  }

  lemma {:induction false} JoinSnoc(parts: seq<string>, last: string)
    requires parts != []
    ensures Join(parts + [last]) == Join(parts) + "/" + last
    decreases |parts|
  {
    if |parts| > 1 {
      JoinSnoc(parts[1..], last);
      assert (parts + [last])[1..] == parts[1..] + [last];
    } else {
      assert (parts + [last])[1..] == [last];
    }
  }

  /** The matched path is the pattern with slashes. */
  lemma {:induction false} PathTextJoins(p: Pattern)
    ensures p != [] ==> PathText(p) == "/" + Join(p)
  {
    if |p| > 1 {
      PathTextJoins(p[..|p| - 1]);
      JoinSnoc(p[..|p| - 1], p[|p| - 1]);
      assert p == p[..|p| - 1] + [p[|p| - 1]];
    } else if |p| == 1 {
      assert p[..0] == [];
      assert PathText(p) == "" + "/" + p[0];
    }
  }

  class MethodTree {
    const compiles: string -> bool
    var nodes: seq<Node>
    ghost var pats: seq<Pattern>
    ghost var parents: seq<nat>
    ghost var routes: map<Pattern, nat>

    ghost function View(): Tree reads this {
      Tree(nodes, pats, parents)
    }

    ghost predicate Valid() reads this {
      Shape(View()) && Serves(View(), routes)
    }

    constructor (compiles: string -> bool)
      ensures Valid() && routes == map[] && this.compiles == compiles && |nodes| == 1 && Leaf(nodes[0])
    {
      this.compiles := compiles;
      nodes := [Node(Static, "/", map[], None, None, None, "", None, None)];
      pats, parents, routes := [[]], [0], map[];
    }

    /** Hangs a new node under node i. */
    method Create(i: nat, seg: string) returns (c: nat)
      requires Valid() && i < |nodes| && seg != "" && Free(nodes[i], seg)
      modifies this
      ensures Valid() && routes == old(routes) && c == |old(nodes)| && View() == Grow(old(View()), i, seg)
    {
      hide Shape, Serves;
      ShapeSizes(View());
      GrowKeepsShape(View(), i, seg);
      GrowServes(View(), i, seg, routes);
      c := |nodes|;
      nodes := nodes[i := WithEdge(nodes[i], seg, c)] + [NewNode(seg)];
      pats := pats + [pats[i] + [seg]];
      parents := parents + [i];
    }

    /** Finds or creates the child for a segment; None where the source panics. */
    method ChildOrCreate(i: nat, seg: string) returns (child: Option<nat>)
      requires Valid() && i < |nodes| && seg != ""
      modifies this
      ensures Valid() && routes == old(routes)
      ensures match TurnAt(old(nodes), old(nodes[i]), seg, compiles)
              case Conflict => child.None? && View() == old(View())
              case Existing(c) => child == Some(c) && View() == old(View())
              case Fresh => child == Some(|old(nodes)|) && View() == Grow(old(View()), i, seg)
    {
      var n := nodes[i];
      assert NodeOk(View(), i);
      hide Shape, Serves, NameOf, ExprOf, IsRegexSegment, Grow, LeadsTo;
      if seg == "*" {
        if n.param.Some? || n.regex.Some? { return None; }
        if n.star.None? {
          var c := Create(i, seg);
          return Some(c);
        }
        return n.star;
      }
      if seg[0] == ':' {
        if !IsRegexSegment(seg) {
          if n.star.Some? || n.regex.Some? { return None; }
          if n.param.None? {
            var c := Create(i, seg);
            return Some(c);
          }
          assert n.param.value < |nodes| by { ChildInRange(View(), i, n.param.value); }
          if nodes[n.param.value].path != seg { return None; }
          return n.param;
        }
        if n.star.Some? || n.param.Some? { return None; }
        if n.regex.None? {
          if !compiles(ExprOf(seg)) { return None; }
          var c := Create(i, seg);
          return Some(c);
        }
        if n.regExpr.None? || n.regExpr.value != ExprOf(seg) || n.paramName != NameOf(seg) { return None; }
        return n.regex;
      }
      if seg !in n.children {
        var c := Create(i, seg);
        return Some(c);
      }
      return Some(n.children[seg]);
    }

    /** The walk of a registration over its segments; None where the source panics on the way. */
    method Walk(segs: seq<string>) returns (end: Option<nat>)
      requires Valid()
      modifies this
      ensures Valid() && routes == old(routes)
      ensures end.Some? <==> Walkable(old(nodes), Some(0), segs, compiles)
      ensures end.Some? ==> end.value < |nodes| && pats[end.value] == segs
    {
      var cur: nat, k: nat := 0, 0;
      ghost var made, was := false, nodes;
      while k < |segs|
        invariant 0 <= k <= |segs| && Valid() && routes == old(routes)
        invariant cur < |nodes| && |was| <= |nodes| && pats[cur] == segs[..k]
        invariant !made ==> nodes == was && NoRegex(pats[cur])
        invariant made ==> Leaf(nodes[cur])
        invariant Walkable(was, Some(0), segs, compiles) <==>
                    Walkable(was, if made then None else Some(cur), segs[k..], compiles)
      {
        var seg := segs[k];
        assert segs[k..][0] == seg && segs[k..][1..] == segs[k + 1..];
        if seg == "" { return None; }
        var child := StepOf(cur, seg, made, was, segs[k..]);
        if child.None? { return None; }
        made := made || child.value >= |was|;
        cur := child.value;
        assert segs[..k + 1] == segs[..k] + [seg];
        k := k + 1;
      }
      assert segs[..k] == segs;
      end := Some(cur);
    }

    /**
     Registers a route. It succeeds exactly when the path is well formed, the walk meets no
     conflict and the pattern is new; then that route is added, else no route changes.
     */
    method AddRoute(path: string, handler: nat) returns (ok: bool)
      requires Valid()
      modifies this
      ensures Valid()
      ensures ok <==> WellFormed(path) && PatternOf(path) !in old(routes)
                      && SegmentsOk(PatternOf(path), compiles) && NoClash(old(View()), PatternOf(path), 0)
      ensures routes == if ok then old(routes)[PatternOf(path) := handler] else old(routes)
      ensures path == "/" ==> (ok <==> [] !in old(routes)) && (ok ==> routes == old(routes)[[] := handler])
      ensures ok && path != "/" ==> path == "/" + Join(PatternOf(path)) && |path| > 1 && path[|path| - 1] != '/'
    {
      if path == "" { return false; }
      if path[0] != '/' { return false; }
      if path != "/" && path[|path| - 1] == '/' { return false; }
      var segs := PatternOf(path);
      JoinSplit(path[1..]);
      WalkableExactly(View(), segs, compiles);
      var end := Walk(segs);
      if end.None? { return false; }
      var c := end.value;
      assert segs in routes <==> nodes[c].handler.Some? by { HandlerMeansRoute(View(), c, routes); }
      if nodes[c].handler.Some? { return false; }
      HandleKeepsShape(View(), c, handler);
      HandleServes(View(), c, handler, routes);
      nodes := nodes[c := nodes[c].(handler := Some(handler))];
      routes := routes[pats[c] := handler];
      return true;
    }

    /** The lookup loop: follows the children, collecting parameters and the matched path. */
    method FindInTree(path: string, matches: (string, string) -> bool) returns (mi: Option<MatchInfo>)
      requires Valid()
      ensures path == "/" ==> mi == Some(MatchInfo(0, map[], "/"))
      ensures path != "/" ==>
                var segs := Split(Trim(path));
                && (mi.Some? <==> Find(nodes, 0, segs, matches).Some?)
                && (mi.Some? ==>
                      && Find(nodes, 0, segs, matches) == Some(mi.value.node) && mi.value.node < |nodes|
                      && 0 < |pats[mi.value.node]| <= |segs|
                      && mi.value.params == ParamsOf(pats[mi.value.node], segs)
                      && (forall n :: n in mi.value.params <==> Binds(pats[mi.value.node], n))
                      && (forall n, k: nat :: LastNamed(pats[mi.value.node], k, n) ==> mi.value.params[n] == segs[k])
                      && mi.value.matchedPath == PathText(pats[mi.value.node]) == "/" + Join(pats[mi.value.node]))
    {
      if path == "/" { return Some(MatchInfo(0, map[], "/")); }
      var segs := Split(Trim(path));
      var cur: nat, k := 0, 0;
      var params: map<string, string>, matched := map[], "";
      assert segs[0..] == segs;
      while k < |segs|
        invariant 0 <= k <= |segs| && cur < |nodes| && |pats[cur]| == k
        invariant Find(nodes, 0, segs, matches) == Find(nodes, cur, segs[k..], matches)
        invariant params == ParamsOf(pats[cur], segs) && matched == PathText(pats[cur])
      {
        var seg := segs[k];
        assert segs[k..][0] == seg && segs[k..][1..] == segs[k + 1..];
        var child := Child(nodes, nodes[cur], seg, matches);
        if child.None? {
          NoChildMeansNoStar(nodes, nodes[cur], seg, matches);
          if nodes[cur].star.Some? { assert false; }  // the source falls back to the star child here
          return None;
        }
        LookupStep(View(), cur, seg, matches);
        var c := child.value;
        ParamsGrow(pats[cur], nodes[c].path, segs);
        matched := matched + "/" + nodes[c].path;
        if nodes[c].paramName != "" {
          params := params[nodes[c].paramName := seg];
        }
        if nodes[c].kind.Any? && nodes[c].handler.Some? {
          ParamsMean(pats[c], segs);
          PathTextJoins(pats[c]);
          return Some(MatchInfo(c, params, matched));
        }
        cur := c;
        k := k + 1;
      }
      ParamsMean(pats[cur], segs);
      PathTextJoins(pats[cur]);
      mi := Some(MatchInfo(cur, params, matched));
    }

    /** One segment of the walk, with what it means for the rest of it. */
    method StepOf(cur: nat, seg: string, ghost made: bool, ghost was: seq<Node>, ghost rest: seq<string>)
      returns (child: Option<nat>)
      requires Valid() && cur < |nodes| && seg != "" && rest != [] && rest[0] == seg
      requires |was| <= |nodes| && (if made then Leaf(nodes[cur]) else nodes == was && NoRegex(pats[cur]))
      modifies this
      ensures Valid() && routes == old(routes) && |old(nodes)| <= |nodes|
      ensures child.None? ==> !Walkable(was, if made then None else Some(cur), rest, compiles)
      ensures child.Some? ==>
                && child.value < |nodes| && pats[child.value] == old(pats[cur]) + [seg]
                && (Walkable(was, if made then None else Some(cur), rest, compiles) <==>
                      Walkable(was, if made || child.value >= |was| then None else Some(child.value), rest[1..],
                               compiles))
                && (if made || child.value >= |was| then Leaf(nodes[child.value])
                    else nodes == was && NoRegex(pats[child.value]))
    {
      ghost var turn := TurnAt(nodes, nodes[cur], seg, compiles);
      ghost var t := View();
      child := ChildOrCreate(cur, seg);
      StepMeaning(t, cur, seg, made, was, rest, compiles);
    }
  }

  lemma LookupStep(t: Tree, i: nat, seg: string, matches: (string, string) -> bool)
    requires Shape(t) && i < |t.nodes| && Child(t.nodes, t.nodes[i], seg, matches).Some?
    ensures var c := Child(t.nodes, t.nodes[i], seg, matches).value;
            && c < |t.nodes| && t.pats[c] == t.pats[i] + [t.nodes[c].path]
            && t.nodes[c].paramName == NameOf(t.nodes[c].path)
  {
    ChildMatches(t, i, seg, matches);
    assert HangsOk(t, Child(t.nodes, t.nodes[i], seg, matches).value);
  }

  lemma ParamsGrow(p: Pattern, seg: string, segs: seq<string>)
    requires |p| < |segs|
    ensures ParamsOf(p + [seg], segs)
         == if NameOf(seg) == "" then ParamsOf(p, segs) else ParamsOf(p, segs)[NameOf(seg) := segs[|p|]]
    ensures PathText(p + [seg]) == PathText(p) + "/" + seg
  {
    assert (p + [seg])[..|p|] == p;
  }

  lemma HandlerMeansRoute(t: Tree, c: nat, routes: map<Pattern, nat>)
    requires Shape(t) && Serves(t, routes) && c < |t.nodes|
    ensures t.pats[c] in routes <==> t.nodes[c].handler.Some?
    ensures t.pats[c] in routes ==> routes[t.pats[c]] == t.nodes[c].handler.value
  {
    if t.pats[c] in routes {
      assert HasHandler(t, t.pats[c], routes[t.pats[c]]);
      var j :| 0 <= j < |t.nodes| && t.pats[j] == t.pats[c] && t.nodes[j].handler == Some(routes[t.pats[c]]);
      PatternsAreUnique(t, c, j);
    }
  }

  /** How the walk goes on after one segment. */
  lemma StepMeaning(t: Tree, cur: nat, seg: string, made: bool, was: seq<Node>, rest: seq<string>,
                    compiles: string -> bool)
    requires Shape(t) && cur < |t.nodes| && seg != "" && rest != [] && rest[0] == seg
    requires |was| <= |t.nodes| && (if made then Leaf(t.nodes[cur]) else t.nodes == was && NoRegex(t.pats[cur]))
    ensures var turn := TurnAt(t.nodes, t.nodes[cur], seg, compiles); var from := if made then None else Some(cur);
            && (turn.Conflict? ==> !Walkable(was, from, rest, compiles))
            && (turn.Fresh? ==> (Walkable(was, from, rest, compiles) <==> Walkable(was, None, rest[1..], compiles)))
            && (turn.Existing? ==>
                  && !made && turn.c < |was| && t.pats[turn.c] == t.pats[cur] + [seg] && NoRegex(t.pats[turn.c])
                  && (Walkable(was, from, rest, compiles) <==> Walkable(was, Some(turn.c), rest[1..], compiles)))
  {
    hide NameOf, ExprOf, IsRegexSegment;
    assert NodeOk(t, cur);
    if KindOf(seg).Regex? { RegexNeverReused(t, cur, seg, compiles); }
  }

  lemma ChildInRange(t: Tree, i: nat, c: nat)
    requires Shape(t) && i < |t.nodes| && t.nodes[i].param == Some(c)
    ensures c < |t.nodes|
  {
    assert NodeOk(t, i);
  }

  lemma ShapeSizes(t: Tree)
    requires Shape(t)
    ensures |t.nodes| == |t.pats| == |t.parents| > 0
  {
  }

  // ---------------------------------------------------------------- looking up

  /** Static before expression before parameter before star. */
  function Child(nodes: seq<Node>, n: Node, seg: string, matches: (string, string) -> bool): Option<nat> {
    if seg in n.children then Some(n.children[seg])
    else if n.regex.Some? && n.regex.value < |nodes| && nodes[n.regex.value].regExpr.Some?
         && matches(nodes[n.regex.value].regExpr.value, seg) then n.regex
    else if n.param.Some? then n.param
    else n.star
  }

  /** The node a lookup of segs ends at, from node i; a handled star takes all that is left. */
  function Find(nodes: seq<Node>, i: nat, segs: seq<string>, matches: (string, string) -> bool): Option<nat>
    decreases |segs|
  {
    if segs == [] || i >= |nodes| then Some(i)
    else
      var c := Child(nodes, nodes[i], segs[0], matches);
      if c.None? || c.value >= |nodes| then None
      else if nodes[c.value].kind.Any? && nodes[c.value].handler.Some? then c
      else Find(nodes, c.value, segs[1..], matches)
  }

  predicate SegmentMatches(p: string, seg: string, matches: (string, string) -> bool) {
    match KindOf(p)
    case Static => p == seg
    case Regex => matches(ExprOf(p), seg)
    case _ => true
  }

  /** A pattern matches segment by segment; one that ends in a star also matches anything longer. */
  ghost predicate PatternMatches(p: Pattern, segs: seq<string>, matches: (string, string) -> bool) {
    && |p| <= |segs| && (|p| < |segs| ==> p != [] && p[|p| - 1] == "*")
    && (forall k :: 0 <= k < |p| ==> SegmentMatches(p[k], segs[k], matches))
  }

  /** The child taken for a segment hangs below, and its segment matches. */
  lemma ChildMatches(t: Tree, i: nat, seg: string, matches: (string, string) -> bool)
    requires Shape(t) && i < |t.nodes|
    ensures var c := Child(t.nodes, t.nodes[i], seg, matches);
            c.Some? ==> && i < c.value < |t.nodes| && t.pats[c.value] == t.pats[i] + [t.nodes[c.value].path]
                        && t.nodes[c.value].kind == KindOf(t.nodes[c.value].path)
                        && SegmentMatches(t.nodes[c.value].path, seg, matches)
  {
    hide NameOf, IsRegexSegment;
    assert NodeOk(t, i);
    var c := Child(t.nodes, t.nodes[i], seg, matches);
    if c.Some? { assert HangsOk(t, c.value); }
  }

  /** When no child is found there is no star child either: the fallback after a failed step is dead. */
  lemma NoChildMeansNoStar(nodes: seq<Node>, n: Node, seg: string, matches: (string, string) -> bool)
    requires Child(nodes, n, seg, matches).None?
    ensures n.star.None?
  {
  }

  ghost predicate IsPrefix(a: Pattern, b: Pattern) {
    |a| <= |b| && b[..|a|] == a
  }

  /** The node found extends the starting node's pattern by segments that match. */
  lemma {:induction false} FindMatches(t: Tree, i: nat, segs: seq<string>, matches: (string, string) -> bool)
    requires Shape(t) && i < |t.nodes|
    ensures var r := Find(t.nodes, i, segs, matches);
            r.Some? ==> && r.value < |t.nodes| && IsPrefix(t.pats[i], t.pats[r.value])
                        && PatternMatches(t.pats[r.value][|t.pats[i]|..], segs, matches)
    decreases |segs|
  {
    hide Shape, KindOf, Child, NameOf, IsRegexSegment;
    ShapeSizes(t);
    if segs == [] {
      assert t.pats[i][|t.pats[i]|..] == [];
    } else {
      var c := Child(t.nodes, t.nodes[i], segs[0], matches);
      ChildMatches(t, i, segs[0], matches);
      if c.Some? {
        FindMatches(t, c.value, segs[1..], matches);
        var r := Find(t.nodes, i, segs, matches);
        if r.Some? { FoundBelow(t, i, c.value, r.value, segs, matches); }
      }
    }
  }

  lemma FoundBelow(t: Tree, i: nat, c: nat, r: nat, segs: seq<string>, matches: (string, string) -> bool)
    requires Shape(t) && i < c < |t.nodes| && r < |t.nodes| && segs != []
    requires t.pats[c] == t.pats[i] + [t.nodes[c].path] && SegmentMatches(t.nodes[c].path, segs[0], matches)
    requires t.nodes[c].kind == KindOf(t.nodes[c].path)
    requires (r == c && t.nodes[c].kind.Any?)
          || (IsPrefix(t.pats[c], t.pats[r]) && PatternMatches(t.pats[r][|t.pats[c]|..], segs[1..], matches))
    ensures IsPrefix(t.pats[i], t.pats[r]) && PatternMatches(t.pats[r][|t.pats[i]|..], segs, matches)
  {
    hide Shape, NameOf, IsRegexSegment, ExprOf, PatternMatches, SegmentMatches;
    ShapeSizes(t);
    var n := |t.pats[i]|;
    assert t.pats[c][..n] == t.pats[i];
    if r == c && t.nodes[c].kind.Any? {
      assert t.pats[r][n..] == ["*"];
      StarMatchesAll(segs, matches);
    } else {
      var below := t.pats[r][n + 1..];
      assert t.pats[r][..n + 1] == t.pats[c];
      assert t.pats[r][..n] == t.pats[i];
      assert t.pats[r][n..] == [t.nodes[c].path] + below;
      MatchesInFront(t.nodes[c].path, below, segs, matches);
    }
  }

  lemma StarMatchesAll(segs: seq<string>, matches: (string, string) -> bool)
    requires segs != []
    ensures PatternMatches(["*"], segs, matches)
  {
  }

  lemma MatchesInFront(p: string, below: Pattern, segs: seq<string>, matches: (string, string) -> bool)
    requires segs != [] && SegmentMatches(p, segs[0], matches) && PatternMatches(below, segs[1..], matches)
    ensures PatternMatches([p] + below, segs, matches)
  {
    hide SegmentMatches;
    forall k | 0 <= k < |below| + 1 ensures SegmentMatches(([p] + below)[k], segs[k], matches) {
      if k > 0 { assert SegmentMatches(below[k - 1], segs[1..][k - 1], matches); }
    }
  }

  /** Soundness: a lookup that ends at a handler serves a registered route whose pattern matches the request. */
  lemma LookupIsSound(t: Tree, routes: map<Pattern, nat>, segs: seq<string>, matches: (string, string) -> bool)
    requires Shape(t) && Serves(t, routes)
    requires var r := Find(t.nodes, 0, segs, matches); r.Some? && r.value < |t.nodes| && t.nodes[r.value].handler.Some?
    ensures var c := Find(t.nodes, 0, segs, matches).value;
            && t.pats[c] in routes && routes[t.pats[c]] == t.nodes[c].handler.value
            && PatternMatches(t.pats[c], segs, matches)
  {
    FindMatches(t, 0, segs, matches);
    var c := Find(t.nodes, 0, segs, matches).value;
    assert t.pats[c][0..] == t.pats[c];
  }

  /** Node i is the node of p's first k segments. */
  ghost predicate OnPath(t: Tree, p: Pattern, k: nat, i: nat) {
    |t.nodes| == |t.pats| && k <= |p| && i < |t.nodes| && t.pats[i] == p[..k]
  }

  /**
   Nothing takes the request away from pattern p: where p has no static segment there is no
   static sibling equal to the request's segment, and no proper prefix of p is a handled star.
   */
  ghost predicate Unshadowed(t: Tree, p: Pattern, segs: seq<string>) {
    && |p| <= |segs|
    && (forall i: nat, k: nat :: k < |p| && OnPath(t, p, k, i) ==>
        KindOf(p[k]).Static? || segs[k] !in t.nodes[i].children)
    && (forall i: nat, k: nat :: 0 < k < |p| && OnPath(t, p, k, i) ==>
        !(t.nodes[i].kind.Any? && t.nodes[i].handler.Some?))
  }

  /** At a node on the way to p the lookup stays on the way exactly when no static sibling intervenes. */
  lemma StaysOnPath(t: Tree, p: Pattern, k: nat, i: nat, c: nat, seg: string, matches: (string, string) -> bool)
    requires Shape(t) && k < |p| && OnPath(t, p, k, i) && OnPath(t, p, k + 1, c)
    requires SegmentMatches(p[k], seg, matches)
    ensures t.nodes[c].path == p[k] && t.nodes[c].kind == KindOf(p[k])
    ensures Child(t.nodes, t.nodes[i], seg, matches) == Some(c) <==>
              (KindOf(p[k]).Static? || seg !in t.nodes[i].children)
    ensures Child(t.nodes, t.nodes[i], seg, matches).Some?
  {
    hide NameOf, IsRegexSegment;
    assert p[..k + 1][..k] == p[..k];
    assert HangsOk(t, c);
    assert t.pats[c][..k] == t.pats[t.parents[c]];
    PatternsAreUnique(t, t.parents[c], i);
    assert t.pats[c][k] == p[k];
    assert NodeOk(t, i);
    if seg in t.nodes[i].children { assert NodeOk(t, i) && t.nodes[t.nodes[i].children[seg]].path == seg; }
  }

  lemma {:induction false} FindReaches(t: Tree, p: Pattern, c: nat, k: nat, i: nat, segs: seq<string>,
                                       matches: (string, string) -> bool)
    requires Shape(t) && c < |t.nodes| && t.pats[c] == p && OnPath(t, p, k, i)
    requires PatternMatches(p, segs, matches) && (|p| < |segs| ==> t.nodes[c].handler.Some?)
    requires k == 0 || k < |p| || |p| == |segs|
    requires Unshadowed(t, p, segs)
    ensures Find(t.nodes, i, segs[k..], matches) == Some(c)
    decreases |p| - k
  {
    hide Shape, KindOf, Child, SegmentMatches;
    ShapeSizes(t);
    if k == |p| {
      assert p[..k] == p && segs[k..] == [] by { EmptyPattern(p, segs, matches); }
      PatternsAreUnique(t, i, c);
    } else {
      var next := PrefixNode(t, c, k + 1);
      assert SegmentMatches(p[k], segs[k], matches);
      StaysOnPath(t, p, k, i, next, segs[k], matches);
      assert segs[k..][0] == segs[k] && segs[k..][1..] == segs[k + 1..];
      if k + 1 == |p| {
        assert p[..k + 1] == p;
        PatternsAreUnique(t, next, c);
        LastIsStar(t, p, c, segs, matches);
        if |p| == |segs| && !(t.nodes[c].kind.Any? && t.nodes[c].handler.Some?) {
          FindReaches(t, p, c, k + 1, next, segs, matches);
        }
      } else {
        assert OnPath(t, p, k + 1, next);
        FindReaches(t, p, c, k + 1, next, segs, matches);
      }
    }
  }

  lemma EmptyPattern(p: Pattern, segs: seq<string>, matches: (string, string) -> bool)
    requires PatternMatches(p, segs, matches) && (p == [] || |p| == |segs|)
    ensures |p| == |segs|
  {
  }

  lemma LastIsStar(t: Tree, p: Pattern, c: nat, segs: seq<string>, matches: (string, string) -> bool)
    requires Shape(t) && c < |t.nodes| && t.pats[c] == p != [] && PatternMatches(p, segs, matches)
    ensures |p| < |segs| ==> t.nodes[c].kind.Any?
  {
    assert HangsOk(t, c);
    assert t.pats[c][|p| - 1] == t.nodes[c].path;
  }

  /** A lookup that leaves p's way, or stops early on it, does not end at p's node. */
  lemma {:induction false} FindMisses(t: Tree, p: Pattern, c: nat, k: nat, i: nat, segs: seq<string>,
                                      matches: (string, string) -> bool)
    requires Shape(t) && c < |t.nodes| && t.pats[c] == p && OnPath(t, p, k, i)
    requires PatternMatches(p, segs, matches) && Find(t.nodes, i, segs[k..], matches) == Some(c)
    ensures forall j: nat, m: nat :: k <= m < |p| && OnPath(t, p, m, j) ==>
              KindOf(p[m]).Static? || segs[m] !in t.nodes[j].children
    ensures forall j: nat, m: nat :: k < m < |p| && OnPath(t, p, m, j) ==>
              !(t.nodes[j].kind.Any? && t.nodes[j].handler.Some?)
    decreases |p| - k
  {
    hide Shape, KindOf, Child, SegmentMatches;
    ShapeSizes(t);
    if k < |p| {
      var next := PrefixNode(t, c, k + 1);
      assert SegmentMatches(p[k], segs[k], matches);
      StaysOnPath(t, p, k, i, next, segs[k], matches);
      assert segs[k..][0] == segs[k] && segs[k..][1..] == segs[k + 1..];
      var child := Child(t.nodes, t.nodes[i], segs[k], matches).value;
      ChildMatches(t, i, segs[k], matches);
      FindMatches(t, child, segs[k + 1..], matches);
      assert IsPrefix(t.pats[child], p);
      assert t.pats[child] == p[..k + 1];
      PatternsAreUnique(t, child, next);
      if !(t.nodes[next].kind.Any? && t.nodes[next].handler.Some?) {
        FindMisses(t, p, c, k + 1, next, segs, matches);
      }
      forall j: nat, m: nat | k <= m < |p| && OnPath(t, p, m, j)
        ensures KindOf(p[m]).Static? || segs[m] !in t.nodes[j].children
        ensures k < m ==> !(t.nodes[j].kind.Any? && t.nodes[j].handler.Some?)
      {
        if m == k { PatternsAreUnique(t, i, j); }
        if m == k + 1 { PatternsAreUnique(t, next, j); }
      }
    }
  }

  /**
   Completeness, exactly: a registered route answers a request that its pattern matches
   if and only if nothing shadows it.
   */
  lemma LookupIsCompleteExactly(t: Tree, routes: map<Pattern, nat>, p: Pattern, c: nat, segs: seq<string>,
                                matches: (string, string) -> bool)
    requires Shape(t) && Serves(t, routes) && p in routes && c < |t.nodes| && t.pats[c] == p
    requires PatternMatches(p, segs, matches)
    ensures t.nodes[c].handler == Some(routes[p])
    ensures Find(t.nodes, 0, segs, matches) == Some(c) <==> Unshadowed(t, p, segs)
  {
    HandlerMeansRoute(t, c, routes);
    hide Find;
    assert p[..0] == [] && segs[0..] == segs;
    if Unshadowed(t, p, segs) {
      FindReaches(t, p, c, 0, 0, segs, matches);
    }
    if Find(t.nodes, 0, segs, matches) == Some(c) {
      FindMisses(t, p, c, 0, 0, segs, matches);
    }
  }

  // ---------------------------------------------------------------- requests without an answer

  /** The lookup ends at a node with a handler. */
  predicate Answered(t: Tree, segs: seq<string>, matches: (string, string) -> bool) {
    var r := Find(t.nodes, 0, segs, matches);
    r.Some? && r.value < |t.nodes| && t.nodes[r.value].handler.Some?
  }

  /** Beside some segment of p that is not static hangs a static segment equal to the request's. */
  ghost predicate TakenAway(t: Tree, p: Pattern, segs: seq<string>) {
    exists i: nat, k: nat :: k < |p| && k < |segs| && OnPath(t, p, k, i)
                             && !KindOf(p[k]).Static? && segs[k] in t.nodes[i].children
  }

  lemma RouteHasNode(t: Tree, routes: map<Pattern, nat>, p: Pattern) returns (c: nat)
    requires Shape(t) && Serves(t, routes) && p in routes
    ensures c < |t.nodes| && t.pats[c] == p && t.nodes[c].handler == Some(routes[p])
  {
    hide Shape;
    ShapeSizes(t);
    assert HasHandler(t, p, routes[p]);
    c :| c < |t.nodes| && t.pats[c] == p && t.nodes[c].handler == Some(routes[p]);
  }

  /** A handled star on the way to a matching pattern is a shorter route that matches too. */
  lemma StarPrefixMatches(t: Tree, p: Pattern, k: nat, i: nat, segs: seq<string>, matches: (string, string) -> bool)
    requires Shape(t) && 0 < k < |p| && OnPath(t, p, k, i) && t.nodes[i].kind.Any? && PatternMatches(p, segs, matches)
    ensures PatternMatches(p[..k], segs, matches)
    ensures TakenAway(t, p[..k], segs) ==> TakenAway(t, p, segs)
  {
    hide SegmentMatches, NameOf, ExprOf, IsRegexSegment, NodeOk;
    assert HangsOk(t, i);
    assert p[..k][k - 1] == t.nodes[i].path == "*";
    assert forall m :: 0 <= m < k ==> p[..k][m] == p[m];
    if TakenAway(t, p[..k], segs) {
      var j: nat, m: nat :| m < k && m < |segs| && OnPath(t, p[..k], m, j)
                            && !KindOf(p[..k][m]).Static? && segs[m] in t.nodes[j].children;
      assert p[..k][..m] == p[..m];
      assert OnPath(t, p, m, j);
    }
  }

  /** A matching route beside which no static segment takes the request away: it answers, or a star above it does. */
  lemma {:induction false} SomeRouteAnswers(t: Tree, routes: map<Pattern, nat>, p: Pattern, segs: seq<string>,
                                            matches: (string, string) -> bool)
    requires Shape(t) && Serves(t, routes) && p in routes
    requires PatternMatches(p, segs, matches) && !TakenAway(t, p, segs)
    ensures Answered(t, segs, matches)
    decreases |p|
  {
    hide Shape, Find, KindOf, SegmentMatches;
    ShapeSizes(t);
    if i: nat, k: nat :| 0 < k < |p| && OnPath(t, p, k, i) && t.nodes[i].kind.Any? && t.nodes[i].handler.Some? {
      StarPrefixMatches(t, p, k, i, segs, matches);
      assert p[..k] == t.pats[i];
      SomeRouteAnswers(t, routes, p[..k], segs, matches);
    } else {
      var c := RouteHasNode(t, routes, p);
      LookupIsCompleteExactly(t, routes, p, c, segs, matches);
    }
  }

  /**
   Which requests are answered: exactly those that match some registered route beside which no
   static segment takes them away. So a request that routes match ends at no handler if and only
   if at every one of them a static sibling of a parameter, expression or star takes it away.
   */
  lemma AnsweredExactly(t: Tree, routes: map<Pattern, nat>, segs: seq<string>, matches: (string, string) -> bool)
    requires Shape(t) && Serves(t, routes)
    ensures Answered(t, segs, matches) <==>
              exists p :: p in routes && PatternMatches(p, segs, matches) && !TakenAway(t, p, segs)
  {
    hide Shape, KindOf, SegmentMatches;
    ShapeSizes(t);
    if Answered(t, segs, matches) {
      LookupIsSound(t, routes, segs, matches);
      var c := Find(t.nodes, 0, segs, matches).value;
      hide Find;
      LookupIsCompleteExactly(t, routes, t.pats[c], c, segs, matches);
      assert t.pats[c] in routes && PatternMatches(t.pats[c], segs, matches) && !TakenAway(t, t.pats[c], segs);
    }
    if p :| p in routes && PatternMatches(p, segs, matches) && !TakenAway(t, p, segs) {
      SomeRouteAnswers(t, routes, p, segs, matches);
    }
  }

  predicate AllStatic(p: Pattern) {
    forall k :: 0 <= k < |p| ==> KindOf(p[k]).Static?
  }

  /** A node whose pattern is static is found by that pattern. */
  lemma StaticIsFound(t: Tree, p: Pattern, c: nat, matches: (string, string) -> bool)
    requires Shape(t) && AllStatic(p) && c < |t.nodes| && t.pats[c] == p
    ensures Find(t.nodes, 0, p, matches) == Some(c)
  {
    forall i: nat, k: nat | 0 < k < |p| && OnPath(t, p, k, i) ensures !t.nodes[i].kind.Any? {
      assert HangsOk(t, i);
      assert p[..k][k - 1] == t.nodes[i].path;
    }
    hide Find, NodeOk, HangsOk, NameOf, ExprOf;
    assert p[..0] == [] && p[0..] == p;
    FindReaches(t, p, c, 0, 0, p, matches);
  }

  /**
   The lookup does not go back: with routes such as /a/:id and /a/b/c the request /a/b matches the
   first, and ends at the node on the way to the second, which has no handler.
   */
  lemma LookupDoesNotGoBack(t: Tree, routes: map<Pattern, nat>, p: Pattern, id: string, b: string, rest: Pattern,
                            matches: (string, string) -> bool)
    requires Shape(t) && Serves(t, routes) && AllStatic(p + [b]) && rest != []
    requires p + [id] in routes && p + [b] + rest in routes && p + [b] !in routes && SegmentMatches(id, b, matches)
    ensures PatternMatches(p + [id], p + [b], matches)
    ensures Find(t.nodes, 0, p + [b], matches).Some? && !Answered(t, p + [b], matches)
  {
    hide NameOf, ExprOf, IsRegexSegment, NodeOk, HangsOk;
    forall k | 0 <= k < |p| + 1 ensures SegmentMatches((p + [id])[k], (p + [b])[k], matches) {
      if k < |p| { assert (p + [b])[k] == p[k]; }
    }
    hide Shape, Find, SegmentMatches, KindOf;
    ShapeSizes(t);
    var end := RouteHasNode(t, routes, p + [b] + rest);
    var c := PrefixNode(t, end, |p| + 1);
    assert (p + [b] + rest)[..|p| + 1] == p + [b];
    StaticIsFound(t, p + [b], c, matches);
    HandlerMeansRoute(t, c, routes);
  }

  /** Static segments never conflict. */
  lemma {:induction false} StaticIsWalkable(nodes: seq<Node>, at: Option<nat>, segs: seq<string>,
                                            compiles: string -> bool)
    requires AllStatic(segs) && "" !in segs
    ensures Walkable(nodes, at, segs, compiles)
    decreases |segs|
  {
    hide KindOf;
    if segs != [] {
      var turn := if at.None? || at.value >= |nodes| then Fresh else TurnAt(nodes, nodes[at.value], segs[0], compiles);
      StaticIsWalkable(nodes, if turn.Existing? then Some(turn.c) else None, segs[1..], compiles);
    }
  }

  predicate IsSegments(parts: seq<string>) {
    |parts| >= 1 && forall i :: 0 <= i < |parts| ==> parts[i] != "" && '/' !in parts[i]
  }

  lemma {:induction false} JoinEnds(parts: seq<string>)
    requires IsSegments(parts)
    ensures var s := Join(parts); s != "" && s[0] != '/' && s[|s| - 1] != '/'
    decreases |parts|
  {
    if |parts| > 1 { JoinEnds(parts[1..]); }
  }

  lemma TrimOne(s: string)
    requires s != "" && s[0] != '/' && s[|s| - 1] != '/'
    ensures Trim("/" + s) == s
  {
    assert TrimLeft(s) == s && TrimRight(s) == s;
    assert ("/" + s)[1..] == s;
    assert TrimLeft("/" + s) == s;
  }

  /** A path of segments is registered under those segments, and looked up by them. */
  lemma PathOfSegments(parts: seq<string>)
    requires IsSegments(parts)
    ensures var path := "/" + Join(parts);
            WellFormed(path) && path != "/" && PatternOf(path) == parts && Split(Trim(path)) == parts
  {
    hide Split, Trim;
    JoinEnds(parts);
    SplitJoin(parts);
    TrimOne(Join(parts));
    assert ("/" + Join(parts))[1..] == Join(parts);
  }

  /** In a new tree a static segment followed by a parameter can be registered. */
  lemma FirstIsWalkable(nodes: seq<Node>, a: string, id: string, compiles: string -> bool)
    requires |nodes| == 1 && Leaf(nodes[0]) && a != "" && KindOf(a).Static? && id != "" && KindOf(id).Param?
    ensures Walkable(nodes, Some(0), [a, id], compiles)
  {
    hide KindOf;
    assert [a, id][1..] == [id] && [id][1..] == [];
    assert Walkable(nodes, None, [id], compiles);
  }

  method RegisterTwo(a: string, id: string, b: string, c: string) returns (m: MethodTree)
    requires IsSegments([a, id]) && IsSegments([a, b, c]) && KindOf(id).Param? && AllStatic([a, b, c])
    ensures fresh(m) && m.Valid() && m.routes == map[[a, id] := 0, [a, b, c] := 1]
  {
    Segments(a, id, b, c);
    hide Shape, Serves, Split, KindOf, Walkable, AllStatic, PatternOf, Leaf, WellFormed, IsSegments, Join, SegmentsOk,
      NoClash;
    m := new MethodTree(_ => true);
    FirstIsWalkable(m.nodes, a, id, m.compiles);
    WalkableExactly(m.View(), [a, id], m.compiles);
    PathOfSegments([a, id]);
    var ok := m.AddRoute("/" + Join([a, id]), 0);
    StaticIsWalkable(m.nodes, Some(0), [a, b, c], m.compiles);
    WalkableExactly(m.View(), [a, b, c], m.compiles);
    PathOfSegments([a, b, c]);
    ok := m.AddRoute("/" + Join([a, b, c]), 1);
  }

  /** Such a tree, built by registering two routes like /a/:id and /a/b/c, and /a/b looked up in it. */
  method MatchedWithoutHandler(a: string, id: string, b: string, c: string, matches: (string, string) -> bool)
    returns (m: MethodTree, mi: Option<MatchInfo>)
    requires IsSegments([a, id]) && IsSegments([a, b, c]) && KindOf(id).Param? && AllStatic([a, b, c])
    ensures fresh(m) && m.Valid() && m.routes == map[[a, id] := 0, [a, b, c] := 1]
    ensures PatternMatches([a, id], [a, b], matches)
    ensures mi.Some? && mi.value.node < |m.nodes| && m.nodes[mi.value.node].handler.None?
  {
    Segments(a, id, b, c);
    assert SegmentMatches(id, b, matches);
    hide Shape, Serves, Split, Trim, KindOf, PatternMatches, SegmentMatches, AllStatic, Find, Answered, WellFormed,
      IsSegments, Join;
    m := RegisterTwo(a, id, b, c);
    LookupDoesNotGoBack(m.View(), m.routes, [a], id, b, [c], matches);
    PathOfSegments([a, b]);
    mi := m.FindInTree("/" + Join([a, b]), matches);
    NotAnswered(m.View(), [a, b], matches);
  }

  lemma Segments(a: string, id: string, b: string, c: string)
    requires IsSegments([a, id]) && IsSegments([a, b, c]) && KindOf(id).Param? && AllStatic([a, b, c])
    ensures a != "" && KindOf(a).Static? && id != "" && "" !in [a, b, c] && AllStatic([a] + [b])
    ensures IsSegments([a, b])
    ensures [a] + [id] == [a, id] && [a] + [b] == [a, b] && [a] + [b] + [c] == [a, b, c]
    ensures [a, id] != [a, b] && |[a, id]| != |[a, b, c]| && |[a, b]| != |[a, b, c]|
  {
    hide NameOf, ExprOf, IsRegexSegment;
    assert [a, id][1] == id && [a, b, c][1] == b && [a, b, c][0] == a && [a, b][1] == b && [a, b, c][2] == c;
  }

  lemma NotAnswered(t: Tree, segs: seq<string>, matches: (string, string) -> bool)
    requires Shape(t) && !Answered(t, segs, matches)
    ensures var r := Find(t.nodes, 0, segs, matches);
            r.Some? && r.value < |t.nodes| ==> t.nodes[r.value].handler.None?
  {
  }

  /**
   A position held by a regular expression is never registered through again: every later
   path with the same beginning, even with the same expression, panics.
   */
  lemma {:induction false} RegexPositionIsFinal(t: Tree, q: Pattern, k: nat, c: nat, j: nat, i: nat,
                                                compiles: string -> bool)
    requires Shape(t) && k < |q| && KindOf(q[k]).Regex? && OnPath(t, q, k + 1, c)
    requires j <= k && OnPath(t, q, j, i)
    ensures !Walkable(t.nodes, Some(i), q[j..], compiles)
    decreases k - j
  {
    hide Shape, NameOf, ExprOf, IsRegexSegment;
    ShapeSizes(t);
    assert q[j..][0] == q[j] && q[j..][1..] == q[j + 1..];
    assert q[..k + 1][..j + 1] == q[..j + 1];
    var next := PrefixNode(t, c, j + 1);
    ExistingTurn(t, q, j, i, next, compiles);
    if j < k && !TurnAt(t.nodes, t.nodes[i], q[j], compiles).Conflict? {
      RegexPositionIsFinal(t, q, k, c, j + 1, next, compiles);
    }
  }

  // ---------------------------------------------------------------- which routes can be registered

  /** Node i has a star, parameter or expression child other than this segment, or any if this is an expression. */
  ghost predicate Clashes(t: Tree, i: nat, seg: string)
    requires i < |t.nodes|
  {
    !KindOf(seg).Static?
    && exists c :: 0 <= c < |t.nodes| && Some(c) in {t.nodes[i].star, t.nodes[i].param, t.nodes[i].regex}
                   && (t.nodes[c].path != seg || KindOf(seg).Regex?)
  }

  ghost predicate SegmentsOk(segs: seq<string>, compiles: string -> bool) {
    forall k :: 0 <= k < |segs| ==> segs[k] != "" && (KindOf(segs[k]).Regex? ==> compiles(ExprOf(segs[k])))
  }

  /** No node on the way of q has a child that clashes with q's next segment. */
  ghost predicate NoClash(t: Tree, q: Pattern, from: nat) {
    forall i: nat, k: nat :: from <= k < |q| && OnPath(t, q, k, i) ==> !Clashes(t, i, q[k])
  }

  /** A segment conflicts exactly when it clashes or does not compile; else it leads to its node, if there is one. */
  lemma TurnExactly(t: Tree, i: nat, seg: string, compiles: string -> bool)
    requires Shape(t) && i < |t.nodes| && NoRegex(t.pats[i])
    ensures var turn := TurnAt(t.nodes, t.nodes[i], seg, compiles);
            && (turn.Conflict? <==> Clashes(t, i, seg) || (KindOf(seg).Regex? && !compiles(ExprOf(seg))))
            && (turn.Existing? ==> turn.c < |t.nodes| && t.pats[turn.c] == t.pats[i] + [seg] && !KindOf(seg).Regex?)
            && (turn.Fresh? ==> forall c :: 0 <= c < |t.nodes| ==> t.pats[c] != t.pats[i] + [seg])
  {
    hide NameOf, ExprOf, IsRegexSegment;
    assert NodeOk(t, i);
    if KindOf(seg).Regex? { RegexNeverReused(t, i, seg, compiles); }
    forall c | 0 <= c < |t.nodes| && t.pats[c] == t.pats[i] + [seg] ensures IsEdge(t.nodes[i], seg, c) {
      EdgeTo(t, i, seg, c);
    }
  }

  lemma EdgeTo(t: Tree, i: nat, seg: string, c: nat)
    requires Shape(t) && i < |t.nodes| && c < |t.nodes| && t.pats[c] == t.pats[i] + [seg]
    ensures IsEdge(t.nodes[i], seg, c)
  {
    hide NodeOk, KindOf;
    assert HangsOk(t, c);
    assert t.pats[c][..|t.pats[i]|] == t.pats[t.parents[c]];
    PatternsAreUnique(t, t.parents[c], i);
    assert t.pats[c][|t.pats[i]|] == t.nodes[c].path == seg;
  }

  lemma {:induction false} NewIsWalkable(nodes: seq<Node>, segs: seq<string>, compiles: string -> bool)
    ensures Walkable(nodes, None, segs, compiles) <==> SegmentsOk(segs, compiles)
  {
    hide KindOf, ExprOf;
    if segs != [] {
      NewIsWalkable(nodes, segs[1..], compiles);
      SegmentsOkTail(segs, compiles);
    }
  }

  lemma SegmentsOkTail(segs: seq<string>, compiles: string -> bool)
    requires segs != []
    ensures SegmentsOk(segs, compiles) <==>
              && segs[0] != "" && (KindOf(segs[0]).Regex? ==> compiles(ExprOf(segs[0])))
              && SegmentsOk(segs[1..], compiles)
  {
    hide KindOf, ExprOf;
    assert segs == [segs[0]] + segs[1..];
    assert forall k :: 0 < k < |segs| ==> segs[k] == segs[1..][k - 1];
  }

  /** At the node of q's first k segments. */
  lemma NoClashTail(t: Tree, q: Pattern, k: nat, i: nat)
    requires Shape(t) && k < |q| && OnPath(t, q, k, i)
    ensures NoClash(t, q, k) <==> !Clashes(t, i, q[k]) && NoClash(t, q, k + 1)
  {
    hide Shape, Clashes;
    forall j: nat | OnPath(t, q, k, j) ensures j == i { PatternsAreUnique(t, i, j); }
  }

  /** Where the way of q leaves the tree. */
  lemma NoClashBeyond(t: Tree, q: Pattern, k: nat)
    requires Shape(t) && k < |q| && forall c :: 0 <= c < |t.nodes| ==> t.pats[c] != q[..k + 1]
    ensures NoClash(t, q, k + 1)
  {
    hide Clashes, Shape;
    ShapeSizes(t);
    forall j: nat, m: nat | k + 1 <= m < |q| ensures !OnPath(t, q, m, j) { PathPasses(t, q, k + 1, m, j); }
  }

  lemma PathPasses(t: Tree, q: Pattern, k: nat, m: nat, j: nat)
    requires Shape(t) && k <= m <= |q|
    ensures OnPath(t, q, m, j) ==> exists c :: 0 <= c < |t.pats| && t.pats[c] == q[..k]
  {
    if OnPath(t, q, m, j) {
      assert q[..m][..k] == q[..k];
      var c := PrefixNode(t, j, k);
    }
  }

  lemma {:induction false} WalkableFrom(t: Tree, q: Pattern, k: nat, i: nat, compiles: string -> bool)
    requires Shape(t) && OnPath(t, q, k, i) && NoRegex(q[..k])
    ensures Walkable(t.nodes, Some(i), q[k..], compiles) <==> SegmentsOk(q[k..], compiles) && NoClash(t, q, k)
    decreases |q| - k
  {
    hide Shape, NameOf, ExprOf, IsRegexSegment, KindOf, Clashes, TurnAt, SegmentsOk, NoClash;
    if k == |q| {
      NothingClashes(t, q, compiles);
    } else {
      var seg := q[k];
      assert q[k..][0] == seg && q[k..][1..] == q[k + 1..];
      assert q[..k + 1] == q[..k] + [seg];
      SegmentsOkTail(q[k..], compiles);
      NoClashTail(t, q, k, i);
      TurnExactly(t, i, seg, compiles);
      var turn := TurnAt(t.nodes, t.nodes[i], seg, compiles);
      if turn.Fresh? {
        NewIsWalkable(t.nodes, q[k + 1..], compiles);
        NoClashBeyond(t, q, k);
      } else if turn.Existing? {
        WalkableFrom(t, q, k + 1, turn.c, compiles);
      }
    }
  }

  lemma NothingClashes(t: Tree, q: Pattern, compiles: string -> bool)
    ensures NoClash(t, q, |q|) && SegmentsOk(q[|q|..], compiles)
  {
  }

  /**
   A path can be registered exactly when its segments are not empty, its expressions compile, and
   nowhere on its way through the tree does a star, parameter or expression clash with it.
   */
  lemma WalkableExactly(t: Tree, q: Pattern, compiles: string -> bool)
    requires Shape(t)
    ensures Walkable(t.nodes, Some(0), q, compiles) <==> SegmentsOk(q, compiles) && NoClash(t, q, 0)
  {
    hide Walkable, SegmentsOk, NoClash;
    assert q[..0] == [] && q[0..] == q;
    WalkableFrom(t, q, 0, 0, compiles);
  }

  /** Where the child is already there, registering its segment never makes a new one. */
  lemma ExistingTurn(t: Tree, q: Pattern, j: nat, i: nat, next: nat, compiles: string -> bool)
    requires Shape(t) && j < |q| && OnPath(t, q, j, i) && OnPath(t, q, j + 1, next)
    ensures var turn := TurnAt(t.nodes, t.nodes[i], q[j], compiles); turn.Conflict? || turn == Existing(next)
  {
    hide NameOf, ExprOf, IsRegexSegment;
    assert HangsOk(t, next);
    assert q[..j + 1][..j] == q[..j] == t.pats[t.parents[next]];
    PatternsAreUnique(t, t.parents[next], i);
    assert t.pats[next][j] == q[j];
  }
}
