/** The expression tree: node kinds, child slots (roles), the annotations the
    transform reads, and positions in a tree as paths of child indices. A
    node's children are listed in role-declaration order, left to right within
    a collection role; replacing the child at a path is how the tree is
    changed in place. */
module Ast {
  import opened Metadata

  /** Type syntax (`AstType`); `NullType` is the `AstType.NULL` sentinel that
      an unset TYPE slot yields. Type syntax holds no expression and is not
      walked by the transform. */
  datatype AstType =
    | NullType
    | SimpleType(name: string, typeArguments: seq<AstType>)
    | WildcardSyntax

  /** A literal value: the transform only creates a zero or a one of a given
      simple type; `OtherValue` is every other literal. */
  datatype Literal =
    | Zero(kind: JvmType)
    | One(kind: JvmType)
    | OtherValue(text: string, kind: JvmType)

  datatype BinaryOperatorType = EQUALITY | INEQUALITY | LOGICAL_AND | LOGICAL_OR | ADD | SUBTRACT | OTHER_BINARY

  datatype AssignmentOperatorType = Assign | CompoundAssign(op: BinaryOperatorType)

  /** Roles of expression child slots. */
  datatype Role =
    | TargetExpressionRole | ArgumentRole | ExpressionRole
    | ConditionRole | TrueRole | FalseRole | LeftRole | RightRole

  /** `NodeType` of the node model. */
  datatype NodeType =
    | UNKNOWN | TYPE_REFERENCE | TYPE_DECLARATION | MEMBER | STATEMENT
    | EXPRESSION | TOKEN | WHITESPACE | PATTERN

  /** A pattern tree, known by identity; how it matches is supplied by a
      `Matcher` (the pattern engine is not part of this model). */
  datatype Pattern = Pattern(id: nat)

  /** The binding table a match query threads through. */
  datatype Match = Match(bindings: seq<(string, nat)>)

  /** The choice points of a collection match. */
  datatype BacktrackingInfo = BacktrackingInfo(choicePoints: seq<nat>)

  /** The pattern engine as the node model sees it: what a pattern tree, a
      node of a kind outside this model, a type syntax node or an argument
      collection answers to a match query. */
  datatype Matcher = Matcher(
    patternMatches: (Pattern, Option<Expr>, Match) -> bool,
    patternMatchesCollection: (Pattern, Role, Option<Expr>, Match, BacktrackingInfo) -> bool,
    nodeMatches: (Expr, Option<Expr>, Match) -> bool,
    nodeMatchesCollection: (Expr, Role, Option<Expr>, Match, BacktrackingInfo) -> bool,
    typeMatches: (AstType, AstType, Match) -> bool,
    collectionMatches: (seq<Expr>, seq<Expr>, Match) -> bool)

  /** Expression nodes. `member` is the node's `MEMBER_REFERENCE` user data,
      kept on the two kinds whose TARGET_EXPRESSION child may consult it. */
  datatype Expr =
    | NullExpression
    | PrimitiveExpression(literal: Literal)
    | IdentifierExpression(identifier: string)
    | CastExpression(typ: AstType, operand: Expr)
    | ConditionalExpression(condition: Expr, whenTrue: Expr, whenFalse: Expr)
    | BinaryOperatorExpression(left: Expr, operator: BinaryOperatorType, right: Expr)
    | AssignmentExpression(left: Expr, assignOperator: AssignmentOperatorType, right: Expr)
    | MemberReferenceExpression(target: Expr, memberName: string, typeArguments: seq<AstType>, member: Option<MemberReference>)
    | InvocationExpression(target: Expr, arguments: seq<Expr>, member: Option<MemberReference>)
    | ObjectCreationExpression(typ: AstType, arguments: seq<Expr>)
    | PatternPlaceholder(pattern: Pattern)
  {
    /** `isNull()`: true of the `NULL` sentinel only. */
    predicate IsNull() {
      NullExpression?
    }
  }

  datatype Option<T> = None | Some(value: T)

  datatype Result<T> = Success(value: T) | Failure(error: string)

  function Size(e: Expr): (n: nat)
    ensures n >= 1
  {
    match e
    case CastExpression(_, o) => 1 + Size(o)
    case ConditionalExpression(c, t, f) => 1 + Size(c) + Size(t) + Size(f)
    case BinaryOperatorExpression(l, _, r) => 1 + Size(l) + Size(r)
    case AssignmentExpression(l, _, r) => 1 + Size(l) + Size(r)
    case MemberReferenceExpression(t, _, _, _) => 1 + Size(t)
    case InvocationExpression(t, args, _) => 1 + Size(t) + SizeAll(args)
    case ObjectCreationExpression(_, args) => 1 + SizeAll(args)
    case _ => 1
  }

  function SizeAll(es: seq<Expr>): nat {
    if es == [] then 0 else Size(es[0]) + SizeAll(es[1..])
  }

  lemma {:induction false} SizeAllBounds(es: seq<Expr>)
    ensures forall i :: 0 <= i < |es| ==> Size(es[i]) <= SizeAll(es)
  {
    if es != [] {
      SizeAllBounds(es[1..]);
      assert forall i :: 1 <= i < |es| ==> es[i] == es[1..][i - 1];
    }
  }

  /** The expression children of a node, in visiting order. */
  function Children(e: Expr): (cs: seq<Expr>)
    ensures forall i :: 0 <= i < |cs| ==> Size(cs[i]) < Size(e)
  {
    match e
    case CastExpression(_, o) => [o]
    case ConditionalExpression(c, t, f) => [c, t, f]
    case BinaryOperatorExpression(l, _, r) => [l, r]
    case AssignmentExpression(l, _, r) => [l, r]
    case MemberReferenceExpression(t, _, _, _) => [t]
    case InvocationExpression(t, args, _) => SizeAllBounds(args); [t] + args
    case ObjectCreationExpression(_, args) => SizeAllBounds(args); args
    case _ => []
  }

  /** The role of the slot holding child `i`. */
  function ChildRole(e: Expr, i: nat): Role
    requires i < |Children(e)|
  {
    match e
    case CastExpression(_, _) => ExpressionRole
    case ConditionalExpression(_, _, _) => if i == 0 then ConditionRole else if i == 1 then TrueRole else FalseRole
    case BinaryOperatorExpression(_, _, _) => if i == 0 then LeftRole else RightRole
    case AssignmentExpression(_, _, _) => if i == 0 then LeftRole else RightRole
    case MemberReferenceExpression(_, _, _, _) => TargetExpressionRole
    case InvocationExpression(_, _, _) => if i == 0 then TargetExpressionRole else ArgumentRole
    case ObjectCreationExpression(_, _) => ArgumentRole
  }

  /** The node's `MEMBER_REFERENCE` user data. */
  function MemberData(e: Expr): Option<MemberReference> {
    match e
    case MemberReferenceExpression(_, _, _, m) => m
    case InvocationExpression(_, _, m) => m
    case _ => None
  }

  /** The same node with its expression children replaced by `cs`; every
      other attribute (kind, type syntax, operator, names, user data) kept. */
  function WithChildren(e: Expr, cs: seq<Expr>): (r: Expr)
    requires |cs| == |Children(e)|
    ensures Children(r) == cs
    ensures MemberData(r) == MemberData(e)
    ensures forall i :: 0 <= i < |cs| ==> ChildRole(r, i) == ChildRole(e, i)
  {
    match e
    case CastExpression(t, _) => CastExpression(t, cs[0])
    case ConditionalExpression(_, _, _) => ConditionalExpression(cs[0], cs[1], cs[2])
    case BinaryOperatorExpression(_, op, _) => BinaryOperatorExpression(cs[0], op, cs[1])
    case AssignmentExpression(_, op, _) => AssignmentExpression(cs[0], op, cs[1])
    case MemberReferenceExpression(_, n, ta, m) => MemberReferenceExpression(cs[0], n, ta, m)
    case InvocationExpression(_, _, m) => InvocationExpression(cs[0], cs[1..], m)
    case ObjectCreationExpression(t, _) => ObjectCreationExpression(t, cs)
    case _ => e
  }

  /** Replacing children keeps the node's kind. */
  lemma WithChildrenKind(e: Expr, cs: seq<Expr>)
    requires |cs| == |Children(e)|
    ensures var r := WithChildren(e, cs);
            && r.NullExpression? == e.NullExpression? && r.CastExpression? == e.CastExpression?
            && r.AssignmentExpression? == e.AssignmentExpression?
            && r.MemberReferenceExpression? == e.MemberReferenceExpression?
  {
  }

  lemma WithOwnChildren(e: Expr)
    ensures WithChildren(e, Children(e)) == e
  {
  }

  lemma WithChildrenTwice(e: Expr, a: seq<Expr>, b: seq<Expr>)
    requires |a| == |b| == |Children(e)|
    ensures WithChildren(WithChildren(e, a), b) == WithChildren(e, b)
  {
  }

  /** Where a node stands: detached (no parent), or in the slot of a role
      under a parent carrying the given `MEMBER_REFERENCE` user data. */
  datatype Context = Detached | InSlot(role: Role, parentMember: Option<MemberReference>)

  function ChildContext(e: Expr, i: nat): Context
    requires i < |Children(e)|
  {
    InSlot(ChildRole(e, i), MemberData(e))
  }

  type Path = seq<nat>

  predicate ValidPath(e: Expr, p: Path)
    decreases |p|
  {
    p == [] || (p[0] < |Children(e)| && ValidPath(Children(e)[p[0]], p[1..]))
  }

  /** The node at path `p`. */
  function At(e: Expr, p: Path): Expr
    requires ValidPath(e, p)
    decreases |p|
  {
    if p == [] then e else At(Children(e)[p[0]], p[1..])
  }

  /** `e` with the node at path `p` replaced by `s`. */
  function ReplaceAt(e: Expr, p: Path, s: Expr): Expr
    requires ValidPath(e, p)
    decreases |p|
  {
    if p == [] then s
    else
      var cs := Children(e);
      WithChildren(e, cs[p[0] := ReplaceAt(cs[p[0]], p[1..], s)])
  }

  /** The context of the node at path `p`, given the context `c` of `e`. */
  function ContextAt(e: Expr, p: Path, c: Context): Context
    requires ValidPath(e, p)
    decreases |p|
  {
    if p == [] then c else ContextAt(Children(e)[p[0]], p[1..], ChildContext(e, p[0]))
  }

  /** Replacing the node at `p` makes `s` the node at `p`, keeps every
      ancestor's context and changes nothing off the path. */
  lemma {:induction false} AtReplace(e: Expr, p: Path, s: Expr, c: Context)
    requires ValidPath(e, p)
    ensures ValidPath(ReplaceAt(e, p, s), p)
    ensures At(ReplaceAt(e, p, s), p) == s
    ensures ContextAt(ReplaceAt(e, p, s), p, c) == ContextAt(e, p, c)
    decreases |p|
  {
    if p != [] {
      var cs := Children(e);
      AtReplace(cs[p[0]], p[1..], s, ChildContext(e, p[0]));
    }
  }

  /** Replacing the node at `p` twice keeps only the second replacement. */
  lemma {:induction false} ReplaceTwice(e: Expr, p: Path, a: Expr, b: Expr)
    requires ValidPath(e, p)
    ensures ValidPath(ReplaceAt(e, p, a), p)
    ensures ReplaceAt(ReplaceAt(e, p, a), p, b) == ReplaceAt(e, p, b)
    decreases |p|
  {
    if p != [] {
      var i, cs := p[0], Children(e);
      var c := cs[i];
      ReplaceTwice(c, p[1..], a, b);
      var once := cs[i := ReplaceAt(c, p[1..], a)];
      var twice := cs[i := ReplaceAt(c, p[1..], b)];
      assert once[i := ReplaceAt(once[i], p[1..], b)] == twice;
      WithChildrenTwice(e, once, twice);
    }
  }

  lemma {:induction false} ReplaceSelf(e: Expr, p: Path)
    requires ValidPath(e, p)
    ensures ReplaceAt(e, p, At(e, p)) == e
    decreases |p|
  {
    if p != [] {
      var cs := Children(e);
      ReplaceSelf(cs[p[0]], p[1..]);
      assert cs[p[0] := cs[p[0]]] == cs;
      WithOwnChildren(e);
    }
  }

  /** Paths compose: walking `p + q` is walking `p`, then `q`. */
  lemma PathAppend(e: Expr, p: Path, q: Path, s: Expr, c: Context)
    requires ValidPath(e, p) && ValidPath(At(e, p), q)
    ensures ValidPath(e, p + q)
    ensures At(e, p + q) == At(At(e, p), q)
    ensures ReplaceAt(e, p + q, s) == ReplaceAt(e, p, ReplaceAt(At(e, p), q, s))
    ensures ContextAt(e, p + q, c) == ContextAt(At(e, p), q, ContextAt(e, p, c))
  {
    PathWalk(e, p, q, c);
    PathReplace(e, p, q, s);
  }

  lemma {:induction false} PathWalk(e: Expr, p: Path, q: Path, c: Context)
    requires ValidPath(e, p) && ValidPath(At(e, p), q)
    ensures ValidPath(e, p + q)
    ensures At(e, p + q) == At(At(e, p), q)
    ensures ContextAt(e, p + q, c) == ContextAt(At(e, p), q, ContextAt(e, p, c))
    decreases |p|
  {
    if p == [] {
      assert p + q == q;
    } else {
      var pq := p + q;
      assert pq[0] == p[0] && pq[1..] == p[1..] + q;
      PathWalk(Children(e)[p[0]], p[1..], q, ChildContext(e, p[0]));
    }
  }

  lemma {:induction false} PathReplace(e: Expr, p: Path, q: Path, s: Expr)
    requires ValidPath(e, p) && ValidPath(At(e, p), q) && ValidPath(e, p + q)
    ensures ReplaceAt(e, p + q, s) == ReplaceAt(e, p, ReplaceAt(At(e, p), q, s))
    decreases |p|
  {
    if p == [] {
      assert p + q == q;
    } else {
      var child := Children(e)[p[0]];
      var pq := p + q;
      assert pq[0] == p[0] && pq[1..] == p[1..] + q;
      PathWalk(child, p[1..], q, Detached);
      PathReplace(child, p[1..], q, s);
    }
  }

  /** After `s` is put at `p`, the node at `p + q` is the node at `q` in `s`,
      in the context `s` gives it, and replacing it is replacing inside `s`. */
  lemma {:induction false} ReplaceBelow(e: Expr, p: Path, s: Expr, q: Path, x: Expr, c: Context)
    requires ValidPath(e, p) && ValidPath(s, q)
    ensures ValidPath(ReplaceAt(e, p, s), p + q)
    ensures At(ReplaceAt(e, p, s), p + q) == At(s, q)
    ensures ContextAt(ReplaceAt(e, p, s), p + q, c) == ContextAt(s, q, ContextAt(e, p, c))
    ensures ReplaceAt(ReplaceAt(e, p, s), p + q, x) == ReplaceAt(e, p, ReplaceAt(s, q, x))
  {
    AtReplace(e, p, s, c);
    PathAppend(ReplaceAt(e, p, s), p, q, x, c);
    ReplaceTwice(e, p, s, ReplaceAt(s, q, x));
  }

  /** The walk over the children of the node `e` at `p`: with the first `i`
      children already replaced by `done`, child `i` stands at `p + [i]` in
      its own context, and replacing it extends `done`. */
  lemma ChildSlot(e0: Expr, p: Path, e: Expr, done: seq<Expr>, i: nat, v: Expr)
    requires ValidPath(e0, p) && |done| == i < |Children(e)|
    ensures var cur := ReplaceAt(e0, p, WithChildren(e, done + Children(e)[i..]));
            && ValidPath(cur, p + [i]) && At(cur, p + [i]) == Children(e)[i]
            && ContextAt(cur, p + [i], Detached) == ChildContext(e, i)
            && ReplaceAt(cur, p + [i], v) == ReplaceAt(e0, p, WithChildren(e, (done + [v]) + Children(e)[i + 1..]))
  {
    var cs := done + Children(e)[i..];
    var node := WithChildren(e, cs);
    var cur := ReplaceAt(e0, p, node);
    AtReplace(e0, p, node, Detached);
    ChildPath(cur, p, i, v, Detached);
    ReplaceTwice(e0, p, node, WithChildren(node, cs[i := v]));
    WithChildrenTwice(e, cs, cs[i := v]);
    SpliceNext(done, Children(e)[i..], v);
    assert Children(e)[i..][1..] == Children(e)[i + 1..];
  }

  /** Overwriting the first element after `done` extends `done` by one. */
  lemma SpliceNext<T>(done: seq<T>, rest: seq<T>, v: T)
    requires |rest| > 0
    ensures (done + rest)[|done| := v] == (done + [v]) + rest[1..]
  {
    var l, r := (done + rest)[|done| := v], (done + [v]) + rest[1..];
    assert |l| == |r|;
    forall k | 0 <= k < |l| ensures l[k] == r[k] {
    }
  }

  /** The child slot `i` of the node at `p` is at path `p + [i]`. */
  lemma ChildPath(e: Expr, p: Path, i: nat, s: Expr, c: Context)
    requires ValidPath(e, p) && i < |Children(At(e, p))|
    ensures ValidPath(e, p + [i])
    ensures At(e, p + [i]) == Children(At(e, p))[i]
    ensures ReplaceAt(e, p + [i], s) == ReplaceAt(e, p, WithChildren(At(e, p), Children(At(e, p))[i := s]))
    ensures ContextAt(e, p + [i], c) == ChildContext(At(e, p), i)
  {
    var n := At(e, p);
    assert ValidPath(n, [i]) && [i][1..] == [];
    PathAppend(e, p, [i], s, c);
  }
}
