/** The expression base: the `NULL` sentinel, the pattern placeholder that
    embeds a pattern in a tree, visitor dispatch, structural matching and the
    fluent builders `member` and `invoke`. */
module Expressions {
  import opened Ast
  import ObjectCreation

  /** `Expression.NULL`. */
  const NULL: Expr := NullExpression

  /** `getNodeType()`: PATTERN for a placeholder, EXPRESSION for every other
      expression, the `NULL` sentinel included. */
  function GetNodeType(e: Expr): (t: NodeType)
    ensures t == PATTERN <==> e.PatternPlaceholder?
    ensures t == EXPRESSION <==> !e.PatternPlaceholder?
  {
    if e.PatternPlaceholder? then PATTERN else EXPRESSION
  }

  lemma NullSentinel()
    ensures NULL.IsNull() && GetNodeType(NULL) == EXPRESSION
    ensures forall p: Pattern :: !PatternPlaceholder(p).IsNull()
  {
  }

  /** `forPattern(pattern)`: a null pattern is rejected; otherwise a
      placeholder embedding exactly that pattern. */
  function ForPattern(pattern: Option<Pattern>): (r: Result<Expr>)
    ensures pattern.None? <==> r.Failure?
    ensures r.Success? ==> r.value == PatternPlaceholder(pattern.value)
    ensures r.Success? ==> GetNodeType(r.value) == PATTERN && !r.value.IsNull()
  {
    match pattern
    case None => Failure("pattern")
    case Some(p) => Success(PatternPlaceholder(p))
  }

  /** The visitor methods a node can dispatch to. */
  datatype VisitorMethod =
    | VisitPrimitiveExpression | VisitIdentifierExpression | VisitCastExpression
    | VisitConditionalExpression | VisitBinaryOperatorExpression | VisitAssignmentExpression
    | VisitMemberReferenceExpression | VisitInvocationExpression
    | VisitObjectCreationExpression | VisitPatternPlaceholder

  /** The outcome of `acceptVisitor`: no visitor call at all, or a call of
      one visitor method with the node (and, for a placeholder, its
      embedded pattern). */
  datatype Dispatch = NoCall | Call(visit: VisitorMethod, node: Expr, pattern: Option<Pattern>)

  /** `acceptVisitor(visitor, data)`. */
  function AcceptVisitor(e: Expr): (d: Dispatch)
    ensures d.NoCall? <==> e.IsNull()
    ensures d.Call? ==> d.node == e
    ensures d.Call? ==> (d.visit == VisitPatternPlaceholder <==> e.PatternPlaceholder?)
    ensures d.Call? ==> (d.pattern.Some? <==> e.PatternPlaceholder?)
    ensures e.PatternPlaceholder? ==> d.pattern == Some(e.pattern)
    ensures d.Call? ==> (d.visit == VisitObjectCreationExpression <==> e.ObjectCreationExpression?)
    ensures d.Call? ==> (d.visit == VisitCastExpression <==> e.CastExpression?)
    ensures d.Call? ==> (d.visit == VisitAssignmentExpression <==> e.AssignmentExpression?)
    ensures d.Call? ==> (d.visit == VisitMemberReferenceExpression <==> e.MemberReferenceExpression?)
    ensures d.Call? ==> (d.visit == VisitPrimitiveExpression <==> e.PrimitiveExpression?)
    ensures d.Call? ==> (d.visit == VisitIdentifierExpression <==> e.IdentifierExpression?)
    ensures d.Call? ==> (d.visit == VisitConditionalExpression <==> e.ConditionalExpression?)
    ensures d.Call? ==> (d.visit == VisitBinaryOperatorExpression <==> e.BinaryOperatorExpression?)
    ensures d.Call? ==> (d.visit == VisitInvocationExpression <==> e.InvocationExpression?)
  {
    match e
    case NullExpression => NoCall
    case PrimitiveExpression(_) => Call(VisitPrimitiveExpression, e, None)
    case IdentifierExpression(_) => Call(VisitIdentifierExpression, e, None)
    case CastExpression(_, _) => Call(VisitCastExpression, e, None)
    case ConditionalExpression(_, _, _) => Call(VisitConditionalExpression, e, None)
    case BinaryOperatorExpression(_, _, _) => Call(VisitBinaryOperatorExpression, e, None)
    case AssignmentExpression(_, _, _) => Call(VisitAssignmentExpression, e, None)
    case MemberReferenceExpression(_, _, _, _) => Call(VisitMemberReferenceExpression, e, None)
    case InvocationExpression(_, _, _) => Call(VisitInvocationExpression, e, None)
    case ObjectCreationExpression(_, _) => Call(VisitObjectCreationExpression, e, None)
    case PatternPlaceholder(p) => Call(VisitPatternPlaceholder, e, Some(p))
  }

  /** `matches(other, match)`. The `NULL` sentinel matches an absent node or
      another null node; a placeholder answers what its pattern answers; an
      object creation matches structurally; the kinds whose classes are not
      part of this model answer through the matcher. */
  function Matches(m: Matcher, node: Expr, other: Option<Expr>, state: Match): (r: bool)
    ensures node.NullExpression? ==> (r <==> other.None? || other.value.IsNull())
    ensures node.PatternPlaceholder? ==> r == m.patternMatches(node.pattern, other, state)
    ensures node.ObjectCreationExpression? ==> r == ObjectCreation.Matches(m, node, other, state)
  {
    match node
    case NullExpression => other.None? || other.value.IsNull()
    case PatternPlaceholder(p) => m.patternMatches(p, other, state)
    case ObjectCreationExpression(_, _) => ObjectCreation.Matches(m, node, other, state)
    case _ => m.nodeMatches(node, other, state)
  }

  /** `matchesCollection(role, position, match, backtrackingInfo)`: a
      placeholder delegates to its pattern with the same arguments. */
  function MatchesCollection(m: Matcher, node: Expr, role: Role, position: Option<Expr>, state: Match, info: BacktrackingInfo): (r: bool)
    ensures node.PatternPlaceholder? ==> r == m.patternMatchesCollection(node.pattern, role, position, state, info)
  {
    match node
    case PatternPlaceholder(p) => m.patternMatchesCollection(p, role, position, state, info)
    case _ => m.nodeMatchesCollection(node, role, position, state, info)
  }

  /** A placeholder made by `forPattern` is indistinguishable from its pattern
      in every match query. */
  lemma {:induction false} PlaceholderDelegates(m: Matcher, p: Pattern, other: Option<Expr>, role: Role, position: Option<Expr>, state: Match, info: BacktrackingInfo)
    ensures ForPattern(Some(p)).Success?
    ensures Matches(m, ForPattern(Some(p)).value, other, state) == m.patternMatches(p, other, state)
    ensures MatchesCollection(m, ForPattern(Some(p)).value, role, position, state, info)
              == m.patternMatchesCollection(p, role, position, state, info)
    ensures AcceptVisitor(ForPattern(Some(p)).value) == Call(VisitPatternPlaceholder, PatternPlaceholder(p), Some(p))
  {
  }

  /** `member(memberName)`: a member reference on `target`, with no type
      arguments and no annotation yet. */
  function Member(target: Expr, memberName: string): (r: Expr)
    ensures r.MemberReferenceExpression? && r.target == target
    ensures r.memberName == memberName && r.typeArguments == [] && r.member.None?
  {
    MemberReferenceExpression(target, memberName, [], None)
  }

  /** `invoke(arguments)`: an invocation of `target` itself. */
  function Invoke(target: Expr, arguments: seq<Expr>): (r: Expr)
    ensures r.InvocationExpression? && r.target == target && r.arguments == arguments
  {
    InvocationExpression(target, arguments, None)
  }

  /** `invoke(methodName, [typeArguments,] arguments)`: an invocation whose
      callee is the member reference `target.methodName`; a null type-argument
      list gives none. */
  function InvokeMethod(target: Expr, methodName: string, typeArguments: Option<seq<AstType>>, arguments: seq<Expr>): (r: Expr)
    ensures r.InvocationExpression? && r.arguments == arguments
    ensures r.target.MemberReferenceExpression? && r.target.target == target
    ensures r.target.memberName == methodName
    ensures r.target.typeArguments == if typeArguments.Some? then typeArguments.value else []
  {
    var callee := MemberReferenceExpression(target, methodName, if typeArguments.Some? then typeArguments.value else [], None);
    InvocationExpression(callee, arguments, None)
  }

  /** The named `invoke` without type arguments is `member` followed by the
      plain `invoke`. */
  lemma InvokeIsMemberThenInvoke(target: Expr, methodName: string, arguments: seq<Expr>)
    ensures InvokeMethod(target, methodName, None, arguments) == Invoke(Member(target, methodName), arguments)
  {
  }
}
