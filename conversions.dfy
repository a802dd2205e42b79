/** What the conversion-insertion transform does to an expression tree, as
    functions of the tree. The collaborators it consults (the resolver, the
    conversion classifier and subtype queries, the type-syntax builder, the
    redundant-cast check, generic instantiation) are the fields of `Env`.

    Visiting a node first visits its children in order, then applies the
    node's own rule (`Step`), and when the rule asks for it, visits the
    replacement it produced again. The rule of a cast, an assignment and a
    member reference is given by `CastStep`, `AssignmentStep` and
    `MemberStep`; every other kind has none. */
module Conversions {
  import opened Metadata
  import opened Ast

  datatype ConvertTypeOptions = ConvertTypeOptions(allowWildcards: bool)

  /** The AST builder found in the context's user data: it turns a resolved
      type into type syntax (`None` options: the builder's defaults). */
  datatype AstBuilder = AstBuilder(convertType: (TypeRef, Option<ConvertTypeOptions>) -> AstType)

  /** The collaborators of the transform. `resolve` and `resolveType` answer
      `None` both for a null `ResolveResult` and for one whose type is null. */
  datatype Env = Env(
    resolve: Expr -> Option<TypeRef>,
    resolveType: AstType -> Option<TypeRef>,
    conversion: (TypeRef, TypeRef) -> ConversionType,
    isSubType: (TypeRef, TypeRef) -> bool,
    asSubType: (TypeRef, TypeRef) -> Option<TypeRef>,
    resolveDefinition: TypeRef -> Option<TypeDefinition>,
    makeGenericType: (TypeDefinition, seq<TypeRef>) -> TypeRef,
    isCastRedundant: Expr -> bool,
    builder: Option<AstBuilder>)

  /** What a node's own rule does: nothing, or put `result` in the node's
      place and, when `revisit` names a position in it, visit the node there. */
  datatype Step = Keep | Rewrite(result: Expr, revisit: Option<Path>)

  predicate WellFormed(s: Step) {
    s.Rewrite? && s.revisit.Some? ==> ValidPath(s.result, s.revisit.value)
  }

  /** A boolean value meets a numeric, non-boolean target. */
  predicate IsBooleanToNumeric(valueType: TypeRef, targetType: TypeRef) {
    valueType.SimpleType() == Boolean
    && targetType.SimpleType() != Boolean
    && targetType.SimpleType().IsNumeric()
  }

  /** A numeric, non-boolean value meets a boolean target. */
  predicate IsNumericToBoolean(valueType: TypeRef, targetType: TypeRef) {
    targetType.SimpleType() == Boolean
    && valueType.SimpleType() != Boolean
    && valueType.SimpleType().IsNumeric()
  }

  /** At most one of the two boolean normalisations applies to a pair of
      types. */
  lemma NormalisationsExclusive(valueType: TypeRef, targetType: TypeRef)
    ensures !(IsBooleanToNumeric(valueType, targetType) && IsNumericToBoolean(valueType, targetType))
  {
  }

  /** `value ? 1 : 0`, with int literals. */
  function BooleanToNumeric(value: Expr): (r: Expr)
    ensures r.ConditionalExpression? && r.condition == value
    ensures r.whenTrue == PrimitiveExpression(One(Integer)) && r.whenFalse == PrimitiveExpression(Zero(Integer))
  {
    ConditionalExpression(value, PrimitiveExpression(One(Integer)), PrimitiveExpression(Zero(Integer)))
  }

  /** `value != 0`, the zero having the value's own simple type. */
  function NumericToBoolean(value: Expr, kind: JvmType): (r: Expr)
    ensures r.BinaryOperatorExpression? && r.left == value && r.operator == INEQUALITY
    ensures r.right == PrimitiveExpression(Zero(kind))
  {
    BinaryOperatorExpression(value, INEQUALITY, PrimitiveExpression(Zero(kind)))
  }

  /** A normalised value, and whether the rule visits it again. */
  datatype Normalised = Normalised(value: Expr, again: bool)

  /** How the boolean-to-numeric normalisation finishes with `conditional`
      for a target narrower than 32 bits: it is wrapped in a cast to the
      target when the builder can make one, the cast taken off again when it
      is redundant, and what is left is visited again; without a builder it
      stays, unvisited. A target of 32 bits or more takes the conditional as
      it is, visited again. */
  function Narrowed(env: Env, conditional: Expr, targetType: TypeRef): (n: Normalised)
    ensures n.value == conditional || (n.value.CastExpression? && n.value.operand == conditional)
    ensures n.again <==> targetType.SimpleType().BitWidth() >= 32 || env.builder.Some?
    ensures targetType.SimpleType().BitWidth() >= 32 || env.builder.None? ==> n.value == conditional
    ensures targetType.SimpleType().BitWidth() < 32 && env.builder.Some? ==>
              var narrowing := CastExpression(env.builder.value.convertType(targetType, None), conditional);
              n.value == if env.isCastRedundant(narrowing) then conditional else narrowing
  {
    if targetType.SimpleType().BitWidth() < 32 then
      match env.builder
      case None => Normalised(conditional, false)
      case Some(b) =>
        var narrowing := CastExpression(b.convertType(targetType, None), conditional);
        if env.isCastRedundant(narrowing) then Normalised(conditional, true) else Normalised(narrowing, true)
    else Normalised(conditional, true)
  }

  /** The rule of a cast `(T) value` whose operand has been visited. */
  function CastStep(env: Env, node: Expr): (s: Step)
    requires node.CastExpression?
    ensures WellFormed(s)
  {
    var value := node.operand;
    match (env.resolveType(node.typ), env.resolve(value))
    case (Some(targetType), Some(valueType)) =>
      if env.conversion(targetType, valueType) != NONE then Keep
      else if IsBooleanToNumeric(valueType, targetType) then
        var n := Narrowed(env, BooleanToNumeric(value), targetType);
        Rewrite(n.value, if n.again then Some([]) else None)
      else if IsNumericToBoolean(valueType, targetType) then
        Rewrite(NumericToBoolean(value, valueType.SimpleType()), Some([]))
      else
        (match env.builder
         case None => Keep
         case Some(b) =>
           Rewrite(CastExpression(node.typ, CastExpression(b.convertType(ObjectType, None), value)), Some([0])))
    case _ => Keep
  }

  /** The boolean-to-numeric branch of the cast rule puts the `Narrowed`
      conditional in the cast's place. */
  lemma CastStepNarrowed(env: Env, node: Expr, targetType: TypeRef, valueType: TypeRef)
    requires node.CastExpression?
    requires env.resolveType(node.typ) == Some(targetType) && env.resolve(node.operand) == Some(valueType)
    requires env.conversion(targetType, valueType) == NONE && IsBooleanToNumeric(valueType, targetType)
    ensures var n := Narrowed(env, BooleanToNumeric(node.operand), targetType);
            CastStep(env, node) == Rewrite(n.value, if n.again then Some([]) else None)
  {
  }

  /** The options the assignment rule builds its cast with. */
  const NoWildcards := ConvertTypeOptions(false)

  /** The classifier calls for an explicit conversion. */
  predicate IsExplicit(conversion: ConversionType) {
    conversion == EXPLICIT || conversion == EXPLICIT_TO_UNBOXED
  }

  /** The type syntax of the cast the assignment rule wraps the right side
      in: one exists when the conversion is explicit and a builder is at hand. */
  function ExplicitCast(env: Env, targetType: TypeRef, valueType: TypeRef): (c: Option<AstType>)
    ensures c.Some? <==> IsExplicit(env.conversion(targetType, valueType)) && env.builder.Some?
    ensures c.Some? ==> c.value == env.builder.value.convertType(targetType, Some(NoWildcards))
  {
    if IsExplicit(env.conversion(targetType, valueType)) && env.builder.Some?
    then Some(env.builder.value.convertType(targetType, Some(NoWildcards)))
    else None
  }

  /** The right side `x` of an assignment as the rule leaves it: inside the
      explicit cast, when there is one. */
  function Placed(castType: Option<AstType>, x: Expr): Expr {
    match castType
    case None => x
    case Some(c) => CastExpression(c, x)
  }

  /** Where `x` stands in `left op= Placed(castType, x)`. */
  function PlacedSlot(castType: Option<AstType>): Path {
    if castType.Some? then [1, 0] else [1]
  }

  /** The context `x` stands in there. */
  function PlacedContext(castType: Option<AstType>): Context {
    if castType.Some? then InSlot(ExpressionRole, None) else InSlot(RightRole, None)
  }

  lemma PlacedSlotFacts(left: Expr, op: AssignmentOperatorType, castType: Option<AstType>, x: Expr, y: Expr, ctx: Context)
    ensures var e := AssignmentExpression(left, op, Placed(castType, x));
            && ValidPath(e, PlacedSlot(castType))
            && At(e, PlacedSlot(castType)) == x
            && ContextAt(e, PlacedSlot(castType), ctx) == PlacedContext(castType)
            && ReplaceAt(e, PlacedSlot(castType), y) == AssignmentExpression(left, op, Placed(castType, y))
  {
    if castType.Some? {
      assert [1, 0][1..] == [0] && [0][1..] == [];
    } else {
      assert [1][1..] == [];
    }
  }

  /** The rule of an assignment `left op= right` whose sides have been
      visited. When the classification is explicit, `right` first moves into
      a cast, so the boolean normalisation then rewrites it in there; the
      normalised value is what is visited again. */
  function AssignmentStep(env: Env, node: Expr): (s: Step)
    requires node.AssignmentExpression?
    ensures WellFormed(s)
  {
    var left, op, right := node.left, node.assignOperator, node.right;
    match (env.resolve(left), env.resolve(right))
    case (Some(targetType), Some(valueType)) =>
      var explicit := IsExplicit(env.conversion(targetType, valueType));
      if explicit && env.builder.None? then Keep
      else NormalisedAssignment(env, left, op, right, ExplicitCast(env, targetType, valueType), targetType, valueType)
    case _ => Keep
  }

  /** The rest of the assignment rule once `right` stands in its place in
      `left op= Placed(castType, right)`: the boolean normalisations rewrite
      it there and visit the normalised value again; with neither, an
      explicit cast alone is the rewrite, and without one nothing changes. */
  function NormalisedAssignment(env: Env, left: Expr, op: AssignmentOperatorType, right: Expr, castType: Option<AstType>,
                                targetType: TypeRef, valueType: TypeRef): (s: Step)
    ensures WellFormed(s)
  {
    var slot := PlacedSlot(castType);
    if IsBooleanToNumeric(valueType, targetType) then
      var n := Narrowed(env, BooleanToNumeric(right), targetType);
      PlacedSlotFacts(left, op, castType, n.value, n.value, Detached);
      Rewrite(AssignmentExpression(left, op, Placed(castType, n.value)), if n.again then Some(slot) else None)
    else if IsNumericToBoolean(valueType, targetType) then
      var inequality := NumericToBoolean(right, valueType.SimpleType());
      PlacedSlotFacts(left, op, castType, inequality, inequality, Detached);
      Rewrite(AssignmentExpression(left, op, Placed(castType, inequality)), Some(slot))
    else if castType.Some? then Rewrite(AssignmentExpression(left, op, Placed(castType, right)), None)
    else Keep
  }

  /** The member a member reference is about: its own annotation, else, when
      it is the target of its parent, the parent's. */
  function MemberOf(node: Expr, ctx: Context): (m: Option<MemberReference>)
    requires node.MemberReferenceExpression?
    ensures node.member.Some? ==> m == node.member
    ensures node.member.None? ==> (m.Some? <==> ctx.InSlot? && ctx.role == TargetExpressionRole && ctx.parentMember.Some?)
    ensures node.member.None? && ctx.InSlot? && ctx.role == TargetExpressionRole ==> m == ctx.parentMember
  {
    if node.member.Some? then node.member
    else if ctx.InSlot? && ctx.role == TargetExpressionRole then ctx.parentMember
    else None
  }

  /** The type a member-reference target is cast to: the view of the
      target's type as the declaring type, else an unbounded-wildcard
      instantiation of a generic declaring type when the member mentions
      generic parameters, else the declaring type itself. */
  function UpcastType(env: Env, targetType: TypeRef, member: MemberReference): TypeRef {
    var definition := env.resolveDefinition(member.declaringType);
    match env.asSubType(targetType, member.declaringType)
    case Some(view) => view
    case None =>
      if definition.Some? && definition.value.isGenericDefinition && member.containsGenericParameters then
        env.makeGenericType(definition.value, UnboundedWildcards(|definition.value.genericParameters|))
      else member.declaringType
  }

  /** The subtype query's second argument: the declaring type's definition
      when it resolves, else the declaring type. */
  function SubtypeQueryType(env: Env, member: MemberReference): TypeRef {
    var definition := env.resolveDefinition(member.declaringType);
    if definition.Some? then definition.value.reference else member.declaringType
  }

  /** The rule of a member reference `target.name` whose target has been
      visited, standing in context `ctx`. */
  function MemberStep(env: Env, node: Expr, ctx: Context): (s: Step)
    requires node.MemberReferenceExpression?
    ensures WellFormed(s)
  {
    if node.target.IsNull() then Keep
    else
      match MemberOf(node, ctx)
      case None => Keep
      case Some(member) => TargetCastStep(env, node, member)
  }

  /** The rest of the member rule once the member is known: a target whose
      type resolves and is not a subtype of the member's declaring type is
      cast to `UpcastType`, when a builder is at hand, and the cast visited. */
  function TargetCastStep(env: Env, node: Expr, member: MemberReference): (s: Step)
    requires node.MemberReferenceExpression?
    ensures WellFormed(s)
  {
    var target := node.target;
    match env.resolve(target)
    case None => Keep
    case Some(targetType) =>
      if env.isSubType(targetType, SubtypeQueryType(env, member)) then Keep
      else
        match env.builder
        case None => Keep
        case Some(b) =>
          var upcast := CastExpression(b.convertType(UpcastType(env, targetType, member), None), target);
          Rewrite(MemberReferenceExpression(upcast, node.memberName, node.typeArguments, node.member), Some([0]))
  }

  /** When the member rule fires, the target, in its slot, is replaced by
      its upcast and that cast is what is visited again. */
  lemma TargetCastStepUpcast(env: Env, node: Expr, member: MemberReference, targetType: TypeRef)
    requires node.MemberReferenceExpression? && env.resolve(node.target) == Some(targetType)
    requires !env.isSubType(targetType, SubtypeQueryType(env, member)) && env.builder.Some?
    ensures var upcast := CastExpression(env.builder.value.convertType(UpcastType(env, targetType, member), None), node.target);
            && ValidPath(node, [0])
            && TargetCastStep(env, node, member) == Rewrite(ReplaceAt(node, [0], upcast), Some([0]))
  {
    var upcast := CastExpression(env.builder.value.convertType(UpcastType(env, targetType, member), None), node.target);
    assert [0][1..] == [];
    assert ReplaceAt(node, [0], upcast) == MemberReferenceExpression(upcast, node.memberName, node.typeArguments, node.member);
  }

  /** The rule of a node of any kind. */
  function StepOf(env: Env, node: Expr, ctx: Context): (s: Step)
    ensures WellFormed(s)
  {
    match node
    case CastExpression(_, _) => CastStep(env, node)
    case AssignmentExpression(_, _, _) => AssignmentStep(env, node)
    case MemberReferenceExpression(_, _, _, _) => MemberStep(env, node, ctx)
    case _ => Keep
  }

  /** The node `e` (standing in context `ctx`) puts in its own place once it
      has been visited. Each re-entry on a replacement spends one unit of
      `fuel`; with none left the replacement stays as it is built. */
  function Visit(env: Env, e: Expr, ctx: Context, fuel: nat): Expr
    decreases fuel, Size(e), 2, 0
  {
    Rule(env, WithVisitedChildren(env, e, fuel), ctx, fuel)
  }

  /** `e` with every child visited, in order. */
  function WithVisitedChildren(env: Env, e: Expr, fuel: nat): (r: Expr)
    ensures |Children(r)| == |Children(e)|
    decreases fuel, Size(e), 1, 0
  {
    WithChildren(e, VisitedPrefix(env, e, fuel, |Children(e)|))
  }

  /** The first `n` children of `e`, visited. */
  function VisitedPrefix(env: Env, e: Expr, fuel: nat, n: nat): (vs: seq<Expr>)
    requires n <= |Children(e)|
    ensures |vs| == n
    decreases fuel, Size(e), 0, n
  {
    if n == 0 then []
    else VisitedPrefix(env, e, fuel, n - 1) + [Visit(env, Children(e)[n - 1], ChildContext(e, n - 1), fuel)]
  }

  /** The node's own rule, applied to `node` in context `ctx`, including the
      re-entry on the replacement. */
  function Rule(env: Env, node: Expr, ctx: Context, fuel: nat): Expr
    decreases fuel, 0, 0, 1
  {
    Continue(env, StepOf(env, node, ctx), node, ctx, fuel)
  }

  /** Carrying out the step `s` of `node` (standing in context `ctx`): the
      result takes the node's place and, when the step names a position in
      it and fuel is left, the node there is visited. */
  function Continue(env: Env, s: Step, node: Expr, ctx: Context, fuel: nat): Expr
    requires WellFormed(s)
    decreases fuel, 0, 0, 0
  {
    match s
    case Keep => node
    case Rewrite(r, None) => r
    case Rewrite(r, Some(p)) =>
      if fuel == 0 then r
      else ReplaceAt(r, p, Visit(env, At(r, p), ContextAt(r, p, ctx), fuel - 1))
  }

  /** A step that names a position, with fuel left, visits the node there. */
  lemma ContinueRevisits(env: Env, s: Step, node: Expr, ctx: Context, fuel: nat)
    requires WellFormed(s) && s.Rewrite? && s.revisit.Some? && fuel > 0
    ensures Continue(env, s, node, ctx, fuel)
              == ReplaceAt(s.result, s.revisit.value,
                           Visit(env, At(s.result, s.revisit.value), ContextAt(s.result, s.revisit.value, ctx), fuel - 1))
  {
  }

  /** Any other step only puts its result in place. */
  lemma ContinueStops(env: Env, s: Step, node: Expr, ctx: Context, fuel: nat)
    requires WellFormed(s) && (s.Keep? || s.revisit.None? || fuel == 0)
    ensures Continue(env, s, node, ctx, fuel) == if s.Keep? then node else s.result
  {
  }

  /** The walk over the children of `e` before its first child. */
  lemma VisitedNone(env: Env, e: Expr, fuel: nat)
    ensures WithChildren(e, VisitedPrefix(env, e, fuel, 0) + Children(e)[0..]) == e
  {
    assert VisitedPrefix(env, e, fuel, 0) + Children(e)[0..] == Children(e);
    WithOwnChildren(e);
  }

  /** The walk over the children of `e` after its last child. */
  lemma VisitedAll(env: Env, e: Expr, fuel: nat, n: nat)
    requires n == |Children(e)|
    ensures WithChildren(e, VisitedPrefix(env, e, fuel, n) + Children(e)[n..]) == WithVisitedChildren(env, e, fuel)
  {
    var all := VisitedPrefix(env, e, fuel, n);
    assert all + Children(e)[n..] == all;
  }
}
