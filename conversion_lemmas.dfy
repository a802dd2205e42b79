/** What the three rules of the conversion transform promise, stated about
    `Conversions.Rule` (one node whose children have been visited) and about
    `Conversions.Visit` (a whole subtree). */
module ConversionLemmas {
  import opened Metadata
  import opened Ast
  import opened Conversions

  // ---------------------------------------------------------------------
  // Kinds without a rule

  /** A node of any kind other than a cast, an assignment or a member
      reference only has its children visited. */
  lemma VisitOtherKinds(env: Env, e: Expr, ctx: Context, fuel: nat)
    requires !e.CastExpression? && !e.AssignmentExpression? && !e.MemberReferenceExpression?
    ensures Visit(env, e, ctx, fuel) == WithVisitedChildren(env, e, fuel)
  {
    var node := WithVisitedChildren(env, e, fuel);
    WithChildrenKind(e, VisitedPrefix(env, e, fuel, |Children(e)|));
    assert Rule(env, node, ctx, fuel) == Continue(env, Keep, node, ctx, fuel);
  }

  // ---------------------------------------------------------------------
  // Casts

  /** A cast whose target type or operand type does not resolve stays. */
  lemma CastSkipsUnresolved(env: Env, t: AstType, value: Expr, ctx: Context, fuel: nat)
    requires env.resolveType(t).None? || env.resolve(value).None?
    ensures Rule(env, CastExpression(t, value), ctx, fuel) == CastExpression(t, value)
  {
  }

  /** The cast rule rewrites exactly when both types resolve, the classifier
      finds no conversion between them, and either a boolean normalisation
      applies or a builder is at hand for the `Object` detour. */
  lemma CastRewriteCondition(env: Env, t: AstType, value: Expr)
    ensures CastStep(env, CastExpression(t, value)).Rewrite? <==>
              env.resolveType(t).Some? && env.resolve(value).Some?
              && var targetType, valueType := env.resolveType(t).value, env.resolve(value).value;
                 env.conversion(targetType, valueType) == NONE
                 && (IsBooleanToNumeric(valueType, targetType) || IsNumericToBoolean(valueType, targetType) || env.builder.Some?)
  {
  }

  /** Any conversion the classifier knows of leaves the cast alone. */
  lemma CastKeptWhenConvertible(env: Env, t: AstType, value: Expr, ctx: Context, fuel: nat)
    requires env.resolveType(t).Some? && env.resolve(value).Some?
    requires env.conversion(env.resolveType(t).value, env.resolve(value).value) != NONE
    ensures Rule(env, CastExpression(t, value), ctx, fuel) == CastExpression(t, value)
  {
  }

  /** `(T) b` with `b` boolean and `T` numeric becomes `b ? 1 : 0`; below 32
      bits that conditional is wrapped in a cast to `T` unless the
      redundant-cast check says the cast is not needed; the result is then
      visited again in the cast's place (except when no builder is at hand). */
  lemma CastBooleanToNumeric(env: Env, t: AstType, value: Expr, ctx: Context, fuel: nat)
    requires fuel > 0
    requires env.resolveType(t).Some? && env.resolve(value).Some?
    requires env.conversion(env.resolveType(t).value, env.resolve(value).value) == NONE
    requires IsBooleanToNumeric(env.resolve(value).value, env.resolveType(t).value)
    ensures var targetType := env.resolveType(t).value;
            var conditional := BooleanToNumeric(value);
            var r := Rule(env, CastExpression(t, value), ctx, fuel);
            && (targetType.SimpleType().BitWidth() >= 32 ==> r == Visit(env, conditional, ctx, fuel - 1))
            && (targetType.SimpleType().BitWidth() < 32 && env.builder.None? ==> r == conditional)
            && (targetType.SimpleType().BitWidth() < 32 && env.builder.Some? ==>
                  var narrowed := CastExpression(env.builder.value.convertType(targetType, None), conditional);
                  r == if env.isCastRedundant(narrowed) then Visit(env, conditional, ctx, fuel - 1)
                       else Visit(env, narrowed, ctx, fuel - 1))
  {
  }

  /** `(boolean) n` with `n` numeric becomes `n != 0`, the zero of `n`'s own
      simple type, visited again in the cast's place. */
  lemma CastNumericToBoolean(env: Env, t: AstType, value: Expr, ctx: Context, fuel: nat)
    requires fuel > 0
    requires env.resolveType(t).Some? && env.resolve(value).Some?
    requires env.conversion(env.resolveType(t).value, env.resolve(value).value) == NONE
    requires IsNumericToBoolean(env.resolve(value).value, env.resolveType(t).value)
    ensures Rule(env, CastExpression(t, value), ctx, fuel)
              == Visit(env, NumericToBoolean(value, env.resolve(value).value.SimpleType()), ctx, fuel - 1)
  {
  }

  /** Any other unconvertible cast `(T) x` becomes `(T) (Object) x`: the
      outer cast keeps its type syntax, and only the inserted `Object` cast is
      visited again, as the operand of the outer one. Without a builder the
      cast stays. */
  lemma CastFallback(env: Env, t: AstType, value: Expr, ctx: Context, fuel: nat)
    requires fuel > 0
    requires env.resolveType(t).Some? && env.resolve(value).Some?
    requires env.conversion(env.resolveType(t).value, env.resolve(value).value) == NONE
    requires !IsBooleanToNumeric(env.resolve(value).value, env.resolveType(t).value)
    requires !IsNumericToBoolean(env.resolve(value).value, env.resolveType(t).value)
    ensures env.builder.None? ==> Rule(env, CastExpression(t, value), ctx, fuel) == CastExpression(t, value)
    ensures env.builder.Some? ==>
              var objectCast := CastExpression(env.builder.value.convertType(ObjectType, None), value);
              Rule(env, CastExpression(t, value), ctx, fuel)
                == CastExpression(t, Visit(env, objectCast, InSlot(ExpressionRole, None), fuel - 1))
  {
  }

  /** With a classifier that answers NONE for every pair, the `Object`
      fallback fires again on the inner cast `(Object) value` it built, and
      wraps that one in a further `Object` cast: re-entry alone never
      settles such a cast. */
  lemma FallbackRefires(env: Env, t: AstType, value: Expr)
    requires env.builder.Some?
    requires forall a: TypeRef, b: TypeRef :: env.conversion(a, b) == NONE
    requires env.resolveType(t).Some? && env.resolve(value).Some?
    requires !IsBooleanToNumeric(env.resolve(value).value, env.resolveType(t).value)
    requires !IsNumericToBoolean(env.resolve(value).value, env.resolveType(t).value)
    requires env.resolveType(env.builder.value.convertType(ObjectType, None)) == Some(ObjectType)
    ensures var objectSyntax := env.builder.value.convertType(ObjectType, None);
            var objectCast := CastExpression(objectSyntax, value);
            CastStep(env, CastExpression(t, value)) == Rewrite(CastExpression(t, objectCast), Some([0]))
            && CastStep(env, objectCast) == Rewrite(CastExpression(objectSyntax, objectCast), Some([0]))
  {
    var objectSyntax := env.builder.value.convertType(ObjectType, None);
    assert env.conversion(env.resolveType(t).value, env.resolve(value).value) == NONE;
    assert env.conversion(ObjectType, env.resolve(value).value) == NONE;
    assert !ObjectType.SimpleType().IsNumeric() && ObjectType.SimpleType() != Boolean;
  }

  // ---------------------------------------------------------------------
  // Assignments

  /** An assignment one of whose sides does not resolve stays. */
  lemma AssignmentSkipsUnresolved(env: Env, left: Expr, op: AssignmentOperatorType, right: Expr, ctx: Context, fuel: nat)
    requires env.resolve(left).None? || env.resolve(right).None?
    ensures Rule(env, AssignmentExpression(left, op, right), ctx, fuel) == AssignmentExpression(left, op, right)
  {
  }

  /** An explicit classification without a builder leaves the assignment
      alone, even when a boolean normalisation would otherwise apply. */
  lemma AssignmentExplicitNeedsBuilder(env: Env, left: Expr, op: AssignmentOperatorType, right: Expr, ctx: Context, fuel: nat)
    requires env.resolve(left).Some? && env.resolve(right).Some?
    requires IsExplicit(env.conversion(env.resolve(left).value, env.resolve(right).value))
    requires env.builder.None?
    ensures Rule(env, AssignmentExpression(left, op, right), ctx, fuel) == AssignmentExpression(left, op, right)
  {
  }

  /** An explicit classification with a builder casts the right side to the
      left side's type, built without wildcards; the operator and the left
      side stay, and nothing is visited again. */
  lemma AssignmentExplicitCast(env: Env, left: Expr, op: AssignmentOperatorType, right: Expr, ctx: Context, fuel: nat)
    requires env.resolve(left).Some? && env.resolve(right).Some?
    requires IsExplicit(env.conversion(env.resolve(left).value, env.resolve(right).value))
    requires env.builder.Some?
    requires !IsBooleanToNumeric(env.resolve(right).value, env.resolve(left).value)
    requires !IsNumericToBoolean(env.resolve(right).value, env.resolve(left).value)
    ensures !NoWildcards.allowWildcards
    ensures Rule(env, AssignmentExpression(left, op, right), ctx, fuel)
              == AssignmentExpression(left, op, CastExpression(env.builder.value.convertType(env.resolve(left).value, Some(NoWildcards)), right))
  {
  }

  /** An assignment that is neither explicit nor in need of a boolean
      normalisation stays. */
  lemma AssignmentKeptOtherwise(env: Env, left: Expr, op: AssignmentOperatorType, right: Expr, ctx: Context, fuel: nat)
    requires env.resolve(left).Some? && env.resolve(right).Some?
    requires !IsExplicit(env.conversion(env.resolve(left).value, env.resolve(right).value))
    requires !IsBooleanToNumeric(env.resolve(right).value, env.resolve(left).value)
    requires !IsNumericToBoolean(env.resolve(right).value, env.resolve(left).value)
    ensures Rule(env, AssignmentExpression(left, op, right), ctx, fuel) == AssignmentExpression(left, op, right)
  {
  }

  /** `int = b` with `b` boolean: the right side (inside the explicit cast, if
      one was inserted) becomes `b ? 1 : 0`, narrowed by a cast below 32 bits
      unless that cast is redundant, and is visited again there. The decision
      uses the type `b` had before any cast was inserted. */
  lemma AssignmentBooleanToNumeric(env: Env, left: Expr, op: AssignmentOperatorType, right: Expr, ctx: Context, fuel: nat)
    requires fuel > 0
    requires env.resolve(left).Some? && env.resolve(right).Some?
    requires IsBooleanToNumeric(env.resolve(right).value, env.resolve(left).value)
    requires IsExplicit(env.conversion(env.resolve(left).value, env.resolve(right).value)) ==> env.builder.Some?
    ensures var targetType := env.resolve(left).value;
            var castType := ExplicitCast(env, targetType, env.resolve(right).value);
            var conditional := BooleanToNumeric(right);
            var r := Rule(env, AssignmentExpression(left, op, right), ctx, fuel);
            && (targetType.SimpleType().BitWidth() >= 32 ==>
                  r == AssignmentExpression(left, op, Placed(castType, Visit(env, conditional, PlacedContext(castType), fuel - 1))))
            && (targetType.SimpleType().BitWidth() < 32 && env.builder.None? ==>
                  r == AssignmentExpression(left, op, conditional))
            && (targetType.SimpleType().BitWidth() < 32 && env.builder.Some? ==>
                  var narrowed := CastExpression(env.builder.value.convertType(targetType, None), conditional);
                  var again := if env.isCastRedundant(narrowed) then conditional else narrowed;
                  r == AssignmentExpression(left, op, Placed(castType, Visit(env, again, PlacedContext(castType), fuel - 1))))
  {
    var targetType := env.resolve(left).value;
    if targetType.SimpleType().BitWidth() >= 32 || env.builder.Some? {
      AssignmentConditionalRevisited(env, left, op, right, ctx, fuel);
    } else {
      assert ExplicitCast(env, targetType, env.resolve(right).value).None?;
      assert StepOf(env, AssignmentExpression(left, op, right), ctx) == Rewrite(AssignmentExpression(left, op, BooleanToNumeric(right)), None);
    }
  }

  /** The boolean-to-numeric normalisation of an assignment when the
      normalised value is visited again: the value is the conditional, or
      its narrowing cast unless that is redundant. */
  lemma AssignmentConditionalRevisited(env: Env, left: Expr, op: AssignmentOperatorType, right: Expr, ctx: Context, fuel: nat)
    requires fuel > 0
    requires env.resolve(left).Some? && env.resolve(right).Some?
    requires IsBooleanToNumeric(env.resolve(right).value, env.resolve(left).value)
    requires IsExplicit(env.conversion(env.resolve(left).value, env.resolve(right).value)) ==> env.builder.Some?
    requires env.resolve(left).value.SimpleType().BitWidth() >= 32 || env.builder.Some?
    ensures var targetType := env.resolve(left).value;
            var castType := ExplicitCast(env, targetType, env.resolve(right).value);
            var again := Narrowed(env, BooleanToNumeric(right), targetType).value;
            Rule(env, AssignmentExpression(left, op, right), ctx, fuel)
              == AssignmentExpression(left, op, Placed(castType, Visit(env, again, PlacedContext(castType), fuel - 1)))
  {
    var targetType := env.resolve(left).value;
    var castType := ExplicitCast(env, targetType, env.resolve(right).value);
    var again := Narrowed(env, BooleanToNumeric(right), targetType).value;
    assert StepOf(env, AssignmentExpression(left, op, right), ctx)
        == Rewrite(AssignmentExpression(left, op, Placed(castType, again)), Some(PlacedSlot(castType)));
    PlacedSlotFacts(left, op, castType, again, Visit(env, again, PlacedContext(castType), fuel - 1), ctx);
  }

  /** `b = n` with `n` numeric: the right side (inside the explicit cast, if
      one was inserted) becomes `n != 0` and is visited again there. */
  lemma AssignmentNumericToBoolean(env: Env, left: Expr, op: AssignmentOperatorType, right: Expr, ctx: Context, fuel: nat)
    requires fuel > 0
    requires env.resolve(left).Some? && env.resolve(right).Some?
    requires IsNumericToBoolean(env.resolve(right).value, env.resolve(left).value)
    requires IsExplicit(env.conversion(env.resolve(left).value, env.resolve(right).value)) ==> env.builder.Some?
    ensures var targetType, valueType := env.resolve(left).value, env.resolve(right).value;
            var castType := ExplicitCast(env, targetType, valueType);
            var inequality := NumericToBoolean(right, valueType.SimpleType());
            Rule(env, AssignmentExpression(left, op, right), ctx, fuel)
              == AssignmentExpression(left, op, Placed(castType, Visit(env, inequality, PlacedContext(castType), fuel - 1)))
  {
    var targetType, valueType := env.resolve(left).value, env.resolve(right).value;
    var castType := ExplicitCast(env, targetType, valueType);
    var inequality := NumericToBoolean(right, valueType.SimpleType());
    NormalisationsExclusive(valueType, targetType);
    PlacedSlotFacts(left, op, castType, inequality, Visit(env, inequality, PlacedContext(castType), fuel - 1), ctx);
  }

  // ---------------------------------------------------------------------
  // Member references

  /** The member rule rewrites exactly when the target is not the null
      sentinel, a member is known (the node's own, or its parent's when the
      node is the parent's target), the target's type resolves and is not a
      subtype of the declaring type, and a builder is at hand. */
  lemma MemberRewriteCondition(env: Env, node: Expr, ctx: Context)
    requires node.MemberReferenceExpression?
    ensures MemberStep(env, node, ctx).Rewrite? <==>
              !node.target.IsNull() && MemberOf(node, ctx).Some? && env.resolve(node.target).Some?
              && !env.isSubType(env.resolve(node.target).value, SubtypeQueryType(env, MemberOf(node, ctx).value))
              && env.builder.Some?
  {
  }

  /** When the rule fires, the target is wrapped in a cast to the upcast type
      and that cast is visited again as the target; name, type arguments and
      annotation of the reference stay. */
  lemma MemberUpcast(env: Env, node: Expr, ctx: Context, fuel: nat)
    requires fuel > 0 && node.MemberReferenceExpression?
    requires MemberStep(env, node, ctx).Rewrite?
    ensures var member := MemberOf(node, ctx).value;
            var targetType := env.resolve(node.target).value;
            var upcast := CastExpression(env.builder.value.convertType(UpcastType(env, targetType, member), None), node.target);
            Rule(env, node, ctx, fuel)
              == MemberReferenceExpression(Visit(env, upcast, InSlot(TargetExpressionRole, node.member), fuel - 1),
                                           node.memberName, node.typeArguments, node.member)
  {
    MemberRewriteCondition(env, node, ctx);
  }

  /** The upcast type is the first available of: the target type viewed as
      the declaring type; the declaring type's generic definition instantiated
      with one unbounded wildcard per generic parameter, when the member
      mentions generic parameters; the declaring type. */
  lemma UpcastTypeChoice(env: Env, targetType: TypeRef, member: MemberReference)
    ensures env.asSubType(targetType, member.declaringType).Some? ==>
              UpcastType(env, targetType, member) == env.asSubType(targetType, member.declaringType).value
    ensures env.asSubType(targetType, member.declaringType).None? ==>
              var definition := env.resolveDefinition(member.declaringType);
              if definition.Some? && definition.value.isGenericDefinition && member.containsGenericParameters then
                exists args :: |args| == |definition.value.genericParameters|
                  && (forall i :: 0 <= i < |args| ==> args[i] == UnboundedWildcard)
                  && UpcastType(env, targetType, member) == env.makeGenericType(definition.value, args)
              else UpcastType(env, targetType, member) == member.declaringType
  {
    var definition := env.resolveDefinition(member.declaringType);
    if env.asSubType(targetType, member.declaringType).None? && definition.Some?
       && definition.value.isGenericDefinition && member.containsGenericParameters {
      var args := UnboundedWildcards(|definition.value.genericParameters|);
      assert UpcastType(env, targetType, member) == env.makeGenericType(definition.value, args);
    }
  }

  // ---------------------------------------------------------------------
  // Whole trees

  /** No node of `e` (standing in `ctx`) has a rule that fires. */
  predicate Settled(env: Env, e: Expr, ctx: Context)
    decreases Size(e)
  {
    StepOf(env, e, ctx).Keep?
    && forall i :: 0 <= i < |Children(e)| ==> Settled(env, Children(e)[i], ChildContext(e, i))
  }

  /** A tree in which no rule fires is left exactly as it is, whatever the
      fuel. */
  lemma {:induction false} SettledUnchanged(env: Env, e: Expr, ctx: Context, fuel: nat)
    requires Settled(env, e, ctx)
    ensures Visit(env, e, ctx, fuel) == e
    decreases Size(e), 1, 0
  {
    SettledPrefix(env, e, fuel, |Children(e)|);
    assert Children(e)[..|Children(e)|] == Children(e);
    WithOwnChildren(e);
    assert Rule(env, e, ctx, fuel) == Continue(env, Keep, e, ctx, fuel);
  }

  /** Visiting the children of a node whose children are settled gives them
      back unchanged. */
  lemma {:induction false} SettledPrefix(env: Env, e: Expr, fuel: nat, n: nat)
    requires n <= |Children(e)|
    requires forall i :: 0 <= i < |Children(e)| ==> Settled(env, Children(e)[i], ChildContext(e, i))
    ensures VisitedPrefix(env, e, fuel, n) == Children(e)[..n]
    decreases Size(e), 0, n
  {
    if n > 0 {
      var cs := Children(e);
      SettledPrefix(env, e, fuel, n - 1);
      SettledUnchanged(env, cs[n - 1], ChildContext(e, n - 1), fuel);
      assert cs[..n] == cs[..n - 1] + [cs[n - 1]];
    }
  }

  /** A tree with no cast, assignment or member reference in it. */
  predicate Plain(e: Expr)
    decreases Size(e)
  {
    !e.CastExpression? && !e.AssignmentExpression? && !e.MemberReferenceExpression?
    && forall i :: 0 <= i < |Children(e)| ==> Plain(Children(e)[i])
  }

  lemma {:induction false} PlainSettled(env: Env, e: Expr, ctx: Context)
    requires Plain(e)
    ensures Settled(env, e, ctx)
    decreases Size(e)
  {
    forall i | 0 <= i < |Children(e)|
      ensures Settled(env, Children(e)[i], ChildContext(e, i))
    {
      PlainSettled(env, Children(e)[i], ChildContext(e, i));
    }
  }

  /** A node whose children are plain gets them back unchanged from the
      walk over them. */
  lemma PlainChildren(env: Env, e: Expr, fuel: nat)
    requires forall i :: 0 <= i < |Children(e)| ==> Plain(Children(e)[i])
    ensures WithVisitedChildren(env, e, fuel) == e
  {
    forall i | 0 <= i < |Children(e)|
      ensures Settled(env, Children(e)[i], ChildContext(e, i))
    {
      PlainSettled(env, Children(e)[i], ChildContext(e, i));
    }
    SettledPrefix(env, e, fuel, |Children(e)|);
    assert Children(e)[..|Children(e)|] == Children(e);
    WithOwnChildren(e);
  }

  /** When the resolver knows nothing, no rule fires anywhere. */
  lemma {:induction false} UnresolvedSettled(env: Env, e: Expr, ctx: Context)
    requires forall x :: env.resolve(x).None?
    ensures Settled(env, e, ctx)
    decreases Size(e)
  {
    forall i | 0 <= i < |Children(e)|
      ensures Settled(env, Children(e)[i], ChildContext(e, i))
    {
      UnresolvedSettled(env, Children(e)[i], ChildContext(e, i));
    }
  }

  /** When the resolver knows nothing, the transform changes nothing. */
  lemma UnresolvedTreeUnchanged(env: Env, e: Expr, ctx: Context, fuel: nat)
    requires forall x :: env.resolve(x).None?
    ensures Visit(env, e, ctx, fuel) == e
  {
    UnresolvedSettled(env, e, ctx);
    SettledUnchanged(env, e, ctx, fuel);
  }

  /** The null sentinel and a pattern placeholder are left as they are. */
  lemma SentinelsUnchanged(env: Env, p: Pattern, ctx: Context, fuel: nat)
    ensures Visit(env, NullExpression, ctx, fuel) == NullExpression
    ensures Visit(env, PatternPlaceholder(p), ctx, fuel) == PatternPlaceholder(p)
  {
    SettledUnchanged(env, NullExpression, ctx, fuel);
    SettledUnchanged(env, PatternPlaceholder(p), ctx, fuel);
  }

  // ---------------------------------------------------------------------
  // Fuel

  /** The visit of `e` at `fuel` never reaches the cut-off: every re-entry
      a step asks for, here or below, still has fuel to run. */
  predicate VisitSettles(env: Env, e: Expr, ctx: Context, fuel: nat)
    decreases fuel, Size(e), 2, 0
  {
    var node := WithVisitedChildren(env, e, fuel);
    PrefixSettles(env, e, fuel, |Children(e)|) && ContinueSettles(env, StepOf(env, node, ctx), node, ctx, fuel)
  }

  /** The visits of the first `n` children of `e` never reach the cut-off. */
  predicate PrefixSettles(env: Env, e: Expr, fuel: nat, n: nat)
    requires n <= |Children(e)|
    decreases fuel, Size(e), 0, n
  {
    n == 0 || (PrefixSettles(env, e, fuel, n - 1) && VisitSettles(env, Children(e)[n - 1], ChildContext(e, n - 1), fuel))
  }

  /** Carrying out `s` never reaches the cut-off. */
  predicate ContinueSettles(env: Env, s: Step, node: Expr, ctx: Context, fuel: nat)
    requires WellFormed(s)
    decreases fuel, 0, 0, 0
  {
    match s
    case Rewrite(r, Some(p)) => fuel > 0 && VisitSettles(env, At(r, p), ContextAt(r, p, ctx), fuel - 1)
    case _ => true
  }

  /** A visit that never reaches the cut-off is the visit the unbounded walk
      makes: one more unit of fuel changes nothing, and it still settles. */
  lemma {:induction false} MoreFuelSameVisit(env: Env, e: Expr, ctx: Context, fuel: nat)
    requires VisitSettles(env, e, ctx, fuel)
    ensures Visit(env, e, ctx, fuel + 1) == Visit(env, e, ctx, fuel)
    ensures VisitSettles(env, e, ctx, fuel + 1)
    decreases fuel, Size(e), 2
  {
    var n := |Children(e)|;
    MoreFuelSamePrefix(env, e, fuel, n);
    var node := WithVisitedChildren(env, e, fuel);
    assert WithVisitedChildren(env, e, fuel + 1) == node;
    MoreFuelSameContinue(env, StepOf(env, node, ctx), node, ctx, fuel);
  }

  lemma {:induction false} MoreFuelSamePrefix(env: Env, e: Expr, fuel: nat, n: nat)
    requires n <= |Children(e)|
    requires PrefixSettles(env, e, fuel, n)
    ensures VisitedPrefix(env, e, fuel + 1, n) == VisitedPrefix(env, e, fuel, n)
    ensures PrefixSettles(env, e, fuel + 1, n)
    decreases fuel, Size(e), 0, n
  {
    if n > 0 {
      MoreFuelSamePrefix(env, e, fuel, n - 1);
      MoreFuelSameVisit(env, Children(e)[n - 1], ChildContext(e, n - 1), fuel);
    }
  }

  lemma {:induction false} MoreFuelSameContinue(env: Env, s: Step, node: Expr, ctx: Context, fuel: nat)
    requires WellFormed(s)
    requires ContinueSettles(env, s, node, ctx, fuel)
    ensures Continue(env, s, node, ctx, fuel + 1) == Continue(env, s, node, ctx, fuel)
    ensures ContinueSettles(env, s, node, ctx, fuel + 1)
    decreases fuel, 0, 0, 0
  {
    if s.Rewrite? && s.revisit.Some? {
      var r, p := s.result, s.revisit.value;
      MoreFuelSameVisit(env, At(r, p), ContextAt(r, p, ctx), fuel - 1);
    }
  }

  /** So any larger fuel gives the same tree as the smallest that settles. */
  lemma {:induction false} SettledFuelSuffices(env: Env, e: Expr, ctx: Context, fuel: nat, more: nat)
    requires VisitSettles(env, e, ctx, fuel) && fuel <= more
    ensures Visit(env, e, ctx, more) == Visit(env, e, ctx, fuel)
    decreases more - fuel
  {
    if fuel < more {
      MoreFuelSameVisit(env, e, ctx, fuel);
      SettledFuelSuffices(env, e, ctx, fuel + 1, more);
    }
  }

  // ---------------------------------------------------------------------
  // Worked examples

  const IntType: TypeRef := Ref("I", Integer, [])
  const ShortType: TypeRef := Ref("S", Short, [])
  const BooleanType: TypeRef := Ref("Z", Boolean, [])

  /** `(int) flag` becomes `flag ? 1 : 0`. */
  lemma IntCastOfBoolean(env: Env, t: AstType, flag: string, ctx: Context, fuel: nat)
    requires fuel > 0
    requires env.resolveType(t) == Some(IntType)
    requires env.resolve(IdentifierExpression(flag)) == Some(BooleanType)
    requires env.conversion(IntType, BooleanType) == NONE
    ensures Visit(env, CastExpression(t, IdentifierExpression(flag)), ctx, fuel)
              == ConditionalExpression(IdentifierExpression(flag), PrimitiveExpression(One(Integer)), PrimitiveExpression(Zero(Integer)))
  {
    var value := IdentifierExpression(flag);
    PlainSettled(env, value, InSlot(ExpressionRole, None));
    CastOfSettled(env, t, value, ctx, fuel);
    IntCastRule(env, t, flag, ctx, fuel);
  }

  lemma IntCastRule(env: Env, t: AstType, flag: string, ctx: Context, fuel: nat)
    requires fuel > 0
    requires env.resolveType(t) == Some(IntType)
    requires env.resolve(IdentifierExpression(flag)) == Some(BooleanType)
    requires env.conversion(IntType, BooleanType) == NONE
    ensures Rule(env, CastExpression(t, IdentifierExpression(flag)), ctx, fuel) == BooleanToNumeric(IdentifierExpression(flag))
  {
    CastBooleanToNumeric(env, t, IdentifierExpression(flag), ctx, fuel);
    PlainConditional(env, IdentifierExpression(flag), ctx, fuel - 1);
  }

  /** `value ? 1 : 0` over a plain value is left as it is. */
  lemma PlainConditional(env: Env, value: Expr, ctx: Context, fuel: nat)
    requires Plain(value)
    ensures Visit(env, BooleanToNumeric(value), ctx, fuel) == BooleanToNumeric(value)
  {
    PlainSettled(env, BooleanToNumeric(value), ctx);
    SettledUnchanged(env, BooleanToNumeric(value), ctx, fuel);
  }

  /** `(short) flag` becomes `(short) (flag ? 1 : 0)`, or just the
      conditional when the redundant-cast check calls the narrowing cast
      redundant. The narrowing cast, visited again, stays because the
      classifier finds an explicit int-to-short conversion for it. */
  lemma ShortCastOfBoolean(env: Env, t: AstType, flag: string, ctx: Context, fuel: nat)
    requires fuel > 0
    requires env.builder.Some?
    requires env.resolveType(t) == Some(ShortType)
    requires env.resolve(IdentifierExpression(flag)) == Some(BooleanType)
    requires env.conversion(ShortType, BooleanType) == NONE
    requires env.resolveType(env.builder.value.convertType(ShortType, None)) == Some(ShortType)
    requires env.resolve(BooleanToNumeric(IdentifierExpression(flag))) == Some(IntType)
    requires env.conversion(ShortType, IntType) == EXPLICIT
    ensures var conditional := BooleanToNumeric(IdentifierExpression(flag));
            var narrowed := CastExpression(env.builder.value.convertType(ShortType, None), conditional);
            Visit(env, CastExpression(t, IdentifierExpression(flag)), ctx, fuel)
              == if env.isCastRedundant(narrowed) then conditional else narrowed
  {
    ShortCastRule(env, t, flag, ctx, fuel);
    var value := IdentifierExpression(flag);
    var conditional := BooleanToNumeric(value);
    var narrowed := CastExpression(env.builder.value.convertType(ShortType, None), conditional);
    if env.isCastRedundant(narrowed) {
      PlainConditional(env, value, ctx, fuel - 1);
    } else {
      NarrowingCastUnchanged(env, narrowed, ctx, fuel - 1);
    }
  }

  lemma ShortCastRule(env: Env, t: AstType, flag: string, ctx: Context, fuel: nat)
    requires fuel > 0
    requires env.builder.Some?
    requires env.resolveType(t) == Some(ShortType)
    requires env.resolve(IdentifierExpression(flag)) == Some(BooleanType)
    requires env.conversion(ShortType, BooleanType) == NONE
    ensures var conditional := BooleanToNumeric(IdentifierExpression(flag));
            var narrowed := CastExpression(env.builder.value.convertType(ShortType, None), conditional);
            Visit(env, CastExpression(t, IdentifierExpression(flag)), ctx, fuel)
              == Visit(env, if env.isCastRedundant(narrowed) then conditional else narrowed, ctx, fuel - 1)
  {
    var value := IdentifierExpression(flag);
    PlainSettled(env, value, InSlot(ExpressionRole, None));
    CastOfSettled(env, t, value, ctx, fuel);
    CastBooleanToNumeric(env, t, value, ctx, fuel);
  }

  /** A cast whose operand is settled is visited by applying its rule to it
      directly. */
  lemma CastOfSettled(env: Env, t: AstType, value: Expr, ctx: Context, fuel: nat)
    requires Settled(env, value, InSlot(ExpressionRole, None))
    ensures Visit(env, CastExpression(t, value), ctx, fuel) == Rule(env, CastExpression(t, value), ctx, fuel)
  {
    var node := CastExpression(t, value);
    SettledUnchanged(env, value, ChildContext(node, 0), fuel);
    assert VisitedPrefix(env, node, fuel, 1) == [value];
  }

  /** A cast the classifier can convert, over a plain operand, is left as
      it is. */
  lemma NarrowingCastUnchanged(env: Env, narrowed: Expr, ctx: Context, fuel: nat)
    requires narrowed.CastExpression? && Plain(narrowed.operand)
    requires env.resolveType(narrowed.typ).Some? && env.resolve(narrowed.operand).Some?
    requires env.conversion(env.resolveType(narrowed.typ).value, env.resolve(narrowed.operand).value) != NONE
    ensures Visit(env, narrowed, ctx, fuel) == narrowed
  {
    PlainSettled(env, narrowed.operand, ChildContext(narrowed, 0));
    assert Settled(env, narrowed, ctx);
    SettledUnchanged(env, narrowed, ctx, fuel);
  }

  /** `ready = count`, a boolean field assigned an int, becomes
      `ready = count != 0`. */
  lemma BooleanAssignedInt(env: Env, ready: string, count: string, ctx: Context, fuel: nat)
    requires fuel > 0
    requires env.resolve(IdentifierExpression(ready)) == Some(BooleanType)
    requires env.resolve(IdentifierExpression(count)) == Some(IntType)
    requires !IsExplicit(env.conversion(BooleanType, IntType))
    ensures Visit(env, AssignmentExpression(IdentifierExpression(ready), Assign, IdentifierExpression(count)), ctx, fuel)
              == AssignmentExpression(IdentifierExpression(ready), Assign,
                   BinaryOperatorExpression(IdentifierExpression(count), INEQUALITY, PrimitiveExpression(Zero(Integer))))
  {
    var left, right := IdentifierExpression(ready), IdentifierExpression(count);
    PlainChildren(env, AssignmentExpression(left, Assign, right), fuel);
    BooleanAssignedIntRule(env, ready, count, ctx, fuel);
  }

  lemma BooleanAssignedIntRule(env: Env, ready: string, count: string, ctx: Context, fuel: nat)
    requires fuel > 0
    requires env.resolve(IdentifierExpression(ready)) == Some(BooleanType)
    requires env.resolve(IdentifierExpression(count)) == Some(IntType)
    requires !IsExplicit(env.conversion(BooleanType, IntType))
    ensures Rule(env, AssignmentExpression(IdentifierExpression(ready), Assign, IdentifierExpression(count)), ctx, fuel)
              == AssignmentExpression(IdentifierExpression(ready), Assign, NumericToBoolean(IdentifierExpression(count), Integer))
  {
    NumericAssignedPlain(env, IdentifierExpression(ready), Assign, IdentifierExpression(count), ctx, fuel);
  }

  /** A plain numeric value assigned to a boolean without an explicit
      conversion becomes `value != 0`, and nothing more happens to it. */
  lemma NumericAssignedPlain(env: Env, left: Expr, op: AssignmentOperatorType, right: Expr, ctx: Context, fuel: nat)
    requires fuel > 0 && Plain(right)
    requires env.resolve(left).Some? && env.resolve(right).Some?
    requires IsNumericToBoolean(env.resolve(right).value, env.resolve(left).value)
    requires !IsExplicit(env.conversion(env.resolve(left).value, env.resolve(right).value))
    ensures Rule(env, AssignmentExpression(left, op, right), ctx, fuel)
              == AssignmentExpression(left, op, NumericToBoolean(right, env.resolve(right).value.SimpleType()))
  {
    AssignmentNumericToBoolean(env, left, op, right, ctx, fuel);
    PlainInequality(env, right, env.resolve(right).value.SimpleType(), InSlot(RightRole, None), fuel - 1);
  }

  /** `value != 0` over a plain value is left as it is. */
  lemma PlainInequality(env: Env, value: Expr, kind: JvmType, ctx: Context, fuel: nat)
    requires Plain(value)
    ensures Visit(env, NumericToBoolean(value, kind), ctx, fuel) == NumericToBoolean(value, kind)
  {
    PlainSettled(env, NumericToBoolean(value, kind), ctx);
    SettledUnchanged(env, NumericToBoolean(value, kind), ctx, fuel);
  }
}
