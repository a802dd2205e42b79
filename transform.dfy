/** The conversion transform as the visitor that walks a tree and rewrites it
    in place. `root` is the whole tree; every method works on the node at a
    path in it, and is proved to leave in that node's place what
    `Conversions.Visit` says visiting the node yields. */
module Transform {
  import opened Metadata
  import opened Ast
  import opened Conversions
  import Expressions
  import opened ConversionLemmas

  class InsertNecessaryConversionsTransform {
    /** The resolver, the metadata queries and the context's AST builder. */
    const env: Env
    /** The tree being transformed. */
    var root: Expr

    constructor (env: Env, root: Expr)
      ensures this.env == env && this.root == root
    {
      this.env := env;
      this.root := root;
    }

    /** Visits the whole tree from its root. */
    method Run(fuel: nat)
      modifies this
      ensures root == Visit(env, old(root), Detached, fuel)
    {
      AcceptVisitor([], fuel);
    }

    /** `acceptVisitor(this, data)` on the node at `path`: the null sentinel
        calls nothing; casts, assignments and member references go to their
        rules; every other kind only has its children visited. */
    method AcceptVisitor(path: Path, fuel: nat)
      requires ValidPath(root, path)
      modifies this
      ensures root == ReplaceAt(old(root), path, Visit(env, At(old(root), path), ContextAt(old(root), path, Detached), fuel))
      decreases fuel, Size(At(root, path)), 3
    {
      var node := At(root, path);
      WithChildrenKind(node, VisitedPrefix(env, node, fuel, |Children(node)|));
      match Expressions.AcceptVisitor(node)
      case NoCall =>
        assert Rule(env, node, ContextAt(root, path, Detached), fuel) == Continue(env, Keep, node, ContextAt(root, path, Detached), fuel);
        ReplaceSelf(root, path);
      case Call(visit, _, _) =>
        if visit.VisitCastExpression? {
          VisitCastExpression(path, fuel);
        } else if visit.VisitAssignmentExpression? {
          VisitAssignmentExpression(path, fuel);
        } else if visit.VisitMemberReferenceExpression? {
          VisitMemberReferenceExpression(path, fuel);
        } else {
          VisitOtherKinds(env, node, ContextAt(root, path, Detached), fuel);
          VisitChildren(path, fuel);
        }
    }

    /** The depth-first walk: each child of the node at `path`, in order, is
        visited in its slot. */
    method VisitChildren(path: Path, fuel: nat)
      requires ValidPath(root, path)
      modifies this
      ensures root == ReplaceAt(old(root), path, WithVisitedChildren(env, At(old(root), path), fuel))
      decreases fuel, Size(At(root, path)), 1
    {
      ghost var r0 := root;
      ghost var e := At(root, path);
      var n := |Children(At(root, path))|;
      VisitedNone(env, e, fuel);
      ReplaceSelf(r0, path);
      var i: nat := 0;
      while i < n
        invariant i <= n
        invariant root == ReplaceAt(r0, path, WithChildren(e, VisitedPrefix(env, e, fuel, i) + Children(e)[i..]))
      {
        VisitChild(r0, path, e, i, fuel);
        i := i + 1;
      }
      VisitedAll(env, e, fuel, i);
    }

    /** One step of the walk: the `i`-th child of `e`, standing at `path` in
        a tree that is `r0` elsewhere, is visited in its slot, the children
        before it already visited. */
    method VisitChild(ghost r0: Expr, path: Path, ghost e: Expr, i: nat, fuel: nat)
      requires ValidPath(r0, path) && i < |Children(e)|
      requires root == ReplaceAt(r0, path, WithChildren(e, VisitedPrefix(env, e, fuel, i) + Children(e)[i..]))
      modifies this
      ensures root == ReplaceAt(r0, path, WithChildren(e, VisitedPrefix(env, e, fuel, i + 1) + Children(e)[i + 1..]))
      decreases fuel, Size(e), 0
    {
      ghost var v := Visit(env, Children(e)[i], ChildContext(e, i), fuel);
      ChildSlot(r0, path, e, VisitedPrefix(env, e, fuel, i), i, v);
      AcceptVisitor(path + [i], fuel);
    }

    /** `node.replaceWith(x)` for the node at `path + q`, where `cur` is what
        stands at `path` in a tree that is `r0` elsewhere. */
    method ReplaceWith(ghost r0: Expr, path: Path, ghost cur: Expr, q: Path, x: Expr)
      requires ValidPath(r0, path) && ValidPath(cur, q) && root == ReplaceAt(r0, path, cur)
      modifies this
      ensures root == ReplaceAt(r0, path, ReplaceAt(cur, q, x))
    {
      ReplaceBelow(r0, path, cur, q, x, Detached);
      root := ReplaceAt(root, path + q, x);
    }

    /** `node.remove()` for the node at `path + q`: its slot is left empty,
        which reads as the null sentinel. */
    method Remove(ghost r0: Expr, path: Path, ghost cur: Expr, q: Path)
      requires ValidPath(r0, path) && ValidPath(cur, q) && root == ReplaceAt(r0, path, cur)
      modifies this
      ensures root == ReplaceAt(r0, path, ReplaceAt(cur, q, NullExpression))
    {
      ReplaceWith(r0, path, cur, q, NullExpression);
    }

    /** `RedundantCastUtility.removeCast` for the cast at `path + q`: its
        operand takes its place. */
    method RemoveCast(ghost r0: Expr, path: Path, ghost cur: Expr, q: Path)
      requires ValidPath(r0, path) && ValidPath(cur, q) && root == ReplaceAt(r0, path, cur)
      requires At(cur, q).CastExpression?
      modifies this
      ensures root == ReplaceAt(r0, path, ReplaceAt(cur, q, At(cur, q).operand))
    {
      ReplaceBelow(r0, path, cur, q, At(cur, q).operand, Detached);
      var cast := At(root, path + q);
      root := ReplaceAt(root, path + q, cast.operand);
    }

    /** The end of the boolean-to-numeric normalisation, for the conditional
        standing at `path + q`: below 32 bits it is wrapped in a cast to the
        target when the builder can make one, and the cast is taken off again
        when it is redundant. Returns whether the result is visited again. */
    method Narrow(ghost r0: Expr, path: Path, ghost cur: Expr, q: Path, conditional: Expr, targetType: TypeRef) returns (again: bool)
      requires ValidPath(r0, path) && ValidPath(cur, q) && root == ReplaceAt(r0, path, cur) && At(cur, q) == conditional
      modifies this
      ensures root == ReplaceAt(r0, path, ReplaceAt(cur, q, Narrowed(env, conditional, targetType).value))
      ensures again == Narrowed(env, conditional, targetType).again
    {
      ReplaceSelf(cur, q);
      again := true;
      if targetType.SimpleType().BitWidth() < 32 {
        again := false;
        var astBuilder := env.builder;
        if astBuilder.Some? {
          var replacement := CastExpression(astBuilder.value.convertType(targetType, None), conditional);
          ReplaceWith(r0, path, cur, q, replacement);
          if env.isCastRedundant(replacement) {
            AtReplace(cur, q, replacement, Detached);
            ReplaceTwice(cur, q, replacement, conditional);
            RemoveCast(r0, path, ReplaceAt(cur, q, replacement), q);
          }
          again := true;
        }
      }
    }

    /** What a rule method leaves behind when `node` stood at `path` in a
        tree that is `r0` elsewhere: the step's result in the node's place
        (or the node itself, kept), and the position in that result to visit
        again. */
    ghost predicate Applied(r0: Expr, path: Path, node: Expr, s: Step, revisit: Option<Path>)
      requires ValidPath(r0, path)
      reads this
    {
      match s
      case Keep => root == ReplaceAt(r0, path, node) && revisit.None?
      case Rewrite(x, q) => root == ReplaceAt(r0, path, x) && revisit == q
    }

    /** `replacement.acceptVisitor(this, data)`: after the rule of `node`
        (standing at `path` in context `ctx`) has put its result in place,
        the node it names is visited again, spending one unit of fuel; with
        none left, nothing happens. */
    method Revisit(ghost r0: Expr, path: Path, ghost node: Expr, ghost ctx: Context, ghost s: Step, revisit: Option<Path>, fuel: nat)
      requires ValidPath(r0, path) && ctx == ContextAt(r0, path, Detached)
      requires WellFormed(s) && Applied(r0, path, node, s, revisit)
      modifies this
      ensures root == ReplaceAt(r0, path, Continue(env, s, node, ctx, fuel))
      decreases fuel, 0, 1
    {
      if revisit.Some? && fuel > 0 {
        RevisitAt(r0, path, node, ctx, s, revisit.value, fuel);
      } else {
        ContinueStops(env, s, node, ctx, fuel);
      }
    }

    /** The re-entry itself, at position `q` of the step's result. */
    method RevisitAt(ghost r0: Expr, path: Path, ghost node: Expr, ghost ctx: Context, ghost s: Step, q: Path, fuel: nat)
      requires ValidPath(r0, path) && ctx == ContextAt(r0, path, Detached)
      requires WellFormed(s) && s.Rewrite? && s.revisit == Some(q) && fuel > 0
      requires root == ReplaceAt(r0, path, s.result)
      modifies this
      ensures root == ReplaceAt(r0, path, Continue(env, s, node, ctx, fuel))
      decreases fuel, 0, 0
    {
      VisitBelow(r0, path, s.result, q, fuel - 1);
      ContinueRevisits(env, s, node, ctx, fuel);
    }

    /** `acceptVisitor(this, data)` on the node at `path + q`, where `cur`
        stands at `path` in a tree that is `r0` elsewhere. */
    method VisitBelow(ghost r0: Expr, path: Path, ghost cur: Expr, q: Path, fuel: nat)
      requires ValidPath(r0, path) && ValidPath(cur, q) && root == ReplaceAt(r0, path, cur)
      modifies this
      ensures root == ReplaceAt(r0, path, ReplaceAt(cur, q, Visit(env, At(cur, q), ContextAt(cur, q, ContextAt(r0, path, Detached)), fuel)))
      decreases fuel, Size(At(cur, q)), 4
    {
      ghost var v := Visit(env, At(cur, q), ContextAt(cur, q, ContextAt(r0, path, Detached)), fuel);
      ReplaceBelow(r0, path, cur, q, v, Detached);
      AcceptVisitor(path + q, fuel);
    }

    /** `visitCastExpression`: the operand is visited, then the cast rule
        applies. */
    method VisitCastExpression(path: Path, fuel: nat)
      requires ValidPath(root, path) && At(root, path).CastExpression?
      modifies this
      ensures root == ReplaceAt(old(root), path, Visit(env, At(old(root), path), ContextAt(old(root), path, Detached), fuel))
      decreases fuel, Size(At(root, path)), 2
    {
      ghost var r0 := root;
      ghost var visited := WithVisitedChildren(env, At(r0, path), fuel);
      WithChildrenKind(At(r0, path), VisitedPrefix(env, At(r0, path), fuel, 1));
      AtReplace(r0, path, visited, Detached);
      VisitChildren(path, fuel);
      var node := At(root, path);
      var revisit := CastRule(r0, path, node);
      Revisit(r0, path, node, ContextAt(r0, path, Detached), StepOf(env, node, ContextAt(r0, path, Detached)), revisit, fuel);
    }

    /** `visitAssignmentExpression`: both sides are visited, then the
        assignment rule applies. */
    method VisitAssignmentExpression(path: Path, fuel: nat)
      requires ValidPath(root, path) && At(root, path).AssignmentExpression?
      modifies this
      ensures root == ReplaceAt(old(root), path, Visit(env, At(old(root), path), ContextAt(old(root), path, Detached), fuel))
      decreases fuel, Size(At(root, path)), 2
    {
      ghost var r0 := root;
      ghost var visited := WithVisitedChildren(env, At(r0, path), fuel);
      WithChildrenKind(At(r0, path), VisitedPrefix(env, At(r0, path), fuel, 2));
      AtReplace(r0, path, visited, Detached);
      VisitChildren(path, fuel);
      var node := At(root, path);
      var revisit := AssignmentRule(r0, path, node);
      Revisit(r0, path, node, ContextAt(r0, path, Detached), StepOf(env, node, ContextAt(r0, path, Detached)), revisit, fuel);
    }

    /** `visitMemberReferenceExpression`: the target is visited, then the
        member rule applies. */
    method VisitMemberReferenceExpression(path: Path, fuel: nat)
      requires ValidPath(root, path) && At(root, path).MemberReferenceExpression?
      modifies this
      ensures root == ReplaceAt(old(root), path, Visit(env, At(old(root), path), ContextAt(old(root), path, Detached), fuel))
      decreases fuel, Size(At(root, path)), 2
    {
      ghost var r0 := root;
      ghost var visited := WithVisitedChildren(env, At(r0, path), fuel);
      WithChildrenKind(At(r0, path), VisitedPrefix(env, At(r0, path), fuel, 1));
      AtReplace(r0, path, visited, Detached);
      var where := ContextAt(root, path, Detached);
      VisitChildren(path, fuel);
      var node := At(root, path);
      var revisit := MemberReferenceRule(r0, path, node, where);
      Revisit(r0, path, node, ContextAt(r0, path, Detached), StepOf(env, node, ContextAt(r0, path, Detached)), revisit, fuel);
    }

    /** The body of `visitCastExpression` after its operand is visited, up to
        the node it visits again, which it returns. `node` stands at
        `path` in a tree that is `r0` elsewhere. */
    method CastRule(ghost r0: Expr, path: Path, node: Expr) returns (revisit: Option<Path>)
      requires ValidPath(r0, path) && root == ReplaceAt(r0, path, node) && node.CastExpression?
      modifies this
      ensures Applied(r0, path, node, CastStep(env, node), revisit)
    {
      revisit := None;
      var targetResult := env.resolveType(node.typ);
      if targetResult.None? {
        return;
      }
      var value := node.operand;
      var valueResult := env.resolve(value);
      if valueResult.None? {
        return;
      }
      var targetType, valueType := targetResult.value, valueResult.value;
      var conversionType := env.conversion(targetType, valueType);
      if conversionType != NONE {
        return;
      }
      if valueType.SimpleType() == Boolean && targetType.SimpleType() != Boolean && targetType.SimpleType().IsNumeric() {
        revisit := CastToNumeric(r0, path, node, targetType, valueType);
      } else if targetType.SimpleType() == Boolean && valueType.SimpleType() != Boolean && valueType.SimpleType().IsNumeric() {
        revisit := CastToBoolean(r0, path, node, targetType, valueType);
      } else {
        revisit := CastThroughObject(r0, path, node, targetType, valueType);
      }
    }

    /** The last branch of `visitCastExpression`: when a builder is at hand,
        the operand is wrapped in a cast to `Object`. */
    method CastThroughObject(ghost r0: Expr, path: Path, node: Expr, targetType: TypeRef, valueType: TypeRef) returns (revisit: Option<Path>)
      requires ValidPath(r0, path) && root == ReplaceAt(r0, path, node) && node.CastExpression?
      requires env.resolveType(node.typ) == Some(targetType) && env.resolve(node.operand) == Some(valueType)
      requires env.conversion(targetType, valueType) == NONE
      requires !IsBooleanToNumeric(valueType, targetType) && !IsNumericToBoolean(valueType, targetType)
      modifies this
      ensures Applied(r0, path, node, CastStep(env, node), revisit)
    {
      revisit := None;
      var astBuilder := env.builder;
      if astBuilder.Some? {
        var replacement := CastExpression(astBuilder.value.convertType(ObjectType, None), node.operand);
        ReplaceWith(r0, path, node, [0], replacement);
        revisit := Some([0]);
      }
    }

    /** The boolean-to-numeric branch of `visitCastExpression`: the operand
        is removed, the cast is replaced by the conditional, and that is
        narrowed. */
    method CastToNumeric(ghost r0: Expr, path: Path, node: Expr, targetType: TypeRef, valueType: TypeRef) returns (revisit: Option<Path>)
      requires ValidPath(r0, path) && root == ReplaceAt(r0, path, node) && node.CastExpression?
      requires env.resolveType(node.typ) == Some(targetType) && env.resolve(node.operand) == Some(valueType)
      requires env.conversion(targetType, valueType) == NONE && IsBooleanToNumeric(valueType, targetType)
      modifies this
      ensures Applied(r0, path, node, CastStep(env, node), revisit)
    {
      revisit := None;
      var value := node.operand;
      var here: Path := [];
      Remove(r0, path, node, [0]);
      var conditional := ConditionalExpression(value, PrimitiveExpression(One(Integer)), PrimitiveExpression(Zero(Integer)));
      ReplaceWith(r0, path, ReplaceAt(node, [0], NullExpression), here, conditional);
      CastStepNarrowed(env, node, targetType, valueType);
      var again := Narrow(r0, path, conditional, here, conditional, targetType);
      if again {
        revisit := Some(here);
      }
    }

    /** The numeric-to-boolean branch of `visitCastExpression`: the operand
        is removed and the cast is replaced by `value != 0`. */
    method CastToBoolean(ghost r0: Expr, path: Path, node: Expr, targetType: TypeRef, valueType: TypeRef) returns (revisit: Option<Path>)
      requires ValidPath(r0, path) && root == ReplaceAt(r0, path, node) && node.CastExpression?
      requires env.resolveType(node.typ) == Some(targetType) && env.resolve(node.operand) == Some(valueType)
      requires env.conversion(targetType, valueType) == NONE
      requires !IsBooleanToNumeric(valueType, targetType) && IsNumericToBoolean(valueType, targetType)
      modifies this
      ensures Applied(r0, path, node, CastStep(env, node), revisit)
    {
      var value := node.operand;
      Remove(r0, path, node, [0]);
      var replacement := BinaryOperatorExpression(value, INEQUALITY, PrimitiveExpression(Zero(valueType.SimpleType())));
      ReplaceWith(r0, path, ReplaceAt(node, [0], NullExpression), [], replacement);
      revisit := Some([]);
    }

    /** The body of `visitAssignmentExpression` after both sides are
        visited, up to the node it visits again, which it returns. */
    method AssignmentRule(ghost r0: Expr, path: Path, node: Expr) returns (revisit: Option<Path>)
      requires ValidPath(r0, path) && root == ReplaceAt(r0, path, node) && node.AssignmentExpression?
      modifies this
      ensures Applied(r0, path, node, AssignmentStep(env, node), revisit)
    {
      revisit := None;
      var left, op, right := node.left, node.assignOperator, node.right;
      var targetResult := env.resolve(left);
      if targetResult.None? {
        return;
      }
      var valueResult := env.resolve(right);
      if valueResult.None? {
        return;
      }
      revisit := ConvertAssignment(r0, path, node, targetResult.value, valueResult.value);
    }

    /** The rest of `visitAssignmentExpression` once both sides resolve: the
        explicit cast, then the boolean normalisations. */
    method ConvertAssignment(ghost r0: Expr, path: Path, node: Expr, targetType: TypeRef, valueType: TypeRef) returns (revisit: Option<Path>)
      requires ValidPath(r0, path) && root == ReplaceAt(r0, path, node) && node.AssignmentExpression?
      requires env.resolve(node.left) == Some(targetType) && env.resolve(node.right) == Some(valueType)
      modifies this
      ensures Applied(r0, path, node, AssignmentStep(env, node), revisit)
    {
      revisit := None;
      var conversionType := env.conversion(targetType, valueType);
      if conversionType == EXPLICIT || conversionType == EXPLICIT_TO_UNBOXED {
        var astBuilder := env.builder;
        if astBuilder.None? {
          return;
        }
      }
      ghost var castType;
      var slot;
      castType, slot := PlaceExplicitCast(r0, path, node, targetType, valueType);
      revisit := NormaliseAssignment(r0, path, node.left, node.assignOperator, node.right, castType, slot, targetType, valueType);
    }

    /** The explicit-conversion branch of `visitAssignmentExpression`: the
        right side moves into a cast to the left side's type, built without
        wildcards. Returns that cast's type syntax and where the right side
        now stands. */
    method PlaceExplicitCast(ghost r0: Expr, path: Path, node: Expr, targetType: TypeRef, valueType: TypeRef)
      returns (ghost castType: Option<AstType>, slot: Path)
      requires ValidPath(r0, path) && root == ReplaceAt(r0, path, node) && node.AssignmentExpression?
      requires IsExplicit(env.conversion(targetType, valueType)) ==> env.builder.Some?
      modifies this
      ensures castType == ExplicitCast(env, targetType, valueType) && slot == PlacedSlot(castType)
      ensures root == ReplaceAt(r0, path, AssignmentExpression(node.left, node.assignOperator, Placed(castType, node.right)))
    {
      castType, slot := None, [1];
      var conversionType := env.conversion(targetType, valueType);
      if conversionType == EXPLICIT || conversionType == EXPLICIT_TO_UNBOXED {
        var left, op, right := node.left, node.assignOperator, node.right;
        var convertTypeOptions := ConvertTypeOptions(allowWildcards := false);
        var castToType := env.builder.value.convertType(targetType, Some(convertTypeOptions));
        PlacedSlotFacts(left, op, None, right, CastExpression(castToType, right), Detached);
        ReplaceWith(r0, path, node, [1], CastExpression(castToType, right));
        castType, slot := Some(castToType), [1, 0];
      }
    }

    /** The boolean normalisations of `visitAssignmentExpression`, with
        `left op= Placed(castType, right)` standing at `path` in a tree that
        is `r0` elsewhere and `slot` the position of `right` in it. */
    method NormaliseAssignment(ghost r0: Expr, path: Path, left: Expr, op: AssignmentOperatorType, right: Expr,
                               ghost castType: Option<AstType>, slot: Path, targetType: TypeRef, valueType: TypeRef)
      returns (revisit: Option<Path>)
      requires ValidPath(r0, path) && slot == PlacedSlot(castType)
      requires root == ReplaceAt(r0, path, AssignmentExpression(left, op, Placed(castType, right)))
      modifies this
      ensures Applied(r0, path, AssignmentExpression(left, op, Placed(castType, right)),
                      NormalisedAssignment(env, left, op, right, castType, targetType, valueType), revisit)
    {
      revisit := None;
      if valueType.SimpleType() == Boolean && targetType.SimpleType() != Boolean && targetType.SimpleType().IsNumeric() {
        revisit := ConditionalRight(r0, path, left, op, right, castType, slot, targetType, valueType);
      } else if targetType.SimpleType() == Boolean && valueType.SimpleType() != Boolean && valueType.SimpleType().IsNumeric() {
        revisit := InequalityRight(r0, path, left, op, right, castType, slot, targetType, valueType);
      }
    }

    /** The numeric-to-boolean normalisation of the right side of
        `left op= Placed(castType, right)`: `right` becomes `right != 0`. */
    method InequalityRight(ghost r0: Expr, path: Path, left: Expr, op: AssignmentOperatorType, right: Expr,
                           ghost castType: Option<AstType>, slot: Path, targetType: TypeRef, valueType: TypeRef)
      returns (revisit: Option<Path>)
      requires ValidPath(r0, path) && slot == PlacedSlot(castType)
      requires root == ReplaceAt(r0, path, AssignmentExpression(left, op, Placed(castType, right)))
      requires !IsBooleanToNumeric(valueType, targetType) && IsNumericToBoolean(valueType, targetType)
      modifies this
      ensures Applied(r0, path, AssignmentExpression(left, op, Placed(castType, right)),
                      NormalisedAssignment(env, left, op, right, castType, targetType, valueType), revisit)
    {
      var replacement := BinaryOperatorExpression(right, INEQUALITY, PrimitiveExpression(Zero(valueType.SimpleType())));
      PlacedSlotFacts(left, op, castType, right, replacement, Detached);
      ReplaceWith(r0, path, AssignmentExpression(left, op, Placed(castType, right)), slot, replacement);
      revisit := Some(slot);
    }

    /** The boolean-to-numeric normalisation of the right side of
        `left op= Placed(castType, right)`: `right` becomes the conditional,
        which is then narrowed. */
    method ConditionalRight(ghost r0: Expr, path: Path, left: Expr, op: AssignmentOperatorType, right: Expr,
                            ghost castType: Option<AstType>, slot: Path, targetType: TypeRef, valueType: TypeRef)
      returns (revisit: Option<Path>)
      requires ValidPath(r0, path) && slot == PlacedSlot(castType)
      requires root == ReplaceAt(r0, path, AssignmentExpression(left, op, Placed(castType, right)))
      requires IsBooleanToNumeric(valueType, targetType)
      modifies this
      ensures Applied(r0, path, AssignmentExpression(left, op, Placed(castType, right)),
                      NormalisedAssignment(env, left, op, right, castType, targetType, valueType), revisit)
    {
      revisit := None;
      var conditional := ConditionalExpression(right, PrimitiveExpression(One(Integer)), PrimitiveExpression(Zero(Integer)));
      PlacedSlotFacts(left, op, castType, right, conditional, Detached);
      ReplaceWith(r0, path, AssignmentExpression(left, op, Placed(castType, right)), slot, conditional);
      ghost var n := Narrowed(env, conditional, targetType);
      PlacedSlotFacts(left, op, castType, conditional, n.value, Detached);
      var again := Narrow(r0, path, AssignmentExpression(left, op, Placed(castType, conditional)), slot, conditional, targetType);
      if again {
        revisit := Some(slot);
      }
    }

    /** The body of `visitMemberReferenceExpression` after the target is
        visited, up to the node it visits again, which it returns. */
    method MemberReferenceRule(ghost r0: Expr, path: Path, node: Expr, where: Context) returns (revisit: Option<Path>)
      requires ValidPath(r0, path) && root == ReplaceAt(r0, path, node) && node.MemberReferenceExpression?
      requires where == ContextAt(r0, path, Detached)
      modifies this
      ensures Applied(r0, path, node, MemberStep(env, node, where), revisit)
    {
      revisit := None;
      var target := node.target;
      if target.IsNull() {
        return;
      }
      var member := node.member;
      if member.None? && where.InSlot? && where.role == TargetExpressionRole {
        member := where.parentMember;
      }
      if member.None? {
        return;
      }
      revisit := CastTarget(r0, path, node, member.value);
    }

    /** The rest of `visitMemberReferenceExpression` once the member is
        known: the target is cast up to the member's declaring type unless
        its type does not resolve or already is a subtype of it. */
    method CastTarget(ghost r0: Expr, path: Path, node: Expr, member: MemberReference) returns (revisit: Option<Path>)
      requires ValidPath(r0, path) && root == ReplaceAt(r0, path, node) && node.MemberReferenceExpression?
      modifies this
      ensures Applied(r0, path, node, TargetCastStep(env, node, member), revisit)
    {
      revisit := None;
      var target := node.target;
      var targetResult := env.resolve(target);
      if targetResult.None? {
        return;
      }
      var declaringType := member.declaringType;
      var resolvedDeclaringType := env.resolveDefinition(declaringType);
      var isSubType := env.isSubType(targetResult.value,
        if resolvedDeclaringType.Some? then resolvedDeclaringType.value.reference else declaringType);
      if isSubType {
        return;
      }
      var astBuilder := env.builder;
      if astBuilder.None? {
        return;
      }
      var castType := UpcastTarget(targetResult.value, member, resolvedDeclaringType);
      var astType := astBuilder.value.convertType(castType, None);
      var slot: Path := [0];
      ReplaceWith(r0, path, node, slot, CastExpression(astType, target));
      TargetCastStepUpcast(env, node, member, targetResult.value);
      revisit := Some(slot);
    }

    /** The type `visitMemberReferenceExpression` casts the target to: the
        view of `targetType` as the declaring type when there is one, else
        the generic declaring type over unbounded wildcards when the member
        mentions generic parameters, else the declaring type. */
    method UpcastTarget(targetType: TypeRef, member: MemberReference, resolvedDeclaringType: Option<TypeDefinition>) returns (chosen: TypeRef)
      requires resolvedDeclaringType == env.resolveDefinition(member.declaringType)
      ensures chosen == UpcastType(env, targetType, member)
    {
      var castType := env.asSubType(targetType, member.declaringType);
      if castType.None? {
        if resolvedDeclaringType.Some? && resolvedDeclaringType.value.isGenericDefinition && member.containsGenericParameters {
          var wildcardCount := |resolvedDeclaringType.value.genericParameters|;
          var typeArguments := FillUnboundedWildcards(wildcardCount);
          chosen := env.makeGenericType(resolvedDeclaringType.value, typeArguments[..]);
        } else {
          chosen := member.declaringType;
        }
      } else {
        chosen := castType.value;
      }
    }
  }
}
