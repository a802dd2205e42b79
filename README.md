# Conversion insertion in Procyon's Java AST

Procyon decompiles JVM bytecode into a Java syntax tree. Bytecode mixes
values freely: an `int` can stand where a `boolean` is expected, or a value
can be used through a type its expression does not show. The
`InsertNecessaryConversionsTransform` walks the tree depth-first and fixes
three kinds of node.

- **A cast `(T) x` that the conversion classifier calls impossible.** A
  boolean cast to a number becomes `x ? 1 : 0`. For a target narrower than
  32 bits it is then narrowed by a cast, unless that cast would be redundant.
  A number cast to `boolean` becomes `x != 0`. Any other such cast goes
  through `Object` and becomes `(T) (Object) x`.
- **An assignment `left op= right`.** When the classification is explicit,
  the right side is cast to the left side's type. After that, a boolean
  assigned to a number, or a number assigned to a boolean, is normalised in
  the same way as for casts.
- **A member reference `target.name`** whose target type is not a subtype
  of the member's declaring type. The target is cast up to that type. The
  cast type is, in order of preference: the target type viewed as the
  declaring type; an unbounded-wildcard instantiation of a generic declaring
  type; the declaring type itself.

Most replacements the rules build are visited again. Two are not: the
explicit cast an assignment's right side is placed in, and a conditional
below 32 bits left bare because no builder exists.

The project also models two pieces of the tree itself:

- the `Expression` base: the `NULL` sentinel, the pattern placeholder,
  visitor dispatch, structural matching and the `member`/`invoke` builders;
- `ObjectCreationExpression`: its TYPE and ARGUMENT slots, its constructors
  and its structural match.

Layout:

- `metadata.dfy` (`Metadata`): the type-system values the rules inspect:
  simple JVM types, their widths, type references, definitions, members and
  conversion classifications. It also holds the wildcard-array loop.
- `ast.dfy` (`Ast`): the expression tree as a datatype.
  - A node is addressed by a path of child indices: `At`, `ReplaceAt`,
    `ContextAt`. The context records the node's role and its parent's member
    annotation.
  - The lemmas show how replacing a node at one path leaves every other node
    alone.
- `conversions.dfy` (`Conversions`): what the transform does, as functions.
  - `CastStep`, `AssignmentStep` and `MemberStep` are the three rules.
  - `Visit` is the walk: children first, then the node's own rule, then a
    re-entry on the replacement.
- `conversion_lemmas.dfy` (`ConversionLemmas`): what the rules promise,
  branch by branch. It also proves whole-tree facts and a few worked
  examples.
- `transform.dfy` (`Transform`): the visitor as a class that rewrites its
  tree in place.
  - Each method follows the source's statements (`remove`, `replaceWith`,
    `removeCast`, `acceptVisitor`).
  - Each method is proved to leave exactly the tree that `Conversions.Visit`
    describes.
- `expression.dfy` (`Expressions`) and `object_creation.dfy`
  (`ObjectCreation`): the expression base and the object-creation node.

The resolver, `MetadataHelper`'s queries, `TypeReference.resolve`,
`makeGenericType`, `RedundantCastUtility.isCastRedundant` and the context's
`AstBuilder` are collaborators. They are parameters of the model (the fields
of `Conversions.Env`), so every property holds whatever they answer.

## Model

| member | source | states |
|---|---|---|
| Metadata.FillUnboundedWildcards | Procyon.CompilerTools/src/main/java/com/strobel/decompiler/languages/java/ast/transforms/InsertNecessaryConversionsTransform.java:294-299 | the array built for `makeGenericType` has one entry per generic parameter, each an unbounded wildcard |
| Conversions.NormalisationsExclusive | Procyon.CompilerTools/src/main/java/com/strobel/decompiler/languages/java/ast/transforms/InsertNecessaryConversionsTransform.java:176-222 | a boolean-to-number and a number-to-boolean normalisation never both apply to one pair of types |
| Conversions.BooleanToNumeric | Procyon.CompilerTools/src/main/java/com/strobel/decompiler/languages/java/ast/transforms/InsertNecessaryConversionsTransform.java:54-58 | the boolean normalisation is a conditional that tests the value and yields int 1 or int 0 |
| Conversions.NumericToBoolean | Procyon.CompilerTools/src/main/java/com/strobel/decompiler/languages/java/ast/transforms/InsertNecessaryConversionsTransform.java:100-104 | the numeric normalisation compares the value with a zero of the value's own primitive kind, using `!=` |
| Conversions.Narrowed | Procyon.CompilerTools/src/main/java/com/strobel/decompiler/languages/java/ast/transforms/InsertNecessaryConversionsTransform.java:63-88 | a target below 32 bits gets the conditional inside a cast to the builder's syntax for the target type when a builder exists; the cast is dropped exactly when `isCastRedundant` says it is redundant. The result is visited again exactly when the width is at least 32 or a builder exists; with no narrowing, the conditional stays as it is |
| Conversions.ExplicitCast | Procyon.CompilerTools/src/main/java/com/strobel/decompiler/languages/java/ast/transforms/InsertNecessaryConversionsTransform.java:151-164 | the assignment casts its right side exactly when the classification is EXPLICIT or EXPLICIT_TO_UNBOXED and a builder exists |
| Conversions.MemberOf | Procyon.CompilerTools/src/main/java/com/strobel/decompiler/languages/java/ast/transforms/InsertNecessaryConversionsTransform.java:253-261 | the member is the node's own annotation; when that is missing, it is exactly the parent's `MEMBER_REFERENCE` entry if the node is the parent's TARGET_EXPRESSION child, and none otherwise |
| ConversionLemmas.VisitOtherKinds | Procyon.CompilerTools/src/main/java/com/strobel/decompiler/languages/java/ast/transforms/InsertNecessaryConversionsTransform.java:16-22 | a node that is not a cast, an assignment or a member reference only has its children visited |
| ConversionLemmas.CastSkipsUnresolved | Procyon.CompilerTools/src/main/java/com/strobel/decompiler/languages/java/ast/transforms/InsertNecessaryConversionsTransform.java:28-39 | a cast whose target type or operand type does not resolve is left unchanged |
| ConversionLemmas.CastRewriteCondition | Procyon.CompilerTools/src/main/java/com/strobel/decompiler/languages/java/ast/transforms/InsertNecessaryConversionsTransform.java:41-127 | the cast rule rewrites if and only if both types resolve, the classification is NONE, and either a normalisation applies or a builder exists |
| ConversionLemmas.CastKeptWhenConvertible | Procyon.CompilerTools/src/main/java/com/strobel/decompiler/languages/java/ast/transforms/InsertNecessaryConversionsTransform.java:41-43 | a cast the classifier can convert (any classification other than NONE) is left unchanged |
| ConversionLemmas.CastBooleanToNumeric | Procyon.CompilerTools/src/main/java/com/strobel/decompiler/languages/java/ast/transforms/InsertNecessaryConversionsTransform.java:44-88 | a boolean cast to a number becomes the conditional, narrowed below 32 bits and visited again, as `Narrowed` says |
| ConversionLemmas.CastNumericToBoolean | Procyon.CompilerTools/src/main/java/com/strobel/decompiler/languages/java/ast/transforms/InsertNecessaryConversionsTransform.java:90-110 | a number cast to boolean becomes `value != 0` with the value's own zero, and that comparison is visited again |
| ConversionLemmas.CastFallback | Procyon.CompilerTools/src/main/java/com/strobel/decompiler/languages/java/ast/transforms/InsertNecessaryConversionsTransform.java:111-126 | any other impossible cast `(T) x` becomes `(T) (Object) x` with the inner cast visited again; without a builder it is unchanged |
| ConversionLemmas.FallbackRefires | Procyon.CompilerTools/src/main/java/com/strobel/decompiler/languages/java/ast/transforms/InsertNecessaryConversionsTransform.java:111-126 | with a classifier that answers NONE for every pair, the inner `(Object) x` the fallback built is itself rewritten by the fallback into `(Object) (Object) x`, visited again |
| ConversionLemmas.AssignmentSkipsUnresolved | Procyon.CompilerTools/src/main/java/com/strobel/decompiler/languages/java/ast/transforms/InsertNecessaryConversionsTransform.java:139-149 | an assignment with a side that does not resolve is left unchanged |
| ConversionLemmas.AssignmentExplicitNeedsBuilder | Procyon.CompilerTools/src/main/java/com/strobel/decompiler/languages/java/ast/transforms/InsertNecessaryConversionsTransform.java:153-158 | an explicit classification without a builder leaves the assignment unchanged, even when a normalisation would apply |
| ConversionLemmas.AssignmentExplicitCast | Procyon.CompilerTools/src/main/java/com/strobel/decompiler/languages/java/ast/transforms/InsertNecessaryConversionsTransform.java:151-174 | an explicit classification with a builder and no normalisation wraps the right side in a cast to the left side's type, built without wildcards and not visited again |
| ConversionLemmas.AssignmentKeptOtherwise | Procyon.CompilerTools/src/main/java/com/strobel/decompiler/languages/java/ast/transforms/InsertNecessaryConversionsTransform.java:176-240 | an assignment that is neither explicit nor in need of a normalisation is left unchanged |
| ConversionLemmas.AssignmentBooleanToNumeric | Procyon.CompilerTools/src/main/java/com/strobel/decompiler/languages/java/ast/transforms/InsertNecessaryConversionsTransform.java:176-219 | a boolean assigned to a number becomes the conditional; it sits inside the explicit cast when there is one, is narrowed and is visited again as `Narrowed` says |
| ConversionLemmas.AssignmentConditionalRevisited | Procyon.CompilerTools/src/main/java/com/strobel/decompiler/languages/java/ast/transforms/InsertNecessaryConversionsTransform.java:176-219 | when the normalised value is visited again, the assignment ends with that visit of the `Narrowed` value in the right side's slot |
| ConversionLemmas.AssignmentNumericToBoolean | Procyon.CompilerTools/src/main/java/com/strobel/decompiler/languages/java/ast/transforms/InsertNecessaryConversionsTransform.java:220-238 | a number assigned to a boolean becomes `right != 0`; it sits inside the explicit cast when there is one and is visited again |
| ConversionLemmas.NumericAssignedPlain | Procyon.CompilerTools/src/main/java/com/strobel/decompiler/languages/java/ast/transforms/InsertNecessaryConversionsTransform.java:220-238 | a plain number assigned to a boolean without an explicit conversion ends as `right != 0`, with nothing further rewritten |
| ConversionLemmas.MemberRewriteCondition | Procyon.CompilerTools/src/main/java/com/strobel/decompiler/languages/java/ast/transforms/InsertNecessaryConversionsTransform.java:247-285 | the member rule rewrites if and only if: the target is not null; a member is known; the target type resolves and is not a subtype of the declaring type (its definition when that resolves); and a builder exists |
| ConversionLemmas.MemberUpcast | Procyon.CompilerTools/src/main/java/com/strobel/decompiler/languages/java/ast/transforms/InsertNecessaryConversionsTransform.java:306-319 | when the member rule fires, the target is wrapped in a cast to the upcast type, the rest of the node is kept, and the cast is visited again |
| ConversionLemmas.UpcastTypeChoice | Procyon.CompilerTools/src/main/java/com/strobel/decompiler/languages/java/ast/transforms/InsertNecessaryConversionsTransform.java:287-306 | the cast type is the `asSubType` view when there is one; otherwise the wildcard instantiation of a generic declaring type when the member uses generic parameters; otherwise the declaring type |
| ConversionLemmas.SettledUnchanged | Procyon.CompilerTools/src/main/java/com/strobel/decompiler/languages/java/ast/transforms/InsertNecessaryConversionsTransform.java:16-320 | a tree in which no rule fires is left exactly as it is |
| ConversionLemmas.MoreFuelSameVisit | Procyon.CompilerTools/src/main/java/com/strobel/decompiler/languages/java/ast/transforms/InsertNecessaryConversionsTransform.java:79-87 | a visit whose every re-entry still has fuel gives the same tree with one more unit of fuel, and still never reaches the cut-off |
| ConversionLemmas.SettledFuelSuffices | Procyon.CompilerTools/src/main/java/com/strobel/decompiler/languages/java/ast/transforms/InsertNecessaryConversionsTransform.java:79-87 | a visit that never reaches the cut-off gives the same tree for every larger fuel |
| ConversionLemmas.PlainSettled | Procyon.CompilerTools/src/main/java/com/strobel/decompiler/languages/java/ast/transforms/InsertNecessaryConversionsTransform.java:16-320 | no rule fires in a tree without casts, assignments or member references |
| ConversionLemmas.UnresolvedTreeUnchanged | Procyon.CompilerTools/src/main/java/com/strobel/decompiler/languages/java/ast/transforms/InsertNecessaryConversionsTransform.java:28-267 | when the resolver knows no type, the transform changes nothing anywhere in the tree |
| ConversionLemmas.SentinelsUnchanged | Assembler/src/com/strobel/decompiler/languages/java/ast/Expression.java:26-84 | the null sentinel and a pattern placeholder pass through the transform unchanged |
| ConversionLemmas.IntCastOfBoolean | Procyon.CompilerTools/src/main/java/com/strobel/decompiler/languages/java/ast/transforms/InsertNecessaryConversionsTransform.java:44-88 | `(int) flag` for a boolean `flag` becomes `flag ? 1 : 0` |
| ConversionLemmas.ShortCastOfBoolean | Procyon.CompilerTools/src/main/java/com/strobel/decompiler/languages/java/ast/transforms/InsertNecessaryConversionsTransform.java:63-88 | `(short) flag` becomes `(short) (flag ? 1 : 0)`, or just the conditional when the narrowing cast is redundant |
| ConversionLemmas.BooleanAssignedInt | Procyon.CompilerTools/src/main/java/com/strobel/decompiler/languages/java/ast/transforms/InsertNecessaryConversionsTransform.java:220-238 | `ready = count` with a boolean `ready` and an int `count` becomes `ready = count != 0` |
| Transform.InsertNecessaryConversionsTransform.constructor | Procyon.CompilerTools/src/main/java/com/strobel/decompiler/languages/java/ast/transforms/InsertNecessaryConversionsTransform.java:19-22 | the transform starts on the given tree with the given collaborators |
| Transform.InsertNecessaryConversionsTransform.Run | Procyon.CompilerTools/src/main/java/com/strobel/decompiler/languages/java/ast/transforms/InsertNecessaryConversionsTransform.java:16-22 | visiting the whole tree leaves exactly `Visit` of the old tree |
| Transform.InsertNecessaryConversionsTransform.AcceptVisitor | Assembler/src/com/strobel/decompiler/languages/java/ast/Expression.java:35-73 | the node at a path is replaced by its `Visit` in its context and nothing else changes; the null sentinel dispatches nothing |
| Transform.InsertNecessaryConversionsTransform.VisitChildren | Procyon.CompilerTools/src/main/java/com/strobel/decompiler/languages/java/ast/transforms/InsertNecessaryConversionsTransform.java:26 | every child of the node, in order, is replaced by its own visit; the rest of the tree is unchanged |
| Transform.InsertNecessaryConversionsTransform.VisitCastExpression | Procyon.CompilerTools/src/main/java/com/strobel/decompiler/languages/java/ast/transforms/InsertNecessaryConversionsTransform.java:24-130 | the cast at the path ends as `Visit` describes: the operand first, then the cast rule and its re-entry |
| Transform.InsertNecessaryConversionsTransform.VisitAssignmentExpression | Procyon.CompilerTools/src/main/java/com/strobel/decompiler/languages/java/ast/transforms/InsertNecessaryConversionsTransform.java:132-241 | the assignment at the path ends as `Visit` describes: both sides first, then the assignment rule and its re-entry |
| Transform.InsertNecessaryConversionsTransform.VisitMemberReferenceExpression | Procyon.CompilerTools/src/main/java/com/strobel/decompiler/languages/java/ast/transforms/InsertNecessaryConversionsTransform.java:243-320 | the member reference at the path ends as `Visit` describes, using the parent's member annotation from its context |
| Transform.InsertNecessaryConversionsTransform.CastRule | Procyon.CompilerTools/src/main/java/com/strobel/decompiler/languages/java/ast/transforms/InsertNecessaryConversionsTransform.java:28-127 | the resolution and classification tests, then the branch taken, leave in the tree exactly the rewrite `CastStep` gives, and report where to visit again |
| Transform.InsertNecessaryConversionsTransform.CastToNumeric | Procyon.CompilerTools/src/main/java/com/strobel/decompiler/languages/java/ast/transforms/InsertNecessaryConversionsTransform.java:44-88 | the boolean-to-numeric branch (remove the operand, put the conditional in the cast's place, narrow it) leaves exactly `CastStep`'s rewrite |
| Transform.InsertNecessaryConversionsTransform.CastToBoolean | Procyon.CompilerTools/src/main/java/com/strobel/decompiler/languages/java/ast/transforms/InsertNecessaryConversionsTransform.java:90-110 | the numeric-to-boolean branch leaves `value != 0` in the cast's place, to be visited again, as `CastStep` says |
| Transform.InsertNecessaryConversionsTransform.CastThroughObject | Procyon.CompilerTools/src/main/java/com/strobel/decompiler/languages/java/ast/transforms/InsertNecessaryConversionsTransform.java:111-126 | the last branch wraps the operand in an `Object` cast, to be visited again, when a builder exists, and otherwise changes nothing, as `CastStep` says |
| Transform.InsertNecessaryConversionsTransform.AssignmentRule | Procyon.CompilerTools/src/main/java/com/strobel/decompiler/languages/java/ast/transforms/InsertNecessaryConversionsTransform.java:136-149 | an assignment with a side that does not resolve is left as it is; otherwise the tree ends as `AssignmentStep` says |
| Transform.InsertNecessaryConversionsTransform.ConvertAssignment | Procyon.CompilerTools/src/main/java/com/strobel/decompiler/languages/java/ast/transforms/InsertNecessaryConversionsTransform.java:151-238 | once both sides resolve: an explicit classification without a builder leaves the assignment alone; otherwise the tree ends as `AssignmentStep` says |
| Transform.InsertNecessaryConversionsTransform.PlaceExplicitCast | Procyon.CompilerTools/src/main/java/com/strobel/decompiler/languages/java/ast/transforms/InsertNecessaryConversionsTransform.java:151-174 | the right side ends inside a cast exactly when `ExplicitCast` gives one; the method reports where the right side now stands |
| Transform.InsertNecessaryConversionsTransform.NormaliseAssignment | Procyon.CompilerTools/src/main/java/com/strobel/decompiler/languages/java/ast/transforms/InsertNecessaryConversionsTransform.java:176-238 | the normalising statements, applied to the right side where it stands (inside the explicit cast or not), leave exactly `NormalisedAssignment`'s rewrite |
| Transform.InsertNecessaryConversionsTransform.ConditionalRight | Procyon.CompilerTools/src/main/java/com/strobel/decompiler/languages/java/ast/transforms/InsertNecessaryConversionsTransform.java:176-219 | the right side, where it stands, becomes the `Narrowed` conditional, and is visited again when `Narrowed` says so |
| Transform.InsertNecessaryConversionsTransform.InequalityRight | Procyon.CompilerTools/src/main/java/com/strobel/decompiler/languages/java/ast/transforms/InsertNecessaryConversionsTransform.java:220-238 | the right side, where it stands, becomes `right != 0` with the right side's own zero, and is visited again |
| Transform.InsertNecessaryConversionsTransform.Narrow | Procyon.CompilerTools/src/main/java/com/strobel/decompiler/languages/java/ast/transforms/InsertNecessaryConversionsTransform.java:193-218 | the conditional in the tree is replaced by the `Narrowed` value, and the method reports whether that value is visited again |
| Transform.InsertNecessaryConversionsTransform.MemberReferenceRule | Procyon.CompilerTools/src/main/java/com/strobel/decompiler/languages/java/ast/transforms/InsertNecessaryConversionsTransform.java:247-261 | the member statements leave exactly `MemberStep`'s rewrite for the node in its context |
| Transform.InsertNecessaryConversionsTransform.CastTarget | Procyon.CompilerTools/src/main/java/com/strobel/decompiler/languages/java/ast/transforms/InsertNecessaryConversionsTransform.java:263-317 | resolve, the subtype test, the builder test and the target cast leave exactly `TargetCastStep`'s rewrite |
| Transform.InsertNecessaryConversionsTransform.UpcastTarget | Procyon.CompilerTools/src/main/java/com/strobel/decompiler/languages/java/ast/transforms/InsertNecessaryConversionsTransform.java:287-306 | the type computed step by step, the wildcard loop included, is `UpcastType` |
| Transform.InsertNecessaryConversionsTransform.ReplaceWith | Procyon.CompilerTools/src/main/java/com/strobel/decompiler/languages/java/ast/transforms/InsertNecessaryConversionsTransform.java:310-317 | `replaceWith` puts the new node in the old one's slot and changes no other node |
| Transform.InsertNecessaryConversionsTransform.Remove | Procyon.CompilerTools/src/main/java/com/strobel/decompiler/languages/java/ast/transforms/InsertNecessaryConversionsTransform.java:48 | `remove` empties the node's slot and changes no other node |
| Transform.InsertNecessaryConversionsTransform.RemoveCast | Procyon.CompilerTools/src/main/java/com/strobel/decompiler/languages/java/ast/transforms/InsertNecessaryConversionsTransform.java:76-79 | removing a redundant cast puts its operand in the cast's place |
| Transform.InsertNecessaryConversionsTransform.Revisit | Procyon.CompilerTools/src/main/java/com/strobel/decompiler/languages/java/ast/transforms/InsertNecessaryConversionsTransform.java:79-87 | `acceptVisitor` on the replacement visits the node at the position the rule reported, while fuel lasts; what results is `Continue` of the step |
| Transform.InsertNecessaryConversionsTransform.RevisitAt | Procyon.CompilerTools/src/main/java/com/strobel/decompiler/languages/java/ast/transforms/InsertNecessaryConversionsTransform.java:79-87 | visiting again at the reported position leaves exactly what `Continue` describes for a step that names a position |
| Expressions.GetNodeType | Assembler/src/com/strobel/decompiler/languages/java/ast/Expression.java:47-68 | a placeholder's node type is PATTERN; every other expression's, the null sentinel included, is EXPRESSION |
| Expressions.NullSentinel | Assembler/src/com/strobel/decompiler/languages/java/ast/Expression.java:26-43 | `NULL` is null and an expression; no placeholder is null |
| Expressions.ForPattern | Assembler/src/com/strobel/decompiler/languages/java/ast/Expression.java:54-56 | a null pattern is rejected; otherwise the result is a placeholder for that pattern, with node type PATTERN |
| Expressions.AcceptVisitor | Assembler/src/com/strobel/decompiler/languages/java/ast/Expression.java:35-73 | the null sentinel calls no visitor method. Every other node calls the visitor method of its own kind with itself, and only a placeholder passes its pattern |
| Expressions.Matches | Assembler/src/com/strobel/decompiler/languages/java/ast/Expression.java:40-83 | the sentinel matches an absent node or a null one; a placeholder answers as its pattern does; an object creation matches structurally |
| Expressions.MatchesCollection | Assembler/src/com/strobel/decompiler/languages/java/ast/Expression.java:76-78 | a placeholder answers the collection query as its pattern does, with the same arguments |
| Expressions.PlaceholderDelegates | Assembler/src/com/strobel/decompiler/languages/java/ast/Expression.java:58-84 | a placeholder made by `forPattern` is indistinguishable from its pattern in every match query and in dispatch |
| Expressions.Member | Assembler/src/com/strobel/decompiler/languages/java/ast/Expression.java:116-118 | `member(name)` is a member reference on the receiver with that name, no type arguments and no annotation |
| Expressions.Invoke | Assembler/src/com/strobel/decompiler/languages/java/ast/Expression.java:90-96 | `invoke(arguments)` invokes the receiver itself with those arguments |
| Expressions.InvokeMethod | Assembler/src/com/strobel/decompiler/languages/java/ast/Expression.java:98-114 | `invoke(name, typeArguments, arguments)` invokes `receiver.name`; a null type-argument list gives none |
| Expressions.InvokeIsMemberThenInvoke | Assembler/src/com/strobel/decompiler/languages/java/ast/Expression.java:98-118 | `invoke(name, arguments)` is `member(name).invoke(arguments)` |
| ObjectCreation.Matches | Assembler/src/com/strobel/decompiler/languages/java/ast/ObjectCreationExpression.java:78-89 | a match needs a non-null object creation whose type and argument collection both match; it holds exactly when those two do |
| ObjectCreation.RejectsOtherKinds | Assembler/src/com/strobel/decompiler/languages/java/ast/ObjectCreationExpression.java:78-89 | no other kind of node, and no absent node, matches an object creation |
| ObjectCreation.ObjectCreationExpression.AsNode | Assembler/src/com/strobel/decompiler/languages/java/ast/ObjectCreationExpression.java:49-59 | a node's type and arguments, as a tree value, are `getType()` and `getArguments()` |
| ObjectCreation.ObjectCreationExpression.constructor | Assembler/src/com/strobel/decompiler/languages/java/ast/ObjectCreationExpression.java:22-23 | a new node has a null type and no arguments |
| ObjectCreation.ObjectCreationExpression.OfType | Assembler/src/com/strobel/decompiler/languages/java/ast/ObjectCreationExpression.java:25-27 | the node starts with the given type and no arguments |
| ObjectCreation.ObjectCreationExpression.WithArguments | Assembler/src/com/strobel/decompiler/languages/java/ast/ObjectCreationExpression.java:29-47 | the node starts with the given type and the given arguments in order; a null argument list adds none |
| ObjectCreation.ObjectCreationExpression.SetType | Assembler/src/com/strobel/decompiler/languages/java/ast/ObjectCreationExpression.java:61-63 | `setType` changes the type slot and keeps the arguments |
| ObjectCreation.ObjectCreationExpression.AddArgument | Assembler/src/com/strobel/decompiler/languages/java/ast/ObjectCreationExpression.java:33-35 | adding an ARGUMENT child appends it last and keeps the type |

## Left out

- The resolver, `MetadataHelper`, `TypeReference.resolve` and
  `makeGenericType`, `isCastRedundant` and `AstBuilder.convertType` are
  collaborators. They are modelled as pure parameters that see only the
  subtree they are given, not its place in the tree, and their own logic
  is not part of this model.
- `JavaResolver`, `ContextTrackingVisitor`, `DecompilerContext`'s user data
  and `RedundantCastUtility` are not part of this model.
  - The context's `AST_BUILDER` entry is `Env.builder`.
  - The parent's `MEMBER_REFERENCE` entry is carried in the `Context` of a
    child slot.
- Conversions.Visit: each re-entry on a replacement spends one unit of fuel;
  with none left, the replacement stays unvisited. The source has no such
  bound, and it can revisit without end (a classifier that keeps answering
  NONE for `(T) (Object) x`, as `ConversionLemmas.FallbackRefires` shows).
  Where the source's walk does stop, `ConversionLemmas.SettledFuelSuffices`
  shows that a visit which never reaches the cut-off gives the same tree
  for every larger fuel, so it is the unbounded walk's result.
- Type safety of the output (every rewritten node has a type its slot
  accepts) is not stated. The resolver and the classifier are
  uninterpreted parameters, so the model has no typing to state it
  against. The source also does not keep it everywhere: below 32 bits with
  no builder, the bare int conditional `flag ? 1 : 0` is left where a
  narrower value stood (lines 63-88 have no branch for a missing builder),
  as `ConversionLemmas.CastBooleanToNumeric` states in its conjunct for a
  target below 32 bits without a builder.
- Idempotence of the transform (running it twice): not stated. With
  arbitrary collaborators, the second run can fire rules that the first run
  created.
- Type syntax (`AstType`) is a leaf of the tree. Its children are not walked,
  and the transform does not look inside it.
- Only the node kinds the rules and the reused builders touch are modelled;
  all others are outside the model. These are: primitive, identifier, cast,
  conditional, binary, assignment, member reference, invocation, object
  creation, the null sentinel and the placeholder. Statements, and the
  visitor methods of other kinds, are left out too.
- Literals are kinds, not numbers: `Zero(kind)` stands for
  `JavaPrimitiveCast.cast(kind, 0)`, and floating point is not modelled.
  The nested `new PrimitiveExpression(new PrimitiveExpression(1))` of the
  source is modelled as the int literal 1 (and likewise 0).
- `JvmType.isNumeric` and `bitWidth` are not part of this model. Their
  values are the JVM primitive sizes, with `boolean` counted as numeric
  and 1 bit wide; every rule also tests for `boolean` explicitly.
- `removeCast` is modelled as putting the operand in the cast's place only;
  any parenthesis clean-up it may do is not modelled.
- Parent links, `getRole` bookkeeping, `addChild`'s structural checks,
  and the token getters (`getNewToken`, `getLeftParenthesisToken`,
  `getRightParenthesisToken`) are left out. They do not affect the tree's
  shape as seen by the rules.
- The pattern engine's internals and the `Match` bindings are the fields of
  `Ast.Matcher`. What they do is not part of this model; the match
  functions state only how each node delegates to them.
- Object identity and aliasing between nodes are not modelled, because the
  tree is a value. A node that the source moves (the operand placed inside
  a new cast) is the same value in its new slot.
- ObjectCreation.ObjectCreationExpression.AddArgument: appends every
  argument it is given, a `NULL` one included. `AstNode.addChild` is not
  part of this model, so a skip of null or `NULL` children there is not
  captured.
