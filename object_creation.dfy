/** `new T(args...)` as a node whose TYPE slot and ordered ARGUMENT slots are
    filled by its constructors and by `SetType`, and its structural match. */
module ObjectCreation {
  import Ast

  /** What `matches` answers for an object-creation pattern node: the other
      node must be a (non-null) object creation whose type syntax and
      argument collection match this node's. */
  function Matches(m: Ast.Matcher, node: Ast.Expr, other: Ast.Option<Ast.Expr>, state: Ast.Match): (r: bool)
    requires node.ObjectCreationExpression?
    ensures r ==> other.Some? && other.value.ObjectCreationExpression? && !other.value.IsNull()
    ensures other.Some? && other.value.ObjectCreationExpression? ==>
              (r <==> m.typeMatches(node.typ, other.value.typ, state)
                      && m.collectionMatches(node.arguments, other.value.arguments, state))
  {
    match other
    case Some(o) =>
      o.ObjectCreationExpression? && !o.IsNull()
      && m.typeMatches(node.typ, o.typ, state)
      && m.collectionMatches(node.arguments, o.arguments, state)
    case None => false
  }

  /** An object-creation node under construction: its TYPE child and its
      ARGUMENT children. */
  class ObjectCreationExpression {
    var typeChild: Ast.AstType
    var argumentChildren: seq<Ast.Expr>

    /** `getType()`: the TYPE child, `AstType.NULL` when unset. */
    function GetType(): Ast.AstType
      reads this
    {
      typeChild
    }

    /** `getArguments()`: the ARGUMENT children in order. */
    function GetArguments(): seq<Ast.Expr>
      reads this
    {
      argumentChildren
    }

    /** The node as a value of the expression tree. */
    function AsNode(): (e: Ast.Expr)
      reads this
      ensures e.ObjectCreationExpression? && !e.IsNull()
      ensures e.typ == GetType() && e.arguments == GetArguments()
    {
      Ast.ObjectCreationExpression(typeChild, argumentChildren)
    }

    /** No type and no arguments. */
    constructor ()
      ensures GetType() == Ast.NullType && GetArguments() == []
    {
      typeChild := Ast.NullType;
      argumentChildren := [];
    }

    /** `new ObjectCreationExpression(type)`. */
    constructor OfType(t: Ast.AstType)
      ensures GetType() == t && GetArguments() == []
    {
      typeChild := Ast.NullType;
      argumentChildren := [];
      new;
      SetType(t);
    }

    /** `new ObjectCreationExpression(type, arguments)`, for an argument
        array or iterable alike; `None` is a null one and adds nothing. */
    constructor WithArguments(t: Ast.AstType, arguments: Ast.Option<seq<Ast.Expr>>)
      ensures GetType() == t
      ensures GetArguments() == if arguments.Some? then arguments.value else []
    {
      typeChild := Ast.NullType;
      argumentChildren := [];
      new;
      SetType(t);
      if arguments.Some? {
        var args := arguments.value;
        for i := 0 to |args|
          invariant typeChild == t
          invariant argumentChildren == args[..i]
        {
          AddArgument(args[i]);
        }
        assert args[..|args|] == args;
      }
    }

    /** `setType(type)`: the TYPE slot now holds `t`; the arguments stay. */
    method SetType(t: Ast.AstType)
      modifies this
      ensures GetType() == t
      ensures GetArguments() == old(GetArguments())
    {
      typeChild := t;
    }

    /** `addChild(argument, Roles.ARGUMENT)`: `a` becomes the last argument. */
    method AddArgument(a: Ast.Expr)
      modifies this
      ensures GetArguments() == old(GetArguments()) + [a]
      ensures GetType() == old(GetType())
    {
      argumentChildren := argumentChildren + [a];
    }
  }

  /** A match against another node looks only at its kind, type syntax and
      arguments: anything that is not an object creation is rejected. */
  lemma RejectsOtherKinds(m: Ast.Matcher, node: Ast.Expr, other: Ast.Expr, state: Ast.Match)
    requires node.ObjectCreationExpression? && !other.ObjectCreationExpression?
    ensures !Matches(m, node, Ast.Some(other), state)
    ensures !Matches(m, node, Ast.None, state)
  {
  }
}
