/**
 * The two views of a generic type use that the assignment check compares:
 * a resolved-type view (`Normal`, reading the annotations the compiler
 * attached to each type argument) and a syntax view (`Syntax`, reading the
 * annotations written on the type arguments of a `C<...>` tree). Each view
 * gives the set of @Nullable argument positions, the views of the nested
 * generic arguments, and the view of a supertype.
 */
module TypeWrappers {
  import opened Options
  import opened Javac

  datatype Wrapper =
    | Normal(ty: Type)
    | Syntax(tree: ParameterizedTypeTree)

  /** `getWrapped()`: the type the view stands for (a tree's type may be unresolved). */
  function Wrapped(w: Wrapper): Option<Type>
  {
    match w
    case Normal(t) => Some(t)
    case Syntax(p) => p.ty
  }

  /** Nesting depth of the view; nested views are strictly lower. */
  function Height(w: Wrapper): nat
  {
    match w
    case Normal(t) => TypeHeight(t)
    case Syntax(p) => TreeHeight(p)
  }

  /** The annotation's attribute reads exactly `@org.jspecify.annotations.Nullable`. */
  predicate IsJSpecifyNullable(a: AnnotationTree)
  {
    a.annotationType == Some(NULLABLE_NAME)
  }

  /** A type-argument tree is an annotated type carrying a JSpecify @Nullable. */
  predicate WrittenNullable(tt: TypeTree)
  {
    tt.AnnotatedType? &&
    exists k | 0 <= k < |tt.annotations| :: IsJSpecifyNullable(tt.annotations[k])
  }

  /** `getNullableTypeArgIndices()` of either view. */
  function NullableIndexSet(env: Env, w: Wrapper): set<int>
  {
    match w
    case Normal(t) =>
      var args := TypeArguments(t);
      set i | 0 <= i < |args| && HasNullableAnnotation(env, args[i].annos)
    case Syntax(p) =>
      var args := p.typeArguments;
      set i | 0 <= i < |args| && WrittenNullable(args[i])
  }

  /** Nested views of the resolved-type view: one entry per argument, None for a non-generic one. */
  function NormalNested(args: seq<Type>): seq<Option<Wrapper>>
  {
    seq(|args|, i requires 0 <= i < |args| =>
      if |TypeArguments(args[i])| > 0 then Some(Normal(args[i])) else None)
  }

  /** The entry the syntax view adds for one argument tree, if any. */
  function SyntaxEntry(a: TypeTree): seq<Option<Wrapper>>
  {
    match a
    case TypeApply(ty, _) =>
      if ty.Some? && |TypeArguments(ty.value)| > 0 then [Some(Syntax(a))] else [None]
    case _ => []
  }

  /**
   * Nested views of the syntax view: entries only for arguments written as
   * `D<...>`, so the list is as long as the arguments exactly when every
   * argument is such a tree.
   */
  function SyntaxNested(args: seq<TypeTree>): (r: seq<Option<Wrapper>>)
    ensures |r| <= |args|
    ensures forall k :: 0 <= k < |r| && r[k].Some? ==> r[k].value.Syntax? && r[k].value.tree in args
    ensures forall k :: 0 <= k < |r| && r[k].Some? ==>
      r[k].value.tree.ty.Some? && |TypeArguments(r[k].value.tree.ty.value)| > 0
  {
    if args == [] then []
    else
      var init := SyntaxNested(args[..|args| - 1]);
      assert forall x :: x in args[..|args| - 1] ==> x in args;
      init + SyntaxEntry(args[|args| - 1])
  }

  /** `getWrappersForNestedTypes()` of either view. */
  function NestedWrappers(w: Wrapper): (r: seq<Option<Wrapper>>)
    ensures forall k :: 0 <= k < |r| && r[k].Some? ==> Height(r[k].value) < Height(w)
  {
    match w
    case Normal(t) =>
      var r := NormalNested(TypeArguments(t));
      assert forall k :: 0 <= k < |r| && r[k].Some? ==> Height(r[k].value) < Height(w) by {
        forall k | 0 <= k < |r| && r[k].Some? ensures Height(r[k].value) < Height(w) {
          TypeArgumentIsLower(t, TypeArguments(t)[k]);
        }
      }
      r
    case Syntax(p) =>
      var r := SyntaxNested(p.typeArguments);
      assert forall k :: 0 <= k < |r| && r[k].Some? ==> Height(r[k].value) < Height(w) by {
        forall k | 0 <= k < |r| && r[k].Some? ensures Height(r[k].value) < Height(w) {
          TreeArgumentIsLower(p, r[k].value.tree);
        }
      }
      r
  }

  /** The resolved view's nested view k stands for exactly type argument k, which is itself generic. */
  lemma NormalNestedWrapsArgument(t: Type)
    ensures forall k :: 0 <= k < |NestedWrappers(Normal(t))| && NestedWrappers(Normal(t))[k].Some? ==>
      Wrapped(NestedWrappers(Normal(t))[k].value) == Some(TypeArguments(t)[k]) &&
      |TypeArguments(TypeArguments(t)[k])| > 0
  {
  }

  /**
   * Every nested syntax view stands for a resolved generic type: a nested
   * tree is kept only when its type resolved and has type arguments.
   */
  lemma SyntaxNestedWrapsGenericType(p: ParameterizedTypeTree)
    ensures forall k :: 0 <= k < |NestedWrappers(Syntax(p))| && NestedWrappers(Syntax(p))[k].Some? ==>
      var v := NestedWrappers(Syntax(p))[k].value;
      v.Syntax? && v.tree in p.typeArguments && Wrapped(v).Some? && |TypeArguments(Wrapped(v).value)| > 0
  {
  }

  /**
   * `supertypeMatchingLHS`: the first element of the closure whose erasure is
   * the left-hand side's, or the right-hand side's own type when none is.
   */
  function MatchingSupertype(closure: seq<Type>, lhsType: Type, rhsType: Type): (t: Type)
    ensures t == rhsType || (t in closure && SameErasure(t, lhsType))
  {
    if closure == [] then rhsType
    else if SameErasure(closure[0], lhsType) then closure[0]
    else MatchingSupertype(closure[1..], lhsType, rhsType)
  }

  /** `asSupertype(lhsType)` of either view: a resolved-type view of the matching supertype. */
  function AsSupertype(env: Env, w: Wrapper, lhsType: Type): (r: Wrapper)
    requires Wrapped(w).Some?
    ensures r.Normal?
    ensures r.ty == Wrapped(w).value ||
            (r.ty in env.closure(Wrapped(w).value) && r.ty.ClassType? && lhsType.ClassType? && r.ty.decl == lhsType.decl)
  {
    var rhsType := Wrapped(w).value;
    Normal(MatchingSupertype(env.closure(rhsType), lhsType, rhsType))
  }

  lemma {:induction false} MatchingSupertypeIsFirstMatch(closure: seq<Type>, lhsType: Type, rhsType: Type)
    ensures forall i :: 0 <= i < |closure| && SameErasure(closure[i], lhsType) &&
                        (forall j :: 0 <= j < i ==> !SameErasure(closure[j], lhsType))
                     ==> MatchingSupertype(closure, lhsType, rhsType) == closure[i]
    ensures (forall i :: 0 <= i < |closure| ==> !SameErasure(closure[i], lhsType))
            ==> MatchingSupertype(closure, lhsType, rhsType) == rhsType
  {
    if closure != [] {
      MatchingSupertypeIsFirstMatch(closure[1..], lhsType, rhsType);
      forall i | 0 < i < |closure| && SameErasure(closure[i], lhsType) &&
                 (forall j :: 0 <= j < i ==> !SameErasure(closure[j], lhsType))
        ensures MatchingSupertype(closure, lhsType, rhsType) == closure[i]
      {
        assert !SameErasure(closure[0], lhsType);
        assert closure[1..][i - 1] == closure[i];
        assert forall j :: 0 <= j < i - 1 ==> closure[1..][j] == closure[j + 1];
      }
    }
  }

  /** The syntax view lists a nested entry for every argument exactly when every argument is written `D<...>`. */
  lemma {:induction false} SyntaxNestedFull(args: seq<TypeTree>)
    ensures |SyntaxNested(args)| == |args| <==> forall i :: 0 <= i < |args| ==> args[i].TypeApply?
  {
    if args != [] {
      var init := args[..|args| - 1];
      SyntaxNestedFull(init);
      assert forall i :: 0 <= i < |init| ==> init[i] == args[i];
    }
  }

  /*
   * The wrappers' methods, as the source runs them: loops that fill a set or
   * a list index by index, and the early-return search of the closure.
   */

  /** `NormalTypeWrapper.getNullableTypeArgIndices`. */
  method NormalNullableTypeArgIndices(env: Env, t: Type) returns (s: set<int>)
    ensures forall i :: i in s <==>
      0 <= i < |TypeArguments(t)| && HasNullableAnnotation(env, TypeArguments(t)[i].annos)
    ensures s == NullableIndexSet(env, Normal(t))
  {
    s := {};
    var typeArguments := TypeArguments(t);
    for index := 0 to |typeArguments|
      invariant forall i :: i in s <==> 0 <= i < index && HasNullableAnnotation(env, typeArguments[i].annos)
    {
      var hasNullableAnnotation := HasNullableAnnotation(env, typeArguments[index].annos);
      if hasNullableAnnotation {
        s := s + {index};
      }
    }
  }

  /** `ParameterizedTypeTreeWrapper.getNullableTypeArgIndices`: stops at the first matching annotation. */
  method TreeNullableTypeArgIndices(env: Env, p: ParameterizedTypeTree) returns (s: set<int>)
    ensures forall i :: i in s <==> 0 <= i < |p.typeArguments| && WrittenNullable(p.typeArguments[i])
    ensures s == NullableIndexSet(env, Syntax(p))
  {
    var typeArguments := p.typeArguments;
    s := {};
    for i := 0 to |typeArguments|
      invariant forall j :: j in s <==> 0 <= j < i && WrittenNullable(typeArguments[j])
    {
      var arg := typeArguments[i];
      if arg.AnnotatedType? {
        var annotations := arg.annotations;
        ghost var before := s;
        var k := 0;
        while k < |annotations|
          invariant 0 <= k <= |annotations|
          invariant s == before
          invariant forall m :: 0 <= m < k ==> !IsJSpecifyNullable(annotations[m])
        {
          if annotations[k].annotationType == Some(NULLABLE_NAME) {
            s := s + {i};
            break;
          }
          k := k + 1;
        }
      }
    }
  }

  /** `NormalTypeWrapper.getWrappersForNestedTypes`: one entry per argument. */
  method NormalWrappersForNestedTypes(t: Type) returns (ws: seq<Option<Wrapper>>)
    ensures |ws| == |TypeArguments(t)|
    ensures forall i :: 0 <= i < |ws| ==>
      (ws[i].Some? <==> |TypeArguments(TypeArguments(t)[i])| > 0)
    ensures forall i :: 0 <= i < |ws| && ws[i].Some? ==> ws[i].value == Normal(TypeArguments(t)[i])
    ensures ws == NestedWrappers(Normal(t))
  {
    var typeArguments := TypeArguments(t);
    ws := [];
    for i := 0 to |typeArguments|
      invariant |ws| == i
      invariant forall j :: 0 <= j < i ==>
        ws[j] == if |TypeArguments(typeArguments[j])| > 0 then Some(Normal(typeArguments[j])) else None
    {
      if |TypeArguments(typeArguments[i])| > 0 {
        ws := ws + [Some(Normal(typeArguments[i]))];
      } else {
        ws := ws + [None];
      }
    }
  }

  /** `ParameterizedTypeTreeWrapper.getWrappersForNestedTypes`: entries only for `D<...>` arguments. */
  method TreeWrappersForNestedTypes(p: ParameterizedTypeTree) returns (ws: seq<Option<Wrapper>>)
    ensures |ws| <= |p.typeArguments|
    ensures |ws| == |p.typeArguments| <==> forall i :: 0 <= i < |p.typeArguments| ==> p.typeArguments[i].TypeApply?
    ensures forall k :: 0 <= k < |ws| && ws[k].Some? ==> ws[k].value.Syntax? && ws[k].value.tree in p.typeArguments
    ensures ws == NestedWrappers(Syntax(p))
  {
    var typeArguments := p.typeArguments;
    ws := [];
    for i := 0 to |typeArguments|
      invariant ws == SyntaxNested(typeArguments[..i])
    {
      assert typeArguments[..i + 1][..i] == typeArguments[..i];
      var arg := typeArguments[i];
      if arg.TypeApply? {
        var argumentType := arg.ty;
        if argumentType.Some? && |TypeArguments(argumentType.value)| > 0 {
          ws := ws + [Some(Syntax(arg))];
        } else {
          ws := ws + [None];
        }
      }
    }
    assert typeArguments[..|typeArguments|] == typeArguments;
    SyntaxNestedFull(typeArguments);
  }

  method GetNullableTypeArgIndices(env: Env, w: Wrapper) returns (s: set<int>)
    ensures s == NullableIndexSet(env, w)
  {
    match w
    case Normal(t) => s := NormalNullableTypeArgIndices(env, t);
    case Syntax(p) => s := TreeNullableTypeArgIndices(env, p);
  }

  method GetWrappersForNestedTypes(w: Wrapper) returns (ws: seq<Option<Wrapper>>)
    ensures ws == NestedWrappers(w)
  {
    match w
    case Normal(t) => ws := NormalWrappersForNestedTypes(t);
    case Syntax(p) => ws := TreeWrappersForNestedTypes(p);
  }

  /**
   * `supertypeMatchingLHS`: scans the closure of the right-hand side for the
   * first type with the left-hand side's declaration; falls back to the
   * right-hand side's own type.
   */
  method SupertypeMatchingLHS(env: Env, lhsType: Type, rhsType: Type) returns (t: Type)
    requires lhsType.ClassType? && rhsType.ClassType?
    ensures t == MatchingSupertype(env.closure(rhsType), lhsType, rhsType)
    ensures t == rhsType || (t in env.closure(rhsType) && t.ClassType? && t.decl == lhsType.decl)
  {
    var listOfDirectSuperTypes := env.closure(rhsType);
    for i := 0 to |listOfDirectSuperTypes|
      invariant MatchingSupertype(listOfDirectSuperTypes, lhsType, rhsType)
             == MatchingSupertype(listOfDirectSuperTypes[i..], lhsType, rhsType)
      invariant forall j :: 0 <= j < i ==> !SameErasure(listOfDirectSuperTypes[j], lhsType)
    {
      assert listOfDirectSuperTypes[i..][1..] == listOfDirectSuperTypes[i + 1..];
      if SameErasure(listOfDirectSuperTypes[i], lhsType) {
        return listOfDirectSuperTypes[i];
      }
    }
    return rhsType;
  }
}
