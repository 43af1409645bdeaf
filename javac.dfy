/**
 * The compiler's view of types and type syntax, reduced to what the generics
 * checker asks of it. Every javac and Error Prone query the checker makes is
 * a field of `Env` or of the type and tree values below.
 */
module Javac {
  import opened Options

  /** Identity of a class or interface declaration (a javac class symbol). */
  type DeclId = nat
  /** A fully qualified name, such as an annotation type's name. */
  type Name = string

  /** The annotation type whose attribute the syntax-backed wrapper compares with. */
  const NULLABLE_NAME: Name := "org.jspecify.annotations.Nullable"

  /**
   * A resolved (attributed) type with its type-annotation metadata. A class
   * type carries its declaration, its type arguments and the names of the
   * annotations on it; every other kind of type (type variable, array,
   * primitive) has no type arguments.
   */
  datatype Type =
    | ClassType(decl: DeclId, args: seq<Type>, annos: seq<Name>)
    | OtherType(annos: seq<Name>)

  /** `Type.getTypeArguments()`: empty for anything that is not a class type. */
  function TypeArguments(t: Type): seq<Type>
  {
    if t.ClassType? then t.args else []
  }

  /** A declared type parameter and its upper bound (with the bound's annotations). */
  datatype TypeParam = TypeParam(name: Name, upperBound: Type)

  /** An annotation as written; `annotationType` is None when it did not resolve. */
  datatype AnnotationTree = AnnotationTree(annotationType: Option<Name>)

  /**
   * Type syntax: `C<args>` (a parameterized type, with the type the compiler
   * resolved for it, if any), `@A ... T` (an annotated type) or anything else
   * (an identifier, a primitive, a wildcard).
   */
  datatype TypeTree =
    | TypeApply(ty: Option<Type>, typeArguments: seq<TypeTree>)
    | AnnotatedType(annotations: seq<AnnotationTree>, underlying: TypeTree)
    | OtherTree

  /** The syntax of a parameterized type, `C<args>`. */
  type ParameterizedTypeTree = t: TypeTree | t.TypeApply? witness TypeApply(None, [])

  /**
   * The read-only services the checker consults: the JSpecify-mode setting,
   * the "is this a @Nullable annotation name" test, the declared type
   * parameters of each declaration, and the supertype closure of a type
   * (every supertype, classes and interfaces, with its arguments substituted).
   */
  datatype Env = Env(
    jspecifyMode: bool,
    isNullableAnnotation: Name -> bool,
    typeParameters: DeclId -> seq<TypeParam>,
    closure: Type -> seq<Type>)

  /** Some annotation among `annos` is a @Nullable annotation. */
  predicate HasNullableAnnotation(env: Env, annos: seq<Name>)
  {
    exists k | 0 <= k < |annos| :: env.isNullableAnnotation(annos[k])
  }

  /** `t.tsym.type.getTypeArguments()`: the type variables the declaration of `t` declares. */
  function DeclaredTypeParameters(env: Env, t: Type): seq<TypeParam>
  {
    if t.ClassType? then env.typeParameters(t.decl) else []
  }

  /** `ASTHelpers.isSameType` on two class types: their erasures, i.e. their declarations, agree. */
  predicate SameErasure(a: Type, b: Type)
  {
    a.ClassType? && b.ClassType? && a.decl == b.decl
  }

  /** The largest element of `s`, 0 for the empty sequence. */
  function MaxOf(s: seq<nat>): (m: nat)
    ensures forall i :: 0 <= i < |s| ==> s[i] <= m
    ensures s != [] ==> m in s
  {
    if s == [] then 0
    else
      var rest := MaxOf(s[1..]);
      if s[0] >= rest then s[0] else rest
  }

  /** Nesting depth of the type arguments of a type. */
  function TypeHeight(t: Type): nat
  {
    match t
    case OtherType(_) => 0
    case ClassType(_, args, _) =>
      1 + MaxOf(seq(|args|, i requires 0 <= i < |args| => TypeHeight(args[i])))
  }

  /** Nesting depth of a type tree. */
  function TreeHeight(tt: TypeTree): nat
  {
    match tt
    case OtherTree => 0
    case AnnotatedType(_, u) => 1 + TreeHeight(u)
    case TypeApply(_, args) =>
      1 + MaxOf(seq(|args|, i requires 0 <= i < |args| => TreeHeight(args[i])))
  }

  lemma TypeArgumentIsLower(t: Type, a: Type)
    requires a in TypeArguments(t)
    ensures TypeHeight(a) < TypeHeight(t)
  {
    var args := TypeArguments(t);
    var i :| 0 <= i < |args| && args[i] == a;
    var hs := seq(|args|, j requires 0 <= j < |args| => TypeHeight(args[j]));
    assert hs[i] == TypeHeight(a);
  }

  lemma TreeArgumentIsLower(p: ParameterizedTypeTree, a: TypeTree)
    requires a in p.typeArguments
    ensures TreeHeight(a) < TreeHeight(p)
  {
    var args := p.typeArguments;
    var i :| 0 <= i < |args| && args[i] == a;
    var hs := seq(|args|, j requires 0 <= j < |args| => TreeHeight(args[j]));
    assert hs[i] == TreeHeight(a);
  }
}
