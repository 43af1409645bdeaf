/**
 * The instantiation validity check: in one written type-argument list
 * `C<A1, ..., An>`, an argument annotated @Nullable is only allowed where the
 * corresponding type parameter of `C` has a @Nullable upper bound. Nested
 * argument lists are separate sites and are not looked into.
 */
module Instantiation {
  import opened Options
  import opened Javac
  import opened Reports

  /** A written type argument is an annotated type with a resolved @Nullable annotation. */
  predicate IsNullableTypeArgument(env: Env, tt: TypeTree)
  {
    tt.AnnotatedType? &&
    exists k | 0 <= k < |tt.annotations| ::
      tt.annotations[k].annotationType.Some? &&
      env.isNullableAnnotation(tt.annotations[k].annotationType.value)
  }

  /** The argument positions written @Nullable, each with its argument tree. */
  function NullableTypeArguments(env: Env, args: seq<TypeTree>): map<int, TypeTree>
  {
    map i | 0 <= i < |args| && IsNullableTypeArgument(env, args[i]) :: args[i]
  }

  /** Position `i` must be reported: written @Nullable, and parameter `i` has no @Nullable bound. */
  predicate Violates(env: Env, params: seq<TypeParam>, nullable: map<int, TypeTree>, i: int)
  {
    0 <= i < |params| && i in nullable && !HasNullableAnnotation(env, params[i].upperBound.annos)
  }

  /** Reports for the first `n` declared parameters, in increasing position. */
  function ScanReports(env: Env, baseType: Type, params: seq<TypeParam>, nullable: map<int, TypeTree>, n: nat): seq<Report>
    requires n <= |params|
  {
    if n == 0 then []
    else
      ScanReports(env, baseType, params, nullable, n - 1) +
      (if Violates(env, params, nullable, n - 1)
       then [InvalidInstantiation(n - 1, nullable[n - 1], baseType, params[n - 1])]
       else [])
  }

  /** Everything `checkInstantiationForParameterizedTypedTree` reports for one tree. */
  function InstantiationReports(env: Env, tree: ParameterizedTypeTree): seq<Report>
  {
    if !env.jspecifyMode || |tree.typeArguments| == 0 || tree.ty.None? then []
    else
      var params := DeclaredTypeParameters(env, tree.ty.value);
      ScanReports(env, tree.ty.value, params, NullableTypeArguments(env, tree.typeArguments), |params|)
  }

  lemma {:induction false} ScanReportsExactly(env: Env, baseType: Type, params: seq<TypeParam>, nullable: map<int, TypeTree>, n: nat)
    requires n <= |params|
    ensures forall k :: 0 <= k < |ScanReports(env, baseType, params, nullable, n)| ==>
      var r := ScanReports(env, baseType, params, nullable, n)[k];
      r.InvalidInstantiation? && r.argIndex < n && Violates(env, params, nullable, r.argIndex) &&
      r == InvalidInstantiation(r.argIndex, nullable[r.argIndex], baseType, params[r.argIndex])
    ensures forall i :: 0 <= i < n && Violates(env, params, nullable, i) ==>
      exists k :: 0 <= k < |ScanReports(env, baseType, params, nullable, n)| &&
                  ScanReports(env, baseType, params, nullable, n)[k].argIndex == i
    ensures forall a, b :: 0 <= a < b < |ScanReports(env, baseType, params, nullable, n)| ==>
      ScanReports(env, baseType, params, nullable, n)[a].argIndex < ScanReports(env, baseType, params, nullable, n)[b].argIndex
  {
    if n > 0 {
      ScanReportsExactly(env, baseType, params, nullable, n - 1);
      var prev := ScanReports(env, baseType, params, nullable, n - 1);
      var r := ScanReports(env, baseType, params, nullable, n);
      assert r[..|prev|] == prev;
      if Violates(env, params, nullable, n - 1) {
        assert r[|prev|].argIndex == n - 1;
      }
    }
  }

  /**
   * The check reports position `i` exactly when JSpecify mode is on, the
   * argument list is non-empty, the instantiated type resolved, argument `i`
   * is written @Nullable and parameter `i` exists and lacks a @Nullable bound;
   * at most once per position, in increasing order, and only top-level
   * arguments of the tree.
   */
  lemma InstantiationReportsExactly(env: Env, tree: ParameterizedTypeTree)
    ensures var rs := InstantiationReports(env, tree);
      forall k :: 0 <= k < |rs| ==>
        env.jspecifyMode && tree.ty.Some? &&
        rs[k].InvalidInstantiation? && rs[k].argIndex < |tree.typeArguments| &&
        rs[k].argument == tree.typeArguments[rs[k].argIndex] &&
        IsNullableTypeArgument(env, rs[k].argument) &&
        rs[k].baseType == tree.ty.value &&
        Violates(env, DeclaredTypeParameters(env, tree.ty.value),
                 NullableTypeArguments(env, tree.typeArguments), rs[k].argIndex) &&
        rs[k].typeVariable == DeclaredTypeParameters(env, tree.ty.value)[rs[k].argIndex]
    ensures var rs := InstantiationReports(env, tree);
      forall i :: env.jspecifyMode && tree.ty.Some? && 0 <= i < |tree.typeArguments| &&
                  Violates(env, DeclaredTypeParameters(env, tree.ty.value),
                           NullableTypeArguments(env, tree.typeArguments), i)
        ==> exists k :: 0 <= k < |rs| && rs[k].argIndex == i
    ensures var rs := InstantiationReports(env, tree);
      forall a, b :: 0 <= a < b < |rs| ==> rs[a].argIndex < rs[b].argIndex
  {
    if env.jspecifyMode && |tree.typeArguments| > 0 && tree.ty.Some? {
      var params := DeclaredTypeParameters(env, tree.ty.value);
      ScanReportsExactly(env, tree.ty.value, params, NullableTypeArguments(env, tree.typeArguments), |params|);
    }
  }

  /** The loop at the top of the check: positions whose argument carries a @Nullable annotation. */
  method CollectNullableTypeArguments(env: Env, typeArguments: seq<TypeTree>) returns (nullableTypeArguments: map<int, TypeTree>)
    ensures forall i :: i in nullableTypeArguments <==>
      0 <= i < |typeArguments| && IsNullableTypeArgument(env, typeArguments[i])
    ensures forall i :: i in nullableTypeArguments ==> nullableTypeArguments[i] == typeArguments[i]
    ensures nullableTypeArguments == NullableTypeArguments(env, typeArguments)
  {
    nullableTypeArguments := map[];
    for i := 0 to |typeArguments|
      invariant forall j :: j in nullableTypeArguments <==>
        0 <= j < i && IsNullableTypeArgument(env, typeArguments[j])
      invariant forall j :: j in nullableTypeArguments ==> nullableTypeArguments[j] == typeArguments[j]
    {
      var curTypeArg := typeArguments[i];
      if curTypeArg.AnnotatedType? {
        var annotations := curTypeArg.annotations;
        ghost var before := nullableTypeArguments;
        var k := 0;
        while k < |annotations|
          invariant 0 <= k <= |annotations|
          invariant nullableTypeArguments == before
          invariant forall m :: 0 <= m < k ==>
            !(annotations[m].annotationType.Some? && env.isNullableAnnotation(annotations[m].annotationType.value))
        {
          var annotationType := annotations[k].annotationType;
          if annotationType.Some? && env.isNullableAnnotation(annotationType.value) {
            nullableTypeArguments := nullableTypeArguments[i := curTypeArg];
            break;
          }
          k := k + 1;
        }
      }
    }
  }

  /** `checkInstantiationForParameterizedTypedTree`: the reports, in the order they are issued. */
  method CheckInstantiationForParameterizedTypedTree(env: Env, tree: ParameterizedTypeTree) returns (reports: seq<Report>)
    ensures !env.jspecifyMode || |tree.typeArguments| == 0 ==> reports == []
    ensures reports == InstantiationReports(env, tree)
  {
    reports := [];
    if !env.jspecifyMode {
      return;
    }
    var typeArguments := tree.typeArguments;
    if |typeArguments| == 0 {
      return;
    }
    var nullableTypeArguments := CollectNullableTypeArguments(env, typeArguments);
    if tree.ty.None? {
      return;
    }
    var baseType := tree.ty.value;
    var baseTypeArgs := DeclaredTypeParameters(env, baseType);
    for i := 0 to |baseTypeArgs|
      invariant reports == ScanReports(env, baseType, baseTypeArgs, nullableTypeArguments, i)
    {
      if i in nullableTypeArguments {
        var typeVariable := baseTypeArgs[i];
        var hasNullableAnnotation := HasNullableAnnotation(env, typeVariable.upperBound.annos);
        if !hasNullableAnnotation {
          reports := reports + [InvalidInstantiation(i, nullableTypeArguments[i], baseType, typeVariable)];
        }
      }
    }
  }
}
