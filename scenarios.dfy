/**
 * Concrete cases from the checker's test suite, stated over the model.
 * Each lemma fixes the declarations a test declares (type parameters with
 * their bounds, supertype closures as javac computes them) and states the
 * reports the check produces.
 */
module Scenarios {
  import opened Options
  import opened Javac
  import opened TypeWrappers
  import opened Reports
  import opened Instantiation
  import opened Assignments

  const STRING: DeclId := 0
  const OBJECT: DeclId := 1
  const NON_NULL_TYPE_PARAM: DeclId := 2
  const NULLABLE_TYPE_PARAM: DeclId := 3
  const MIXED_TYPE_PARAM: DeclId := 4
  const MULTIPLE_ARGUMENTS: DeclId := 5
  const SUPER_CLASS_C: DeclId := 6
  const SUPER_CLASS_B: DeclId := 7
  const SUB_CLASS_A: DeclId := 8
  const FN_IMPL_1: DeclId := 9
  const FN_IMPL_2: DeclId := 10
  const SUPER: DeclId := 11
  const SUB: DeclId := 12
  const D: DeclId := 13
  const B: DeclId := 14
  const C: DeclId := 15

  const NULLABLE: seq<Name> := [NULLABLE_NAME]

  function Str(annos: seq<Name>): Type { ClassType(STRING, [], annos) }

  const PLAIN_OBJECT: Type := ClassType(OBJECT, [], [])
  const NULLABLE_OBJECT: Type := ClassType(OBJECT, [], NULLABLE)

  /** The type parameters the tests declare: `E` with a plain or a @Nullable `Object` bound. */
  function TestTypeParameters(d: DeclId): seq<TypeParam>
  {
    if d == NON_NULL_TYPE_PARAM then [TypeParam("E", PLAIN_OBJECT)]
    else if d == NULLABLE_TYPE_PARAM then [TypeParam("E", NULLABLE_OBJECT)]
    else if d == MIXED_TYPE_PARAM then
      [TypeParam("E1", PLAIN_OBJECT), TypeParam("E2", NULLABLE_OBJECT),
       TypeParam("E3", NULLABLE_OBJECT), TypeParam("E4", PLAIN_OBJECT)]
    else []
  }

  /**
   * Supertype closures: `FnImpl1 extends SubClassA<String>` and `FnImpl2
   * extends SubClassA<@Nullable String>`, with `SubClassA<P> extends
   * SuperClassB<P> extends SuperClassC<P>`; `Sub<C, D> extends Super<D, C>`;
   * `B<P> extends D<P>`. Every other type is its own closure.
   */
  function TestClosure(t: Type): seq<Type>
  {
    if t.ClassType? && t.decl == FN_IMPL_1 then
      [t, ClassType(SUB_CLASS_A, [Str([])], []), ClassType(SUPER_CLASS_B, [Str([])], []),
       ClassType(SUPER_CLASS_C, [Str([])], []), PLAIN_OBJECT]
    else if t.ClassType? && t.decl == FN_IMPL_2 then
      [t, ClassType(SUB_CLASS_A, [Str(NULLABLE)], []), ClassType(SUPER_CLASS_B, [Str(NULLABLE)], []),
       ClassType(SUPER_CLASS_C, [Str(NULLABLE)], []), PLAIN_OBJECT]
    else if t.ClassType? && t.decl == SUB && |t.args| == 2 then
      [t, ClassType(SUPER, [t.args[1], t.args[0]], []), PLAIN_OBJECT]
    else if t.ClassType? && t.decl == B && |t.args| == 1 then
      [t, ClassType(D, [t.args[0]], []), PLAIN_OBJECT]
    else [t]
  }

  /** JSpecify mode on, `org.jspecify.annotations.Nullable` as the only @Nullable annotation. */
  function TestEnv(): Env
  {
    Env(true, n => n == NULLABLE_NAME, TestTypeParameters, TestClosure)
  }

  const NULLABLE_STRING_TREE: TypeTree := AnnotatedType([AnnotationTree(Some(NULLABLE_NAME))], OtherTree)

  /** `NonNullTypeParam<@Nullable String>` is reported once, at its argument. */
  lemma NullableArgumentForNonNullParameter()
    ensures var base := ClassType(NON_NULL_TYPE_PARAM, [Str(NULLABLE)], []);
      InstantiationReports(TestEnv(), TypeApply(Some(base), [NULLABLE_STRING_TREE]))
      == [InvalidInstantiation(0, NULLABLE_STRING_TREE, base, TypeParam("E", PLAIN_OBJECT))]
  {
    var env := TestEnv();
    assert IsNullableTypeArgument(env, NULLABLE_STRING_TREE) by {
      assert env.isNullableAnnotation(NULLABLE_STRING_TREE.annotations[0].annotationType.value);
    }
    assert !HasNullableAnnotation(env, PLAIN_OBJECT.annos);
    var base := ClassType(NON_NULL_TYPE_PARAM, [Str(NULLABLE)], []);
    var params := DeclaredTypeParameters(env, base);
    assert params == [TypeParam("E", PLAIN_OBJECT)];
    var m := NullableTypeArguments(env, [NULLABLE_STRING_TREE]);
    assert 0 in m && m[0] == NULLABLE_STRING_TREE;
    assert ScanReports(env, base, params, m, 0) == [];
  }

  /** `NullableTypeParam<@Nullable String>` is fine. */
  lemma NullableArgumentForNullableParameter()
    ensures var base := ClassType(NULLABLE_TYPE_PARAM, [Str(NULLABLE)], []);
      InstantiationReports(TestEnv(), TypeApply(Some(base), [NULLABLE_STRING_TREE])) == []
  {
    var env := TestEnv();
    assert HasNullableAnnotation(env, NULLABLE_OBJECT.annos) by {
      assert env.isNullableAnnotation(NULLABLE_OBJECT.annos[0]);
    }
    var base := ClassType(NULLABLE_TYPE_PARAM, [Str(NULLABLE)], []);
    var params := DeclaredTypeParameters(env, base);
    assert params == [TypeParam("E", NULLABLE_OBJECT)];
    var m := NullableTypeArguments(env, [NULLABLE_STRING_TREE]);
    assert ScanReports(env, base, params, m, 0) == [];
  }

  /**
   * `MixedTypeParam<@Nullable String, String, String, @Nullable String>`,
   * where only the second and third parameters have @Nullable bounds, is
   * reported at the first and the fourth argument, in that order.
   */
  lemma MixedBoundsReportedPerPosition()
    ensures var base := ClassType(MIXED_TYPE_PARAM, [Str(NULLABLE), Str([]), Str([]), Str(NULLABLE)], []);
      var args := [NULLABLE_STRING_TREE, OtherTree, OtherTree, NULLABLE_STRING_TREE];
      InstantiationReports(TestEnv(), TypeApply(Some(base), args))
      == [InvalidInstantiation(0, NULLABLE_STRING_TREE, base, TypeParam("E1", PLAIN_OBJECT)),
          InvalidInstantiation(3, NULLABLE_STRING_TREE, base, TypeParam("E4", PLAIN_OBJECT))]
  {
    var env := TestEnv();
    assert IsNullableTypeArgument(env, NULLABLE_STRING_TREE) by {
      assert env.isNullableAnnotation(NULLABLE_STRING_TREE.annotations[0].annotationType.value);
    }
    assert !HasNullableAnnotation(env, PLAIN_OBJECT.annos);
    var args := [NULLABLE_STRING_TREE, OtherTree, OtherTree, NULLABLE_STRING_TREE];
    var m := NullableTypeArguments(env, args);
    assert 0 in m && 3 in m && 1 !in m && 2 !in m;
    assert m[0] == NULLABLE_STRING_TREE && m[3] == NULLABLE_STRING_TREE;
    var base := ClassType(MIXED_TYPE_PARAM, [Str(NULLABLE), Str([]), Str([]), Str(NULLABLE)], []);
    var params := DeclaredTypeParameters(env, base);
    assert params == TestTypeParameters(MIXED_TYPE_PARAM);
    assert ScanReports(env, base, params, m, 1) == [InvalidInstantiation(0, NULLABLE_STRING_TREE, base, params[0])];
    assert ScanReports(env, base, params, m, 3) == ScanReports(env, base, params, m, 1);
  }

  /** In the test environment, a plain `String` argument is not @Nullable and an annotated one is. */
  lemma StringNullability()
    ensures !HasNullableAnnotation(TestEnv(), Str([]).annos)
    ensures HasNullableAnnotation(TestEnv(), Str(NULLABLE).annos)
  {
    assert TestEnv().isNullableAnnotation(Str(NULLABLE).annos[0]);
  }

  /** `NullableTypeParam<String> t2 = t1` with `t1` a `NullableTypeParam<@Nullable String>` is reported once. */
  lemma NullableArgumentAssignedToNonNull(site: SiteId)
    ensures var lhs := ClassType(NULLABLE_TYPE_PARAM, [Str([])], []);
      var rhs := ClassType(NULLABLE_TYPE_PARAM, [Str(NULLABLE)], []);
      AssignmentOutcome(TestEnv(), VariableDeclaration(site, lhs, Some(TypedTree(rhs))))
      == Completed([InvalidAssignment(site, Some(lhs), Some(rhs))])
  {
    var env := TestEnv();
    var lhs := ClassType(NULLABLE_TYPE_PARAM, [Str([])], []);
    var rhs := ClassType(NULLABLE_TYPE_PARAM, [Str(NULLABLE)], []);
    TypedOutcome(env, VariableDeclaration(site, lhs, Some(TypedTree(rhs))), rhs);
    StringNullability();
    assert 0 in NullableIndexSet(env, Normal(rhs)) && 0 !in NullableIndexSet(env, Normal(lhs));
  }

  /** The type of the `null` literal: not a class type, with no type arguments. */
  const NULL_TYPE: Type := OtherType([])

  /**
   * `NullableTypeParam<@Nullable String> t3 = null` is reported once: the
   * `null` literal's type has no type arguments, so its @Nullable positions
   * are empty while the declared type's are `{0}`.
   */
  lemma NullInitializerReported(site: SiteId)
    ensures var lhs := ClassType(NULLABLE_TYPE_PARAM, [Str(NULLABLE)], []);
      AssignmentOutcome(TestEnv(), VariableDeclaration(site, lhs, Some(TypedTree(NULL_TYPE))))
      == Completed([InvalidAssignment(site, Some(lhs), Some(NULL_TYPE))])
  {
    var env := TestEnv();
    var lhs := ClassType(NULLABLE_TYPE_PARAM, [Str(NULLABLE)], []);
    TypedOutcome(env, VariableDeclaration(site, lhs, Some(TypedTree(NULL_TYPE))), NULL_TYPE);
    StringNullability();
    assert Adapted(env, Normal(lhs), Normal(NULL_TYPE)) == Normal(NULL_TYPE);
    assert 0 in NullableIndexSet(env, Normal(lhs)) && NullableIndexSet(env, Normal(NULL_TYPE)) == {};
  }

  const INNER_L: Type := ClassType(NULLABLE_TYPE_PARAM, [Str(NULLABLE)], [])
  const INNER_R: Type := ClassType(NULLABLE_TYPE_PARAM, [Str([])], [])
  const MIDDLE_L: Type := ClassType(NULLABLE_TYPE_PARAM, [INNER_L], [])
  const MIDDLE_R: Type := ClassType(NULLABLE_TYPE_PARAM, [INNER_R], [])

  lemma InnermostPairDiffers(site: SiteId)
    ensures IdenticalWrappersReports(TestEnv(), site, Some(Normal(INNER_L)), Some(Normal(INNER_R)))
         == [InvalidAssignment(site, Some(INNER_L), Some(INNER_R))]
  {
    StringNullability();
    assert 0 in NullableIndexSet(TestEnv(), Normal(INNER_L)) && 0 !in NullableIndexSet(TestEnv(), Normal(INNER_R));
  }

  lemma MiddlePairDefersToInnermost(site: SiteId)
    ensures IdenticalWrappersReports(TestEnv(), site, Some(Normal(MIDDLE_L)), Some(Normal(MIDDLE_R)))
         == IdenticalWrappersReports(TestEnv(), site, Some(Normal(INNER_L)), Some(Normal(INNER_R)))
  {
    var env := TestEnv();
    assert NullableIndexSet(env, Normal(MIDDLE_L)) == {} == NullableIndexSet(env, Normal(MIDDLE_R));
    var ln, rn := NestedWrappers(Normal(MIDDLE_L)), NestedWrappers(Normal(MIDDLE_R));
    assert ln == [Some(Normal(INNER_L))] && rn == [Some(Normal(INNER_R))];
    assert ln[..0] == [] && rn[..0] == [];
    assert Adapted(env, Normal(MIDDLE_L), Normal(MIDDLE_R)) == Normal(MIDDLE_R);
    assert PairwiseReports(env, site, ln, rn, TypeHeight(MIDDLE_L))
        == IdenticalWrappersReports(env, site, Some(Normal(INNER_L)), Some(Normal(INNER_R)));
  }

  const TOP_L: Type := ClassType(MULTIPLE_ARGUMENTS, [MIDDLE_L, Str([])], [])
  const TOP_R: Type := ClassType(MULTIPLE_ARGUMENTS, [MIDDLE_R, Str([])], [])

  /** Two resolved types of one declaration with the same @Nullable positions: only the nested comparisons report. */
  lemma ResolvedPairDescends(env: Env, site: SiteId, l: Type, r: Type)
    requires SameErasure(l, r)
    requires NullableIndexSet(env, Normal(l)) == NullableIndexSet(env, Normal(r))
    requires |TypeArguments(l)| == |TypeArguments(r)|
    ensures IdenticalWrappersReports(env, site, Some(Normal(l)), Some(Normal(r)))
         == PairwiseReports(env, site, NestedWrappers(Normal(l)), NestedWrappers(Normal(r)), TypeHeight(l))
  {
    assert Adapted(env, Normal(l), Normal(r)) == Normal(r);
  }

  /** A first nested pair followed by a non-generic pair reports what the first pair reports. */
  lemma PairwiseFirstOfTwo(env: Env, site: SiteId, a: Wrapper, b: Wrapper, bound: nat)
    requires Height(a) < bound
    ensures PairwiseReports(env, site, [Some(a), None], [Some(b), None], bound)
         == IdenticalWrappersReports(env, site, Some(a), Some(b))
  {
    var ls, rs := [Some(a), None], [Some(b), None];
    assert ls[..1] == [Some(a)] && rs[..1] == [Some(b)];
    assert ls[..1][..0] == [] && rs[..1][..0] == [];
    assert PairwiseReports(env, site, ls[..1], rs[..1], bound) == IdenticalWrappersReports(env, site, Some(a), Some(b));
    assert IdenticalWrappersReports(env, site, None, None) == [];
  }

  lemma TopPairDefersToMiddle(site: SiteId)
    ensures IdenticalWrappersReports(TestEnv(), site, Some(Normal(TOP_L)), Some(Normal(TOP_R)))
         == IdenticalWrappersReports(TestEnv(), site, Some(Normal(MIDDLE_L)), Some(Normal(MIDDLE_R)))
  {
    var env := TestEnv();
    StringNullability();
    assert NullableIndexSet(env, Normal(TOP_L)) == {} == NullableIndexSet(env, Normal(TOP_R));
    ResolvedPairDescends(env, site, TOP_L, TOP_R);
    assert NestedWrappers(Normal(TOP_L)) == [Some(Normal(MIDDLE_L)), None];
    assert NestedWrappers(Normal(TOP_R)) == [Some(Normal(MIDDLE_R)), None];
    PairwiseFirstOfTwo(env, site, Normal(MIDDLE_L), Normal(MIDDLE_R), TypeHeight(TOP_L));
  }

  /**
   * `t10 = t11`, with `t10` a `MultipleArguments<NullableTypeParam<NullableTypeParam<@Nullable String>>, String>`
   * and `t11` the same without the annotation: the top two levels agree, and
   * the one report names the innermost pair of types that differ.
   */
  lemma NestedMismatchReportedOnce(site: SiteId)
    ensures AssignmentOutcome(TestEnv(), Assignment(site, TOP_L, TypedTree(TOP_R)))
         == Completed([InvalidAssignment(site, Some(INNER_L), Some(INNER_R))])
  {
    TypedOutcome(TestEnv(), Assignment(site, TOP_L, TypedTree(TOP_R)), TOP_R);
    InnermostPairDiffers(site);
    MiddlePairDefersToInnermost(site);
    TopPairDefersToMiddle(site);
  }

  const SUPER_C_NULLABLE: Type := ClassType(SUPER_CLASS_C, [Str(NULLABLE)], [])

  /**
   * `SuperClassC<@Nullable String> f; f = new FnImpl1()`, where `FnImpl1`
   * reaches `SuperClassC<String>` through three inheritance edges (`FnImpl1`
   * to `SubClassA` to `SuperClassB` to `SuperClassC`), is reported once.
   */
  lemma MultiLevelInheritanceRejected(site: SiteId)
    ensures AssignmentOutcome(TestEnv(), Assignment(site, SUPER_C_NULLABLE, TypedTree(ClassType(FN_IMPL_1, [], []))))
         == Completed([InvalidAssignment(site, Some(SUPER_C_NULLABLE), Some(ClassType(FN_IMPL_1, [], [])))])
  {
    var impl1 := ClassType(FN_IMPL_1, [], []);
    TypedOutcome(TestEnv(), Assignment(site, SUPER_C_NULLABLE, TypedTree(impl1)), impl1);
    FnImpl1Mismatch(site);
  }

  lemma FnImpl1Mismatch(site: SiteId)
    ensures IdenticalWrappersReports(TestEnv(), site, Some(Normal(SUPER_C_NULLABLE)), Some(Normal(ClassType(FN_IMPL_1, [], []))))
         == [InvalidAssignment(site, Some(SUPER_C_NULLABLE), Some(ClassType(FN_IMPL_1, [], [])))]
  {
    StringNullability();
    var env := TestEnv();
    var super1 := ClassType(SUPER_CLASS_C, [Str([])], []);
    FnImplAdaptsToSuperClassC(FN_IMPL_1, super1);
    assert 0 in NullableIndexSet(env, Normal(SUPER_C_NULLABLE)) && 0 !in NullableIndexSet(env, Normal(super1));
  }

  /** `FnImpl1` and `FnImpl2` adapt to the fourth element of their closure, their `SuperClassC<...>`. */
  lemma FnImplAdaptsToSuperClassC(impl: DeclId, adapted: Type)
    requires impl == FN_IMPL_1 || impl == FN_IMPL_2
    requires adapted == TestClosure(ClassType(impl, [], []))[3]
    ensures Adapted(TestEnv(), Normal(SUPER_C_NULLABLE), Normal(ClassType(impl, [], []))) == Normal(adapted)
  {
    var lhs := SUPER_C_NULLABLE;
    var t := ClassType(impl, [], []);
    var closure := TestClosure(t);
    var arg := if impl == FN_IMPL_1 then Str([]) else Str(NULLABLE);
    assert closure == [t, ClassType(SUB_CLASS_A, [arg], []), ClassType(SUPER_CLASS_B, [arg], []),
                       ClassType(SUPER_CLASS_C, [arg], []), PLAIN_OBJECT];
    MatchingSupertypeIsFirstMatch(closure, lhs, t);
    assert SameErasure(closure[3], lhs);
    assert !SameErasure(closure[0], lhs) && !SameErasure(closure[1], lhs) && !SameErasure(closure[2], lhs);
  }

  /** `f = new FnImpl2()` reaches `SuperClassC<@Nullable String>` and is not reported. */
  lemma MultiLevelInheritanceAccepted(site: SiteId)
    ensures AssignmentOutcome(TestEnv(), Assignment(site, SUPER_C_NULLABLE, TypedTree(ClassType(FN_IMPL_2, [], [])))) == Completed([])
  {
    var impl2 := ClassType(FN_IMPL_2, [], []);
    TypedOutcome(TestEnv(), Assignment(site, SUPER_C_NULLABLE, TypedTree(impl2)), impl2);
    FnImpl2Matches(site);
  }

  lemma FnImpl2Matches(site: SiteId)
    ensures IdenticalWrappersReports(TestEnv(), site, Some(Normal(SUPER_C_NULLABLE)), Some(Normal(ClassType(FN_IMPL_2, [], [])))) == []
  {
    var env := TestEnv();
    FnImplAdaptsToSuperClassC(FN_IMPL_2, SUPER_C_NULLABLE);
    IdenticalWrappersReflexive(env, site, Some(Normal(SUPER_C_NULLABLE)));
  }

  /** `Sub<C, D> extends Super<D, C>`: adapting `Sub<X, Y>` to `Super` swaps the arguments. */
  lemma SubAdaptsToSwappedSuper(lhs: Type, x: Type, y: Type)
    requires lhs.ClassType? && lhs.decl == SUPER
    ensures forall w :: Wrapped(w) == Some(ClassType(SUB, [x, y], [])) ==>
      Adapted(TestEnv(), Normal(lhs), w) == Normal(ClassType(SUPER, [y, x], []))
  {
    var sub := ClassType(SUB, [x, y], []);
    assert TestClosure(sub) == [sub, ClassType(SUPER, [y, x], []), PLAIN_OBJECT];
    MatchingSupertypeIsFirstMatch(TestClosure(sub), lhs, sub);
    assert SameErasure(TestClosure(sub)[1], lhs) && !SameErasure(TestClosure(sub)[0], lhs);
  }

  /** A declaration initialized with `new C<...>` that `messAround` survives reports what the comparison reports. */
  lemma NewInstanceOutcome(env: Env, site: SiteId, lhs: Type, p: ParameterizedTypeTree)
    requires p.ty.Some? && p.ty.value.ClassType? && |p.typeArguments| > 0
    requires forall i :: 0 <= i < |p.ty.value.args| ==> p.ty.value.args[i].ClassType?
    ensures AssignmentOutcome(env, VariableDeclaration(site, lhs, Some(NewGenericInstance(p))))
         == Completed(IdenticalWrappersReports(env, site, Some(Normal(lhs)), Some(Syntax(p))))
  {
  }

  /**
   * The resolved type of a `String` argument written in `new C<...>`:
   * `nullable` says whether it is written `@Nullable String`, `kept` whether
   * the compiler's type of the instance creation keeps that annotation. The
   * syntax view reads the written annotation either way; a resolved-type view
   * of the instance creation (after adaptation) sees it only when kept.
   */
  function WrittenString(nullable: bool, kept: bool): Type
  {
    Str(if nullable && kept then NULLABLE else [])
  }

  const SUPER_NULLABLE_STRING: Type := ClassType(SUPER, [Str(NULLABLE), Str([])], [])

  /** The identifier of `new Sub<String, @Nullable String>()`. */
  function SubStringNullable(kept: bool): ParameterizedTypeTree
  {
    TypeApply(Some(ClassType(SUB, [Str([]), WrittenString(true, kept)], [])), [OtherTree, NULLABLE_STRING_TREE])
  }

  /** The written nesting of `new Sub<X, Y>()` with non-generic arguments is empty. */
  lemma TwoPlainArgumentsNestNothing(p: ParameterizedTypeTree)
    requires |p.typeArguments| == 2 && !p.typeArguments[0].TypeApply? && !p.typeArguments[1].TypeApply?
    ensures NestedWrappers(Syntax(p)) == []
  {
    var args := p.typeArguments;
    assert args[..1][..0] == [] && args[..1] == [args[0]];
    assert SyntaxNested(args[..1]) == SyntaxNested(args[..1][..0]) + SyntaxEntry(args[0]);
    assert SyntaxNested(args) == SyntaxNested(args[..1]) + SyntaxEntry(args[1]);
  }

  /**
   * `Super<@Nullable String, String> s = new Sub<String, @Nullable String>()`
   * is accepted when the resolved type keeps the written annotation: the
   * supertype closure swaps the arguments into place.
   */
  lemma PermutedInheritanceAcceptedWhenKept(site: SiteId)
    ensures AssignmentOutcome(TestEnv(), VariableDeclaration(site, SUPER_NULLABLE_STRING,
              Some(NewGenericInstance(SubStringNullable(true))))) == Completed([])
  {
    NewInstanceOutcome(TestEnv(), site, SUPER_NULLABLE_STRING, SubStringNullable(true));
    var env := TestEnv();
    var lhs := SUPER_NULLABLE_STRING;
    var okTree := SubStringNullable(true);
    SubAdaptsToSwappedSuper(lhs, Str([]), Str(NULLABLE));
    assert Adapted(env, Normal(lhs), Syntax(okTree)) == Normal(lhs);
    IdenticalWrappersReflexive(env, site, Some(Normal(lhs)));
    TwoPlainArgumentsNestNothing(okTree);
  }

  /**
   * The same declaration is reported when the resolved type has lost the
   * annotation: the adapted `Super<String, String>` has no @Nullable position,
   * and the syntax pass has no nested `C<...>` to compare.
   */
  lemma PermutedInheritanceReportedWhenLost(site: SiteId)
    ensures AssignmentOutcome(TestEnv(), VariableDeclaration(site, SUPER_NULLABLE_STRING,
              Some(NewGenericInstance(SubStringNullable(false)))))
         == Completed([InvalidAssignment(site, Some(SUPER_NULLABLE_STRING), Some(ClassType(SUB, [Str([]), Str([])], [])))])
  {
    NewInstanceOutcome(TestEnv(), site, SUPER_NULLABLE_STRING, SubStringNullable(false));
    StringNullability();
    var env := TestEnv();
    var lhs := SUPER_NULLABLE_STRING;
    var lostTree := SubStringNullable(false);
    var adapted := ClassType(SUPER, [Str([]), Str([])], []);
    SubAdaptsToSwappedSuper(lhs, Str([]), Str([]));
    assert Adapted(env, Normal(lhs), Syntax(lostTree)) == Normal(adapted);
    assert 0 in NullableIndexSet(env, Normal(lhs)) && 0 !in NullableIndexSet(env, Normal(adapted));
  }

  /**
   * `Super<@Nullable String, String> s2 = new Sub<@Nullable String, String>()`
   * is reported once, whether or not the resolved type keeps the annotation.
   */
  lemma PermutedInheritanceRejected(site: SiteId, kept: bool)
    ensures var rhsType := ClassType(SUB, [WrittenString(true, kept), Str([])], []);
      var rhs := TypeApply(Some(rhsType), [NULLABLE_STRING_TREE, OtherTree]);
      AssignmentOutcome(TestEnv(), VariableDeclaration(site, SUPER_NULLABLE_STRING, Some(NewGenericInstance(rhs))))
      == Completed([InvalidAssignment(site, Some(SUPER_NULLABLE_STRING), Some(rhsType))])
  {
    NewInstanceOutcome(TestEnv(), site, SUPER_NULLABLE_STRING, TypeApply(Some(ClassType(SUB, [WrittenString(true, kept), Str([])], [])), [NULLABLE_STRING_TREE, OtherTree]));
    StringNullability();
    var env := TestEnv();
    var lhs := SUPER_NULLABLE_STRING;
    var badType := ClassType(SUB, [WrittenString(true, kept), Str([])], []);
    var badTree: ParameterizedTypeTree := TypeApply(Some(badType), [NULLABLE_STRING_TREE, OtherTree]);
    var adapted := ClassType(SUPER, [Str([]), WrittenString(true, kept)], []);
    SubAdaptsToSwappedSuper(lhs, WrittenString(true, kept), Str([]));
    assert Adapted(env, Normal(lhs), Syntax(badTree)) == Normal(adapted);
    assert 0 in NullableIndexSet(env, Normal(lhs)) && 0 !in NullableIndexSet(env, Normal(adapted));
  }

  /** `B<P> extends D<P>`: adapting `B<X>` to `D` gives `D<X>`. */
  lemma BAdaptsToD(lhs: Type, x: Type)
    requires lhs.ClassType? && lhs.decl == D
    ensures forall w :: Wrapped(w) == Some(ClassType(B, [x], [])) ==>
      Adapted(TestEnv(), Normal(lhs), w) == Normal(ClassType(D, [x], []))
  {
    var b := ClassType(B, [x], []);
    assert TestClosure(b) == [b, ClassType(D, [x], []), PLAIN_OBJECT];
    MatchingSupertypeIsFirstMatch(TestClosure(b), lhs, b);
    assert SameErasure(TestClosure(b)[1], lhs) && !SameErasure(TestClosure(b)[0], lhs);
  }

  /** With `B<P> extends D<P>`: `D<String> f = b` for `b` a `B<@Nullable String>` is reported once. */
  lemma SubtypeWithParametersVariable(site: SiteId)
    ensures var lhs := ClassType(D, [Str([])], []);
      var rhs := ClassType(B, [Str(NULLABLE)], []);
      AssignmentOutcome(TestEnv(), VariableDeclaration(site, lhs, Some(TypedTree(rhs))))
      == Completed([InvalidAssignment(site, Some(lhs), Some(rhs))])
  {
    var env := TestEnv();
    var lhs := ClassType(D, [Str([])], []);
    var rhs := ClassType(B, [Str(NULLABLE)], []);
    TypedOutcome(env, VariableDeclaration(site, lhs, Some(TypedTree(rhs))), rhs);
    StringNullability();
    var adapted := ClassType(D, [Str(NULLABLE)], []);
    BAdaptsToD(lhs, Str(NULLABLE));
    assert Adapted(env, Normal(lhs), Normal(rhs)) == Normal(adapted);
    assert 0 !in NullableIndexSet(env, Normal(lhs)) && 0 in NullableIndexSet(env, Normal(adapted));
  }

  /** The identifier of `new B<@Nullable String>()`. */
  function BNullableString(kept: bool): ParameterizedTypeTree
  {
    TypeApply(Some(ClassType(B, [WrittenString(true, kept)], [])), [NULLABLE_STRING_TREE])
  }

  /**
   * With `B<P> extends D<P>`: `D<String> f = new B<@Nullable String>()` is
   * reported once when the resolved type keeps the written annotation, since
   * the adapted `D<@Nullable String>` differs at position 0.
   */
  lemma SubtypeWithParametersInstanceReportedWhenKept(site: SiteId)
    ensures var lhs := ClassType(D, [Str([])], []);
      AssignmentOutcome(TestEnv(), VariableDeclaration(site, lhs, Some(NewGenericInstance(BNullableString(true)))))
      == Completed([InvalidAssignment(site, Some(lhs), Some(ClassType(B, [Str(NULLABLE)], [])))])
  {
    NewInstanceOutcome(TestEnv(), site, ClassType(D, [Str([])], []), BNullableString(true));
    StringNullability();
    var env := TestEnv();
    var lhs := ClassType(D, [Str([])], []);
    var adapted := ClassType(D, [Str(NULLABLE)], []);
    BAdaptsToD(lhs, Str(NULLABLE));
    assert Adapted(env, Normal(lhs), Syntax(BNullableString(true))) == Normal(adapted);
    assert 0 !in NullableIndexSet(env, Normal(lhs)) && 0 in NullableIndexSet(env, Normal(adapted));
  }

  /**
   * The same declaration is not reported when the resolved type has lost the
   * written annotation: the adapted resolved type is `D<String>`, and the
   * syntax pass is skipped because the written arguments contain no `C<...>`
   * tree.
   */
  lemma SubtypeWithParametersInstanceMissedWhenLost(site: SiteId)
    ensures var lhs := ClassType(D, [Str([])], []);
      AssignmentOutcome(TestEnv(), VariableDeclaration(site, lhs, Some(NewGenericInstance(BNullableString(false))))) == Completed([])
  {
    var lhs := ClassType(D, [Str([])], []);
    NewInstanceOutcome(TestEnv(), site, lhs, BNullableString(false));
    LostAnnotationAdaptsToLhs(site);
  }

  lemma LostAnnotationAdaptsToLhs(site: SiteId)
    ensures var lhs := ClassType(D, [Str([])], []);
      IdenticalWrappersReports(TestEnv(), site, Some(Normal(lhs)), Some(Syntax(BNullableString(false)))) == []
  {
    var env := TestEnv();
    var lhs := ClassType(D, [Str([])], []);
    var tree := BNullableString(false);
    BAdaptsToD(lhs, Str([]));
    assert Adapted(env, Normal(lhs), Syntax(tree)) == Normal(lhs);
    IdenticalWrappersReflexive(env, site, Some(Normal(lhs)));
    assert tree.typeArguments[..0] == [];
    assert NestedWrappers(Syntax(tree)) == [];
  }

  /** The identifier `NullableTypeParam<@Nullable String>` nested in a `new` expression. */
  function InnerNullableTree(kept: bool): ParameterizedTypeTree
  {
    TypeApply(Some(ClassType(NULLABLE_TYPE_PARAM, [WrittenString(true, kept)], [])), [NULLABLE_STRING_TREE])
  }

  /** The identifier of `new NullableTypeParam<NullableTypeParam<@Nullable String>>()`. */
  function OuterNullableTree(kept: bool): ParameterizedTypeTree
  {
    TypeApply(Some(ClassType(NULLABLE_TYPE_PARAM, [InnerNullableTree(kept).ty.value], [])), [InnerNullableTree(kept)])
  }

  /** `NullableTypeParam<String>` against the written `NullableTypeParam<@Nullable String>` is reported once. */
  lemma InnerSyntaxPairDiffers(site: SiteId, kept: bool)
    ensures IdenticalWrappersReports(TestEnv(), site, Some(Normal(INNER_R)), Some(Syntax(InnerNullableTree(kept))))
         == [InvalidAssignment(site, Some(INNER_R), InnerNullableTree(kept).ty)]
  {
    StringNullability();
    var env := TestEnv();
    var inner := InnerNullableTree(kept);
    assert Adapted(env, Normal(INNER_R), Syntax(inner)) == Syntax(inner);
    assert 0 !in NullableIndexSet(env, Normal(INNER_R));
    assert WrittenNullable(inner.typeArguments[0]) by {
      assert IsJSpecifyNullable(inner.typeArguments[0].annotations[0]);
    }
    assert 0 in NullableIndexSet(env, Syntax(inner));
  }

  /**
   * `NullableTypeParam<NullableTypeParam<String>> x = new
   * NullableTypeParam<NullableTypeParam<@Nullable String>>()`: the two sides
   * have one declaration, so nothing is adapted, and the first pass and the
   * syntax pass compare the same written nesting. The one nested mismatch is
   * reported twice.
   */
  lemma SameDeclarationNestedMismatchReportedTwice(site: SiteId, kept: bool)
    ensures var lhs := ClassType(NULLABLE_TYPE_PARAM, [INNER_R], []);
      var report := InvalidAssignment(site, Some(INNER_R), InnerNullableTree(kept).ty);
      AssignmentOutcome(TestEnv(), VariableDeclaration(site, lhs, Some(NewGenericInstance(OuterNullableTree(kept)))))
      == Completed([report, report])
  {
    var lhs := ClassType(NULLABLE_TYPE_PARAM, [INNER_R], []);
    var outer := OuterNullableTree(kept);
    assert outer.ty.value.args == [InnerNullableTree(kept).ty.value];
    NewInstanceOutcome(TestEnv(), site, lhs, outer);
    OuterReportedTwice(site, kept);
  }

  lemma OuterReportedTwice(site: SiteId, kept: bool)
    ensures var lhs := ClassType(NULLABLE_TYPE_PARAM, [INNER_R], []);
      var report := InvalidAssignment(site, Some(INNER_R), InnerNullableTree(kept).ty);
      IdenticalWrappersReports(TestEnv(), site, Some(Normal(lhs)), Some(Syntax(OuterNullableTree(kept)))) == [report, report]
  {
    OuterComparedTwice(site, kept);
    InnerSyntaxPairDiffers(site, kept);
  }

  /**
   * A resolved type against a written `new C<...>` of its own declaration with
   * the same @Nullable positions: nothing is adapted, so both passes compare
   * the same two nested lists.
   */
  lemma SyntaxPairComparedTwice(env: Env, site: SiteId, l: Type, p: ParameterizedTypeTree)
    requires p.ty.Some? && SameErasure(l, p.ty.value)
    requires NullableIndexSet(env, Normal(l)) == NullableIndexSet(env, Syntax(p))
    requires |NestedWrappers(Normal(l))| == |NestedWrappers(Syntax(p))|
    ensures var once := PairwiseReports(env, site, NestedWrappers(Normal(l)), NestedWrappers(Syntax(p)), TypeHeight(l));
      IdenticalWrappersReports(env, site, Some(Normal(l)), Some(Syntax(p))) == once + once
  {
    assert Adapted(env, Normal(l), Syntax(p)) == Syntax(p);
  }

  /** A one-element pairwise comparison is the comparison of that pair. */
  lemma PairwiseSingle(env: Env, site: SiteId, a: Option<Wrapper>, b: Option<Wrapper>, bound: nat)
    requires a.Some? ==> Height(a.value) < bound
    ensures PairwiseReports(env, site, [a], [b], bound) == IdenticalWrappersReports(env, site, a, b)
  {
    assert [a][..0] == [] && [b][..0] == [];
  }

  /** The written nesting of `new NullableTypeParam<NullableTypeParam<@Nullable String>>()` is its one inner tree. */
  lemma OuterNesting(kept: bool)
    ensures NestedWrappers(Syntax(OuterNullableTree(kept))) == [Some(Syntax(InnerNullableTree(kept)))]
  {
    var outer := OuterNullableTree(kept);
    assert outer.typeArguments[..0] == [];
  }

  /** Both passes of the outer comparison reduce to the one nested pair. */
  lemma OuterComparedTwice(site: SiteId, kept: bool)
    ensures var lhs := ClassType(NULLABLE_TYPE_PARAM, [INNER_R], []);
      var once := IdenticalWrappersReports(TestEnv(), site, Some(Normal(INNER_R)), Some(Syntax(InnerNullableTree(kept))));
      IdenticalWrappersReports(TestEnv(), site, Some(Normal(lhs)), Some(Syntax(OuterNullableTree(kept)))) == once + once
  {
    StringNullability();
    var env := TestEnv();
    var lhs := ClassType(NULLABLE_TYPE_PARAM, [INNER_R], []);
    var outer := OuterNullableTree(kept);
    OuterNesting(kept);
    assert NestedWrappers(Normal(lhs)) == [Some(Normal(INNER_R))];
    assert NullableIndexSet(env, Normal(lhs)) == {} == NullableIndexSet(env, Syntax(outer));
    SyntaxPairComparedTwice(env, site, lhs, outer);
    PairwiseSingle(env, site, Some(Normal(INNER_R)), Some(Syntax(InnerNullableTree(kept))), TypeHeight(lhs));
  }

  /** A declaration initialized with an expression of resolved type `t` reports what the comparison reports. */
  lemma TypedOutcome(env: Env, tree: AssignmentTree, t: Type)
    requires tree.Rhs() == Some(TypedTree(t))
    ensures AssignmentOutcome(env, tree) == Completed(IdenticalWrappersReports(env, tree.site, Some(Normal(tree.Lhs())), Some(Normal(t))))
  {
  }

  /**
   * The resolved type of `C<String>` written as a type argument in
   * `new B<@Nullable C<String>>()`: it carries the @Nullable only when the
   * compiler keeps the written annotation.
   */
  function WrittenGeneric(kept: bool): Type
  {
    ClassType(C, [Str([])], if kept then NULLABLE else [])
  }

  const D_OF_C_STRING: Type := ClassType(D, [ClassType(C, [Str([])], [])], [])

  /** The identifier of `new B<@Nullable C<String>>()`. */
  function BNullableGeneric(kept: bool): ParameterizedTypeTree
  {
    var cTree := TypeApply(Some(ClassType(C, [Str([])], [])), [OtherTree]);
    TypeApply(Some(ClassType(B, [WrittenGeneric(kept)], [])),
              [AnnotatedType([AnnotationTree(Some(NULLABLE_NAME))], cTree)])
  }

  /**
   * `D<C<String>> f3 = new B<@Nullable C<String>>()` is reported once when
   * the resolved type keeps the annotation: the adapted `D<@Nullable C<String>>`
   * differs from the left side at position 0.
   */
  lemma AnnotatedGenericArgumentReportedWhenKept(site: SiteId)
    ensures AssignmentOutcome(TestEnv(), VariableDeclaration(site, D_OF_C_STRING, Some(NewGenericInstance(BNullableGeneric(true)))))
         == Completed([InvalidAssignment(site, Some(D_OF_C_STRING), Some(ClassType(B, [WrittenGeneric(true)], [])))])
  {
    var env := TestEnv();
    var p := BNullableGeneric(true);
    assert p.ty.value.args == [WrittenGeneric(true)];
    NewInstanceOutcome(env, site, D_OF_C_STRING, p);
    AnnotatedGenericKeptMismatch(site);
  }

  lemma AnnotatedGenericKeptMismatch(site: SiteId)
    ensures IdenticalWrappersReports(TestEnv(), site, Some(Normal(D_OF_C_STRING)), Some(Syntax(BNullableGeneric(true))))
         == [InvalidAssignment(site, Some(D_OF_C_STRING), Some(ClassType(B, [WrittenGeneric(true)], [])))]
  {
    var env := TestEnv();
    var adapted := ClassType(D, [WrittenGeneric(true)], []);
    BAdaptsToD(D_OF_C_STRING, WrittenGeneric(true));
    assert Adapted(env, Normal(D_OF_C_STRING), Syntax(BNullableGeneric(true))) == Normal(adapted);
    assert env.isNullableAnnotation(WrittenGeneric(true).annos[0]);
    assert 0 in NullableIndexSet(env, Normal(adapted));
    assert 0 !in NullableIndexSet(env, Normal(D_OF_C_STRING));
  }

  /**
   * The same declaration is not reported when the resolved type has lost the
   * annotation: the adapted `D<C<String>>` equals the left side, and the
   * syntax pass stops on length, since the written `@Nullable C<String>` is an
   * annotated type and not a `C<...>` tree, so the written nesting is empty.
   */
  lemma AnnotatedGenericArgumentMissedWhenLost(site: SiteId)
    ensures AssignmentOutcome(TestEnv(), VariableDeclaration(site, D_OF_C_STRING, Some(NewGenericInstance(BNullableGeneric(false)))))
         == Completed([])
  {
    var env := TestEnv();
    var p := BNullableGeneric(false);
    assert p.ty.value.args == [WrittenGeneric(false)];
    NewInstanceOutcome(env, site, D_OF_C_STRING, p);
    AnnotatedGenericLostMatches(site);
  }

  lemma AnnotatedGenericLostMatches(site: SiteId)
    ensures IdenticalWrappersReports(TestEnv(), site, Some(Normal(D_OF_C_STRING)), Some(Syntax(BNullableGeneric(false)))) == []
  {
    var env := TestEnv();
    var p := BNullableGeneric(false);
    BAdaptsToD(D_OF_C_STRING, WrittenGeneric(false));
    assert Adapted(env, Normal(D_OF_C_STRING), Syntax(p)) == Normal(D_OF_C_STRING);
    IdenticalWrappersReflexive(env, site, Some(Normal(D_OF_C_STRING)));
    assert p.typeArguments[..0] == [];
    assert NestedWrappers(Syntax(p)) == [];
    assert |NestedWrappers(Normal(D_OF_C_STRING))| == 1;
  }
}
