/**
 * The assignment compatibility check: the declared type of a variable and
 * the type of the value assigned to it must agree on which type arguments
 * are @Nullable, position by position and at every nesting level. The value
 * is first adapted to the variable's declaration through its supertypes.
 */
module Assignments {
  import opened Options
  import opened Javac
  import opened TypeWrappers
  import opened Reports

  /** Recursion measure: a present view outranks every view nested in it, an absent one is least. */
  function Measure(w: Option<Wrapper>): nat
  {
    if w.Some? then Height(w.value) + 1 else 0
  }

  /** The two compared types are class types of different declarations, so the right side is adapted. */
  predicate NeedsAdaptation(lhs: Option<Type>, rhs: Option<Type>)
  {
    lhs.Some? && rhs.Some? && lhs.value.ClassType? && rhs.value.ClassType? &&
    !SameErasure(lhs.value, rhs.value)
  }

  /** The right-hand view after adaptation to the left-hand side's declaration, if needed. */
  function Adapted(env: Env, lhsWrapper: Wrapper, rhsWrapper: Wrapper): Wrapper
  {
    var lhs := Wrapped(lhsWrapper);
    var rhs := Wrapped(rhsWrapper);
    if NeedsAdaptation(lhs, rhs) then AsSupertype(env, rhsWrapper, lhs.value) else rhsWrapper
  }

  /**
   * Reports of `checkIdenticalWrappers`. Absent views report nothing; differing
   * @Nullable position sets report once and stop; otherwise the nested views
   * are compared pairwise (when the lists are as long as each other) and, for
   * a syntax-backed right side, compared again against its written nesting.
   */
  function IdenticalWrappersReports(env: Env, site: SiteId, lhsWrapper: Option<Wrapper>, rhsWrapper: Option<Wrapper>): seq<Report>
    decreases Measure(lhsWrapper), 0
  {
    if lhsWrapper.None? || rhsWrapper.None? then []
    else
      var l := lhsWrapper.value;
      var original := rhsWrapper.value;
      var r := Adapted(env, l, original);
      if NullableIndexSet(env, l) != NullableIndexSet(env, r) then
        [InvalidAssignment(site, Wrapped(l), Wrapped(original))]
      else
        var ln := NestedWrappers(l);
        var rn := NestedWrappers(r);
        if |ln| != |rn| then []
        else
          var first := PairwiseReports(env, site, ln, rn, Height(l));
          if original.Syntax? then
            var on := NestedWrappers(original);
            if |ln| != |on| then first
            else first + PairwiseReports(env, site, ln, on, Height(l))
          else first
  }

  /** The reports of comparing two lists of nested views position by position, in order. */
  function PairwiseReports(env: Env, site: SiteId, ls: seq<Option<Wrapper>>, rs: seq<Option<Wrapper>>, bound: nat): seq<Report>
    requires |ls| == |rs|
    requires forall k :: 0 <= k < |ls| && ls[k].Some? ==> Height(ls[k].value) < bound
    decreases bound, |ls|
  {
    if ls == [] then []
    else
      PairwiseReports(env, site, ls[..|ls| - 1], rs[..|rs| - 1], bound) +
      IdenticalWrappersReports(env, site, ls[|ls| - 1], rs[|rs| - 1])
  }

  /** Compares each pair of nested views in turn, appending what each comparison reports. */
  method CheckPairwise(env: Env, site: SiteId, ls: seq<Option<Wrapper>>, rs: seq<Option<Wrapper>>, ghost bound: nat)
    returns (reports: seq<Report>)
    requires |ls| == |rs|
    requires forall k :: 0 <= k < |ls| && ls[k].Some? ==> Height(ls[k].value) < bound
    ensures reports == PairwiseReports(env, site, ls, rs, bound)
    decreases bound, 2
  {
    reports := [];
    for i := 0 to |ls|
      invariant reports == PairwiseReports(env, site, ls[..i], rs[..i], bound)
    {
      assert ls[..i + 1][..i] == ls[..i] && rs[..i + 1][..i] == rs[..i];
      var nested := CheckIdenticalWrappers(env, site, ls[i], rs[i]);
      reports := reports + nested;
    }
    assert ls[..|ls|] == ls && rs[..|rs|] == rs;
  }

  /** `checkIdenticalWrappers`: the reports of one comparison, nested ones included, in order. */
  method CheckIdenticalWrappers(env: Env, site: SiteId, lhsWrapper: Option<Wrapper>, rhsWrapper: Option<Wrapper>)
    returns (reports: seq<Report>)
    ensures reports == IdenticalWrappersReports(env, site, lhsWrapper, rhsWrapper)
    ensures lhsWrapper.None? || rhsWrapper.None? ==> reports == []
    ensures lhsWrapper.Some? && rhsWrapper.Some? &&
            NullableIndexSet(env, lhsWrapper.value) != NullableIndexSet(env, Adapted(env, lhsWrapper.value, rhsWrapper.value))
            ==> reports == [InvalidAssignment(site, Wrapped(lhsWrapper.value), Wrapped(rhsWrapper.value))]
    ensures lhsWrapper.Some? && rhsWrapper.Some? &&
            NullableIndexSet(env, lhsWrapper.value) == NullableIndexSet(env, Adapted(env, lhsWrapper.value, rhsWrapper.value)) &&
            |NestedWrappers(lhsWrapper.value)| != |NestedWrappers(Adapted(env, lhsWrapper.value, rhsWrapper.value))|
            ==> reports == []
    ensures forall k :: 0 <= k < |reports| ==> reports[k].InvalidAssignment? && reports[k].site == site
    decreases Measure(lhsWrapper), 1
  {
    ReportsCiteSite(env, site, lhsWrapper, rhsWrapper);
    if lhsWrapper.None? || rhsWrapper.None? {
      return [];
    }
    var l := lhsWrapper.value;
    var lhs := Wrapped(l);
    var rhs := Wrapped(rhsWrapper.value);
    var prevOriginalRHSWrapper := rhsWrapper.value;
    var r := rhsWrapper.value;
    if !(lhs.Some? && rhs.Some? && SameErasure(lhs.value, rhs.value)) {
      if lhs.Some? && lhs.value.ClassType? && rhs.Some? && rhs.value.ClassType? {
        var matchingSuperType := SupertypeMatchingLHS(env, lhs.value, rhs.value);
        r := Normal(matchingSuperType);
      }
    }
    var lhsNullableTypeArgIndices := GetNullableTypeArgIndices(env, l);
    var rhsNullableTypeArgIndices := GetNullableTypeArgIndices(env, r);
    if lhsNullableTypeArgIndices != rhsNullableTypeArgIndices {
      return [InvalidAssignment(site, lhs, rhs)];
    }
    var lhsNestedTypeWrappers := GetWrappersForNestedTypes(l);
    var rhsNestedTypeWrappers := GetWrappersForNestedTypes(r);
    if |lhsNestedTypeWrappers| != |rhsNestedTypeWrappers| {
      return [];
    }
    reports := CheckPairwise(env, site, lhsNestedTypeWrappers, rhsNestedTypeWrappers, Height(l));
    if prevOriginalRHSWrapper.Syntax? {
      var originalNestedTypeWrappers := GetWrappersForNestedTypes(prevOriginalRHSWrapper);
      if |lhsNestedTypeWrappers| != |originalNestedTypeWrappers| {
        return;
      }
      var more := CheckPairwise(env, site, lhsNestedTypeWrappers, originalNestedTypeWrappers, Height(l));
      reports := reports + more;
    }
  }

  /** Every report in `rs` is an assignment mismatch attributed to `site`. */
  predicate AllAtSite(rs: seq<Report>, site: SiteId)
  {
    forall k :: 0 <= k < |rs| ==> rs[k].InvalidAssignment? && rs[k].site == site
  }

  /** Nested comparisons report against the tree the whole check was started for. */
  lemma {:induction false} ReportsCiteSite(env: Env, site: SiteId, lhsWrapper: Option<Wrapper>, rhsWrapper: Option<Wrapper>)
    ensures AllAtSite(IdenticalWrappersReports(env, site, lhsWrapper, rhsWrapper), site)
    decreases Measure(lhsWrapper), 0
  {
    if lhsWrapper.Some? && rhsWrapper.Some? {
      var l := lhsWrapper.value;
      var original := rhsWrapper.value;
      var r := Adapted(env, l, original);
      if NullableIndexSet(env, l) == NullableIndexSet(env, r) {
        var ln := NestedWrappers(l);
        var rn := NestedWrappers(r);
        if |ln| == |rn| {
          PairwiseCiteSite(env, site, ln, rn, Height(l));
          if original.Syntax? {
            var on := NestedWrappers(original);
            if |ln| == |on| {
              PairwiseCiteSite(env, site, ln, on, Height(l));
            }
          }
        }
      }
    }
  }

  lemma {:induction false} PairwiseCiteSite(env: Env, site: SiteId, ls: seq<Option<Wrapper>>, rs: seq<Option<Wrapper>>, bound: nat)
    requires |ls| == |rs|
    requires forall k :: 0 <= k < |ls| && ls[k].Some? ==> Height(ls[k].value) < bound
    ensures AllAtSite(PairwiseReports(env, site, ls, rs, bound), site)
    decreases bound, |ls|
  {
    if ls != [] {
      PairwiseCiteSite(env, site, ls[..|ls| - 1], rs[..|rs| - 1], bound);
      ReportsCiteSite(env, site, ls[|ls| - 1], rs[|rs| - 1]);
    }
  }

  /** Comparing a view with itself reports nothing, at any depth and in either pass. */
  lemma {:induction false} IdenticalWrappersReflexive(env: Env, site: SiteId, w: Option<Wrapper>)
    ensures IdenticalWrappersReports(env, site, w, w) == []
    decreases Measure(w), 0
  {
    if w.Some? {
      var l := w.value;
      assert Adapted(env, l, l) == l;
      PairwiseReflexive(env, site, NestedWrappers(l), Height(l));
    }
  }

  lemma {:induction false} PairwiseReflexive(env: Env, site: SiteId, ls: seq<Option<Wrapper>>, bound: nat)
    requires forall k :: 0 <= k < |ls| && ls[k].Some? ==> Height(ls[k].value) < bound
    ensures PairwiseReports(env, site, ls, ls, bound) == []
    decreases bound, |ls|
  {
    if ls != [] {
      PairwiseReflexive(env, site, ls[..|ls| - 1], bound);
      IdenticalWrappersReflexive(env, site, ls[|ls| - 1]);
    }
  }

  /**
   * Two resolved types of the same declaration that agree, argument by
   * argument and at every nesting level, on which arguments are @Nullable.
   */
  ghost predicate SameNullability(env: Env, l: Type, r: Type)
    decreases l
  {
    match l
    case OtherType(_) => TypeArguments(r) == []
    case ClassType(d, largs, _) =>
      r.ClassType? && r.decl == d && |r.args| == |largs| &&
      forall i :: 0 <= i < |largs| ==>
        (HasNullableAnnotation(env, largs[i].annos) <==> HasNullableAnnotation(env, r.args[i].annos)) &&
        SameNullability(env, largs[i], r.args[i])
  }

  /** Types with the same nullability at every level are never reported. */
  lemma {:induction false} SameNullabilityNoReports(env: Env, site: SiteId, l: Type, r: Type)
    requires SameNullability(env, l, r)
    ensures IdenticalWrappersReports(env, site, Some(Normal(l)), Some(Normal(r))) == []
    decreases TypeHeight(l) + 1, 0
  {
    var lw, rw := Normal(l), Normal(r);
    assert Adapted(env, lw, rw) == rw;
    var largs, rargs := TypeArguments(l), TypeArguments(r);
    assert |largs| == |rargs|;
    assert forall i :: i in NullableIndexSet(env, lw) <==> i in NullableIndexSet(env, rw);
    assert NullableIndexSet(env, lw) == NullableIndexSet(env, rw);
    var ln, rn := NestedWrappers(lw), NestedWrappers(rw);
    PairwiseSameNullability(env, site, ln, rn, TypeHeight(l));
  }

  lemma {:induction false} PairwiseSameNullability(env: Env, site: SiteId, ls: seq<Option<Wrapper>>, rs: seq<Option<Wrapper>>, bound: nat)
    requires |ls| == |rs|
    requires forall k :: 0 <= k < |ls| && ls[k].Some? ==> Height(ls[k].value) < bound
    requires forall k :: 0 <= k < |ls| ==>
      ls[k].None? || rs[k].None? ||
      (ls[k].value.Normal? && rs[k].value.Normal? && SameNullability(env, ls[k].value.ty, rs[k].value.ty))
    ensures PairwiseReports(env, site, ls, rs, bound) == []
    decreases bound, |ls|
  {
    if ls != [] {
      PairwiseSameNullability(env, site, ls[..|ls| - 1], rs[..|rs| - 1], bound);
      var last := |ls| - 1;
      if ls[last].Some? && rs[last].Some? {
        SameNullabilityNoReports(env, site, ls[last].value.ty, rs[last].value.ty);
      }
    }
  }

  /** Two resolved types with the same declaration and number of arguments at every nesting level. */
  ghost predicate SameShape(l: Type, r: Type)
    decreases l
  {
    match l
    case OtherType(_) => r.OtherType?
    case ClassType(d, largs, _) =>
      r.ClassType? && r.decl == d && |r.args| == |largs| &&
      forall i :: 0 <= i < |largs| ==> SameShape(largs[i], r.args[i])
  }

  /** A pairwise comparison that reports nothing reports nothing for any of its pairs. */
  lemma {:induction false} PairwiseEmpty(env: Env, site: SiteId, ls: seq<Option<Wrapper>>, rs: seq<Option<Wrapper>>, bound: nat)
    requires |ls| == |rs|
    requires forall k :: 0 <= k < |ls| && ls[k].Some? ==> Height(ls[k].value) < bound
    requires PairwiseReports(env, site, ls, rs, bound) == []
    ensures forall k :: 0 <= k < |ls| ==> IdenticalWrappersReports(env, site, ls[k], rs[k]) == []
    decreases |ls|
  {
    if ls != [] {
      var n := |ls| - 1;
      PairwiseEmpty(env, site, ls[..n], rs[..n], bound);
      assert forall k :: 0 <= k < n ==> ls[..n][k] == ls[k] && rs[..n][k] == rs[k];
    }
  }

  /**
   * Conversely, two types of the same shape that are not reported agree at
   * every nesting level on which arguments are @Nullable: every divergence,
   * however deep, is reported.
   */
  lemma {:induction false} NoReportsMeansSameNullability(env: Env, site: SiteId, l: Type, r: Type)
    requires SameShape(l, r)
    ensures IdenticalWrappersReports(env, site, Some(Normal(l)), Some(Normal(r))) == [] ==> SameNullability(env, l, r)
    decreases TypeHeight(l)
  {
    if IdenticalWrappersReports(env, site, Some(Normal(l)), Some(Normal(r))) != [] {
      return;
    }
    var lw, rw := Normal(l), Normal(r);
    assert Adapted(env, lw, rw) == rw;
    assert NullableIndexSet(env, lw) == NullableIndexSet(env, rw);
    var largs, rargs := TypeArguments(l), TypeArguments(r);
    var ln, rn := NestedWrappers(lw), NestedWrappers(rw);
    assert |ln| == |largs| == |rargs| == |rn|;
    assert PairwiseReports(env, site, ln, rn, TypeHeight(l)) == [];
    PairwiseEmpty(env, site, ln, rn, TypeHeight(l));
    forall i | 0 <= i < |largs|
      ensures HasNullableAnnotation(env, largs[i].annos) <==> HasNullableAnnotation(env, rargs[i].annos)
      ensures SameNullability(env, largs[i], rargs[i])
    {
      assert i in NullableIndexSet(env, lw) <==> i in NullableIndexSet(env, rw);
      if |TypeArguments(largs[i])| > 0 {
        assert ln[i] == Some(Normal(largs[i])) && rn[i] == Some(Normal(rargs[i]));
        TypeArgumentIsLower(l, largs[i]);
        NoReportsMeansSameNullability(env, site, largs[i], rargs[i]);
      }
    }
  }

  /** Every report in `rs` names two resolved types. */
  predicate NamesResolvedTypes(rs: seq<Report>)
  {
    forall k :: 0 <= k < |rs| && rs[k].InvalidAssignment? ==> rs[k].lhs.Some? && rs[k].rhs.Some?
  }

  /**
   * When both compared views stand for resolved types, so does every view
   * compared below them, and no report names an absent type.
   */
  lemma {:induction false} ReportsNameResolvedTypes(env: Env, site: SiteId, lhsWrapper: Option<Wrapper>, rhsWrapper: Option<Wrapper>)
    requires lhsWrapper.Some? ==> Wrapped(lhsWrapper.value).Some?
    requires rhsWrapper.Some? ==> Wrapped(rhsWrapper.value).Some?
    ensures NamesResolvedTypes(IdenticalWrappersReports(env, site, lhsWrapper, rhsWrapper))
    decreases Measure(lhsWrapper), 0
  {
    if lhsWrapper.Some? && rhsWrapper.Some? {
      var l := lhsWrapper.value;
      var original := rhsWrapper.value;
      var r := Adapted(env, l, original);
      if NullableIndexSet(env, l) == NullableIndexSet(env, r) {
        var ln := NestedWrappers(l);
        var rn := NestedWrappers(r);
        if |ln| == |rn| {
          NestedResolved(l);
          NestedResolved(r);
          PairwiseNameResolvedTypes(env, site, ln, rn, Height(l));
          if original.Syntax? {
            var on := NestedWrappers(original);
            if |ln| == |on| {
              NestedResolved(original);
              PairwiseNameResolvedTypes(env, site, ln, on, Height(l));
            }
          }
        }
      }
    }
  }

  lemma {:induction false} PairwiseNameResolvedTypes(env: Env, site: SiteId, ls: seq<Option<Wrapper>>, rs: seq<Option<Wrapper>>, bound: nat)
    requires |ls| == |rs|
    requires forall k :: 0 <= k < |ls| && ls[k].Some? ==> Height(ls[k].value) < bound
    requires forall k :: 0 <= k < |ls| && ls[k].Some? ==> Wrapped(ls[k].value).Some?
    requires forall k :: 0 <= k < |rs| && rs[k].Some? ==> Wrapped(rs[k].value).Some?
    ensures NamesResolvedTypes(PairwiseReports(env, site, ls, rs, bound))
    decreases bound, |ls|
  {
    if ls != [] {
      PairwiseNameResolvedTypes(env, site, ls[..|ls| - 1], rs[..|rs| - 1], bound);
      ReportsNameResolvedTypes(env, site, ls[|ls| - 1], rs[|rs| - 1]);
    }
  }

  /** Both views' nested views stand for resolved types. */
  lemma NestedResolved(w: Wrapper)
    ensures forall k :: 0 <= k < |NestedWrappers(w)| && NestedWrappers(w)[k].Some? ==> Wrapped(NestedWrappers(w)[k].value).Some?
  {
    match w
    case Normal(t) => NormalNestedWrapsArgument(t);
    case Syntax(p) => SyntaxNestedWrapsGenericType(p);
  }

  /*
   * The entry point, called for a variable declaration or an assignment.
   */

  /** A right-hand operand: `new C<...>(...)` with a parameterized identifier, or any other tree with its resolved type. */
  datatype Operand =
    | NewGenericInstance(identifier: ParameterizedTypeTree)
    | TypedTree(ty: Type)

  /**
   * A variable declaration (with an optional initializer) or an assignment.
   * The left-hand side, a declared type or an assigned variable, is given by
   * its resolved type: it is never an instance creation.
   */
  datatype AssignmentTree =
    | VariableDeclaration(site: SiteId, varType: Type, initializer: Option<Operand>)
    | Assignment(site: SiteId, variable: Type, expression: Operand)
  {
    function Lhs(): Type
    {
      if VariableDeclaration? then varType else variable
    }

    function Rhs(): Option<Operand>
    {
      if VariableDeclaration? then initializer else Some(expression)
    }
  }

  /** `getAnnotatedTypeWrapper`: the syntax view for `new C<...>`, the resolved-type view otherwise. */
  function AnnotatedTypeWrapper(o: Operand): (w: Wrapper)
    ensures w.Syntax? <==> o.NewGenericInstance?
    ensures o.NewGenericInstance? ==> w == Syntax(o.identifier) && Wrapped(w) == o.identifier.ty
    ensures o.TypedTree? ==> Wrapped(w) == Some(o.ty)
  {
    match o
    case NewGenericInstance(p) => Syntax(p)
    case TypedTree(t) => Normal(t)
  }

  /**
   * `messAround` throws: the instance creation has no resolved type, its type
   * is not a class type, or one of its type arguments is not a class type (a
   * type variable, an array, a wildcard), which the cast of each copied
   * argument rejects.
   */
  predicate MessAroundThrows(p: ParameterizedTypeTree)
  {
    p.ty.None? || !p.ty.value.ClassType? ||
    exists i :: 0 <= i < |p.ty.value.args| && !p.ty.value.args[i].ClassType?
  }

  /**
   * `messAround`: rebuilds the instance creation's type with every type
   * argument annotated @Nullable (and nothing else), or yields None where the
   * code throws. The rebuilt type is only printed.
   */
  method MessAround(p: ParameterizedTypeTree) returns (finalType: Option<Type>)
    ensures finalType.None? <==> MessAroundThrows(p)
    ensures finalType.Some? ==>
      var t := p.ty.value;
      finalType.value.ClassType? && finalType.value.decl == t.decl && finalType.value.annos == [] &&
      |finalType.value.args| == |t.args| &&
      forall i :: 0 <= i < |t.args| ==> finalType.value.args[i] == t.args[i].(annos := [NULLABLE_NAME])
  {
    if p.ty.None? || !p.ty.value.ClassType? {
      return None;
    }
    var t := p.ty.value;
    var newTypeArgs: seq<Type> := [];
    for i := 0 to |t.args|
      invariant |newTypeArgs| == i
      invariant forall j :: 0 <= j < i ==> t.args[j].ClassType? && newTypeArgs[j] == t.args[j].(annos := [NULLABLE_NAME])
    {
      var arg := t.args[i];
      if !arg.ClassType? {
        return None;
      }
      newTypeArgs := newTypeArgs + [arg.(annos := [NULLABLE_NAME])];
    }
    finalType := Some(ClassType(t.decl, newTypeArgs, []));
  }

  /** How `checkInstantiationForAssignments` ends: with its reports, or with an exception. */
  datatype Outcome =
    | Completed(reports: seq<Report>)
    | Threw

  /** Everything `checkInstantiationForAssignments` does for one tree. */
  function AssignmentOutcome(env: Env, tree: AssignmentTree): Outcome
  {
    var rhsTree := tree.Rhs();
    if rhsTree.None? then Completed([])
    else if rhsTree.value.NewGenericInstance? && MessAroundThrows(rhsTree.value.identifier) then Threw
    else if rhsTree.value.NewGenericInstance? && |rhsTree.value.identifier.typeArguments| <= 0 then Completed([])
    else Completed(IdenticalWrappersReports(env, tree.site,
                     Some(AnnotatedTypeWrapper(TypedTree(tree.Lhs()))), Some(AnnotatedTypeWrapper(rhsTree.value))))
  }

  /**
   * `checkInstantiationForAssignments`: nothing is compared for a declaration
   * without initializer or for `new C<>` with no written arguments; it throws
   * exactly when `messAround` does; every report is attributed to this tree
   * and names two resolved types.
   */
  method CheckInstantiationForAssignments(env: Env, tree: AssignmentTree) returns (outcome: Outcome)
    ensures outcome == AssignmentOutcome(env, tree)
    ensures outcome.Threw? <==>
      (tree.Rhs().Some? && tree.Rhs().value.NewGenericInstance? && MessAroundThrows(tree.Rhs().value.identifier))
    ensures tree.Rhs().None? ==> outcome == Completed([])
    ensures (tree.Rhs().Some? && tree.Rhs().value.NewGenericInstance? && !MessAroundThrows(tree.Rhs().value.identifier) &&
             |tree.Rhs().value.identifier.typeArguments| == 0) ==> outcome == Completed([])
    ensures outcome.Completed? ==>
      forall k :: 0 <= k < |outcome.reports| ==>
        outcome.reports[k].InvalidAssignment? && outcome.reports[k].site == tree.site &&
        outcome.reports[k].lhs.Some? && outcome.reports[k].rhs.Some?
  {
    var lhsTree := tree.Lhs();
    var rhsTree := tree.Rhs();
    if rhsTree.None? {
      return Completed([]);
    }
    if rhsTree.value.NewGenericInstance? {
      var finalType := MessAround(rhsTree.value.identifier);
      if finalType.None? {
        return Threw;
      }
      var paramTypedTree := rhsTree.value.identifier;
      if |paramTypedTree.typeArguments| <= 0 {
        return Completed([]);
      }
    }
    var lhsTypeWrapper := AnnotatedTypeWrapper(TypedTree(lhsTree));
    var rhsTypeWrapper := AnnotatedTypeWrapper(rhsTree.value);
    ReportsNameResolvedTypes(env, tree.site, Some(lhsTypeWrapper), Some(rhsTypeWrapper));
    var reports := CheckIdenticalWrappers(env, tree.site, Some(lhsTypeWrapper), Some(rhsTypeWrapper));
    return Completed(reports);
  }
}
