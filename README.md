# NullAway generics checks, modelled in Dafny

This project models `GenericsChecks`, the part of NullAway that checks
JSpecify nullability of generic type arguments. It has three parts:

- **Instantiation check** (`checkInstantiationForParameterizedTypedTree`).
  A written type-argument list `C<A1, ..., An>` may use a `@Nullable`
  argument only where the matching type parameter of `C` has a `@Nullable`
  upper bound. The check reports each offending position once. It does not
  look into nested argument lists.
- **Supertype matching** (`supertypeMatchingLHS`). It searches the right-hand
  side's supertype closure for the first type whose declaration is the
  left-hand side's. If none matches, it returns the right-hand side's own type.
- **Assignment check** (`checkInstantiationForAssignments`,
  `checkIdenticalWrappers`). The variable's type and the value's type must
  have the same set of `@Nullable` argument positions at every nesting level.
  The value's type is first adapted to the variable's declaration. Types are
  read through one of two views (wrappers):
  - the resolved-type view (`NormalTypeWrapper`) reads the annotations the
    compiler attached to each type argument;
  - the syntax view (`ParameterizedTypeTreeWrapper`) reads the annotations
    written in a `new C<...>` expression.

  A mismatch of the position sets is reported once, and the comparison stops
  there. Otherwise the nested generic arguments are compared pairwise. When
  the value is `new C<...>`, a second pairwise pass runs against the written
  nesting.

Files:

- `options.dfy`: `Option`, which stands for Java's nullable references.
- `javac.dfy`: the compiler's view as plain data. Resolved types are
  `ClassType(decl, args, annos)` or `OtherType(annos)`. Type trees are
  `TypeApply`, `AnnotatedType` or `OtherTree`. Declared type parameters carry
  their upper bound. `Env` holds every compiler service the checker calls:
  - the JSpecify-mode flag;
  - `Nullness.isNullableAnnotation`, as a predicate on annotation names;
  - the declared type parameters of each declaration;
  - `Types.closure`, as a function from a type to its supertypes with the
    arguments substituted.
- `type_wrappers.dfy`: the two views. Each operation that loops in the
  source (the @Nullable position sets, the nested views, the supertype scan)
  is a specification function plus a method with the source's loop, proved
  equal to the function. `getWrapped` (`Wrapped`) and `asSupertype`
  (`AsSupertype`) are single expressions in the source and are functions
  here. `checkIdenticalWrappers` uses the supertype scan directly, as the
  commented-out call at lines 221-225 did; its effect is `AsSupertype`'s.
- `reports.dfy`: the report records.
- `instantiation.dfy`: the instantiation check.
- `assignments.dfy`: the recursive comparison and its entry point,
  including `messAround`. The left-hand side of an assignment is given by its
  resolved type, because it is never an instance creation. The entry point
  ends with `Completed(reports)` or `Threw` (an exception escaping the check).
- `scenarios.dfy`: cases from `NullAwayJSpecifyGenericsTests`, stated as
  lemmas.

Behaviour of the code that the model reproduces as written:

- Line 236 reports an assignment mismatch through `invalidInstantiationError`.
  So both report kinds carry the message kind `TYPE_PARAMETER_CANNOT_BE_NULLABLE`
  (`Report.Kind`), although the tests expect the "Cannot assign from type"
  message for assignments.
- `checkInstantiationForAssignments` does not consult JSpecify mode itself.
  Any gating by mode happens in its caller, outside this model.
- If the closure holds no type with the left-hand side's declaration, the
  comparison goes on with the right-hand side's own type (line 50). The check
  is not abandoned.
- `messAround` runs for every `new C<...>` right side at line 145, before the
  emptiness test at line 148, so it also runs for `new C<>`. It throws when the
  type has no resolved class type (lines 167-168). It also throws when a type
  argument is not a class type, such as a type variable, an array or a
  wildcard, because each copied argument is cast to a class type at line 181.
  So `List<T> l = new ArrayList<T>()` ends in an exception (`Threw`), not a
  comparison. Because of this, no completed check ever reports an absent
  type (`Assignments.ReportsNameResolvedTypes`).
- When a `new C<...>` right side has the left side's own declaration, nothing
  is adapted. The first pass and the syntax pass then compare the same
  written nesting, so one nested mismatch is reported twice
  (`Scenarios.SameDeclarationNestedMismatchReportedTwice`).
- The second pass (lines 253-263) runs only when the left-hand nested list has
  the same length as the written nesting of the `new C<...>` expression. The
  syntax view lists only arguments written as `D<...>`
  (`TypeWrappers.SyntaxNestedFull`). So `D<String> f = new B<@Nullable String>()`
  goes unreported whenever the resolved type of the instance creation has lost
  the annotation (`Scenarios.SubtypeWithParametersInstanceMissedWhenLost`). The
  source flags this case as incorrect at lines 252 and 375.
- These files do not say whether the compiler's resolved type of
  `new C<@Nullable String>()` keeps the written annotation. The TODOs at lines
  252 and 375 and the annotation-adding experiment in `messAround` suggest it
  does not. So every scenario whose `new C<...>` right side is adapted to a
  supertype is stated under both premises, through `Scenarios.WrittenString`
  and `Scenarios.WrittenGeneric`. Under the lost premise, three of these
  assignments come out the opposite way from what the tests expect:
  - `D<String> f = new B<@Nullable String>()` goes unreported
    (`Scenarios.SubtypeWithParametersInstanceMissedWhenLost`);
  - `D<C<String>> f3 = new B<@Nullable C<String>>()` goes unreported
    (`Scenarios.AnnotatedGenericArgumentMissedWhenLost`). The adapted type
    equals the left side, and the written `@Nullable C<String>` is an
    annotated type rather than a `C<...>` tree, so the syntax pass stops on
    length at line 257;
  - `Super<@Nullable String, String> s = new Sub<String, @Nullable String>()`
    is reported (`Scenarios.PermutedInheritanceReportedWhenLost`).

  Under the kept premise, each of these scenarios comes out as its test
  expects.
- A `null` initializer is compared like any other expression. The `null`
  literal's type has no type arguments, so its @Nullable positions are empty.
  So `NullableTypeParam<@Nullable String> t3 = null` is reported once
  (`Scenarios.NullInitializerReported`), although the test at
  NullAwayJSpecifyGenericsTests.java:23 expects no diagnostic on that line.
  An exemption for `null` would have to come from the caller, outside this
  model.

## Model

| member | source | states |
|---|---|---|
| `TypeWrappers.NormalNullableTypeArgIndices` | nullaway/src/main/java/com/uber/nullaway/GenericsChecks.java:279-292 | The set holds exactly the argument positions whose resolved type argument carries a @Nullable annotation, so it lies within [0, number of arguments). |
| `TypeWrappers.TreeNullableTypeArgIndices` | nullaway/src/main/java/com/uber/nullaway/GenericsChecks.java:332-348 | The set holds exactly the positions whose written argument is an annotated type with an `@org.jspecify.annotations.Nullable` annotation. Other annotations and unannotated arguments are excluded. |
| `TypeWrappers.NormalWrappersForNestedTypes` | nullaway/src/main/java/com/uber/nullaway/GenericsChecks.java:295-308 | There is one entry per type argument. An entry is present exactly when that argument has type arguments of its own, and then it is the resolved view of that argument. |
| `TypeWrappers.TreeWrappersForNestedTypes` | nullaway/src/main/java/com/uber/nullaway/GenericsChecks.java:351-371 | There are at most as many entries as arguments. The list is full-length exactly when every argument is written `D<...>`. Every present entry is the syntax view of one of the written arguments. |
| `TypeWrappers.SyntaxNestedFull` | nullaway/src/main/java/com/uber/nullaway/GenericsChecks.java:355-369 | The syntax view's nested list is as long as the argument list if and only if every argument is a parameterized type tree. |
| `TypeWrappers.NestedWrappers` | nullaway/src/main/java/com/uber/nullaway/GenericsChecks.java:240-262 | Every nested view is strictly lower than its parent. So each recursive comparison is on a strictly nested argument, and the check terminates. |
| `TypeWrappers.NormalNestedWrapsArgument` | nullaway/src/main/java/com/uber/nullaway/GenericsChecks.java:269-276 | The resolved view's nested view at position k stands for exactly type argument k, which is itself generic. |
| `TypeWrappers.SyntaxNestedWrapsGenericType` | nullaway/src/main/java/com/uber/nullaway/GenericsChecks.java:321-329 | Every nested syntax view stands for a resolved generic type, so its `getWrapped()` is never null. It is one of the written arguments. |
| `TypeWrappers.GetNullableTypeArgIndices` | nullaway/src/main/java/com/uber/nullaway/GenericsChecks.java:231-232 | Dispatching to either view yields that view's @Nullable position set. |
| `TypeWrappers.GetWrappersForNestedTypes` | nullaway/src/main/java/com/uber/nullaway/GenericsChecks.java:240-241 | Dispatching to either view yields that view's nested views. |
| `TypeWrappers.MatchingSupertype` | nullaway/src/main/java/com/uber/nullaway/GenericsChecks.java:38-51 | The result is either the right-hand side's own type, or a member of the closure with the left-hand side's declaration. |
| `TypeWrappers.MatchingSupertypeIsFirstMatch` | nullaway/src/main/java/com/uber/nullaway/GenericsChecks.java:43-50 | The result is the first closure element whose erasure equals the left-hand side's. If no element matches, the result is the right-hand side's type. |
| `TypeWrappers.SupertypeMatchingLHS` | nullaway/src/main/java/com/uber/nullaway/GenericsChecks.java:38-51 | The early-return scan returns the specified match: a closure member with the left-hand side's declaration, or the right-hand side's type. |
| `TypeWrappers.AsSupertype` | nullaway/src/main/java/com/uber/nullaway/GenericsChecks.java:311-314 | Adapting either view always gives a resolved-type view. Its type is the matching closure member, or the original type when none matches. The syntax view behaves the same (lines 374-378). |
| `Instantiation.CollectNullableTypeArguments` | nullaway/src/main/java/com/uber/nullaway/GenericsChecks.java:71-85 | A position is in the map exactly when its argument node is an annotated type with some resolved annotation that the @Nullable predicate accepts. It maps to that argument node. |
| `Instantiation.ScanReportsExactly` | nullaway/src/main/java/com/uber/nullaway/GenericsChecks.java:91-108 | Scanning the first n parameters reports a position exactly when it is in the map and its parameter's bound lacks @Nullable. Each position is reported at most once, in increasing order. |
| `Instantiation.InstantiationReportsExactly` | nullaway/src/main/java/com/uber/nullaway/GenericsChecks.java:62-109 | A report names top-level argument i exactly when all of these hold: JSpecify mode is on, the base type resolved, argument i is written @Nullable, i is below the parameter count, and parameter i has no @Nullable bound. Reports come in strictly increasing position order. |
| `Instantiation.CheckInstantiationForParameterizedTypedTree` | nullaway/src/main/java/com/uber/nullaway/GenericsChecks.java:62-109 | Nothing is reported when JSpecify mode is off or the argument list is empty. Otherwise the reports are the specified ones. |
| `Assignments.CheckIdenticalWrappers` | nullaway/src/main/java/com/uber/nullaway/GenericsChecks.java:208-264 | An absent view reports nothing. If the @Nullable sets of the left view and the adapted right view differ, the result is exactly one report naming the two unadapted types, with no nested reports. Equal sets with nested lists of different lengths report nothing. Every report is attributed to the checked tree. |
| `Assignments.CheckPairwise` | nullaway/src/main/java/com/uber/nullaway/GenericsChecks.java:245-247 | The loop over nested pairs yields the concatenated reports of each pair's comparison, in position order. |
| `Assignments.ReportsCiteSite` | nullaway/src/main/java/com/uber/nullaway/GenericsChecks.java:234-262 | Reports from any nesting depth, in either pass, are assignment reports attributed to the tree the check started from. |
| `Assignments.IdenticalWrappersReflexive` | nullaway/src/main/java/com/uber/nullaway/GenericsChecks.java:208-264 | Comparing any view with itself reports nothing. This covers every depth and both passes, for resolved and syntax views alike. |
| `Assignments.SameNullabilityNoReports` | nullaway/src/main/java/com/uber/nullaway/GenericsChecks.java:219-248 | Two resolved types are never reported if they have the same declaration and agree at every nesting level on which arguments are @Nullable. |
| `Assignments.NoReportsMeansSameNullability` | nullaway/src/main/java/com/uber/nullaway/GenericsChecks.java:230-247 | Two resolved types of the same shape that are not reported agree at every nesting level on which arguments are @Nullable. So every divergence, however deep, is reported; with `SameNullabilityNoReports` this is an if-and-only-if. |
| `Assignments.ReportsNameResolvedTypes` | nullaway/src/main/java/com/uber/nullaway/GenericsChecks.java:234-237 | When both compared views stand for resolved types, no report at any depth, in either pass, names an absent type. So the type names the message formats are always there. |
| `Assignments.AnnotatedTypeWrapper` | nullaway/src/main/java/com/uber/nullaway/GenericsChecks.java:190-206 | The view is syntax-backed exactly when the operand is `new C<args>`, and then it is that identifier's view. Otherwise it is the resolved view of the operand's type. Either way it stands for the operand's resolved type. |
| `Assignments.MessAround` | nullaway/src/main/java/com/uber/nullaway/GenericsChecks.java:166-188 | It completes exactly when the instance creation has a resolved class type whose type arguments are all class types. It then rebuilds that type with every argument annotated @Nullable and nothing else. |
| `Assignments.CheckInstantiationForAssignments` | nullaway/src/main/java/com/uber/nullaway/GenericsChecks.java:126-157 | It throws exactly when the right side is `new C<...>` and `messAround` throws. It completes with no reports for a declaration without an initializer, or for `new C<>` with no written arguments. Otherwise it yields the comparison of the two views, and every report is attributed to this tree and names two resolved types. |
| `Scenarios.NullableArgumentForNonNullParameter` | nullaway/src/test/java/com/uber/nullaway/NullAwayJSpecifyGenericsTests.java:9-27 | `NonNullTypeParam<@Nullable String>` yields exactly one report, at argument 0, naming `E`. |
| `Scenarios.NullableArgumentForNullableParameter` | nullaway/src/test/java/com/uber/nullaway/NullAwayJSpecifyGenericsTests.java:18-23 | The instantiation check on `NullableTypeParam<@Nullable String>` yields no report, because the parameter's bound is @Nullable. The assignment check on the same line does report (`Scenarios.NullInitializerReported`). |
| `Scenarios.NullInitializerReported` | nullaway/src/test/java/com/uber/nullaway/NullAwayJSpecifyGenericsTests.java:23 | `NullableTypeParam<@Nullable String> t3 = null` is reported once by the assignment check. The report names the declared type and the `null` literal's type, which has no type arguments. |
| `Scenarios.MixedBoundsReportedPerPosition` | nullaway/src/test/java/com/uber/nullaway/NullAwayJSpecifyGenericsTests.java:59-77 | `MixedTypeParam<@Nullable String, String, String, @Nullable String>` is reported at positions 0 and 3, in that order. |
| `Scenarios.NullableArgumentAssignedToNonNull` | nullaway/src/test/java/com/uber/nullaway/NullAwayJSpecifyGenericsTests.java:202-217 | Assigning a `NullableTypeParam<@Nullable String>` to a `NullableTypeParam<String>` yields exactly one report. |
| `Scenarios.NestedMismatchReportedOnce` | nullaway/src/test/java/com/uber/nullaway/NullAwayJSpecifyGenericsTests.java:219-238 | A mismatch two levels deep yields exactly one report, and it names the innermost pair of differing types. |
| `Scenarios.MultiLevelInheritanceRejected` | nullaway/src/test/java/com/uber/nullaway/NullAwayJSpecifyGenericsTests.java:278-303 | `FnImpl1` reaches `SuperClassC<String>` through three edges (`FnImpl1` to `SubClassA` to `SuperClassB` to `SuperClassC`), so assigning it to `SuperClassC<@Nullable String>` is reported once. |
| `Scenarios.MultiLevelInheritanceAccepted` | nullaway/src/test/java/com/uber/nullaway/NullAwayJSpecifyGenericsTests.java:296-300 | `FnImpl2` reaches `SuperClassC<@Nullable String>`, so the same assignment is not reported. |
| `Scenarios.PermutedInheritanceAcceptedWhenKept` | nullaway/src/test/java/com/uber/nullaway/NullAwayJSpecifyGenericsTests.java:335-339 | With `Sub<C, D> extends Super<D, C>`, assigning `new Sub<String, @Nullable String>()` to a `Super<@Nullable String, String>` is accepted when the resolved type keeps the written annotation. |
| `Scenarios.PermutedInheritanceReportedWhenLost` | nullaway/src/test/java/com/uber/nullaway/NullAwayJSpecifyGenericsTests.java:335-339 | The same assignment is reported once when the resolved type has lost the annotation, contrary to the test's expectation. |
| `Scenarios.PermutedInheritanceRejected` | nullaway/src/test/java/com/uber/nullaway/NullAwayJSpecifyGenericsTests.java:340-341 | Assigning `new Sub<@Nullable String, String>()` to the same type is reported once, under either premise. The report names the resolved `Sub` type. |
| `Scenarios.SubtypeWithParametersVariable` | nullaway/src/test/java/com/uber/nullaway/NullAwayJSpecifyGenericsTests.java:319-322 | Assigning a variable of type `B<@Nullable String>` to a `D<String>` is reported once, after adaptation to `D<@Nullable String>`. |
| `Scenarios.SubtypeWithParametersInstanceReportedWhenKept` | nullaway/src/test/java/com/uber/nullaway/NullAwayJSpecifyGenericsTests.java:313-317 | `D<String> f = new B<@Nullable String>()` is reported once when the resolved type keeps the written annotation. |
| `Scenarios.SubtypeWithParametersInstanceMissedWhenLost` | nullaway/src/test/java/com/uber/nullaway/NullAwayJSpecifyGenericsTests.java:313-317 | The same declaration is not reported when the resolved type has dropped the annotation. This is the case the source marks as incorrect. |
| `Scenarios.AnnotatedGenericArgumentReportedWhenKept` | nullaway/src/test/java/com/uber/nullaway/NullAwayJSpecifyGenericsTests.java:364-365 | `D<C<String>> f3 = new B<@Nullable C<String>>()` is reported once when the resolved type keeps the annotation, since the adapted `D<@Nullable C<String>>` differs at position 0. |
| `Scenarios.AnnotatedGenericArgumentMissedWhenLost` | nullaway/src/test/java/com/uber/nullaway/NullAwayJSpecifyGenericsTests.java:364-365 | The same declaration is not reported when the resolved type has lost the annotation, contrary to the test's expectation. |
| `Scenarios.SameDeclarationNestedMismatchReportedTwice` | nullaway/src/main/java/com/uber/nullaway/GenericsChecks.java:240-262 | `NullableTypeParam<NullableTypeParam<String>> x = new NullableTypeParam<NullableTypeParam<@Nullable String>>()` yields the same report twice, once from each pass, under either premise. |

## Left out

- The printing at line 187 in `messAround` is left out. `MessAround` returns the rebuilt type, and nothing uses it.
- `MessAround` and `MessAroundThrows` read the identifier's resolved type. The source reads the type of the whole instance creation (line 167), and the model assumes the two agree.
- Exceptions are modelled only where `messAround` throws (`Outcome.Threw`). Other exceptions the compiler's services could raise are not modelled.
- The message text and the `ErrorBuilder` / `state.reportMatch` plumbing of `invalidInstantiationError` (lines 111-123) are not modelled. A report is a record of the site, the position and the types named.
- `Nullness.isNullableAnnotation` and `hasNullableAnnotation` are given predicates on annotation names. Which names count as @Nullable is configuration, so it is an input here.
- The annotation attribute's string at line 340 is taken to be `@` followed by the annotation type's name. Annotation arguments are not modelled, and an annotation whose attribute is missing is treated as not matching. The Java code would throw in that case.
- `Types.closure` (line 41) is a given function. Substituting arguments along inheritance edges is the compiler's job and is not part of this model. The closure is never null here, so the check at line 42 has no counterpart.
- `baseType()` (line 50) of a class type is taken to be the type itself.
- `ASTHelpers.isSameType` is modelled as equality of declarations between class types. Adaptation at lines 219-220 needs both sides to be class types, so erasure comparisons of other types never change the outcome.
- The resolved type of an expression or a variable's type tree is always present. A null from `ASTHelpers.getType` is modelled in three places:
  - where the code tests for it, on the tree of a parameterized type (lines 88 and 360);
  - on a `new C<...>` right side, where `messAround` throws at line 168;
  - in the `Option` type of `Wrapped`.
- The read-only fields `state`, `config` and `analysis` (lines 27-35) are replaced by the `Env` parameter.
- Collecting return statements and handling conditional expressions are exercised by the tests (NullAwayJSpecifyGenericsTests.java:388-496). Their code is not part of this model.
- `fixserialization/location/AbstractSymbolLocation.java` is not part of this model. It resolves symbol kinds and file paths through foreign calls.
- Running the checks twice gives the same reports because every operation is a function of its inputs. No separate lemma states this.
