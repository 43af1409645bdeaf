/** What the checker hands to the diagnostic sink. */
module Reports {
  import opened Options
  import opened Javac

  /** Opaque handle of the assignment or declaration a report is attributed to. */
  type SiteId = nat

  /** The message kinds this checker can emit. */
  datatype MessageKind = TypeParameterCannotBeNullable

  /**
   * One diagnostic. An invalid instantiation names the offending argument
   * (its position and tree), the instantiated type and the type variable; an
   * assignment mismatch names the site and the two compared types, as they
   * were before any supertype adaptation.
   */
  datatype Report =
    | InvalidInstantiation(argIndex: nat, argument: TypeTree, baseType: Type, typeVariable: TypeParam)
    | InvalidAssignment(site: SiteId, lhs: Option<Type>, rhs: Option<Type>)
  {
    /** Both kinds go through the same error helper, hence the same message kind. */
    function Kind(): MessageKind
    {
      TypeParameterCannotBeNullable
    }
  }
}
