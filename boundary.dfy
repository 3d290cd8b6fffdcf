/**
 * Boundary-condition tags and the error outcomes shared by the model.
 * The tag values are those of the BC enumeration in BoundayEnums.h:
 * a degree of freedom counts as constrained exactly when its tag value is
 * non-negative, so Essential, Dirichlet, Neumann and Corner are constrained
 * and Interior and Natural are not.
 */
module Boundary {

  datatype BC = Interior | Natural | Essential | Dirichlet | Neumann | Corner
  {
    /** The integer the enumeration assigns to the tag. */
    function Value(): int
    {
      match this
      case Interior => -200
      case Natural => -1
      case Essential => 0
      case Dirichlet => 1
      case Neumann => 2
      case Corner => 200
    }

    /** The test `BC >= 0` the finite-element spaces use to collect boundary indices. */
    predicate IsConstrained()
    {
      Value() >= 0
    }
  }

  /** Tags are told apart by their values, and a tag is constrained exactly when it is not Interior or Natural. */
  lemma ConstrainedTags(t: BC, u: BC)
    ensures t.Value() == u.Value() <==> t == u
    ensures t.IsConstrained() <==> !(t == Interior || t == Natural)
  {
  }

  /** Outcomes the source reports through its error log, which ends the program. */
  datatype Failure =
    | UnsupportedQuadratureOrder(order: int)
    | UnsupportedPolynomialOrder(order: int)
    | UnsupportedDerivative(dx: int, dy: int)
    | OutsideDomain

  datatype Result<T> = Ok(value: T) | Err(failure: Failure)
}
