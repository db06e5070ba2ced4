/** Opaque handles on network designs (`NetPlan` objects). `GUINetworkDesign`
    compares designs by reference identity, and a reference may be `null`; a
    design is therefore either `Null` or a plan with an identity. */
module Designs {

  datatype DesignRef = Null | Plan(id: nat)

  /** An owner reference is live for the current design when it is that very
      design and not `null` (`GUINetworkDesign` makes the two checks one after
      the other). Only a design that is open has live owners, and only itself. */
  predicate Live(owner: DesignRef, current: DesignRef)
    ensures Live(owner, current) ==> current.Plan?
    ensures current.Plan? ==> (Live(owner, current) <==> owner == current)
    ensures current == Null ==> !Live(owner, current)
  {
    owner == current && owner != Null
  }
}
