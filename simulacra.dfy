/** The four-level scale that both the memory assessor and the simulation
    depth measure report, each level with its simulacra order 1..4. */
module Simulacra {

  datatype Level = Real | Representation | Simulation | Hyperreal {

    /** The level's order: REAL 1, REPRESENTATION 2, SIMULATION 3, HYPERREAL 4. */
    function Order(): (o: nat)
      ensures 1 <= o <= 4
    {
      match this
      case Real => 1
      case Representation => 2
      case Simulation => 3
      case Hyperreal => 4
    }
  }
}
