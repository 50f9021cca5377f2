/** The depths at which a module is shown. */
module CoreContracts {

  datatype PruningDepth = FULL | INTERFACE | NOMINAL

  /** The depths that prune anything. */
  type PrunedDepth = d: PruningDepth | d != FULL witness INTERFACE
}
