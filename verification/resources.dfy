/** Resources and packs of resources shared by both halves of the market board. */
module Resources {

  /** The kinds of marble in the market tray; Void is the white marble, FaithPoint the red one. */
  datatype Resource = Coin | Stone | Servant | Shield | FaithPoint | Void

  /** A pack of resources: how many tokens of each kind it holds. */
  type ResourcePack = multiset<Resource>

  /** The 13 marbles of a standard market: 2 coins, 2 stones, 2 servants,
      2 shields, 1 faith point and 4 voids. */
  function StandardMarbles(): (p: ResourcePack)
    ensures |p| == 13
  {
    multiset{Coin, Coin, Stone, Stone, Servant, Servant, Shield, Shield,
             FaithPoint, Void, Void, Void, Void}
  }
}

/** The outcome of an operation that may fail with a checked exception. */
module Results {

  datatype Result<+T, +E> = Ok(value: T) | Err(error: E)
}
