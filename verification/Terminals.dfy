/** The three virtual terminals. */
module Terminals {
  const TERMINALS := 3

  predicate Terminal(t: int) {
    0 <= t < TERMINALS
  }
}
