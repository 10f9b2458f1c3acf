/** A matcher node as the controller keeps it. */
module Matchers {
  import opened Words

  datatype MatcherState =
    | FAIL_CONNECT
    | UNCONNECTED
    | WAIT_LIB_LOAD
    | LIB_LOADING
    | READY
    | TO_BE_COLLECTED
    | COLLECTED

  class Matcher {
    const address: nat
    const domain: nat
    var state: MatcherState
    var numLoad: nat
    var nbits: nat
    var mergeUnit: nat
    var firstFlag: bool
    var resultCount: u8
    var bitfeatureCount: u8

    constructor (address: nat, domain: nat, nbits: nat, mergeUnit: nat)
      ensures this.address == address && this.domain == domain
      ensures this.nbits == nbits && this.mergeUnit == mergeUnit
      ensures state == UNCONNECTED && numLoad == 0 && firstFlag
      ensures resultCount == 0 && bitfeatureCount == 0
    {
      this.address := address;
      this.domain := domain;
      this.nbits := nbits;
      this.mergeUnit := mergeUnit;
      state := UNCONNECTED;
      numLoad := 0;
      firstFlag := true;
      resultCount := 0;
      bitfeatureCount := 0;
    }

    predicate ReadyReceive()
      reads this
    {
      state == READY
    }

    method IncreaseLoad(n: nat)
      modifies this`numLoad
      ensures numLoad == old(numLoad) + n
    {
      numLoad := numLoad + n;
    }

    method IncreaseResultCount()
      modifies this`resultCount
      ensures resultCount == (old(resultCount) + 1) % 256
    {
      resultCount := (resultCount + 1) % 256;
    }

    method IncreaseBitfeatureCount()
      modifies this`bitfeatureCount
      ensures bitfeatureCount == (old(bitfeatureCount) + 1) % 256
    {
      bitfeatureCount := (bitfeatureCount + 1) % 256;
    }
  }
}
