// The integers a JavaScript number holds exactly.
module JsNumbers {

  const MAX_SAFE_INTEGER: int := 0x1F_FFFF_FFFF_FFFF

  predicate SafeInteger(n: int) {
    -MAX_SAFE_INTEGER <= n <= MAX_SAFE_INTEGER
  }

  /** The safe integers are those below 2^53 in magnitude. */
  lemma SafeIntegersExactly(n: int)
    ensures SafeInteger(n) <==> -9007199254740992 < n < 9007199254740992
  {
  }
}
