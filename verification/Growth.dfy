/** How the buffers grow: they double, up to a largest length. */
module Growth {

  function NextLen(len: int, max: int): int {
    if len * 2 <= max then len * 2 else max
  }

  /** The length of a buffer after `k` steps of growth. */
  ghost function Chain(len: int, max: int, k: nat): int {
    if k == 0 then len else NextLen(Chain(len, max, k - 1), max)
  }

  /** `n` bytes fit into a buffer of length `len` after at most one step of growth. */
  predicate Fits(n: nat, len: int, max: int) {
    n <= len || n <= NextLen(len, max)
  }

  /** The length that a buffer has got when `n` bytes, which fit, are in it. */
  function LenWith(n: nat, len: int, max: int): int {
    if n <= len then len else NextLen(len, max)
  }

  /** The length at which growing stops when `need` bytes have to fit. */
  function GrownLen(len: nat, max: nat, need: nat): nat
    requires 0 < len <= max
    decreases max - len
  {
    if need <= len || len == max then len else GrownLen(NextLen(len, max), max, need)
  }

  lemma {:induction false} ChainShift(len: int, max: int, k: nat)
    ensures Chain(NextLen(len, max), max, k) == Chain(len, max, k + 1)
  {
    if k > 0 {
      ChainShift(len, max, k - 1);
    }
  }

  /** The final length is an element of the chain that lies between the old length and the
      maximum; what is needed fits into it if it fits into the maximum; and no earlier element
      of the chain is large enough. */
  lemma {:induction false} GrownLenIsLeast(len: nat, max: nat, need: nat) returns (k: nat)
    requires 0 < len <= max
    ensures Chain(len, max, k) == GrownLen(len, max, need)
    ensures len <= GrownLen(len, max, need) <= max
    ensures need <= max <==> need <= GrownLen(len, max, need)
    ensures forall j :: 0 <= j < k ==> Chain(len, max, j) < need
    decreases max - len
  {
    k := 0;
    if !(need <= len || len == max) {
      var next := NextLen(len, max);
      var k' := GrownLenIsLeast(next, max, need);
      k := k' + 1;
      ChainShift(len, max, k');
      forall j | 0 <= j < k
        ensures Chain(len, max, j) < need
      {
        if j > 0 {
          ChainShift(len, max, j - 1);
        }
      }
    }
  }
}
