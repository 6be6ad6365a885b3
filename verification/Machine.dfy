/**
  Machine integers, and the outside world as the hub sees it.

  A run of the hub asks the outside world two kinds of questions: "what time is it?" and
  "did this acknowledgement get through?". Both are answered by an `Oracle`, indexed by the
  number of questions asked so far. Every theorem quantifies over all oracles, so it covers
  every clock and every pattern of network failures.
 */
module Machine {

  type Byte = n: int | 0 <= n < 256
  type U32 = n: int | 0 <= n < 0x1_0000_0000
  type I32 = n: int | -0x8000_0000 <= n < 0x8000_0000
  type I64 = n: int | -0x8000_0000_0000_0000 <= n < 0x8000_0000_0000_0000

  /** Milliseconds since the Unix epoch, as the hub's clock reports them. */
  type EpochMs = n: int | 0 <= n < 0x8000_0000_0000_0000

  const I64_MAX: I64 := 0x7FFF_FFFF_FFFF_FFFF
  const I64_MIN: I64 := -0x8000_0000_0000_0000
  const U32_MAX: U32 := 0xFFFF_FFFF

  /** `i64::saturating_sub`. */
  function SaturatingSub(a: I64, b: I64): I64 {
    if a - b > I64_MAX then I64_MAX else if a - b < I64_MIN then I64_MIN else a - b
  }

  datatype Oracle = Oracle(clock: nat -> EpochMs, ackSent: nat -> bool)

  ghost predicate ClockNeverGoesBack(w: Oracle) {
    forall i: nat, j: nat :: i <= j ==> w.clock(i) <= w.clock(j)
  }

  /** `u32::to_le_bytes`. */
  function ToLe32(n: U32): (bytes: seq<Byte>)
    ensures |bytes| == 4
  {
    [n % 256, n / 256 % 256, n / 256 / 256 % 256, n / 256 / 256 / 256]
  }

  function FromLe32(bytes: seq<Byte>): U32
    requires |bytes| == 4
  {
    var b0: int, b1: int, b2: int, b3: int := bytes[0], bytes[1], bytes[2], bytes[3];
    b0 + 256 * (b1 + 256 * (b2 + 256 * b3))
  }

  /** The low byte comes first. */
  lemma Le32RoundTrip(n: U32)
    ensures FromLe32(ToLe32(n)) == n
    ensures var b0: int, b1: int, b2: int, b3: int := ToLe32(n)[0], ToLe32(n)[1], ToLe32(n)[2], ToLe32(n)[3];
      n == b0 + 0x100 * b1 + 0x1_0000 * b2 + 0x100_0000 * b3
  {
  }

  lemma LowestByte(low: Byte, rest: nat)
    ensures (low + 256 * rest) % 256 == low && (low + 256 * rest) / 256 == rest
  {
  }

  lemma Le32Injective(bytes: seq<Byte>)
    requires |bytes| == 4
    ensures ToLe32(FromLe32(bytes)) == bytes
  {
    var b1: int, b2: int, b3: int := bytes[1], bytes[2], bytes[3];
    LowestByte(bytes[0], b1 + 256 * (b2 + 256 * b3));
    LowestByte(bytes[1], b2 + 256 * b3);
    LowestByte(bytes[2], b3);
  }
}
