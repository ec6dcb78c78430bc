/** What the parts of the Zstandard decoder share. */
module ZstdCommon {
  import opened Arith

  type byte = x: int | 0 <= x < 256

  /** A thrown error carries its code; 0 is invalid data, 3 too high an accuracy. */
  datatype Result<+T> = Ok(value: T) | Err(code: nat)

  /** Reading past the end of a typed array yields undefined, which the bit
      operators turn into zero. */
  function At(dat: seq<byte>, i: nat): byte {
    if i < |dat| then dat[i] else 0
  }

  function Log2(v: nat): (r: nat)
    requires v > 0
    ensures Pow2(r) <= v < Pow2(r + 1)
  {
    if v == 1 then 0 else 1 + Log2(v / 2)
  }

  /** The position of the top bit. Above 2^30 the source's loop would not end,
      since its shifts are 32 bits wide. */
  method Msb(val: nat) returns (r: int)
    requires val < Pow2(30)
    ensures val == 0 ==> r == -1
    ensures val > 0 ==> 0 <= r < 30 && Pow2(r) <= val < Pow2(r + 1)
  {
    var bits := 0;
    while Pow2(bits) <= val
      invariant 0 <= bits <= 30
      invariant bits > 0 ==> Pow2(bits - 1) <= val
      decreases 30 - bits
    {
      bits := bits + 1;
    }
    r := bits - 1;
  }
}
