/** Machine-level vocabulary shared by the model: octets and the limits of a
    64-bit target's address-size integers. */
module Platform {

  /** One octet of a buffer, `u8` on the native side. */
  newtype Byte = b: int | 0 <= b < 0x100

  /** Largest value of `usize` on a 64-bit target. */
  const USIZE_MAX: nat := 0xFFFF_FFFF_FFFF_FFFF

  /** Largest value of `isize` on a 64-bit target; no allocation layout may be
      larger than this many bytes. */
  const ISIZE_MAX: nat := 0x7FFF_FFFF_FFFF_FFFF

  /** `n` zero octets, the contents `alloc_zeroed` promises. */
  function Zeros(n: nat): (z: seq<Byte>)
    ensures |z| == n
    ensures forall i :: 0 <= i < n ==> z[i] == 0
  {
    seq(n, _ => 0)
  }
}
