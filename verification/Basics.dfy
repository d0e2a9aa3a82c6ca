/** Small shared vocabulary. */
module Basics {

  /** One octet, the `uint8_t` of the stack. */
  type byte = x: int | 0 <= x < 256

  type uint16 = x: int | 0 <= x < 0x1_0000

  type uint32 = x: int | 0 <= x < 0x1_0000_0000

  /** An address; 0 is the null pointer. */
  type Pointer = nat

  const NULL: Pointer := 0

  datatype Option<+T> = None | Some(value: T)

  lemma SubsetSize<T>(a: set<T>, b: set<T>)
    requires a <= b
    ensures |a| <= |b|
  {
    assert b == a + (b - a);
  }
}
