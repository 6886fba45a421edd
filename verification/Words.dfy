/** The machine word: 64 bits, with arithmetic that wraps around. */
module Words {

  const TWO64 := 0x1_0000_0000_0000_0000

  type u64 = x: int | 0 <= x < TWO64

  function Wrap(x: int): u64 { x % TWO64 }
}
