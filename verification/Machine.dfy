/** Bytes, C strings, 32-bit words and powers of two, as the modelled C code uses them. */
module Machine {

  datatype Option<+T> = None | Some(value: T) {
    function GetOr(default: T): T { if Some? then value else default }
  }

  type Byte = b: int | 0 <= b < 256
  type Bytes = seq<Byte>

  /** The string a C function sees in a buffer: what stands before the first NUL. */
  function CString(b: Bytes): (s: Bytes)
    ensures s <= b && 0 !in s && (s == b || b[|s|] == 0)
  {
    if b == [] || b[0] == 0 then [] else [b[0]] + CString(b[1..])
  }

  const WRAP: nat := 0x1_0000_0000

  /** What a 32-bit unsigned counter shows after n steps from zero. */
  function Word(n: nat): nat { n % WRAP }

  function Min(a: int, b: int): int { if a <= b then a else b }

  function Max(a: int, b: int): int { if a >= b then a else b }

  ghost predicate PowerOfTwo(n: nat) {
    n == 1 || (n > 0 && n % 2 == 0 && PowerOfTwo(n / 2))
  }

  lemma DoubleIsPowerOfTwo(n: nat)
    requires PowerOfTwo(n)
    ensures PowerOfTwo(2 * n) && n > 0
  {
    assert 2 * n / 2 == n;
  }
}
