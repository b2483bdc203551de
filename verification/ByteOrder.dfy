/** Big-endian integers of a fixed width, as the `put_u*` and `get_u*` calls of a byte buffer lay them out. */
module ByteOrder {
  import opened Bytes

  function Pow256(k: nat): (p: nat)
    ensures p > 0
  {
    if k == 0 then 1 else 256 * Pow256(k - 1)
  }

  type U32 = n: nat | n < Pow256(4)
  type U64 = n: nat | n < Pow256(8)
  type U128 = n: nat | n < Pow256(16)

  /** The `k` bytes of `n`, most significant first. */
  function Put(n: nat, k: nat): (bytes: seq<byte>)
    requires n < Pow256(k)
    ensures |bytes| == k
  {
    if k == 0 then [] else Put(n / 256, k - 1) + [n % 256]
  }

  function Get(bytes: seq<byte>): (n: nat)
    ensures n < Pow256(|bytes|)
  {
    if bytes == [] then 0 else 256 * Get(bytes[..|bytes| - 1]) + bytes[|bytes| - 1]
  }

  lemma {:induction false} GetPut(n: nat, k: nat)
    requires n < Pow256(k)
    ensures Get(Put(n, k)) == n
  {
    if k > 0 {
      GetPut(n / 256, k - 1);
      assert Put(n, k)[..k - 1] == Put(n / 256, k - 1);
    }
  }

  lemma {:induction false} PutGet(bytes: seq<byte>)
    ensures Put(Get(bytes), |bytes|) == bytes
  {
    if bytes != [] {
      var front := bytes[..|bytes| - 1];
      PutGet(front);
      assert Get(bytes) / 256 == Get(front);
      assert bytes == front + [bytes[|bytes| - 1]];
    }
  }

  /** Digit `i` of the number in base 256, the units first. */
  function Digit(n: nat, i: nat): (d: byte)
  {
    if i == 0 then n % 256 else Digit(n / 256, i - 1)
  }

  /** Big-endian: byte `i` from the end is digit `i`. */
  lemma {:induction false} PutDigit(n: nat, k: nat, i: nat)
    requires n < Pow256(k) && i < k
    ensures Put(n, k)[k - 1 - i] == Digit(n, i)
    decreases k
  {
    if i > 0 {
      PutDigit(n / 256, k - 1, i - 1);
    }
  }
}
