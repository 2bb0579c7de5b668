/**
 * Byte-order utilities of the BMP reader (src/bmp.c): the in-place
 * XOR-swap reversal `rev`, and the two ways a stored multi-byte field can
 * be read back as a number.
 *
 * The reader takes a field "natively" with `*(uint32_t *)` or
 * `*(uint16_t *)`. This model fixes the host as little-endian, so a native
 * read is LittleEndian, and a field that was reversed first reads as
 * BigEndian of the stored bytes (LittleEndianOfReversed).
 */
module ByteOrder {

  /** The sequence read back to front: byte `k` of the result is byte `|s| - 1 - k` of `s`. */
  function Reversed(s: seq<bv8>): (r: seq<bv8>)
    ensures |r| == |s|
    ensures forall k :: 0 <= k < |s| ==> r[k] == s[|s| - 1 - k]
  {
    if |s| == 0 then [] else [s[|s| - 1]] + Reversed(s[..|s| - 1])
  }

  /** Reversing twice gives back the original bytes. */
  lemma ReversedTwice(s: seq<bv8>)
    ensures Reversed(Reversed(s)) == s
  {
    assert forall k :: 0 <= k < |s| ==> Reversed(Reversed(s))[k] == Reversed(s)[|s| - 1 - k] == s[k];
  }

  /** A buffer of length 0 or 1 is its own reversal. */
  lemma ShortIsOwnReversal(s: seq<bv8>)
    requires |s| <= 1
    ensures Reversed(s) == s
  {
    if |s| == 1 {
      assert Reversed(s)[0] == s[0];
    }
  }

  /** For an odd length the middle byte stays where it is. */
  lemma MiddleByteFixed(s: seq<bv8>)
    requires |s| % 2 == 1
    ensures Reversed(s)[|s| / 2] == s[|s| / 2]
  {
    assert |s| - 1 - |s| / 2 == |s| / 2;
  }

  /** The number a little-endian host reads from `s`: `s[0]` is least significant. */
  function LittleEndian(s: seq<bv8>): nat
  {
    if |s| == 0 then 0 else s[0] as nat + 256 * LittleEndian(s[1..])
  }

  /** The number `s` denotes when its first byte is the most significant. */
  function BigEndian(s: seq<bv8>): nat
  {
    if |s| == 0 then 0 else 256 * BigEndian(s[..|s| - 1]) + s[|s| - 1] as nat
  }

  /** Reading a reversed buffer natively gives its big-endian value. */
  lemma {:induction false} LittleEndianOfReversed(s: seq<bv8>)
    ensures LittleEndian(Reversed(s)) == BigEndian(s)
  {
    if |s| > 0 {
      var r := Reversed(s);
      assert r[1..] == Reversed(s[..|s| - 1]);
      LittleEndianOfReversed(s[..|s| - 1]);
    }
  }

  /** Every stored value of `n` bytes fits in `8 * n` bits. */
  lemma {:induction false} LittleEndianBound(s: seq<bv8>)
    ensures LittleEndian(s) < Pow256(|s|)
  {
    if |s| > 0 {
      LittleEndianBound(s[1..]);
    }
  }

  function Pow256(n: nat): (p: nat)
    ensures p >= 1
  {
    if n == 0 then 1 else 256 * Pow256(n - 1)
  }

  /**
   * The body of the loop in `rev`: three XOR assignments that exchange
   * cells `i` and `j`. They are an exchange only for distinct cells; on one
   * cell the first XOR would already clear it to zero.
   */
  method XorSwapCells(arr: array<bv8>, i: nat, j: nat)
    requires i < arr.Length && j < arr.Length && i != j
    modifies arr
    ensures arr[i] == old(arr[j]) && arr[j] == old(arr[i])
    ensures forall k :: 0 <= k < arr.Length && k != i && k != j ==> arr[k] == old(arr[k])
  {
    ghost var x, y := arr[i], arr[j];
    XorSwap(x, y);
    arr[i] := Xor(arr[i], arr[j]);
    arr[j] := Xor(arr[j], arr[i]);
    arr[i] := Xor(arr[i], arr[j]);
  }

  /** The C operator `^` on bytes. XORing the same byte in again undoes it. */
  function Xor(a: bv8, b: bv8): (r: bv8)
    ensures r ^ b == a && r ^ a == b
  {
    a ^ b
  }

  /** The values the three XOR assignments leave in two distinct cells. */
  lemma XorSwap(x: bv8, y: bv8)
    ensures Xor(y, Xor(x, y)) == x && Xor(Xor(x, y), Xor(y, Xor(x, y))) == y
  {
  }

  /** On a single cell the first XOR assignment already clears it. */
  lemma XorSelfClears(x: bv8)
    ensures Xor(x, x) == 0
  {
  }

  /**
   * `rev`: reverses the first `len` bytes of `arr` in place, swapping byte
   * `cx` with byte `len - cx - 1` by three XORs for every `cx < len / 2`.
   * The XOR swap is only a swap because the two indices differ, which the
   * loop bound guarantees: on a single cell it would clear the byte
   * (XorSelfClears).
   */
  method Rev(arr: array<bv8>, len: nat)
    requires len <= arr.Length
    modifies arr
    ensures arr[..len] == Reversed(old(arr[..len]))
    ensures arr[len..] == old(arr[len..])
  {
    ghost var was := arr[..len];
    var cx := 0;
    while cx < len / 2
      invariant 0 <= cx <= len / 2
      invariant forall k :: 0 <= k < cx ==> arr[k] == was[len - 1 - k] && arr[len - 1 - k] == was[k]
      invariant forall k :: cx <= k < len - cx ==> arr[k] == was[k]
      invariant forall k :: len <= k < arr.Length ==> arr[k] == old(arr[k])
    {
      XorSwapCells(arr, cx, len - cx - 1);
      cx := cx + 1;
    }
    assert forall k :: 0 <= k < len ==> arr[..len][k] == Reversed(was)[k];
    forall k | 0 <= k < arr.Length - len
      ensures arr[len..][k] == old(arr[len..])[k]
    {
      assert arr[len..][k] == arr[len + k] && old(arr[len..])[k] == old(arr[len + k]);
    }
  }
}
