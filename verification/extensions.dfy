/** `Extensions.Fill(byte[], byte)`: overwrite every element of an array
    with one value, in place, and hand the same array back. */
module Extensions {
  import opened NetTypes

  /** What an array of `n` elements holds after `Fill` with `value`. */
  function Filled(n: nat, value: byte): (s: seq<byte>)
    ensures |s| == n
    ensures forall i :: 0 <= i < n ==> s[i] == value
  {
    seq(n, _ => value)
  }

  /** The array is changed in place, so the contract speaks of its state
      before and after; `Filled` gives the contents as a value. */
  method Fill(a: array<byte>, value: byte) returns (r: array<byte>)
    modifies a
    ensures r == a
    ensures a[..] == Filled(a.Length, value)
    // idempotent: filling an already filled array again leaves it as it was
    ensures old(a[..]) == Filled(a.Length, value) ==> a[..] == old(a[..])
  {
    var i := 0;
    while i < a.Length
      invariant 0 <= i <= a.Length
      invariant forall k :: 0 <= k < i ==> a[k] == value
      invariant forall k :: i <= k < a.Length ==> a[k] == old(a[k])
    {
      a[i] := value;
      i := i + 1;
    }
    r := a;
  }
}
