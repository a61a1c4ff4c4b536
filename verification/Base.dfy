/** Types shared by every component: wrappers and the fixed-width integers of the source. */
module Base {

  datatype Option<+T> = None | Some(value: T)

  datatype Result<+T, +E> = Ok(value: T) | Err(error: E)

  const U32_MAX := 0xFFFF_FFFF
  const U64_MAX := 0xFFFF_FFFF_FFFF_FFFF

  type byte = x: int | 0 <= x < 256
  type u32 = x: int | 0 <= x <= 0xFFFF_FFFF
  type u64 = x: int | 0 <= x <= 0xFFFF_FFFF_FFFF_FFFF

  function Max(a: int, b: int): int {
    if a < b then b else a
  }

  function Min(a: int, b: int): int {
    if a < b then a else b
  }

  lemma Subslice<T>(s: seq<T>, off: nat, n: nat, i: nat, j: nat)
    requires off + n <= |s| && i <= j <= n
    ensures s[off..off + n][i..j] == s[off + i..off + j]
  {
    var w := s[off..off + n];
    assert forall k :: 0 <= k < j - i ==> w[i..j][k] == w[i + k] == s[off + i..off + j][k];
  }

  lemma Member<T(!new)>(s: seq<T>)
    ensures s == [] || exists x :: x in s
  {
    if s != [] {
      assert s[0] in s;
    }
  }
}
