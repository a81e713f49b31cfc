/** Byte-level vocabulary shared by the ID3v2 and APEv2 models. */
module Bytes {

  /** An unsigned 8-bit value: a `uint8_t`, or one `char` of a narrow `std::string`. */
  type byte = b: int | 0 <= b < 256

  /** A value that may be absent; `None` stands for a null pointer or a "not found" position. */
  datatype Option<+T> = None | Some(value: T)

  /** The numeric code of an ASCII character, as a narrow `char` holds it. */
  function Ascii(c: char): (b: byte)
  {
    (c as int) % 256
  }

  /** `n` zero bytes. */
  function Zeros(n: nat): (z: seq<byte>)
    ensures |z| == n
    ensures forall i :: 0 <= i < n ==> z[i] == 0
  {
    seq(n, _ => 0)
  }

  /** The contents of a byte vector after `std::vector::resize(n)`: a prefix is kept, growth is zero-filled. */
  function Resize(v: seq<byte>, n: nat): (r: seq<byte>)
    ensures |r| == n
    ensures forall i :: 0 <= i < n && i < |v| ==> r[i] == v[i]
    ensures forall i :: |v| <= i < n ==> r[i] == 0
  {
    if n <= |v| then v[..n] else v + Zeros(n - |v|)
  }

  /**
   * The text with its trailing NUL bytes removed, as the decoders do for
   * frames whose declared size counts a terminator: the longest prefix that
   * does not end in NUL and is followed only by NULs.
   */
  function TrimTrailingNul(s: seq<byte>): (r: seq<byte>)
    ensures |r| <= |s| && r == s[..|r|]
    ensures forall k :: |r| <= k < |s| ==> s[k] == 0
    ensures r == [] || r[|r| - 1] != 0
  {
    if s != [] && s[|s| - 1] == 0 then TrimTrailingNul(s[..|s| - 1]) else s
  }

  /** A text that does not end in NUL is its own trimmed form. */
  lemma TrimKeepsUnterminated(s: seq<byte>)
    requires s == [] || s[|s| - 1] != 0
    ensures TrimTrailingNul(s) == s
  {
  }

  /** True when every element is strictly smaller than the next. */
  predicate StrictlyIncreasing(s: seq<nat>)
  {
    forall i, j :: 0 <= i < j < |s| ==> s[i] < s[j]
  }

  /** A strictly increasing list of values below `m` has at most `m` elements. */
  lemma {:induction false} IncreasingBounded(s: seq<nat>, m: nat)
    requires StrictlyIncreasing(s) && forall k :: 0 <= k < |s| ==> s[k] < m
    ensures |s| <= m
  {
    if |s| > 0 {
      var last := s[|s| - 1];
      IncreasingBounded(s[..|s| - 1], last);
    }
  }
}
