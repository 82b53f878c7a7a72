/** Bytes, little-endian 32-bit words in byte memory, and page arithmetic, as the x86 target sees them. */
module Machine {
  type byte = x: int | 0 <= x < 256

  datatype Option<+T> = None | Some(value: T)

  const U32_LIMIT := 0x1_0000_0000
  const PAGE_SIZE := 4096

  /** The value a `uint32` holds after an unsigned sum. */
  function U32(x: nat): nat {
    x % U32_LIMIT
  }

  /** The little-endian word at address `a`. */
  function Word(m: seq<byte>, a: nat): (w: nat)
    requires a + 4 <= |m|
    ensures w < U32_LIMIT
  {
    var b0: nat, b1: nat, b2: nat, b3: nat := m[a], m[a + 1], m[a + 2], m[a + 3];
    b0 + 0x100 * b1 + 0x1_0000 * b2 + 0x100_0000 * b3
  }

  /** The four bytes of a word, least significant first. */
  function WordBytes(w: nat): (bs: seq<byte>)
    requires w < U32_LIMIT
    ensures |bs| == 4 && Word(bs, 0) == w
    ensures bs[0] == w % 0x100 && bs[1] == w / 0x100 % 0x100 && bs[2] == w / 0x1_0000 % 0x100 && bs[3] == w / 0x100_0000
  {
    var w1 := w / 0x100;
    var w2 := w1 / 0x100;
    [w % 0x100, w1 % 0x100, w2 % 0x100, w2 / 0x100]
  }

  /** Memory after storing the word `w` at address `a`: nothing outside the four bytes changes. */
  function StoreWord(m: seq<byte>, a: nat, w: nat): (m': seq<byte>)
    requires a + 4 <= |m| && w < U32_LIMIT
    ensures |m'| == |m| && Word(m', a) == w
    ensures forall i :: 0 <= i < |m| && !(a <= i < a + 4) ==> m'[i] == m[i]
  {
    var bs := WordBytes(w);
    m[a := bs[0]][a + 1 := bs[1]][a + 2 := bs[2]][a + 3 := bs[3]]
  }

  /** A word no byte of which changed. */
  lemma WordKept(m: seq<byte>, m': seq<byte>, a: nat)
    requires a + 4 <= |m| == |m'|
    requires forall i :: a <= i < a + 4 ==> m'[i] == m[i]
    ensures Word(m', a) == Word(m, a)
  {
  }

  /** `align_to_page`: the page boundary at or above `n`, masking first as the source does. */
  function AlignToPage(n: nat): (p: nat)
    ensures p % PAGE_SIZE == 0 && n <= p < n + PAGE_SIZE
  {
    if n % PAGE_SIZE != 0 then n - n % PAGE_SIZE + PAGE_SIZE else n
  }

  /** No number occurs twice. */
  ghost predicate Distinct(s: seq<nat>) {
    forall i, j :: 0 <= i < j < |s| ==> s[i] != s[j]
  }
}
