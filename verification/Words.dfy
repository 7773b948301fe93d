/** Machine words of the firmware as bounded integers, and the usual Option. */
module Words {
  type byte = b: int | 0 <= b < 0x100
  type u16 = n: int | 0 <= n < 0x1_0000
  type i16 = n: int | -0x8000 <= n < 0x8000
  type u32 = n: int | 0 <= n < 0x1_0000_0000

  const U32_MOD := 0x1_0000_0000
  const U32_MAX: u32 := 0xFFFF_FFFF

  datatype Option<+T> = None | Some(value: T)

  function Min(a: int, b: int): int {
    if a < b then a else b
  }

  function Max(a: int, b: int): int {
    if a < b then b else a
  }

  /** `u16::from_be_bytes`. */
  function FromBigEndian(hi: byte, lo: byte): u16 {
    var h: int := hi;
    h * 0x100 + lo
  }

  /** A byte string literal. */
  function Ascii(text: string): (bytes: seq<byte>)
    requires forall k :: 0 <= k < |text| ==> text[k] < 128 as char
    ensures |bytes| == |text| && forall k :: 0 <= k < |text| ==> bytes[k] == text[k] as int
  {
    seq(|text|, k requires 0 <= k < |text| => text[k] as int)
  }

  /** `wrapping_add(1)` on a `u32`. */
  function WrappingInc(n: u32): u32 {
    (n + 1) % U32_MOD
  }

  lemma SubSlice<T>(q: seq<T>, lo: nat, hi: nat, a: nat, b: nat)
    requires lo <= hi <= |q| && a <= b <= hi - lo
    ensures q[lo..hi][a..b] == q[lo + a..lo + b]
  {
    var x, y := q[lo..hi][a..b], q[lo + a..lo + b];
    assert |x| == |y| && forall k :: 0 <= k < |x| ==> x[k] == y[k];
  }

  lemma JoinSlices<T>(q: seq<T>, a: nat, b: nat, c: nat)
    requires a <= b <= c <= |q|
    ensures q[a..b] + q[b..c] == q[a..c]
  {
  }

  /** `bytes` stands in `q` at offset `i`. */
  predicate At<T(==)>(q: seq<T>, i: nat, bytes: seq<T>) {
    i + |bytes| <= |q| && q[i..i + |bytes|] == bytes
  }

  /** A slice that reads as a concatenation splits where it does. */
  lemma SplitSlice<T>(q: seq<T>, i: nat, a: seq<T>, b: seq<T>)
    requires At(q, i, a + b)
    ensures At(q, i, a) && At(q, i + |a|, b)
    ensures a != [] ==> i < |q| && q[i] == a[0]
    ensures |a| > 1 ==> q[i + 1] == a[1]
  {
    assert a != [] ==> q[i..i + |a| + |b|][0] == q[i];
    assert |a| > 1 ==> q[i..i + |a| + |b|][1] == q[i + 1];
    SubSlice(q, i, i + |a| + |b|, 0, |a|);
    SubSlice(q, i, i + |a| + |b|, |a|, |a| + |b|);
    assert (a + b)[..|a|] == a && (a + b)[|a|..] == b;
  }

  /** The parts of a concatenation. */
  lemma Parts<T>(a: seq<T>, b: seq<T>, c: seq<T>)
    ensures (a + b + c)[..|a|] == a
    ensures (a + b + c)[|a|..|a| + |b|] == b
    ensures (a + b + c)[|a| + |b|..] == c
  {
  }

  lemma Copied<T>(was: seq<T>, now: seq<T>, at: nat, data: seq<T>)
    requires at + |data| <= |was| == |now|
    requires forall k :: 0 <= k < |was| ==> now[k] == if at <= k < at + |data| then data[k - at] else was[k]
    ensures now[..at + |data|] == was[..at] + data
    ensures now[at + |data|..] == was[at + |data|..]
  {
  }

  /** `out[at..at + data.len()].copy_from_slice(data)`. */
  method CopyInto(out: array<byte>, at: nat, data: seq<byte>)
    requires at + |data| <= out.Length
    modifies out
    ensures forall k :: 0 <= k < out.Length ==>
              out[k] == if at <= k < at + |data| then data[k - at] else old(out[k])
  {
    forall k | 0 <= k < |data| {
      out[at + k] := data[k];
    }
  }
}
