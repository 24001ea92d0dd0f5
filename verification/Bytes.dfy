// Byte strings, options and the big-endian numbers that ISO base media files are made of.

module Bytes {
  type byte = x: int | 0 <= x < 256

  datatype Option<+T> = None | Some(value: T)

  datatype Result<+T, +E> = Success(value: T) | Failure(error: E)

  function Rd16(s: seq<byte>, i: nat): (n: nat)
    requires i + 2 <= |s|
    ensures n < 0x1_0000
  {
    0x100 * s[i] as int + s[i + 1] as int
  }

  function Rd32(s: seq<byte>, i: nat): (n: nat)
    requires i + 4 <= |s|
    ensures n < 0x1_0000_0000
  {
    0x100_0000 * s[i] as int + 0x1_0000 * s[i + 1] as int + 0x100 * s[i + 2] as int + s[i + 3] as int
  }

  function Rd64(s: seq<byte>, i: nat): (n: nat)
    requires i + 8 <= |s|
    ensures n < 0x1_0000_0000_0000_0000
  {
    Rd32(s, i) * 0x1_0000_0000 + Rd32(s, i + 4)
  }

  /** 256 to the power w: one more than the largest number that fits in w bytes. */
  function Pow256(w: nat): (n: nat)
    ensures n > 0
  {
    if w == 0 then 1 else 256 * Pow256(w - 1)
  }

  /** The number a byte string denotes, most significant byte first. */
  function Be(s: seq<byte>): (n: nat)
    ensures n < Pow256(|s|)
  {
    if s == [] then 0 else Be(s[..|s| - 1]) * 256 + s[|s| - 1]
  }

  /** The w lowest bytes of n, most significant byte first. */
  function BeBytes(n: nat, w: nat): (s: seq<byte>)
    ensures |s| == w
  {
    if w == 0 then [] else BeBytes(n / 256, w - 1) + [n % 256]
  }

  lemma {:induction false} BeOfBeBytes(n: nat, w: nat)
    requires n < Pow256(w)
    ensures Be(BeBytes(n, w)) == n
  {
    if w > 0 {
      BeOfBeBytes(n / 256, w - 1);
      assert BeBytes(n, w)[..w - 1] == BeBytes(n / 256, w - 1);
    }
  }

  lemma {:induction false} BeBytesOfBe(s: seq<byte>)
    ensures BeBytes(Be(s), |s|) == s
  {
    if s != [] {
      var init, last := s[..|s| - 1], s[|s| - 1];
      BeBytesOfBe(init);
      assert Be(s) / 256 == Be(init) && Be(s) % 256 == last;
      assert BeBytes(Be(s), |s|) == BeBytes(Be(init), |init|) + [last];
    }
  }

  /** The number a byte string denotes, least significant byte first. */
  function Le(s: seq<byte>): (n: nat)
    ensures n < Pow256(|s|)
  {
    if s == [] then 0 else s[0] + 256 * Le(s[1..])
  }

  function LeBytes(n: nat, w: nat): (s: seq<byte>)
    ensures |s| == w
  {
    if w == 0 then [] else [n % 256] + LeBytes(n / 256, w - 1)
  }

  lemma {:induction false} LeOfLeBytes(n: nat, w: nat)
    requires n < Pow256(w)
    ensures Le(LeBytes(n, w)) == n
  {
    if w > 0 {
      LeOfLeBytes(n / 256, w - 1);
      assert LeBytes(n, w)[1..] == LeBytes(n / 256, w - 1);
    }
  }

  lemma Rd16IsBe(s: seq<byte>, i: nat)
    requires i + 2 <= |s|
    ensures Rd16(s, i) == Be(s[i..i + 2])
  {
    var t := s[i..i + 2];
    assert t[..1][..0] == [] && t[..1] == [s[i]];
    assert Be(t[..1]) == s[i];
  }

  lemma SliceOfSlice<T>(s: seq<T>, a: nat, b: nat, c: nat, d: nat)
    requires a <= b <= |s| && c <= d <= b - a
    ensures s[a..b][c..d] == s[a + c..a + d]
  {
    assert |s[a..b][c..d]| == |s[a + c..a + d]|;
    forall i | 0 <= i < d - c
      ensures s[a..b][c..d][i] == s[a + c..a + d][i]
    {
      assert s[a..b][c..d][i] == s[a..b][c + i] == s[a + c + i];
    }
  }

  /** The concatenation of a list of lists. */
  function Flatten<T>(lists: seq<seq<T>>): seq<T> {
    if lists == [] then [] else lists[0] + Flatten(lists[1..])
  }

  lemma {:induction false} FlattenAppend<T>(a: seq<seq<T>>, b: seq<seq<T>>)
    ensures Flatten(a + b) == Flatten(a) + Flatten(b)
  {
    if a == [] {
      assert a + b == b;
    } else {
      FlattenAppend(a[1..], b);
      assert (a + b)[1..] == a[1..] + b;
      assert Flatten(a + b) == a[0] + Flatten(a[1..] + b);
      assert a[0] + (Flatten(a[1..]) + Flatten(b)) == a[0] + Flatten(a[1..]) + Flatten(b);
    }
  }

  function Sum(ns: seq<nat>): nat {
    if ns == [] then 0 else ns[0] + Sum(ns[1..])
  }

  lemma {:induction false} SumAppend(a: seq<nat>, b: seq<nat>)
    ensures Sum(a + b) == Sum(a) + Sum(b)
  {
    if a == [] {
      assert a + b == b;
    } else {
      SumAppend(a[1..], b);
      assert (a + b)[1..] == a[1..] + b;
    }
  }

  function Max(a: int, b: int): int {
    if a < b then b else a
  }
}
