/**
 * Machine-level vocabulary shared by every part of the harness model:
 * the integer widths of x86_64, the explicit wrap-around of unsigned
 * 64-bit and 32-bit arithmetic, and little-endian byte encoding.
 */
module Machine {

  const TWO_8: int := 0x100
  const TWO_32: int := 0x1_0000_0000
  const TWO_63: int := 0x8000_0000_0000_0000
  const TWO_64: int := 0x1_0000_0000_0000_0000

  /** A byte of memory. */
  type Byte = b: int | 0 <= b < TWO_8

  /** An unsigned 64-bit value: addresses, `unsigned long`, register contents. */
  type U64 = x: int | 0 <= x < TWO_64

  /** A signed 64-bit `long`: the unit `PTRACE_PEEKDATA` reads and `PTRACE_POKEDATA` writes. */
  type Word = w: int | -TWO_63 <= w < TWO_63

  /** Size of a `long` (and of a pointer) on x86_64. */
  const WORD_SIZE: int := 8

  /** Unsigned 64-bit arithmetic: the value modulo 2^64. */
  function Wrap64(x: int): (r: U64)
    ensures 0 <= x < TWO_64 ==> r == x
    ensures (r - x) % TWO_64 == 0
  {
    x % TWO_64
  }

  /** Conversion of a wider integer to a 32-bit `int`, which keeps the low 32 bits. */
  function Wrap32(x: int): (r: int)
    ensures 0 <= r < TWO_32
    ensures (r - x) % TWO_32 == 0
  {
    x % TWO_32
  }

  /** Reads a 32-bit pattern as a two's-complement signed value. */
  function Signed32(u: int): (r: int)
    requires 0 <= u < TWO_32
    ensures -TWO_32 / 2 <= r < TWO_32 / 2
    ensures (r - u) % TWO_32 == 0
  {
    if u < TWO_32 / 2 then u else u - TWO_32
  }

  /** 256^n, the number of values n bytes can hold. */
  function ByteRange(n: nat): (r: int)
    ensures r > 0
  {
    if n == 0 then 1 else TWO_8 * ByteRange(n - 1)
  }

  /** The n low-order bytes of v, least significant first (an x86 store of an n-byte integer). */
  function LittleEndian(v: int, n: nat): (r: seq<Byte>)
    ensures |r| == n
    decreases n
  {
    if n == 0 then [] else [v % TWO_8] + LittleEndian(v / TWO_8, n - 1)
  }

  /** The unsigned value of bytes stored least significant first (an x86 load). */
  function FromLittleEndian(s: seq<Byte>): (r: int)
  {
    if s == [] then 0 else s[0] + TWO_8 * FromLittleEndian(s[1..])
  }

  /** A load always yields a value that n bytes can represent. */
  lemma {:induction false} FromLittleEndianBound(s: seq<Byte>)
    ensures 0 <= FromLittleEndian(s) < ByteRange(|s|)
  {
    if s != [] {
      FromLittleEndianBound(s[1..]);
    }
  }

  /** Loading what a store of n bytes wrote gives back the value modulo 256^n. */
  lemma {:induction false} LoadAfterStore(v: int, n: nat)
    ensures FromLittleEndian(LittleEndian(v, n)) == v % ByteRange(n)
    decreases n
  {
    if n > 0 {
      var s := LittleEndian(v, n);
      assert s[1..] == LittleEndian(v / TWO_8, n - 1);
      LoadAfterStore(v / TWO_8, n - 1);
      DivModNested(v, TWO_8, ByteRange(n - 1));
    }
  }

  /** Storing the value a load of n bytes read rewrites exactly those bytes. */
  lemma {:induction false} StoreAfterLoad(s: seq<Byte>)
    ensures LittleEndian(FromLittleEndian(s), |s|) == s
  {
    if s != [] {
      var v := FromLittleEndian(s);
      FromLittleEndianBound(s[1..]);
      assert v % TWO_8 == s[0] && v / TWO_8 == FromLittleEndian(s[1..]);
      StoreAfterLoad(s[1..]);
    }
  }

  /** (v mod a*b) splits as (v mod a) + a * ((v / a) mod b). */
  lemma DivModNested(v: int, a: int, b: int)
    requires a > 0 && b > 0
    ensures v % (a * b) == v % a + a * ((v / a) % b)
  {
    var q := v / a;
    var r := v % a;
    var q2 := q / b;
    var r2 := q % b;
    Regroup(a, b, q2, r2, r);
    DigitBound(a, b, r2, r);
    ModUnique(v, a * b, q2, a * r2 + r);
  }

  /** a * (b * q + r2) + r regrouped around the product a * b. */
  lemma Regroup(a: int, b: int, q: int, r2: int, r: int)
    ensures a * (b * q + r2) + r == (a * b) * q + (a * r2 + r)
  {
    assert a * (b * q + r2) == a * (b * q) + a * r2;
    assert a * (b * q) == (a * b) * q;
  }

  /** Two digits below a and b make a number below a * b. */
  lemma DigitBound(a: int, b: int, r2: int, r: int)
    requires 0 <= r < a && 0 <= r2 < b
    ensures 0 <= a * r2 + r < a * b
  {
    assert a * r2 <= a * (b - 1);
    assert a * (b - 1) == a * b - a;
  }

  /** The Euclidean remainder is the only remainder in [0, m). */
  lemma ModUnique(v: int, m: int, q: int, r: int)
    requires m > 0 && 0 <= r < m && v == m * q + r
    ensures v % m == r && v / m == q
  {
    var q0 := v / m;
    var r0 := v % m;
    if q > q0 {
      assert m * q == m * q0 + m * (q - q0);
      MulAtLeast(m, q - q0);
    } else if q < q0 {
      assert m * q0 == m * q + m * (q0 - q);
      MulAtLeast(m, q0 - q);
    }
  }

  lemma MulAtLeast(m: int, d: int)
    requires m > 0 && d >= 1
    ensures m * d >= m
  {
    assert m * d == m * (d - 1) + m;
    assert m * (d - 1) >= 0;
  }

  /** 256^4 is the range of a 32-bit `int`; 256^8 that of a 64-bit value. */
  lemma ByteRanges()
    ensures ByteRange(4) == TWO_32 && ByteRange(8) == TWO_64
  {
    assert ByteRange(2) == 0x1_0000;
    assert ByteRange(4) == 0x1_0000 * 0x1_0000;
    assert ByteRange(6) == 0x1_0000_0000_0000;
  }

  lemma SliceSplit<T>(a: seq<T>, i: int, j: int, k: int)
    requires 0 <= i <= j <= k <= |a|
    ensures a[i..k] == a[i..j] + a[j..k]
  {
  }

  /** The bytes of s with those at [at, at + |src|) replaced by src. */
  function Overwrite(s: seq<Byte>, at: nat, src: seq<Byte>): (r: seq<Byte>)
    requires at + |src| <= |s|
    ensures |r| == |s|
  {
    s[..at] + src + s[at + |src|..]
  }

  /** After an overwrite, its range reads back the bytes written. */
  lemma OverwriteHere(s: seq<Byte>, at: nat, src: seq<Byte>)
    requires at + |src| <= |s|
    ensures Overwrite(s, at, src)[at..at + |src|] == src
  {
    var r := Overwrite(s, at, src);
    assert forall k :: 0 <= k < |src| ==> r[at + k] == src[k];
  }

  /** An overwrite leaves every range that does not meet it as it was. */
  lemma OverwriteElsewhere(s: seq<Byte>, at: nat, src: seq<Byte>, i: nat, j: nat)
    requires at + |src| <= |s| && i <= j <= |s|
    requires j <= at || at + |src| <= i
    ensures Overwrite(s, at, src)[i..j] == s[i..j]
  {
    var r := Overwrite(s, at, src);
    assert forall k :: i <= k < j ==> r[k] == s[k];
  }

  /** An overwrite leaves every byte outside its range as it was. */
  lemma OverwriteKeeps(s: seq<Byte>, at: nat, src: seq<Byte>, k: nat)
    requires at + |src| <= |s| && k < |s|
    requires !(at <= k < at + |src|)
    ensures Overwrite(s, at, src)[k] == s[k]
  {
  }

  /** A sequence that differs from s only in [at, at + |src|), where it holds src, is that overwrite of s. */
  lemma OverwriteFrame(s: seq<Byte>, t: seq<Byte>, at: nat, src: seq<Byte>)
    requires |t| == |s| && at + |src| <= |s|
    requires t[..at] == s[..at] && t[at..at + |src|] == src && t[at + |src|..] == s[at + |src|..]
    ensures t == Overwrite(s, at, src)
  {
    assert t == t[..at] + t[at..at + |src|] + t[at + |src|..];
  }

  /**
   * `memcpy(mem + at, src, |src|)`, and likewise a store of an encoded
   * integer: the bytes at [at, at + |src|) become src, no other byte changes.
   */
  method MemCopy(mem: array<Byte>, at: nat, src: seq<Byte>)
    requires at + |src| <= mem.Length
    modifies mem
    ensures mem[at..at + |src|] == src
    ensures mem[..at] == old(mem[..at]) && mem[at + |src|..] == old(mem[at + |src|..])
  {
    forall k | 0 <= k < |src| {
      mem[at + k] := src[k];
    }
  }
}
