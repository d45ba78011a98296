/** Bytes, big-endian length fields and the result type shared by the parsers.
    The source reads its length fields with `ntohs`/`ntohl` through unaligned
    pointer casts; here they are combined from explicit bytes, most
    significant first, so the layout does not depend on the host. */
module Bytes {

  /** An octet. Bit fields are taken with `/` and `%` by powers of two, which
      on these non-negative values equal the source's shifts and masks. */
  type byte = b: int | 0 <= b < 256

  datatype Option<+T> = None | Some(value: T)

  datatype Result<+T, +E> = Ok(value: T) | Err(error: E)

  /** The 16-bit big-endian value of two bytes (an SPS or PPS size). */
  function Be16(hi: byte, lo: byte): (n: nat)
    ensures n < 0x1_0000
  {
    hi * 256 + lo
  }

  /** The 32-bit big-endian value of four bytes (an AVCC unit length). */
  function Be32(b0: byte, b1: byte, b2: byte, b3: byte): (n: nat)
    ensures n < 0x1_0000_0000
  {
    Be16(b0, b1) * 0x1_0000 + Be16(b2, b3)
  }

  /** The low `width` bytes of `n`, most significant first: the field that
      carries `n` big-endian. */
  function BigEndian(n: nat, width: nat): (r: seq<byte>)
    ensures |r| == width
  {
    if width == 0 then [] else BigEndian(n / 256, width - 1) + [n % 256]
  }

  /** The two digits of a 16-bit value in base 256. */
  lemma BigEndian2(n: nat)
    requires n < 0x1_0000
    ensures BigEndian(n, 2) == [n / 256, n % 256]
  {
    assert BigEndian(n, 2) == BigEndian(n / 256, 1) + [n % 256];
    assert BigEndian(n / 256, 1) == BigEndian(n / 256 / 256, 0) + [n / 256 % 256];
  }

  /** A 4-byte field is the 2-byte field of the high half, then that of the low half. */
  lemma BigEndian4(n: nat)
    requires n < 0x1_0000_0000
    ensures BigEndian(n, 4) == BigEndian(n / 0x1_0000, 2) + BigEndian(n % 0x1_0000, 2)
  {
    var q := n / 256;
    assert BigEndian(n, 4) == BigEndian(q, 3) + [n % 256];
    assert BigEndian(q, 3) == BigEndian(q / 256, 2) + [q % 256];
    assert q / 256 == n / 0x1_0000;
    assert q % 256 == n % 0x1_0000 / 256;
    BigEndian2(n % 0x1_0000);
  }

  /** Writing a 16-bit length and reading it back gives the length. */
  lemma Be16OfBigEndian(n: nat)
    requires n < 0x1_0000
    ensures var f := BigEndian(n, 2); Be16(f[0], f[1]) == n
  {
    BigEndian2(n);
  }

  /** Reading a 16-bit field and writing its value back gives the same two bytes. */
  lemma BigEndianOfBe16(hi: byte, lo: byte)
    ensures BigEndian(Be16(hi, lo), 2) == [hi, lo]
  {
    BigEndian2(Be16(hi, lo));
  }

  /** Writing a 32-bit length and reading it back gives the length. */
  lemma Be32OfBigEndian(n: nat)
    requires n < 0x1_0000_0000
    ensures var f := BigEndian(n, 4); Be32(f[0], f[1], f[2], f[3]) == n
  {
    BigEndian4(n);
    BigEndian2(n / 0x1_0000);
    BigEndian2(n % 0x1_0000);
  }

  /** Reading a 32-bit field and writing its value back gives the same four bytes. */
  lemma BigEndianOfBe32(b0: byte, b1: byte, b2: byte, b3: byte)
    ensures BigEndian(Be32(b0, b1, b2, b3), 4) == [b0, b1, b2, b3]
  {
    var n := Be32(b0, b1, b2, b3);
    BigEndianFields(n, Be16(b0, b1), Be16(b2, b3));
    BigEndianOfBe16(b0, b1);
    BigEndianOfBe16(b2, b3);
    assert [b0, b1] + [b2, b3] == [b0, b1, b2, b3];
  }

  /** The 4-byte field of a value is the 2-byte fields of its two 16-bit halves. */
  lemma BigEndianFields(n: nat, hi: nat, lo: nat)
    requires hi < 0x1_0000 && lo < 0x1_0000 && n == hi * 0x1_0000 + lo
    ensures BigEndian(n, 4) == BigEndian(hi, 2) + BigEndian(lo, 2)
  {
    SplitAt16(hi, lo);
    BigEndian4(n);
  }

  /** A sequence is its slices before `i`, from `i` to `j` and from `j`, in order. */
  lemma Slices3<T>(s: seq<T>, i: nat, j: nat)
    requires i <= j <= |s|
    ensures s == s[..i] + s[i..j] + s[j..]
  {
  }

  /** Adjacent slices join into one. */
  lemma Join<T>(s: seq<T>, i: nat, j: nat, k: nat)
    requires i <= j <= k <= |s|
    ensures s[i..k] == s[i..j] + s[j..k] && s[i..] == s[i..j] + s[j..]
  {
  }

  /** Slicing a prefix is slicing the whole. */
  lemma SliceOfPrefix<T>(s: seq<T>, n: nat, i: nat, j: nat)
    requires i <= j <= n <= |s|
    ensures s[..n][i..j] == s[i..j] && s[..n][i..] == s[i..n]
  {
  }

  /** Slicing a concatenation within its first part slices the first part. */
  lemma SliceBefore<T>(a: seq<T>, b: seq<T>, i: nat, j: nat)
    requires i <= j <= |a|
    ensures (a + b)[i..j] == a[i..j]
  {
  }

  /** Dropping twice is dropping once. */
  lemma DropDrop<T>(s: seq<T>, i: nat, j: nat)
    requires i + j <= |s|
    ensures s[i..][j..] == s[i + j..]
  {
  }

  /** The first two elements, as a display. */
  lemma Front2<T>(s: seq<T>)
    requires 2 <= |s|
    ensures s[..2] == [s[0], s[1]]
  {
  }

  /** The first four elements, as a display. */
  lemma Front4<T>(s: seq<T>)
    requires 4 <= |s|
    ensures s[..4] == [s[0], s[1], s[2], s[3]]
  {
  }

  /** Slicing a concatenation past its first part slices the second part. */
  lemma SliceAfter<T>(a: seq<T>, b: seq<T>, i: nat, j: nat)
    requires i <= j <= |b|
    ensures (a + b)[|a| + i..|a| + j] == b[i..j] && (a + b)[|a| + i..] == b[i..]
    ensures (a + b)[..|a|] == a
  {
  }

  /** Overwriting the four elements after `a` with `b` leaves `a`, then `b`,
      then what followed them; `u` is the run right after the four. */
  lemma Overwrite<T>(a: seq<T>, t: seq<T>, b: seq<T>, u: seq<T>)
    requires 4 + |u| <= |t| && u == t[4..4 + |u|]
    ensures (a + t)[..|a|] + b + (a + t)[|a| + 4..] == a + (b + u) + t[4 + |u|..]
  {
    SliceAfter(a, t, 4, 4 + |u|);
    Join(t, 4, 4 + |u|, 4 + |u|);
    Regroup(a, b, u, t[4 + |u|..]);
  }

  /** Slicing a concatenation past its first part, of length `o`. */
  lemma SliceAt<T>(a: seq<T>, t: seq<T>, o: nat, i: nat, j: nat)
    requires |a| == o && i <= j <= |t|
    ensures (a + t)[o + i..o + j] == t[i..j] && (a + t)[o + i..] == t[i..]
  {
  }

  /** Slicing a concatenation from `p` to `q`, both past its first part. */
  lemma SliceFrom<T>(a: seq<T>, b: seq<T>, i: nat, j: nat, p: nat, q: nat)
    requires i <= j <= |b| && p == |a| + i && q == |a| + j
    ensures (a + b)[p..q] == b[i..j]
  {
  }

  /** The first and the middle part of a concatenation of three, sliced out
      at the given bounds. */
  lemma PartsOf<T>(f: seq<T>, x: seq<T>, tail: seq<T>, p: nat, q: nat)
    requires p == |f| && q == |f| + |x|
    ensures (f + x + tail)[0..p] == f && (f + x + tail)[p..q] == x
  {
    assert (f + x + tail)[0..p] == f;
    assert (f + x + tail)[p..q] == x;
  }

  /** The four elements after a first part of length `o`. */
  lemma FourAt<T>(a: seq<T>, t: seq<T>, o: nat)
    requires |a| == o && 4 <= |t|
    ensures (a + t)[o] == t[0] && (a + t)[o + 1] == t[1] && (a + t)[o + 2] == t[2] && (a + t)[o + 3] == t[3]
  {
  }

  /** A non-empty sequence is its first element, then the others. */
  lemma HeadTail<T>(s: seq<T>)
    requires s != []
    ensures [s[0]] + s[1..] == s
  {
  }

  /** Regrouping a concatenation of three parts. */
  lemma Assoc<T>(a: seq<T>, b: seq<T>, c: seq<T>)
    ensures a + (b + c) == a + b + c
  {
  }

  /** Regrouping a concatenation of four parts. */
  lemma Regroup<T>(a: seq<T>, b: seq<T>, c: seq<T>, d: seq<T>)
    ensures a + (b + c + d) == a + b + c + d
    ensures a + b + (c + d) == a + b + c + d
    ensures a + (b + c) + d == a + b + c + d
  {
  }

  /** Division and remainder by 2^16 recover the two halves of a 32-bit value. */
  lemma SplitAt16(hi: nat, lo: nat)
    requires lo < 0x1_0000
    ensures (hi * 0x1_0000 + lo) / 0x1_0000 == hi && (hi * 0x1_0000 + lo) % 0x1_0000 == lo
  {
  }
}
