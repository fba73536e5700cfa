/** Text as SQLite and Rust compare it: UTF-8 bytes in lexicographic order,
    plus the fixed-width integer encodings that the replica stores and signs. */
module Bytes {

  type Byte = b: int | 0 <= b < 256
  type Text = seq<Byte>
  type U32 = n: int | 0 <= n <= 0xffff_ffff
  type U64 = n: int | 0 <= n <= 0xffff_ffff_ffff_ffff

  const MAX_U32: U32 := 0xffff_ffff
  const MAX_U64: U64 := 0xffff_ffff_ffff_ffff

  datatype Option<+T> = None | Some(value: T)

  /** A string literal of the source as bytes. */
  function Ascii(s: string): (t: Text)
    ensures |t| == |s|
  {
    seq(|s|, i requires 0 <= i < |s| => (s[i] as int) % 256)
  }

  // ------------------------------------------------------------ byte order

  /** The strict order of `str`, `[u8]` and SQLite's BINARY collation. */
  predicate Lt(a: Text, b: Text) {
    if b == [] then false
    else if a == [] then true
    else a[0] < b[0] || (a[0] == b[0] && Lt(a[1..], b[1..]))
  }

  lemma {:induction false} LtIrreflexive(a: Text)
    ensures !Lt(a, a)
  {
    if a != [] {
      LtIrreflexive(a[1..]);
    }
  }

  lemma {:induction false} LtTransitive(a: Text, b: Text, c: Text)
    requires Lt(a, b) && Lt(b, c)
    ensures Lt(a, c)
  {
    if a != [] && a[0] == b[0] && b[0] == c[0] {
      LtTransitive(a[1..], b[1..], c[1..]);
    }
  }

  lemma {:induction false} LtTotal(a: Text, b: Text)
    ensures Lt(a, b) || a == b || Lt(b, a)
  {
    if a != [] && b != [] && a[0] == b[0] {
      LtTotal(a[1..], b[1..]);
      assert a == [a[0]] + a[1..] && b == [b[0]] + b[1..];
    }
  }

  /** Equal-length heads decide first; tails only break a tie. */
  lemma {:induction false} LtConcat(a: Text, b: Text, c: Text, d: Text)
    requires |a| == |b|
    ensures Lt(a + c, b + d) <==> Lt(a, b) || (a == b && Lt(c, d))
  {
    if a == [] {
      assert a + c == c && b + d == d;
    } else {
      assert (a + c)[1..] == a[1..] + c && (b + d)[1..] == b[1..] + d;
      LtConcat(a[1..], b[1..], c, d);
      assert a == [a[0]] + a[1..] && b == [b[0]] + b[1..];
    }
  }

  // ------------------------------------------------- fixed-width encodings

  function Pow(base: nat, k: nat): nat {
    if k == 0 then 1 else base * Pow(base, k - 1)
  }

  lemma PowValues()
    ensures Pow(256, 4) == 0x1_0000_0000 && Pow(256, 8) == 0x1_0000_0000_0000_0000
    ensures Pow(16, 8) == 0x1_0000_0000 && Pow(16, 16) == 0x1_0000_0000_0000_0000
  {
    assert Pow(256, 2) == 0x1_0000 && Pow(256, 4) == 0x1_0000_0000;
    assert Pow(256, 6) == 0x1_0000_0000_0000;
    assert Pow(16, 2) == 0x100 && Pow(16, 4) == 0x1_0000 && Pow(16, 6) == 0x100_0000;
    assert Pow(16, 8) == 0x1_0000_0000 && Pow(16, 10) == 0x100_0000_0000;
    assert Pow(16, 12) == 0x1_0000_0000_0000 && Pow(16, 14) == 0x100_0000_0000_0000;
  }

  /** `to_le_bytes` for a `width`-byte integer; wider values are truncated. */
  function Le(n: nat, width: nat): (bytes: Text)
    ensures |bytes| == width
  {
    if width == 0 then [] else [n % 256] + Le(n / 256, width - 1)
  }

  /** `from_le_bytes`. */
  function FromLe(bytes: Text): nat {
    if bytes == [] then 0 else bytes[0] + 256 * FromLe(bytes[1..])
  }

  lemma {:induction false} LeRoundTrip(n: nat, width: nat)
    requires n < Pow(256, width)
    ensures FromLe(Le(n, width)) == n
  {
    if width > 0 {
      assert n / 256 < Pow(256, width - 1);
      assert Le(n, width)[1..] == Le(n / 256, width - 1);
      LeRoundTrip(n / 256, width - 1);
    }
  }

  lemma Le4(m: nat, n: nat)
    requires m <= MAX_U32 && n <= MAX_U32 && Le(m, 4) == Le(n, 4)
    ensures m == n
  {
    PowValues();
    LeRoundTrip(m, 4);
    LeRoundTrip(n, 4);
  }

  lemma Le8(m: nat, n: nat)
    requires m <= MAX_U64 && n <= MAX_U64 && Le(m, 8) == Le(n, 8)
    ensures m == n
  {
    PowValues();
    LeRoundTrip(m, 8);
    LeRoundTrip(n, 8);
  }

  /** `put_str`: the length as a little-endian `u32` (the cast keeps the low 32 bits), then the bytes. */
  function PutStr(s: Text): (b: Text)
    ensures |b| == 4 + |s|
  {
    Le(|s|, 4) + s
  }

  /** Splits equal concatenations whose heads have the same length. */
  lemma SplitEqual(a: Text, b: Text, s: Text, t: Text)
    requires |a| == |b| && a + s == b + t
    ensures a == b && s == t
  {
    assert a == (a + s)[..|a|] && b == (b + t)[..|b|];
    assert s == (a + s)[|a|..] && t == (b + t)[|b|..];
  }

  lemma PutStrThen(a: Text, s: Text)
    ensures PutStr(a) + s == Le(|a|, 4) + (a + s)
  {
    ConcatAssociates(Le(|a|, 4), a, s);
  }

  lemma ConcatAssociates(a: Text, b: Text, c: Text)
    ensures (a + b) + c == a + (b + c)
  {
  }

  /** A length-prefixed string can be split off any byte stream in only one way. */
  lemma PutStrPrefixFree(a: Text, b: Text, s: Text, t: Text)
    requires |a| <= MAX_U32 && |b| <= MAX_U32
    requires PutStr(a) + s == PutStr(b) + t
    ensures a == b && s == t
  {
    PutStrThen(a, s);
    PutStrThen(b, t);
    SplitEqual(Le(|a|, 4), Le(|b|, 4), a + s, b + t);
    Le4(|a|, |b|);
    SplitEqual(a, b, s, t);
  }
}
