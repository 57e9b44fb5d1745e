/**
 * Primitive wire encodings shared by every message of the protocol:
 * bytes, fixed-width unsigned integers in a configurable byte order,
 * and 32-bit float words treated as opaque bit patterns.
 *
 * The derived codecs write every field in declaration order with no
 * padding and no framing. A `usize` count is written in the platform's
 * width, which is a parameter here (`Config.usizeWidth`); an `f32` is
 * written as its four IEEE-754 bytes in the same byte order.
 */
module Wire {

  newtype byte = x: int | 0 <= x < 0x100
  newtype u32 = x: int | 0 <= x < 0x1_0000_0000
  newtype u64 = x: int | 0 <= x < 0x1_0000_0000_0000_0000

  /** Largest value of u64; random ids are drawn from [0, U64_MAX). */
  const U64_MAX: u64 := 0xFFFF_FFFF_FFFF_FFFF

  datatype Option<T> = None | Some(value: T)

  // Sequence facts the codec proofs cite by name.
  lemma AppendAssoc<T>(a: seq<T>, b: seq<T>, c: seq<T>)
    ensures (a + b) + c == a + (b + c)
  {
  }

  lemma HeadTail<T>(s: seq<T>)
    requires s != []
    ensures [s[0]] + s[1..] == s
  {
  }

  lemma SplitAt<T>(s: seq<T>, k: nat)
    requires k <= |s|
    ensures s[..k] + s[k..] == s
  {
  }

  datatype ByteOrder = Little | Big

  /** Width in bytes of a `usize` count on the wire, and the byte order of multi-byte fields. */
  datatype Config = Config(usizeWidth: nat, order: ByteOrder)

  /** A 64-bit little-endian target, whose width and byte order deku takes for its default: 8-byte counts, little endian. */
  const NATIVE: Config := Config(8, Little)

  /** One more copy of `c` in a product. */
  lemma MulStep(k: nat, c: nat)
    ensures (k + 1) * c == k * c + c
  {
  }

  function Pow256(n: nat): (r: nat)
    ensures r >= 1
  {
    if n == 0 then 1 else 256 * Pow256(n - 1)
  }

  /** A count `n` can be written in the configured usize width. */
  predicate FitsUsize(cfg: Config, n: nat)
  {
    n < Pow256(cfg.usizeWidth)
  }

  function Reverse<T>(s: seq<T>): (r: seq<T>)
    ensures |r| == |s|
  {
    if s == [] then [] else Reverse(s[1..]) + [s[0]]
  }

  lemma {:induction false} ReverseAt<T>(s: seq<T>, i: nat)
    requires i < |s|
    ensures Reverse(s)[i] == s[|s| - 1 - i]
  {
    if i < |s| - 1 {
      ReverseAt(s[1..], i);
    }
  }

  lemma ReverseReverse<T>(s: seq<T>)
    ensures Reverse(Reverse(s)) == s
  {
    forall i | 0 <= i < |s|
      ensures Reverse(Reverse(s))[i] == s[i]
    {
      ReverseAt(Reverse(s), i);
      ReverseAt(s, |s| - 1 - i);
    }
  }

  /** The low `w` bytes of `n`, least significant first. */
  function EncodeLE(n: nat, w: nat): (r: seq<byte>)
    ensures |r| == w
  {
    if w == 0 then [] else [(n % 256) as byte] + EncodeLE(n / 256, w - 1)
  }

  /** The value of a little-endian byte string. */
  function DecodeLE(s: seq<byte>): (n: nat)
    ensures n < Pow256(|s|)
  {
    if s == [] then 0 else s[0] as nat + 256 * DecodeLE(s[1..])
  }

  lemma {:induction false} DecodeEncodeLE(n: nat, w: nat)
    requires n < Pow256(w)
    ensures DecodeLE(EncodeLE(n, w)) == n
  {
    if w > 0 {
      DecodeEncodeLE(n / 256, w - 1);
      assert EncodeLE(n, w)[1..] == EncodeLE(n / 256, w - 1);
    }
  }

  lemma {:induction false} EncodeDecodeLE(s: seq<byte>)
    ensures EncodeLE(DecodeLE(s), |s|) == s
  {
    if s != [] {
      EncodeDecodeLE(s[1..]);
    }
  }

  lemma EncodeLEValue(n: nat, w: nat)
    ensures n < Pow256(w) ==> DecodeLE(EncodeLE(n, w)) == n
  {
    if n < Pow256(w) {
      DecodeEncodeLE(n, w);
    }
  }

  /**
   * Writes the low `w` bytes of `n` in byte order `order`: read back in that
   * order, the bytes hold `n` whenever it fits.
   */
  function WriteUInt(n: nat, w: nat, order: ByteOrder): (r: seq<byte>)
    ensures |r| == w
    ensures n < Pow256(w) ==> DecodeLE(if order == Little then r else Reverse(r)) == n
  {
    EncodeLEValue(n, w);
    ReverseReverse(EncodeLE(n, w));
    match order
    case Little => EncodeLE(n, w)
    case Big => Reverse(EncodeLE(n, w))
  }

  /**
   * Reads a `w`-byte unsigned integer; fails when fewer than `w` bytes remain.
   * Every `w` bytes are the encoding of the integer read from them.
   */
  function ReadUInt(s: seq<byte>, w: nat, order: ByteOrder): (r: Option<(nat, seq<byte>)>)
    ensures r.Some? <==> |s| >= w
    ensures r.Some? ==> r.value.0 < Pow256(w) && r.value.1 == s[w..]
    ensures r.Some? ==> WriteUInt(r.value.0, w, order) + r.value.1 == s
  {
    if |s| < w then None
    else
      var field := s[..w];
      var n := DecodeLE(if order == Little then field else Reverse(field));
      WriteReadField(field, order);
      SplitAt(s, w);
      Some((n, s[w..]))
  }

  /** A field of bytes is the encoding of the integer it holds, in either byte order. */
  lemma WriteReadField(field: seq<byte>, order: ByteOrder)
    ensures WriteUInt(DecodeLE(if order == Little then field else Reverse(field)), |field|, order) == field
  {
    if order == Little {
      EncodeDecodeLE(field);
    } else {
      EncodeDecodeLE(Reverse(field));
      ReverseReverse(field);
    }
  }

  lemma ReadWriteUInt(n: nat, w: nat, order: ByteOrder, rest: seq<byte>)
    requires n < Pow256(w)
    ensures ReadUInt(WriteUInt(n, w, order) + rest, w, order) == Some((n, rest))
  {
    var s := WriteUInt(n, w, order) + rest;
    assert s[..w] == WriteUInt(n, w, order);
    assert s[w..] == rest;
    DecodeEncodeLE(n, w);
    if order == Big {
      ReverseReverse(EncodeLE(n, w));
    }
  }

  /** An opaque 32-bit float word: the IEEE-754 bit pattern of an `f32`. */
  type F32 = n: nat | n < 0x1_0000_0000

  const F32_ZERO: F32 := 0
  const F32_ONE: F32 := 0x3F80_0000
  const F32_HUNDRED: F32 := 0x42C8_0000
  /** The nearest `f32` to 0.016. */
  const F32_0_016: F32 := 0x3C83_126F

  const SIGN_BIT: nat := 0x8000_0000

  /** Float negation: flips the sign bit and keeps exponent and mantissa. */
  function Neg(x: F32): (r: F32)
    ensures (r >= SIGN_BIT) != (x >= SIGN_BIT)
    ensures r % SIGN_BIT == x % SIGN_BIT
  {
    if x < SIGN_BIT then x + SIGN_BIT else x - SIGN_BIT
  }

  lemma NegNeg(x: F32)
    ensures Neg(Neg(x)) == x
  {
  }

  /** Writes a sequence of float words, four bytes each. */
  function WriteWords(ws: seq<F32>, order: ByteOrder): (r: seq<byte>)
    ensures |r| == 4 * |ws|
  {
    if ws == [] then [] else WriteUInt(ws[0], 4, order) + WriteWords(ws[1..], order)
  }

  /** The words of a concatenation are written one list after the other. */
  lemma {:induction false} WriteWordsAppend(a: seq<F32>, b: seq<F32>, order: ByteOrder)
    ensures WriteWords(a + b, order) == WriteWords(a, order) + WriteWords(b, order)
  {
    if a != [] {
      assert (a + b)[1..] == a[1..] + b;
      WriteWordsAppend(a[1..], b, order);
      AppendAssoc(WriteUInt(a[0], 4, order), WriteWords(a[1..], order), WriteWords(b, order));
    } else {
      assert a + b == b;
    }
  }

  /** Reads `n` float words; fails when fewer than `4 * n` bytes remain. */
  function ReadWords(n: nat, s: seq<byte>, order: ByteOrder): (r: Option<(seq<F32>, seq<byte>)>)
    ensures r.Some? <==> |s| >= 4 * n
    ensures r.Some? ==> |r.value.0| == n && r.value.1 == s[4 * n..]
    ensures r.Some? ==> WriteWords(r.value.0, order) + r.value.1 == s
  {
    if n == 0 then Some(([], s))
    else
      match ReadUInt(s, 4, order)
      case None => None
      case Some((w, s1)) =>
        match ReadWords(n - 1, s1, order)
        case None => None
        case Some((ws, s2)) =>
          var r := [w as F32] + ws;
          assert r[0] == w && r[1..] == ws;
          AppendAssoc(WriteUInt(w, 4, order), WriteWords(ws, order), s2);
          Some((r, s2))
  }

  lemma {:induction false} ReadWriteWords(ws: seq<F32>, order: ByteOrder, rest: seq<byte>)
    ensures ReadWords(|ws|, WriteWords(ws, order) + rest, order) == Some((ws, rest))
  {
    if ws != [] {
      var tail := WriteWords(ws[1..], order) + rest;
      AppendAssoc(WriteUInt(ws[0], 4, order), WriteWords(ws[1..], order), rest);
      ReadWriteUInt(ws[0], 4, order, tail);
      ReadWriteWords(ws[1..], order, rest);
      assert [ws[0]] + ws[1..] == ws;
    } else {
      assert WriteWords(ws, order) + rest == rest;
    }
  }

  /** Reads `n` raw bytes (a counted `Vec<u8>`); fails when fewer remain. */
  function ReadBytes(n: nat, s: seq<byte>): (r: Option<(seq<byte>, seq<byte>)>)
    ensures r.Some? <==> |s| >= n
    ensures r.Some? ==> r.value.0 + r.value.1 == s && |r.value.0| == n
  {
    if |s| < n then None else Some((s[..n], s[n..]))
  }

  lemma ReadBytesPrefix(b: seq<byte>, rest: seq<byte>)
    ensures ReadBytes(|b|, b + rest) == Some((b, rest))
  {
    assert (b + rest)[..|b|] == b;
    assert (b + rest)[|b|..] == rest;
  }
}
