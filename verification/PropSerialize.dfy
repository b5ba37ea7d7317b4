// src/prop_serialize.c: properties as bytes. Bit operations on unsigned values are written as arithmetic: a shift
// is a division or a multiplication, the low bits are a remainder, and bits that do not meet are added.
module PropSerialize {
  import opened Arithmetic

  type byte = x: nat | x < 256

  const TWO_32: nat := 0x1_0000_0000

  // ---- Zigzag ----

  // x ^ 0 and x ^ 0xFFFFFFFF
  function XorMask(x: nat, ones: bool): nat
    requires x < TWO_32
  {
    if ones then TWO_32 - 1 - x else x
  }

  predicate IsInt32(n: int) { -0x8000_0000 <= n < 0x8000_0000 }

  function ToSigned(u: nat): int { if u < 0x8000_0000 then u else u - TWO_32 }

  /** zigzag_encode: (n << 1) ^ (n >> 31) */
  function ZigzagEncode(n: int): (u: nat)
    requires IsInt32(n)
    ensures u < TWO_32
  {
    XorMask((2 * n) % TWO_32, n < 0)
  }

  /** zigzag_decode: (n >> 1) ^ -(n & 1) */
  function ZigzagDecode(u: nat): (n: int)
    requires u < TWO_32
    ensures IsInt32(n)
  {
    ToSigned(XorMask(u / 2, u % 2 == 1))
  }

  /** Zigzag coding is one to one, and numbers near zero have small codes, whatever their sign. */
  lemma ZigzagRoundTrip(n: int, u: nat)
    requires IsInt32(n) && u < TWO_32
    ensures ZigzagDecode(ZigzagEncode(n)) == n
    ensures ZigzagEncode(ZigzagDecode(u)) == u
    ensures ZigzagEncode(n) == if n >= 0 then 2 * n else -2 * n - 1
  {
    if n < 0 {
      DivModUnique(2 * n + TWO_32, TWO_32, 0, 2 * n + TWO_32);
    }
  }

  // ---- Unsigned LEB128 (section 7.6 of DWARF 5) ----

  function Leb(n: nat): (s: seq<byte>)
    ensures s != []
  {
    if n < 128 then [n] else [n % 128 + 128] + Leb(n / 128)
  }

  // What a sequence of bytes says up to the first one below 128, and how long that is
  function LebValue(s: seq<byte>): nat {
    if s == [] then 0 else if s[0] < 128 then s[0] else s[0] - 128 + 128 * LebValue(s[1..])
  }

  function LebLength(s: seq<byte>): (k: nat)
    ensures k <= |s|
  {
    if s == [] then 0 else if s[0] < 128 then 1 else 1 + LebLength(s[1..])
  }

  /** Reading an encoding gives the number back and ends with the encoding, whatever follows. */
  lemma {:induction false} LebRoundTrip(n: nat, rest: seq<byte>)
    ensures LebValue(Leb(n) + rest) == n && LebLength(Leb(n) + rest) == |Leb(n)|
    decreases n
  {
    if n >= 128 {
      LebRoundTrip(n / 128, rest);
      assert (Leb(n) + rest)[1..] == Leb(n / 128) + rest;
    }
  }

  function BitLength(n: nat): nat { if n == 0 then 0 else 1 + BitLength(n / 2) }

  // One step of it: y = x >> k; if(y) {n -= k; x = y;}
  method NarrowTo(x: nat, n: int, k: nat, d: nat) returns (x': nat, n': int)
    requires 0 < x < d * d && d == Pow2(k)
    ensures 0 < x' < d && BitLength(x) - BitLength(x') == n - n'
  {
    var y := x / d;
    DivModDef(x, d);
    if y != 0 {
      Halve(x, k, y);
      if y >= d {
        MulMonotone(d, y, d);
      }
      x', n' := y, n - k;
    } else {
      x', n' := x, n;
    }
  }

  // The fallback of clz(), from Hacker's Delight
  method Clz(x0: nat) returns (zeros: int)
    requires 0 < x0 < TWO_32
    ensures zeros == 32 - BitLength(x0)
  {
    Powers();
    var x, n := NarrowTo(x0, 32, 16, 0x1_0000);
    x, n := NarrowTo(x, n, 8, 0x100);
    x, n := NarrowTo(x, n, 4, 0x10);
    x, n := NarrowTo(x, n, 2, 4);
    var y := x / 2;
    assert BitLength(x) == if y != 0 then 2 else 1;
    zeros := if y != 0 then n - 2 else n - x;
  }

  lemma Powers()
    ensures Pow2(2) == 4 && Pow2(4) == 0x10 && Pow2(7) == 128 && Pow2(8) == 0x100 && Pow2(16) == 0x1_0000
  {
  }

  // Shifting k bits out shortens a number that has more than k bits by k
  lemma {:induction false} Halve(x: nat, k: nat, q: nat)
    requires x / Pow2(k) == q && q != 0
    ensures BitLength(x) == k + BitLength(q)
    decreases k
  {
    if k > 0 {
      HalveTwice(x, Pow2(k - 1));
      Halve(x / 2, k - 1, q);
    }
  }

  lemma HalveTwice(x: nat, p: nat)
    requires p > 0
    ensures x / (2 * p) == (x / 2) / p
    ensures x / (2 * p) != 0 ==> x >= 2
  {
    DivModDef(x, 2);
    DivModDef(x / 2, p);
    var q, r := x / 2 / p, x / 2 % p;
    assert x == 2 * (q * p + r) + x % 2;
    assert x == q * (2 * p) + (2 * r + x % 2);
    DivModUnique(x, 2 * p, q, 2 * r + x % 2);
  }

  /** varint_encoded_bytes */
  function VarintBytes(n: nat): nat {
    if n == 0 then 1 else (BitLength(n) + 6) / 7
  }

  /** The closed form agrees with the encoding. */
  lemma {:induction false} VarintBytesIsLength(n: nat)
    ensures VarintBytes(n) == |Leb(n)|
    decreases n
  {
    if n < 128 {
      SmallBitLength(n);
    } else {
      VarintBytesIsLength(n / 128);
      Powers();
      Halve(n, 7, n / 128);
    }
  }

  lemma SmallBitLength(n: nat)
    requires n < 128
    ensures BitLength(n) <= 7 && (n > 0 ==> BitLength(n) >= 1)
  {
    assert n / 2 < 64 && n / 2 / 2 < 32 && n / 2 / 2 / 2 < 16 && n / 2 / 2 / 2 / 2 < 8;
    assert BitLength(n) <= 1 + BitLength(n / 2);
    assert BitLength(n / 2) <= 1 + BitLength(n / 2 / 2);
    assert BitLength(n / 2 / 2) <= 1 + BitLength(n / 2 / 2 / 2);
    assert BitLength(n / 2 / 2 / 2) <= 1 + BitLength(n / 2 / 2 / 2 / 2);
    assert BitLength(n / 2 / 2 / 2 / 2) <= 3;
  }

  // ---- Bytes in a buffer ----

  // s with these bytes from pos on
  function Splice(s: seq<byte>, pos: nat, bytes: seq<byte>): (r: seq<byte>)
    requires pos + |bytes| <= |s|
    ensures |r| == |s|
  {
    s[..pos] + bytes + s[pos + |bytes|..]
  }

  lemma SpliceOne(s: seq<byte>, pos: nat, done: seq<byte>, x: byte)
    requires pos + |done| < |s|
    ensures Splice(s, pos, done)[pos + |done| := x] == Splice(s, pos, done + [x])
  {
  }

  lemma OneOut(done: seq<byte>, x: byte, rest: seq<byte>)
    ensures done + ([x] + rest) == (done + [x]) + rest
  {
  }

  // A later splice may overwrite the end of an earlier one
  lemma SpliceBehind(s: seq<byte>, pos: nat, a: seq<byte>, x: seq<byte>, b: seq<byte>)
    requires |x| <= |b| && pos + |a| + |b| <= |s|
    ensures Splice(Splice(s, pos, a + x), pos + |a|, b) == Splice(s, pos, a + b)
  {
  }

  predicate Holds(s: seq<byte>, pos: nat, bytes: seq<byte>) {
    pos + |bytes| <= |s| && s[pos..pos + |bytes|] == bytes
  }

  lemma HoldsParts(s: seq<byte>, pos: nat, a: seq<byte>, b: seq<byte>)
    requires Holds(s, pos, a + b)
    ensures Holds(s, pos, a) && Holds(s, pos + |a|, b)
  {
    assert s[pos..pos + |a|] == s[pos..pos + |a + b|][..|a|];
    assert s[pos + |a|..pos + |a| + |b|] == s[pos..pos + |a + b|][|a|..];
  }

  /** varint_encode */
  method VarintEncode(n0: nat, buf: array<byte>, pos: nat, size: nat) returns (numBytes: int)
    requires n0 < TWO_32 && pos + size <= buf.Length
    modifies buf
    ensures size < |Leb(n0)| ==> numBytes == -|Leb(n0)| && buf[..] == old(buf[..])
    ensures size >= |Leb(n0)| ==> numBytes == |Leb(n0)| && buf[..] == Splice(old(buf[..]), pos, Leb(n0))
  {
    numBytes := 1;
    VarintBytesIsLength(n0);
    if n0 != 0 {
      var zeros := Clz(n0);
      numBytes := (32 - zeros + 6) / 7;
    }
    if size < numBytes {
      return -numBytes;
    }
    PutLeb(n0, buf, pos);
  }

  // The loop of varint_encode
  method PutLeb(n0: nat, buf: array<byte>, pos: nat)
    requires pos + |Leb(n0)| <= buf.Length
    modifies buf
    ensures buf[..] == Splice(old(buf[..]), pos, Leb(n0))
  {
    ghost var was, done: seq<byte> := buf[..], [];
    var n, p := n0, pos;
    while n >= 128
      invariant Leb(n0) == done + Leb(n) && p == pos + |done| && buf[..] == Splice(was, pos, done)
      decreases n
    {
      SpliceOne(was, pos, done, n % 128 + 128);
      OneOut(done, n % 128 + 128, Leb(n / 128));
      buf[p] := n % 128 + 128;
      done := done + [n % 128 + 128];
      p := p + 1;
      n := n / 128;
    }
    SpliceOne(was, pos, done, n);
    buf[p] := n;
  }

  function Pow128(k: nat): (p: nat)
    ensures p > 0
  {
    if k == 0 then 1 else 128 * Pow128(k - 1)
  }

  // What the low seven bits of the first k bytes add up to
  ghost function LowDigits(s: seq<byte>, k: nat): nat
    requires k <= |s|
  {
    if k == 0 then 0 else LowDigits(s, k - 1) + s[k - 1] % 128 * Pow128(k - 1)
  }

  lemma {:induction false} LowDigitsFromFront(s: seq<byte>, k: nat)
    requires 0 < k <= |s|
    ensures LowDigits(s, k) == s[0] % 128 + 128 * LowDigits(s[1..], k - 1)
    decreases k
  {
    if k == 1 {
      assert Pow128(0) == 1;
    } else {
      LowDigitsFromFront(s, k - 1);
      Regroup(s[k - 1] % 128, Pow128(k - 2));
    }
  }

  lemma Regroup(d: nat, p: nat)
    ensures d * (128 * p) == 128 * (d * p)
  {
  }

  lemma {:induction false} LowDigitsAreValue(s: seq<byte>)
    ensures LowDigits(s, LebLength(s)) == LebValue(s)
    decreases |s|
  {
    if s != [] {
      LowDigitsFromFront(s, LebLength(s));
      if s[0] >= 128 {
        LowDigitsAreValue(s[1..]);
      }
    }
  }

  lemma {:induction false} LowDigitsBound(s: seq<byte>, k: nat)
    requires k <= |s|
    ensures LowDigits(s, k) < Pow128(k)
    decreases k
  {
    if k > 0 {
      LowDigitsBound(s, k - 1);
      MulMonotone(s[k - 1] % 128, 127, Pow128(k - 1));
    }
  }

  // Only the fifth digit can go beyond 32 bits
  lemma AddDigit(s: seq<byte>, k: nat, n: nat)
    requires k < 5 && k < |s| && n == LowDigits(s, k) % TWO_32
    ensures (n + s[k] % 128 * Pow128(k)) % TWO_32 == LowDigits(s, k + 1) % TWO_32
  {
    LowDigitsBound(s, k);
    assert Pow128(0) == 1 && Pow128(1) == 128 && Pow128(2) == 0x4000;
    assert Pow128(3) == 0x20_0000 && Pow128(4) == 0x1000_0000;
    DivModUnique(LowDigits(s, k), TWO_32, 0, LowDigits(s, k));
  }

  // The first byte below 128 is where the number ends
  lemma {:induction false} LengthIs(s: seq<byte>, k: nat)
    requires k < |s| && s[k] < 128 && forall i: nat | i < k :: s[i] >= 128
    ensures LebLength(s) == k + 1
    decreases k
  {
    if k > 0 {
      LengthIs(s[1..], k - 1);
    }
  }

  predicate Ends(s: seq<byte>, k: nat) { k < |s| && s[k] < 128 }

  /** varint_decode of a number that ends within five bytes. A fifth byte loses the bits above bit 31. */
  method VarintDecode(buf: array<byte>, pos: nat) returns (n: nat, numBytes: nat)
    requires pos <= buf.Length && exists k: nat :: k < 5 && Ends(buf[pos..], k)
    ensures numBytes == LebLength(buf[pos..]) && n == LebValue(buf[pos..]) % TWO_32
  {
    ghost var s := buf[pos..];
    ghost var last: nat :| last < 5 && Ends(s, last);
    n, numBytes := 0, 0;
    var scale := 1;
    var b7: byte := 128;
    while b7 >= 128
      invariant numBytes <= |s| && scale == Pow128(numBytes) && n == LowDigits(s, numBytes) % TWO_32
      invariant if b7 >= 128 then numBytes <= last else 0 < numBytes && s[numBytes - 1] < 128
      invariant forall i: nat | i < numBytes && (b7 >= 128 || i + 1 < numBytes) :: s[i] >= 128
      decreases b7 >= 128, last + 1 - numBytes
    {
      b7 := buf[pos + numBytes];
      AddDigit(s, numBytes, n);
      n := (n + b7 % 128 * scale) % TWO_32;
      scale := scale * 128;
      numBytes := numBytes + 1;
    }
    LengthIs(s, numBytes - 1);
    LowDigitsAreValue(s);
  }

  lemma {:induction false} LebEnds(n: nat, k: nat)
    requires k > 0 && n < Pow128(k)
    ensures |Leb(n)| <= k && Ends(Leb(n), |Leb(n)| - 1)
    decreases k
  {
    if n >= 128 {
      assert n / 128 < Pow128(k - 1);
      LebEnds(n / 128, k - 1);
    }
  }

  /** varint_decode of what varint_encode wrote. */
  method ReadVarint(buf: array<byte>, pos: nat, ghost n: nat) returns (val: nat, numBytes: nat)
    requires n < TWO_32 && Holds(buf[..], pos, Leb(n))
    ensures val == n && numBytes == |Leb(n)|
  {
    ghost var s, rest := buf[pos..], buf[pos + |Leb(n)|..];
    assert s == Leb(n) + rest;
    LebRoundTrip(n, rest);
    assert Pow128(5) == 0x8_0000_0000;
    LebEnds(n, 5);
    assert Ends(s, |Leb(n)| - 1);
    val, numBytes := VarintDecode(buf, pos);
  }

  // ---- 32-bit numbers, least significant byte first ----

  // The bytes of a number up to its highest nonzero one
  function LeBytes(n: nat): seq<byte> { if n == 0 then [] else [n % 256] + LeBytes(n / 256) }

  function Le32(s: seq<byte>): nat
    requires |s| >= 4
  {
    (s[0] as int) + 0x100 * (s[1] as int) + 0x1_0000 * (s[2] as int) + 0x100_0000 * (s[3] as int)
  }

  /** uint32_encode. It writes the significant bytes and one zero byte, whether that makes four or not. */
  method Uint32Encode(n0: nat, buf: array<byte>, pos: nat, size: nat) returns (numBytes: int)
    requires n0 < TWO_32
    requires size >= 4 ==> pos + |LeBytes(n0)| < buf.Length
    modifies buf
    ensures size < 4 ==> numBytes == -4 && buf[..] == old(buf[..])
    ensures size >= 4 ==> numBytes == 4 && buf[..] == Splice(old(buf[..]), pos, LeBytes(n0) + [0])
  {
    if size < 4 {
      return -4;
    }
    PutBytes(n0, buf, pos);
    return 4;
  }

  // The loop of uint32_encode, and the byte behind it
  method PutBytes(n0: nat, buf: array<byte>, pos: nat)
    requires pos + |LeBytes(n0)| < buf.Length
    modifies buf
    ensures buf[..] == Splice(old(buf[..]), pos, LeBytes(n0) + [0])
  {
    ghost var was, done: seq<byte> := buf[..], [];
    ghost var all := LeBytes(n0);
    var n, p := n0, pos;
    while n > 0
      invariant all == done + LeBytes(n) && p == pos + |done| && buf[..] == Splice(was, pos, done)
      decreases n
    {
      SpliceOne(was, pos, done, n % 256);
      OneOut(done, n % 256, LeBytes(n / 256));
      buf[p] := n % 256;
      done := done + [n % 256];
      p := p + 1;
      n := n / 256;
    }
    assert all == done;
    SpliceOne(was, pos, done, 0);
    buf[p] := n;
  }

  /** uint32_decode */
  method Uint32Decode(buf: array<byte>, pos: nat) returns (n: nat, numBytes: nat)
    requires pos + 4 <= buf.Length
    ensures n == Le32(buf[pos..pos + 4]) && numBytes == 4
  {
    n := 0;
    var scale, left := 1, 4;
    var p := pos;
    while left > 0
      invariant 0 <= left <= 4 && p == pos + 4 - left
      invariant left == 4 ==> n == 0 && scale == 1
      invariant left == 3 ==> n == buf[pos] && scale == 0x100
      invariant left == 2 ==> n == (buf[pos] as int) + 0x100 * (buf[pos + 1] as int) && scale == 0x1_0000
      invariant left == 1 ==>
                  && n == (buf[pos] as int) + 0x100 * (buf[pos + 1] as int) + 0x1_0000 * (buf[pos + 2] as int)
                  && scale == 0x100_0000
      invariant left == 0 ==> n == Le32(buf[pos..pos + 4])
    {
      n := n + (buf[p] as int) * scale;
      scale := scale * 0x100;
      p := p + 1;
      left := left - 1;
    }
    numBytes := 4;
  }

  lemma LeBytesOf(n: nat)
    requires n < TWO_32
    ensures |LeBytes(n)|
            == if n == 0 then 0
               else if n < 0x100 then 1
               else if n < 0x1_0000 then 2
               else if n < 0x100_0000 then 3
               else 4
    ensures n < 0x1_0000 ==> |LeBytes(n)| < 3
    ensures |LeBytes(n)| >= 3 ==>
              Le32(LeBytes(n) + [0]) == n
  {
    var a := n / 256;
    var b := a / 256;
    var c := b / 256;
    assert LeBytes(n) == if n == 0 then [] else [n % 256] + LeBytes(a);
    assert LeBytes(a) == if a == 0 then [] else [a % 256] + LeBytes(b);
    assert LeBytes(b) == if b == 0 then [] else [b % 256] + LeBytes(c);
    assert LeBytes(c) == if c == 0 then [] else [c];
  }

  // What uint32_decode makes of a buffer that held these five bytes before uint32_encode
  function Recoded(n: nat, was: seq<byte>): nat
    requires n < TWO_32 && |was| == 5 && |LeBytes(n)| <= 4
  {
    Le32(Splice(was, 0, LeBytes(n) + [0])[..4])
  }

  // Whatever the buffer held before, the number comes back
  ghost predicate AlwaysComesBack(n: nat)
    requires n < TWO_32 && |LeBytes(n)| <= 4
  {
    forall was: seq<byte> | |was| == 5 :: Recoded(n, was) == n
  }

  /** A 32-bit number survives coding, whatever was in the buffer, exactly when it has a third or a fourth
      significant byte: of a smaller one uint32_encode leaves bytes unwritten that uint32_decode reads. */
  lemma Uint32RoundTripIff(n: nat)
    requires n < TWO_32
    ensures |LeBytes(n)| <= 4
    ensures AlwaysComesBack(n) <==> n >= 0x1_0000
  {
    LeBytesOf(n);
    if n >= 0x1_0000 {
      forall was: seq<byte> | |was| == 5 ensures Recoded(n, was) == n {
        var s := Splice(was, 0, LeBytes(n) + [0]);
        assert forall i: nat | i < 4 :: s[i] == (LeBytes(n) + [0])[i];
      }
    } else {
      var was: seq<byte> := [1, 1, 1, 1, 1];
      var s := Splice(was, 0, LeBytes(n) + [0]);
      assert s[3] == 1;
      assert Recoded(n, was) >= 0x100_0000;
    }
  }

  /** It writes a byte beyond the four it reports exactly when all four are significant. */
  lemma Uint32OverrunIff(n: nat)
    requires n < TWO_32
    ensures |LeBytes(n) + [0]| > 4 <==> n >= 0x100_0000
  {
    LeBytesOf(n);
  }

  // ---- Properties ----

  /** The kinds of values that are stored. A string has no zero byte in it, and its size is its length. */
  datatype Value = UInt(n: nat) | Int(i: int) | Str(chars: seq<byte>) | Blob(bytes: seq<byte>)

  predicate NoZero(s: seq<byte>) { forall k: nat | k < |s| :: s[k] != 0 }

  predicate Storable(v: Value) {
    match v
    case UInt(n) => n < TWO_32
    case Int(i) => IsInt32(i)
    case Str(chars) => |chars| < TWO_32 && NoZero(chars)
    case Blob(bytes) => |bytes| < TWO_32
  }

  // A property ID has a nonzero top field
  predicate IsPropId(prop: nat) { 0x100_0000 <= prop < TWO_32 }

  function Kind(v: Value): byte {
    match v
    case UInt(_) => 1
    case Int(_) => 2
    case Str(_) => 3
    case Blob(_) => 4
  }

  function Payload(v: Value): seq<byte>
    requires Storable(v)
  {
    match v
    case UInt(n) => Leb(n)
    case Int(i) => Leb(ZigzagEncode(i))
    case Str(chars) => Leb(|chars|) + chars
    case Blob(bytes) => Leb(|bytes|) + bytes
  }

  function Encoded(prop: nat, v: Value): seq<byte>
    requires IsPropId(prop) && Storable(v)
  {
    [Kind(v)] + LeBytes(prop) + Payload(v)
  }

  /** The bytes of one property of each kind: the kind, four bytes of ID, and the value. */
  lemma Encodings()
    ensures Encoded(0x0102_0304, UInt(300)) == [1, 4, 3, 2, 1, 0xAC, 2]
    ensures Encoded(0x0102_0304, Int(-2)) == [2, 4, 3, 2, 1, 3]
    ensures Encoded(0x0102_0304, Str([65, 66])) == [3, 4, 3, 2, 1, 2, 65, 66]
    ensures Encoded(0x0102_0304, Blob([0])) == [4, 4, 3, 2, 1, 1, 0]
  {
  }

  /** prop_encoded_bytes */
  function PropEncodedBytes(v: Value): nat
    requires Storable(v)
  {
    4 + 1 + match v
            case UInt(n) => VarintBytes(n)
            case Int(i) => VarintBytes(ZigzagEncode(i))
            case Str(chars) => VarintBytes(|chars|) + |chars|
            case Blob(bytes) => VarintBytes(|bytes|) + |bytes|
  }

  /** The size that is computed beforehand is that of the encoding. */
  lemma EncodedBytesIsLength(prop: nat, v: Value)
    requires IsPropId(prop) && Storable(v)
    ensures PropEncodedBytes(v) == |Encoded(prop, v)| == 5 + |Payload(v)|
    ensures |LeBytes(prop)| == 4 && Le32(LeBytes(prop)) == prop
  {
    LeBytesOf(prop);
    assert Le32(LeBytes(prop)) == Le32(LeBytes(prop) + [0]);
    match v
    case UInt(n) => VarintBytesIsLength(n);
    case Int(i) => VarintBytesIsLength(ZigzagEncode(i));
    case Str(chars) => VarintBytesIsLength(|chars|);
    case Blob(bytes) => VarintBytesIsLength(|bytes|);
  }

  /** string_encode and blob_encode */
  method BytesEncode(bytes: seq<byte>, buf: array<byte>, pos: nat, size: nat) returns (numBytes: int)
    requires |bytes| < TWO_32 && pos + size <= buf.Length
    modifies buf
    ensures var e := Leb(|bytes|) + bytes;
            if size < |e| then numBytes == -|e| && buf[..] == old(buf[..])
            else numBytes == |e| && buf[..] == Splice(old(buf[..]), pos, e)
  {
    VarintBytesIsLength(|bytes|);
    var total := VarintBytes(|bytes|) + |bytes|;
    if total > size {
      return -total;
    }
    ghost var was, done := buf[..], Leb(|bytes|);
    var encoded := VarintEncode(|bytes|, buf, pos, size);
    var p: nat, k: nat := pos + encoded, 0;
    assert done + bytes[..0] == done;
    while k < |bytes|
      invariant k <= |bytes| && p == pos + |done| + k && buf[..] == Splice(was, pos, done + bytes[..k])
    {
      SpliceOne(was, pos, done + bytes[..k], bytes[k]);
      assert done + bytes[..k] + [bytes[k]] == done + bytes[..k + 1];
      buf[p] := bytes[k];
      p := p + 1;
      k := k + 1;
    }
    assert bytes[..|bytes|] == bytes;
    return total;
  }

  // The switch on the kind
  method ValueEncode(v: Value, buf: array<byte>, pos: nat, size: nat)
    requires Storable(v) && pos + size <= buf.Length && |Payload(v)| <= size
    modifies buf
    ensures buf[..] == Splice(old(buf[..]), pos, Payload(v))
  {
    var numBytes;
    match v
    case UInt(n) => numBytes := VarintEncode(n, buf, pos, size);
    case Int(i) => numBytes := VarintEncode(ZigzagEncode(i), buf, pos, size);
    case Str(chars) => numBytes := BytesEncode(chars, buf, pos, size);
    case Blob(bytes) => numBytes := BytesEncode(bytes, buf, pos, size);
  }

  /** prop_encode. The byte that uint32_encode writes too much is overwritten by the value. */
  method PropEncode(prop: nat, v: Value, buf: array<byte>, pos: nat, size: nat) returns (numBytes: int)
    requires IsPropId(prop) && Storable(v) && pos + size <= buf.Length
    modifies buf
    ensures size < |Encoded(prop, v)| ==> numBytes == -|Encoded(prop, v)| && buf[..] == old(buf[..])
    ensures size >= |Encoded(prop, v)| ==>
              numBytes == |Encoded(prop, v)| && buf[..] == Splice(old(buf[..]), pos, Encoded(prop, v))
  {
    EncodedBytesIsLength(prop, v);
    numBytes := PropEncodedBytes(v);
    if numBytes > size {
      return -numBytes;
    }
    ghost var was := buf[..];
    PayloadIsSome(v);
    var encodeSize := KindAndIdEncode(prop, Kind(v), buf, pos, size);
    ValueEncode(v, buf, pos + encodeSize, size - encodeSize);
    SpliceBehind(was, pos, [Kind(v)] + LeBytes(prop), [0], Payload(v));
  }

  method KindAndIdEncode(prop: nat, kind: byte, buf: array<byte>, pos: nat, size: nat) returns (encodeSize: nat)
    requires IsPropId(prop) && |LeBytes(prop)| == 4 && size >= 6 && pos + size <= buf.Length
    modifies buf
    ensures buf[..] == Splice(old(buf[..]), pos, [kind] + LeBytes(prop) + [0]) && encodeSize == 5
  {
    ghost var was, id := buf[..], LeBytes(prop);
    buf[pos] := kind;
    assert buf[..] == Splice(was, pos, [kind]);
    var idSize := Uint32Encode(prop, buf, pos + 1, size - 1);
    SpliceBehind(was, pos, [kind], [], id + [0]);
    assert [kind] + [] == [kind] && [kind] + (id + [0]) == ([kind] + id) + [0];
    encodeSize := 1 + idSize;
  }

  lemma PayloadIsSome(v: Value)
    requires Storable(v)
    ensures |Payload(v)| >= 1
  {
  }

  // strlcpy of size bytes, which stops at a zero byte, or memcpy of them
  method CopyBytes(buf: array<byte>, pos: nat, size: nat, stopAtZero: bool) returns (bytes: seq<byte>)
    requires pos + size <= buf.Length
    ensures !stopAtZero || NoZero(buf[pos..pos + size]) ==> bytes == buf[pos..pos + size]
  {
    bytes := [];
    while |bytes| < size && !(stopAtZero && buf[pos + |bytes|] == 0)
      invariant |bytes| <= size && bytes == buf[pos..pos + |bytes|]
      decreases size - |bytes|
    {
      bytes := bytes + [buf[pos + |bytes|]];
    }
    if stopAtZero && |bytes| < size {
      assert buf[pos..pos + size][|bytes|] == 0;
    }
  }

  method BytesDecode(buf: array<byte>, pos: nat, stopAtZero: bool, ghost whole: seq<byte>)
    returns (bytes: seq<byte>, numBytes: nat)
    requires |whole| < TWO_32 && Holds(buf[..], pos, Leb(|whole|) + whole)
    requires stopAtZero ==> NoZero(whole)
    ensures bytes == whole && numBytes == |Leb(|whole|) + whole|
  {
    HoldsParts(buf[..], pos, Leb(|whole|), whole);
    var size, encodeSize := ReadVarint(buf, pos, |whole|);
    assert buf[pos + encodeSize..pos + encodeSize + size] == whole;
    bytes := CopyBytes(buf, pos + encodeSize, size, stopAtZero);
    numBytes := encodeSize + size;
  }

  // The switch on the kind
  method ValueDecode(kind: byte, buf: array<byte>, pos: nat, ghost v: Value) returns (value: Value, numBytes: nat)
    requires Storable(v) && kind == Kind(v) && Holds(buf[..], pos, Payload(v))
    ensures value == v && numBytes == |Payload(v)|
  {
    if kind == 1 {
      var n;
      n, numBytes := ReadVarint(buf, pos, v.n);
      value := UInt(n);
    } else if kind == 2 {
      var n;
      n, numBytes := ReadVarint(buf, pos, ZigzagEncode(v.i));
      ZigzagRoundTrip(v.i, n);
      value := Int(ZigzagDecode(n));
    } else if kind == 3 {
      var chars;
      chars, numBytes := BytesDecode(buf, pos, true, v.chars);
      value := Str(chars);
    } else {
      var bytes;
      bytes, numBytes := BytesDecode(buf, pos, false, v.bytes);
      value := Blob(bytes);
    }
  }

  /** prop_decode of what prop_encode wrote. */
  method PropDecode(buf: array<byte>, pos: nat, ghost p: nat,
                    ghost v: Value) returns (prop: nat, value: Value, numBytes: nat)
    requires IsPropId(p) && Storable(v) && Holds(buf[..], pos, Encoded(p, v))
    ensures prop == p && value == v && numBytes == |Encoded(p, v)|
  {
    EncodedBytesIsLength(p, v);
    HoldsParts(buf[..], pos, [Kind(v)] + LeBytes(p), Payload(v));
    HoldsParts(buf[..], pos, [Kind(v)], LeBytes(p));
    var kind := buf[pos];
    assert kind == buf[..][pos..pos + 1][0];
    assert buf[pos + 1..pos + 5] == LeBytes(p);
    var encodeSize;
    prop, encodeSize := Uint32Decode(buf, pos + 1);
    value, numBytes := ValueDecode(kind, buf, pos + 1 + encodeSize, v);
    numBytes := 1 + encodeSize + numBytes;
  }
}
