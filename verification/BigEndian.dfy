/** raftboltdb/util.go: the 8-byte big-endian keys of the log bucket. */
module BigEndian {
  import opened ByteOrder

  function Pow256(n: nat): (p: nat)
    ensures p > 0
  {
    if n == 0 then 1 else 256 * Pow256(n - 1)
  }

  /** The n-byte big-endian numeral of u. */
  function Encode(u: nat, n: nat): (b: Bytes)
    requires u < Pow256(n)
    ensures |b| == n
  {
    if n == 0 then [] else Encode(u / 256, n - 1) + [u % 256]
  }

  /** The number a big-endian numeral denotes. */
  function Decode(b: Bytes): (u: nat)
    ensures u < Pow256(|b|)
  {
    if b == [] then 0 else 256 * Decode(b[..|b| - 1]) + b[|b| - 1]
  }

  /** The key under which index u is stored. */
  function Key(u: uint64): (b: Bytes)
    ensures |b| == 8
  {
    Pow256Of8();
    Encode(u, 8)
  }

  /** binary.BigEndian.Uint64 panics on fewer than 8 bytes and ignores those after the eighth. */
  function BytesToUint64(b: Bytes): (u: uint64)
    requires |b| >= 8
  {
    Pow256Of8();
    Decode(b[..8])
  }

  lemma Pow256Of8()
    ensures Pow256(8) == 0x1_0000_0000_0000_0000
  {
    assert Pow256(4) == 0x1_0000_0000;
  }

  /** Fills a fresh 8-byte buffer, last digit first. */
  method Uint64ToBytes(u: uint64) returns (buf: array<byte>)
    ensures fresh(buf) && buf.Length == 8
    ensures buf[..] == Key(u)
  {
    Pow256Of8();
    buf := new byte[8](_ => 0);
    var rest: nat, i := u, 8;
    while i > 0
      invariant 0 <= i <= 8
      invariant rest < Pow256(i)
      invariant Key(u) == Encode(rest, i) + buf[i..]
    {
      i := i - 1;
      buf[i] := rest % 256;
      assert buf[i..] == [buf[i]] + buf[i + 1..];
      rest := rest / 256;
    }
  }

  lemma {:induction false} DecodeEncode(u: nat, n: nat)
    requires u < Pow256(n)
    ensures Decode(Encode(u, n)) == u
  {
    if n > 0 {
      DecodeEncode(u / 256, n - 1);
      var b := Encode(u, n);
      assert b[..|b| - 1] == Encode(u / 256, n - 1);
    }
  }

  lemma {:induction false} EncodeDecode(b: Bytes)
    ensures Encode(Decode(b), |b|) == b
  {
    if b != [] {
      EncodeDecode(b[..|b| - 1]);
      assert b == b[..|b| - 1] + [b[|b| - 1]];
    }
  }

  /** Both round trips of the codec, over every uint64 and every 8-byte key. */
  lemma KeyRoundTrip(u: uint64, b: Bytes)
    requires |b| == 8
    ensures BytesToUint64(Key(u)) == u
    ensures Key(BytesToUint64(b)) == b
  {
    DecodeEncode(u, 8);
    assert Key(u)[..8] == Key(u);
    assert b[..8] == b;
    EncodeDecode(b);
  }

  lemma {:induction false} LessSnoc(a: Bytes, b: Bytes, x: byte, y: byte)
    requires |a| == |b|
    ensures Less(a + [x], b + [y]) <==> Less(a, b) || (a == b && x < y)
  {
    if a != [] {
      LessSnoc(a[1..], b[1..], x, y);
      assert (a + [x])[1..] == a[1..] + [x] && (b + [y])[1..] == b[1..] + [y];
      assert a == [a[0]] + a[1..] && b == [b[0]] + b[1..];
      Irreflexive(a);
    }
  }

  lemma {:induction false} EncodeOrder(u: nat, v: nat, n: nat)
    requires u < Pow256(n) && v < Pow256(n)
    ensures Less(Encode(u, n), Encode(v, n)) <==> u < v
  {
    if n > 0 {
      EncodeOrder(u / 256, v / 256, n - 1);
      LessSnoc(Encode(u / 256, n - 1), Encode(v / 256, n - 1), u % 256, v % 256);
      DecodeEncode(u / 256, n - 1);
      DecodeEncode(v / 256, n - 1);
    }
  }

  /** Byte order of keys is numeric order of indices. */
  lemma KeyOrder(a: Bytes, b: Bytes)
    requires |a| == 8 && |b| == 8
    ensures Less(a, b) <==> BytesToUint64(a) < BytesToUint64(b)
    ensures Leq(a, b) <==> BytesToUint64(a) <= BytesToUint64(b)
  {
    KeyRoundTrip(0, a);
    KeyRoundTrip(0, b);
    Pow256Of8();
    EncodeOrder(BytesToUint64(a), BytesToUint64(b), 8);
  }
}
