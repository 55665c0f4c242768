/**
  * The WebSocket masking transform of RFC 6455 section 5.3, as the message
  * reader of nhooyr.io/websocket applies it: every payload byte is XORed
  * with the low byte of a 32-bit key, and the key is rotated right by one
  * byte after each payload byte, so that a payload unmasked in several
  * pieces (carrying the rotated key from one piece to the next) gives the
  * same bytes as unmasking it at once.
  */
module WsMask {
  type byte = bv8

  /** The key byte applied to the next payload byte: the low byte of the key. */
  function KeyByte(key: bv32): byte {
    (key & 0xFF) as byte
  }

  /** The key after one payload byte: rotated right by eight bits. */
  function Roll(key: bv32): bv32 {
    key.RotateRight(8)
  }

  /** The key after `n` payload bytes. */
  function KeyAfter(key: bv32, n: nat): bv32
    decreases n
  {
    if n == 0 then key else KeyAfter(Roll(key), n - 1)
  }

  /** The masked (equivalently, unmasked) bytes. */
  function Mask(key: bv32, b: seq<byte>): (r: seq<byte>)
    ensures |r| == |b|
    decreases |b|
  {
    if b == [] then [] else [b[0] ^ KeyByte(key)] + Mask(Roll(key), b[1..])
  }

  /**
    * Octet `j` of the masking key as it appears in the frame header (the
    * key is loaded little-endian, so octet 0 is the low byte).
    */
  function Octet(key: bv32, j: nat): byte
    requires j < 4
  {
    var shifted := if j == 0 then key else if j == 1 then key >> 8 else if j == 2 then key >> 16 else key >> 24;
    (shifted & 0xFF) as byte
  }

  /** Masking twice with the same key gives back the payload. */
  lemma {:induction false} MaskInvolution(key: bv32, b: seq<byte>)
    ensures Mask(key, Mask(key, b)) == b
    decreases |b|
  {
    if b != [] {
      MaskInvolution(Roll(key), b[1..]);
      assert Mask(key, b)[1..] == Mask(Roll(key), b[1..]);
    }
  }

  /** The first masked byte and the rest. */
  lemma MaskFirst(key: bv32, b: seq<byte>)
    requires b != []
    ensures Mask(key, b) == [b[0] ^ KeyByte(key)] + Mask(Roll(key), b[1..])
  {
  }

  /** Masking a payload in two pieces, the second with the key rolled past the first, masks the whole payload. */
  lemma {:induction false} MaskAppend(key: bv32, a: seq<byte>, b: seq<byte>)
    ensures Mask(key, a + b) == Mask(key, a) + Mask(KeyAfter(key, |a|), b)
    decreases |a|
  {
    if a == [] {
      assert a + b == b;
    } else {
      var x := [a[0] ^ KeyByte(key)];
      var later := KeyAfter(key, |a|);
      assert later == KeyAfter(Roll(key), |a[1..]|);
      calc {
        Mask(key, a + b);
        { MaskFirst(key, a + b); assert (a + b)[1..] == a[1..] + b; }
        x + Mask(Roll(key), a[1..] + b);
        { MaskAppend(Roll(key), a[1..], b); }
        x + (Mask(Roll(key), a[1..]) + Mask(later, b));
        (x + Mask(Roll(key), a[1..])) + Mask(later, b);
        { MaskFirst(key, a); }
        Mask(key, a) + Mask(later, b);
      }
    }
  }

  /** Masking one more byte uses the key rolled past the bytes before it. */
  lemma MaskSnoc(key: bv32, a: seq<byte>, x: byte)
    ensures Mask(key, a + [x]) == Mask(key, a) + [x ^ KeyByte(KeyAfter(key, |a|))]
  {
    MaskAppend(key, a, [x]);
    MaskFirst(KeyAfter(key, |a|), [x]);
  }

  /** The key after `m + n` bytes is the key after `m` bytes rolled `n` more times. */
  lemma {:induction false} KeyAfterAdd(key: bv32, m: nat, n: nat)
    ensures KeyAfter(key, m + n) == KeyAfter(KeyAfter(key, m), n)
    decreases m
  {
    if m != 0 {
      KeyAfterAdd(Roll(key), m - 1, n);
    }
  }

  /** The first four keys, written out. */
  lemma KeyAfterUnfold(key: bv32)
    ensures KeyAfter(key, 1) == Roll(key)
    ensures KeyAfter(key, 2) == Roll(Roll(key))
    ensures KeyAfter(key, 3) == Roll(Roll(Roll(key)))
    ensures KeyAfter(key, 4) == Roll(Roll(Roll(Roll(key))))
  {
    assert KeyAfter(Roll(Roll(Roll(Roll(key)))), 0) == Roll(Roll(Roll(Roll(key))));
    assert KeyAfter(Roll(Roll(Roll(key))), 1) == Roll(Roll(Roll(Roll(key))));
    assert KeyAfter(Roll(Roll(key)), 2) == Roll(Roll(Roll(Roll(key))));
    assert KeyAfter(Roll(key), 3) == Roll(Roll(Roll(Roll(key))));
  }

  /** Four rotations by a byte bring the key back. */
  lemma KeyPeriod(key: bv32)
    ensures KeyAfter(key, 4) == key
  {
    KeyAfterUnfold(key);
  }

  /** The key byte after each of the first rotations is the next octet of the key. */
  lemma RolledOctets(key: bv32)
    ensures KeyByte(key) == Octet(key, 0)
    ensures KeyByte(Roll(key)) == Octet(key, 1)
    ensures KeyByte(Roll(Roll(key))) == Octet(key, 2)
    ensures KeyByte(Roll(Roll(Roll(key)))) == Octet(key, 3)
  {
  }

  /** The key byte used for payload byte `i` is octet `i mod 4` of the key. */
  lemma {:induction false} KeyByteAt(key: bv32, i: nat)
    ensures KeyByte(KeyAfter(key, i)) == Octet(key, i % 4)
    decreases i
  {
    if i >= 4 {
      KeyAfterAdd(key, 4, i - 4);
      KeyPeriod(key);
      assert KeyAfter(key, i) == KeyAfter(key, i - 4);
      assert (i - 4) % 4 == i % 4;
      KeyByteAt(key, i - 4);
    } else {
      KeyAfterUnfold(key);
      RolledOctets(key);
      if i == 0 {
        assert KeyAfter(key, i) == key;
      } else if i == 1 {
        assert KeyAfter(key, i) == Roll(key);
      } else if i == 2 {
        assert KeyAfter(key, i) == Roll(Roll(key));
      } else {
        assert KeyAfter(key, i) == Roll(Roll(Roll(key)));
      }
    }
  }

  /** Byte `i` of the masked payload, read off the rolled key. */
  lemma {:induction false} MaskAtRolled(key: bv32, b: seq<byte>, i: nat)
    requires i < |b|
    ensures Mask(key, b)[i] == b[i] ^ KeyByte(KeyAfter(key, i))
    decreases i
  {
    if i != 0 {
      MaskAtRolled(Roll(key), b[1..], i - 1);
    }
  }

  /**
    * The reader's rolling key performs the transform of RFC 6455 section
    * 5.3: byte `i` is XORed with octet `i mod 4` of the masking key.
    */
  lemma MaskAt(key: bv32, b: seq<byte>, i: nat)
    requires i < |b|
    ensures Mask(key, b)[i] == b[i] ^ Octet(key, i % 4)
  {
    MaskAtRolled(key, b, i);
    KeyByteAt(key, i);
  }
}
