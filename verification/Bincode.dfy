/**
 * A stand-in for the `bincode` serialisation of the program's `Message`
 * struct (one `String` field). The library's own byte format is not part of
 * this model; the stand-in is the fixed-width layout of a single string:
 * the length as an unsigned 64-bit little-endian integer, then the string's
 * UTF-8 bytes. Deserialisation reads one such value from the front of a
 * buffer and ignores whatever follows it, as the top-level `deserialize` of
 * bincode 1 does.
 */
module Bincode {
  import opened Bytes
  import Utf8

  datatype Option<T> = None | Some(value: T)

  /** The program's message record; `data` holds the UTF-8 bytes of its `String`. */
  datatype Message = Message(data: seq<Byte>)

  const U64_LIMIT: nat := 0x1_0000_0000_0000_0000
  const LENGTH_PREFIX: nat := 8

  /** What a Rust `String` guarantees: valid UTF-8, and a length that fits the `u64` prefix. */
  predicate WellFormed(m: Message)
  {
    Utf8.Valid(m.data) && |m.data| < U64_LIMIT
  }

  function Pow256(k: nat): (p: nat)
    ensures p > 0
  {
    if k == 0 then 1 else 256 * Pow256(k - 1)
  }

  lemma Pow256Eight()
    ensures Pow256(LENGTH_PREFIX) == U64_LIMIT
  {
  }

  /** `n` as `width` little-endian bytes. */
  function EncodeLE(n: nat, width: nat): (r: seq<Byte>)
    requires n < Pow256(width)
    ensures |r| == width
  {
    if width == 0 then [] else [(n % 256) as Byte] + EncodeLE(n / 256, width - 1)
  }

  /** The number whose little-endian bytes are `b`. */
  function DecodeLE(b: seq<Byte>): (n: nat)
    ensures n < Pow256(|b|)
  {
    if |b| == 0 then 0 else b[0] as nat + 256 * DecodeLE(b[1..])
  }

  lemma {:induction false} DecodeEncodeLE(n: nat, width: nat)
    requires n < Pow256(width)
    ensures DecodeLE(EncodeLE(n, width)) == n
  {
    if width > 0 {
      var r := EncodeLE(n, width);
      assert r[1..] == EncodeLE(n / 256, width - 1);
      DecodeEncodeLE(n / 256, width - 1);
    }
  }

  lemma {:induction false} EncodeDecodeLE(b: seq<Byte>)
    ensures EncodeLE(DecodeLE(b), |b|) == b
  {
    if |b| > 0 {
      var n := DecodeLE(b);
      assert n % 256 == b[0] as nat && n / 256 == DecodeLE(b[1..]);
      EncodeDecodeLE(b[1..]);
    }
  }

  /** `bincode::serialize` of a message: never empty, prefix plus text. */
  function Serialize(m: Message): (r: seq<Byte>)
    requires |m.data| < U64_LIMIT
    ensures |r| == LENGTH_PREFIX + |m.data|
    ensures r[LENGTH_PREFIX..] == m.data
  {
    Pow256Eight();
    EncodeLE(|m.data|, LENGTH_PREFIX) + m.data
  }

  /**
   * `bincode::deserialize` into a message. It fails on a buffer shorter than
   * the prefix, on a length running past the end, and on text that is not
   * UTF-8; on success the serialisation of what it returns is a prefix of
   * the buffer.
   */
  function Deserialize(b: seq<Byte>): (r: Option<Message>)
    ensures |b| < LENGTH_PREFIX ==> r == None
    ensures r.Some? ==> WellFormed(r.value) && Serialize(r.value) <= b
  {
    if |b| < LENGTH_PREFIX then None
    else
      var n := DecodeLE(b[..LENGTH_PREFIX]);
      if n > |b| - LENGTH_PREFIX then None
      else
        var text := b[LENGTH_PREFIX..LENGTH_PREFIX + n];
        if !Utf8.Valid(text) then None
        else
          Pow256Eight();
          EncodeDecodeLE(b[..LENGTH_PREFIX]);
          assert Serialize(Message(text)) == b[..LENGTH_PREFIX + n];
          Some(Message(text))
  }

  /** Round trip: a well-formed message is read back from any buffer its serialisation starts. */
  lemma RoundTrip(m: Message, rest: seq<Byte>)
    requires WellFormed(m)
    ensures Deserialize(Serialize(m) + rest) == Some(m)
  {
    var b := Serialize(m) + rest;
    Pow256Eight();
    assert b[..LENGTH_PREFIX] == EncodeLE(|m.data|, LENGTH_PREFIX);
    DecodeEncodeLE(|m.data|, LENGTH_PREFIX);
    assert b[LENGTH_PREFIX..LENGTH_PREFIX + |m.data|] == m.data;
  }

  /** Deserialisation succeeds with `m` exactly when the buffer starts with `m`'s serialisation. */
  lemma DeserializeIff(b: seq<Byte>, m: Message)
    requires WellFormed(m)
    ensures Deserialize(b) == Some(m) <==> Serialize(m) <= b
  {
    if Serialize(m) <= b {
      RoundTrip(m, b[|Serialize(m)|..]);
      assert Serialize(m) + b[|Serialize(m)|..] == b;
    }
  }

  /** A zero-filled buffer that can hold a prefix reads as the empty message. */
  lemma ZerosReadEmpty(n: nat)
    requires n >= LENGTH_PREFIX
    ensures Deserialize(Zeros(n)) == Some(Message([]))
  {
    var m := Message([]);
    Pow256Eight();
    ZeroLE(LENGTH_PREFIX);
    assert Zeros(n) == Serialize(m) + Zeros(n - LENGTH_PREFIX);
    RoundTrip(m, Zeros(n - LENGTH_PREFIX));
  }

  lemma {:induction false} ZeroLE(width: nat)
    ensures EncodeLE(0, width) == Zeros(width)
  {
    if width > 0 {
      ZeroLE(width - 1);
    }
  }
}
