/** The nibble codec: a byte buffer becomes two 4-bit symbols per byte, high
    nibble first, and a symbol sequence becomes one byte per pair of symbols.
    The source's `(byte >> 4) & 0x0F`, `byte & 0x0F` and `(high << 4) | low` are
    written here as `b / 16`, `b % 16` and `high * 16 + low`; `ShiftMaskAgree`
    and `ShiftOrAgrees` show the two spellings coincide on every byte and every
    pair of nibbles. */
module Nibbles {
  import opened Types

  function High(b: byte): nibble { b / 16 }

  function Low(b: byte): nibble { b % 16 }

  function Combine(high: nibble, low: nibble): byte { high as int * 16 + low }

  /** A byte is the combination of its two nibbles, and the two nibbles of a
      combination are the ones it was built from. */
  lemma CombineSplits(b: byte, high: nibble, low: nibble)
    ensures Combine(High(b), Low(b)) == b
    ensures High(Combine(high, low)) == high && Low(Combine(high, low)) == low
  {
  }

  /** The two symbols of each byte, high nibble first, in byte order. */
  function Pack(buf: seq<byte>): (r: seq<nibble>)
    ensures |r| == 2 * |buf|
    ensures forall i :: 0 <= i < |buf| ==> r[2 * i] == High(buf[i]) && r[2 * i + 1] == Low(buf[i])
  {
    if |buf| == 0 then []
    else
      var rest := Pack(buf[1..]);
      assert forall i :: 1 <= i < |buf| ==> rest[2 * (i - 1)] == High(buf[i]) && rest[2 * (i - 1) + 1] == Low(buf[i]);
      [High(buf[0]), Low(buf[0])] + rest
  }

  /** One byte per pair of symbols, `high * 16 + low`; an odd trailing symbol
      is dropped, so the result has `floor(n / 2)` bytes. */
  function Unpack(blocks: seq<nibble>): (r: seq<byte>)
    ensures |r| == |blocks| / 2
    ensures forall i :: 0 <= i < |r| ==> r[i] == Combine(blocks[2 * i], blocks[2 * i + 1])
  {
    if |blocks| < 2 then []
    else
      var rest := Unpack(blocks[2..]);
      assert forall i :: 1 <= i <= |rest| ==> rest[i - 1] == Combine(blocks[2 * i], blocks[2 * i + 1]);
      [Combine(blocks[0], blocks[1])] + rest
  }

  /** Unpacking a packed buffer gives back the buffer. */
  lemma {:induction false} UnpackPack(buf: seq<byte>)
    ensures Unpack(Pack(buf)) == buf
  {
    if |buf| > 0 {
      var p := Pack(buf);
      assert p[2..] == Pack(buf[1..]);
      UnpackPack(buf[1..]);
      CombineSplits(buf[0], 0, 0);
    }
  }

  /** Packing an unpacked sequence gives back every symbol but a dropped odd
      trailing one. */
  lemma {:induction false} PackUnpack(blocks: seq<nibble>)
    ensures Pack(Unpack(blocks)) == blocks[..|blocks| / 2 * 2]
  {
    if |blocks| >= 2 {
      PackUnpackStep(blocks);
      PackUnpack(blocks[2..]);
      EvenPrefixStep(blocks);
    }
  }

  lemma PackUnpackStep(blocks: seq<nibble>)
    requires |blocks| >= 2
    ensures Pack(Unpack(blocks)) == [blocks[0], blocks[1]] + Pack(Unpack(blocks[2..]))
  {
    var rest := Unpack(blocks[2..]);
    var c := Combine(blocks[0], blocks[1]);
    assert Unpack(blocks) == [c] + rest;
    PackCons(c, rest);
    CombineSplits(0, blocks[0], blocks[1]);
  }

  lemma EvenPrefixStep(blocks: seq<nibble>)
    requires |blocks| >= 2
    ensures blocks[..|blocks| / 2 * 2] == [blocks[0], blocks[1]] + blocks[2..][..|blocks[2..]| / 2 * 2]
  {
    assert |blocks[2..]| / 2 * 2 == |blocks| / 2 * 2 - 2;
  }

  lemma PackCons(b: byte, rest: seq<byte>)
    ensures Pack([b] + rest) == [High(b), Low(b)] + Pack(rest)
  {
    assert ([b] + rest)[1..] == rest;
  }

  /** A trailing odd symbol has no effect on the unpacked bytes. */
  lemma {:induction false} UnpackIgnoresOddTail(blocks: seq<nibble>)
    requires |blocks| % 2 == 1
    ensures Unpack(blocks) == Unpack(blocks[..|blocks| - 1])
  {
    if |blocks| > 1 {
      assert blocks[..|blocks| - 1][2..] == blocks[2..][..|blocks[2..]| - 1];
      UnpackIgnoresOddTail(blocks[2..]);
    }
  }

  /** Packing one more byte appends its two nibbles. */
  lemma {:induction false} PackSnoc(buf: seq<byte>, b: byte)
    ensures Pack(buf + [b]) == Pack(buf) + [High(b), Low(b)]
  {
    if |buf| > 0 {
      assert (buf + [b])[1..] == buf[1..] + [b];
      PackSnoc(buf[1..], b);
    }
  }

  /** The nibble loop of `encodeData`: for each byte push the high nibble, then
      the low nibble. */
  method PackBytes(buffer: seq<byte>) returns (nibbles: seq<nibble>)
    ensures nibbles == Pack(buffer)
  {
    nibbles := [];
    var i := 0;
    while i < |buffer|
      invariant 0 <= i <= |buffer|
      invariant nibbles == Pack(buffer[..i])
    {
      var b := buffer[i];
      assert buffer[..i + 1] == buffer[..i] + [b];
      PackSnoc(buffer[..i], b);
      nibbles := nibbles + [High(b)];
      nibbles := nibbles + [Low(b)];
      i := i + 1;
    }
    assert buffer[..i] == buffer;
  }

  /** The byte loop of `decodeData`: `floor(n / 2)` bytes, byte `i` built from
      symbols `2i` and `2i + 1`. */
  method UnpackBlocks(blocks: seq<nibble>) returns (buffer: seq<byte>)
    ensures buffer == Unpack(blocks)
  {
    var byteLength := |blocks| / 2;
    buffer := [];
    var i := 0;
    while i < byteLength
      invariant 0 <= i <= byteLength
      invariant |buffer| == i
      invariant forall j :: 0 <= j < i ==> buffer[j] == Combine(blocks[2 * j], blocks[2 * j + 1])
    {
      var high := blocks[i * 2];
      var low := blocks[i * 2 + 1];
      buffer := buffer + [high as int * 16 + low];
      i := i + 1;
    }
  }

  /** On an 8-bit value the source's shift-and-mask spellings agree with the
      division and remainder used here. */
  lemma ShiftMaskAgree(x: bv8)
    ensures (x >> 4) & 15 == x / 16
    ensures x & 15 == x % 16
  {
  }

  /** On two 4-bit values the source's shift-and-or agrees with `high * 16 + low`. */
  lemma ShiftOrAgrees(high: bv8, low: bv8)
    requires high < 16 && low < 16
    ensures (high << 4) | low == high * 16 + low
  {
  }
}
