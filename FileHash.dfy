/**
  `calculate_file_hash` of raio.py: the file is read in blocks of 4096 bytes
  until a read returns no bytes, each block is fed to a SHA-256 object, and
  the hexadecimal digest is returned. The open file and the hash object are
  modelled as classes; the SHA-256 compression function itself is a given
  function from the bytes absorbed to the 32-byte digest.
 */
module FileHash {

  newtype byte = x: int | 0 <= x < 256

  /** The block size of the reading loop. */
  const BlockSize: nat := 4096

  /** A file opened with mode "rb": its whole content and the read position. */
  class BinaryReader {
    const content: seq<byte>
    var pos: nat

    constructor (content: seq<byte>)
      ensures this.content == content && pos == 0
    {
      this.content := content;
      pos := 0;
    }

    /** `f.read(n)`: up to `n` bytes from the read position; no bytes at the
        end of the file. */
    method Read(n: nat) returns (block: seq<byte>)
      requires pos <= |content|
      modifies this
      ensures old(pos) + |block| == pos <= |content|
      ensures |block| == if old(pos) + n <= |content| then n else |content| - old(pos)
      ensures block == content[old(pos)..pos]
    {
      var end := if pos + n <= |content| then pos + n else |content|;
      block := content[pos..end];
      pos := end;
    }
  }

  /** `hashlib.sha256()`: the bytes absorbed so far, and the digest function. */
  class Sha256 {
    const digestOf: seq<byte> -> seq<byte>
    var absorbed: seq<byte>

    constructor (digestOf: seq<byte> -> seq<byte>)
      ensures this.digestOf == digestOf && absorbed == []
    {
      this.digestOf := digestOf;
      absorbed := [];
    }

    /** `update(data)`: the data is absorbed after what came before. */
    method Update(data: seq<byte>)
      modifies this
      ensures absorbed == old(absorbed) + data
    {
      absorbed := absorbed + data;
    }

    /** `hexdigest()`: the digest of everything absorbed, in lower-case hex. */
    method HexDigest() returns (hex: string)
      ensures hex == Hex(digestOf(absorbed))
    {
      hex := Hex(digestOf(absorbed));
    }
  }

  /** The lower-case hexadecimal digit of a value below 16. */
  function HexDigit(d: int): (c: char)
    requires 0 <= d < 16
    ensures IsHexDigit(c)
  {
    if d < 10 then ('0' as int + d) as char else ('a' as int + d - 10) as char
  }

  predicate IsHexDigit(c: char) {
    '0' <= c <= '9' || 'a' <= c <= 'f'
  }

  /** The value of a lower-case hexadecimal digit. */
  function DigitValue(c: char): (d: int)
    requires IsHexDigit(c)
    ensures 0 <= d < 16
  {
    if c <= '9' then c as int - '0' as int else c as int - 'a' as int + 10
  }

  lemma DigitRoundTrip(d: int)
    requires 0 <= d < 16
    ensures DigitValue(HexDigit(d)) == d
  {
  }

  /** Two digits per byte, high nibble first. */
  function Hex(bs: seq<byte>): string
  {
    if |bs| == 0 then ""
    else [HexDigit(bs[0] as int / 16), HexDigit(bs[0] as int % 16)] + Hex(bs[1..])
  }

  /** The bytes written by `Hex`, read back. */
  function Unhex(s: string): seq<byte>
    requires |s| % 2 == 0 && forall i :: 0 <= i < |s| ==> IsHexDigit(s[i])
  {
    if |s| == 0 then []
    else [(DigitValue(s[0]) * 16 + DigitValue(s[1])) as byte] + Unhex(s[2..])
  }

  /** A digest is written with two lower-case hex digits per byte. */
  lemma {:induction false} HexShape(bs: seq<byte>)
    ensures |Hex(bs)| == 2 * |bs|
    ensures forall i :: 0 <= i < |Hex(bs)| ==> IsHexDigit(Hex(bs)[i])
  {
    if |bs| > 0 {
      HexShape(bs[1..]);
      var h := Hex(bs);
      var rest := Hex(bs[1..]);
      assert h == [h[0], h[1]] + rest;
      forall i | 2 <= i < |h| ensures IsHexDigit(h[i]) {
        assert h[i] == rest[i - 2];
      }
    }
  }

  /** The hex form determines the bytes: reading it back gives them again. */
  lemma {:induction false} HexRoundTrip(bs: seq<byte>)
    ensures |Hex(bs)| % 2 == 0 && forall i :: 0 <= i < |Hex(bs)| ==> IsHexDigit(Hex(bs)[i])
    ensures Unhex(Hex(bs)) == bs
  {
    HexShape(bs);
    if |bs| > 0 {
      var h := Hex(bs);
      var hi, lo := bs[0] as int / 16, bs[0] as int % 16;
      DigitRoundTrip(hi);
      DigitRoundTrip(lo);
      assert h[2..] == Hex(bs[1..]);
      HexRoundTrip(bs[1..]);
      assert (hi * 16 + lo) as byte == bs[0];
    }
  }

  /** The blocks the reading loop produces: full blocks of `BlockSize` bytes,
      then the rest if any. */
  function Chunks(data: seq<byte>): seq<seq<byte>>
    decreases |data|
  {
    if |data| == 0 then []
    else if |data| <= BlockSize then [data]
    else [data[..BlockSize]] + Chunks(data[BlockSize..])
  }

  function Flatten(blocks: seq<seq<byte>>): seq<byte>
  {
    if |blocks| == 0 then [] else blocks[0] + Flatten(blocks[1..])
  }

  /** Every byte is fed exactly once and in order, in blocks of 1 to
      `BlockSize` bytes of which only the last may be short. */
  lemma {:induction false} ChunksMeaning(data: seq<byte>)
    decreases |data|
    ensures Flatten(Chunks(data)) == data
    ensures forall k :: 0 <= k < |Chunks(data)| ==> 0 < |Chunks(data)[k]| <= BlockSize
    ensures forall k :: 0 <= k < |Chunks(data)| - 1 ==> |Chunks(data)[k]| == BlockSize
  {
    if |data| > BlockSize {
      var rest := data[BlockSize..];
      ChunksMeaning(rest);
      var cs := Chunks(data);
      assert cs == [data[..BlockSize]] + Chunks(rest);
      assert cs[1..] == Chunks(rest);
      forall k | 1 <= k < |cs| ensures cs[k] == Chunks(rest)[k - 1] {
      }
      assert data == data[..BlockSize] + rest;
    }
  }

  /** Where the loop stands after `pos` bytes of full blocks: the chunks of the
      data are the chunks read so far followed by the chunks of the rest. */
  lemma ChunksFrom(data: seq<byte>, pos: nat)
    requires pos < |data|
    ensures var n := if pos + BlockSize <= |data| then BlockSize else |data| - pos;
            Chunks(data[pos..]) == [data[pos..pos + n]] + Chunks(data[pos + n..])
  {
    var rest := data[pos..];
    if |rest| > BlockSize {
      assert rest[..BlockSize] == data[pos..pos + BlockSize];
      assert rest[BlockSize..] == data[pos + BlockSize..];
    } else {
      assert rest == data[pos..|data|];
      assert |data[|data|..]| == 0;
    }
  }

  lemma BlocksAssoc(a: seq<seq<byte>>, b: seq<seq<byte>>, c: seq<seq<byte>>)
    ensures (a + b) + c == a + (b + c)
  {
  }

  /** `calculate_file_hash` on a file holding `content`: the digest of the
      whole content, fed block by block as `Chunks` cuts it. */
  method CalculateFileHash(content: seq<byte>, digestOf: seq<byte> -> seq<byte>)
    returns (hex: string, ghost blocks: seq<seq<byte>>)
    ensures hex == Hex(digestOf(content))
    ensures blocks == Chunks(content)
  {
    var f := new BinaryReader(content);
    var sha256 := new Sha256(digestOf);
    blocks := [];
    while true
      invariant f.content == content && f.pos <= |content|
      invariant sha256.digestOf == digestOf
      invariant sha256.absorbed == content[..f.pos]
      invariant blocks + Chunks(content[f.pos..]) == Chunks(content)
      decreases |content| - f.pos
    {
      ghost var pos := f.pos;
      var block := f.Read(BlockSize);
      if |block| == 0 {
        break;
      }
      ChunksFrom(content, pos);
      assert Chunks(content[pos..]) == [block] + Chunks(content[f.pos..]);
      BlocksAssoc(blocks, [block], Chunks(content[f.pos..]));
      sha256.Update(block);
      assert content[..f.pos] == content[..pos] + block;
      blocks := blocks + [block];
    }
    assert content[..f.pos] == content;
    hex := sha256.HexDigest();
  }
}
