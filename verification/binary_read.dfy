/**
 The chunk loop of `read_binary_file`, which parses a raw file of packed
 little-endian 32-bit words.

 The file is a script of chunks: the k-th `read` into the 8192-byte buffer
 returns the k-th chunk, and reads past the end of the script return zero
 bytes, as a reader at end of file does. A zero-byte read ends the loop;
 every other chunk of `b` bytes contributes `b / 4` words, each decoded
 little-endian from four consecutive bytes, and its last `b % 4` bytes are
 dropped. Words are kept as their 32-bit patterns; reading them as `f32` is
 not modelled.

 Dropping the leftover bytes of every chunk, not only of the last one, loses
 the word alignment whenever a read stops short of a multiple of four before
 the end of the file. `ReadBinary` models the loop as written and
 `ReadBinaryMisaligns` exhibits the loss; `ReadBinaryStream` carries the
 leftover bytes into the next chunk and decodes the whole byte stream.
 */
module BinaryRead {
  import opened Native
  import opened Seqs

  /** The size of the reusable byte buffer. */
  const BUFFER_BYTES: nat := 8192

  /** What one `read` call delivers: at most a buffer's worth of bytes. */
  type Chunk = c: seq<u8> | |c| <= BUFFER_BYTES

  /** One word from four bytes, least significant byte first. */
  function DecodeWord(b: seq<u8>): (w: u32)
    requires |b| == 4
  {
    b[0] as int + 0x100 * b[1] as int + 0x1_0000 * b[2] as int + 0x100_0000 * b[3] as int
  }

  /** The four little-endian bytes of a word. */
  function EncodeWord(w: u32): (b: seq<u8>)
    ensures |b| == 4
  {
    [w % 0x100, (w / 0x100) % 0x100, (w / 0x1_0000) % 0x100, w / 0x100_0000]
  }

  /** Encoding a word and decoding the bytes gives the word back. */
  lemma EncodeThenDecode(w: u32)
    ensures DecodeWord(EncodeWord(w)) == w
  {
    var q1, b0 := w / 0x100, w % 0x100;
    var q2, b1 := q1 / 0x100, q1 % 0x100;
    var b3, b2 := q2 / 0x100, q2 % 0x100;
    assert w == 0x1_0000 * q2 + 0x100 * b1 + b0;
    DivModUnique(w, 0x1_0000, q2, 0x100 * b1 + b0);
    assert w == 0x100_0000 * b3 + 0x1_0000 * b2 + 0x100 * b1 + b0;
    DivModUnique(w, 0x100_0000, b3, 0x1_0000 * b2 + 0x100 * b1 + b0);
  }

  /** Decoding four bytes and encoding the word gives the bytes back. */
  lemma DecodeThenEncode(b: seq<u8>)
    requires |b| == 4
    ensures EncodeWord(DecodeWord(b)) == b
  {
    var w := DecodeWord(b);
    var c0, c1, c2, c3: int := b[0], b[1], b[2], b[3];
    DivModUnique(w, 0x100, c1 + 0x100 * c2 + 0x1_0000 * c3, c0);
    DivModUnique(w / 0x100, 0x100, c2 + 0x100 * c3, c1);
    DivModUnique(w, 0x1_0000, c2 + 0x100 * c3, c0 + 0x100 * c1);
    DivModUnique(w / 0x1_0000, 0x100, c3, c2);
    DivModUnique(w, 0x100_0000, c3, c0 + 0x100 * c1 + 0x1_0000 * c2);
  }

  /** `read_f32_into` over a slice of bytes: one word for every complete
      group of four bytes, in order; the bytes after the last complete group
      are not read. */
  function DecodeWords(bytes: seq<u8>): (ws: seq<u32>)
    ensures |ws| == |bytes| / 4
    ensures forall i :: 0 <= i < |ws| ==> ws[i] == DecodeWord(bytes[4 * i..4 * i + 4])
    decreases |bytes|
  {
    if |bytes| < 4 then []
    else
      var rest := DecodeWords(bytes[4..]);
      DropWordShift(bytes);
      [DecodeWord(bytes[..4])] + rest
  }

  /** Word j of the bytes after the first word is word j + 1 of all the bytes. */
  lemma DropWordShift(bytes: seq<u8>)
    requires |bytes| >= 4
    ensures forall j :: 0 <= j < (|bytes| - 4) / 4 ==>
      bytes[4..][4 * j..4 * j + 4] == bytes[4 * (j + 1)..4 * (j + 1) + 4]
  {
    forall j | 0 <= j < (|bytes| - 4) / 4
      ensures bytes[4..][4 * j..4 * j + 4] == bytes[4 * (j + 1)..4 * (j + 1) + 4]
    {
      var lo := 4 * j + 4;
      assert 4 * (j + 1) == lo;
      var w := bytes[4..][4 * j..4 * j + 4];
      assert forall t :: 0 <= t < 4 ==> w[t] == bytes[lo + t];
    }
  }

  /** The little-endian bytes of a sequence of words. */
  function EncodeWords(ws: seq<u32>): (bytes: seq<u8>)
    ensures |bytes| == 4 * |ws|
    decreases |ws|
  {
    if |ws| == 0 then [] else EncodeWord(ws[0]) + EncodeWords(ws[1..])
  }

  /** Decoding the bytes of some words, followed by fewer than four stray
      bytes, gives back exactly those words: the stray bytes are dropped. */
  lemma {:induction false} DecodeEncodeWords(ws: seq<u32>, tail: seq<u8>)
    requires |tail| < 4
    ensures DecodeWords(EncodeWords(ws) + tail) == ws
    decreases |ws|
  {
    if |ws| > 0 {
      var bytes := EncodeWords(ws) + tail;
      assert bytes[..4] == EncodeWord(ws[0]);
      assert bytes[4..] == EncodeWords(ws[1..]) + tail;
      DecodeEncodeWords(ws[1..], tail);
      EncodeThenDecode(ws[0]);
    }
  }

  /** Decoding splits at any boundary that is a multiple of four. */
  lemma DecodeWordsAppend(a: seq<u8>, b: seq<u8>)
    requires |a| % 4 == 0
    ensures DecodeWords(a + b) == DecodeWords(a) + DecodeWords(b)
  {
    var l, r := DecodeWords(a + b), DecodeWords(a) + DecodeWords(b);
    assert |l| == |r|;
    forall i | 0 <= i < |l|
      ensures l[i] == r[i]
    {
      var w := (a + b)[4 * i..4 * i + 4];
      if i < |a| / 4 {
        assert forall t :: 0 <= t < 4 ==> w[t] == a[4 * i + t];
        assert w == a[4 * i..4 * i + 4];
      } else {
        var j := i - |a| / 4;
        assert 4 * i == |a| + 4 * j;
        assert forall t :: 0 <= t < 4 ==> w[t] == b[4 * j + t];
        assert w == b[4 * j..4 * j + 4];
      }
    }
  }

  /** The index of the first zero-byte read: the chunks before it are the
      ones the loop decodes. */
  function FirstEmpty(script: seq<Chunk>): (n: nat)
    ensures n <= |script|
    ensures forall j :: 0 <= j < n ==> |script[j]| > 0
    ensures n < |script| ==> |script[n]| == 0
    decreases |script|
  {
    if |script| == 0 || |script[0]| == 0 then 0 else 1 + FirstEmpty(script[1..])
  }

  /** The loop on lines 148-170 as written: each chunk up to the first empty
      one is decoded on its own. */
  function ReadBinary(script: seq<Chunk>): seq<u32>
    decreases |script|
  {
    if |script| == 0 || |script[0]| == 0 then []
    else DecodeWords(script[0]) + ReadBinary(script[1..])
  }

  /** The words decoded from each chunk separately, concatenated. */
  function PerChunk(chunks: seq<Chunk>): seq<u32> {
    Flatten(seq(|chunks|, i requires 0 <= i < |chunks| => DecodeWords(chunks[i])))
  }

  /** The total number of words: a quarter of each chunk, rounded down. */
  function QuarterSum(chunks: seq<Chunk>): nat
    decreases |chunks|
  {
    if |chunks| == 0 then 0 else |chunks[0]| / 4 + QuarterSum(chunks[1..])
  }

  /** The loop over the scripted reader. The invariant: the words so far
      are those of the chunks read so far, none of which was empty. */
  method ReadBinaryFile(script: seq<Chunk>) returns (words: seq<u32>)
    ensures words == PerChunk(script[..FirstEmpty(script)])
    ensures |words| == QuarterSum(script[..FirstEmpty(script)])
  {
    words := [];
    var k := 0;
    while true
      invariant k <= FirstEmpty(script)
      invariant words + ReadBinary(script[k..]) == ReadBinary(script)
      decreases |script| - k
    {
      var chunk: Chunk := if k < |script| then script[k] else [];
      if |chunk| == 0 {
        break;
      }
      ReadBinaryStep(script, k);
      words := words + DecodeWords(chunk[..|chunk|]);
      assert chunk[..|chunk|] == chunk;
      k := k + 1;
    }
    ReadBinaryIsPerChunk(script);
    ReadBinaryLength(script);
  }

  /** One pass of the loop: a nonempty read `k` is decoded in front of the
      rest, and the loop ends exactly at the first empty read. */
  lemma ReadBinaryStep(script: seq<Chunk>, k: nat)
    requires k <= FirstEmpty(script)
    ensures k == FirstEmpty(script) ==> ReadBinary(script[k..]) == []
    ensures k < FirstEmpty(script) ==>
      && k < |script| && |script[k]| > 0
      && ReadBinary(script[k..]) == DecodeWords(script[k]) + ReadBinary(script[k + 1..])
  {
    if k < |script| {
      assert script[k..][0] == script[k];
      assert script[k..][1..] == script[k + 1..];
    }
  }

  /** The loop as written decodes every chunk before the first empty read
      separately and concatenates the results. */
  lemma {:induction false} ReadBinaryIsPerChunk(script: seq<Chunk>)
    ensures ReadBinary(script) == PerChunk(script[..FirstEmpty(script)])
    decreases |script|
  {
    var n := FirstEmpty(script);
    var taken := script[..n];
    if n > 0 {
      var rest := script[1..];
      ReadBinaryIsPerChunk(rest);
      assert rest[..n - 1] == taken[1..];
      var decoded := seq(|taken|, i requires 0 <= i < |taken| => DecodeWords(taken[i]));
      assert decoded[1..] == seq(|taken[1..]|, i requires 0 <= i < |taken[1..]| => DecodeWords(taken[1..][i]));
    }
  }

  /** Each chunk contributes `len / 4` words. */
  lemma {:induction false} ReadBinaryLength(script: seq<Chunk>)
    ensures |ReadBinary(script)| == QuarterSum(script[..FirstEmpty(script)])
    decreases |script|
  {
    var n := FirstEmpty(script);
    if n > 0 {
      ReadBinaryLength(script[1..]);
      assert script[1..][..n - 1] == script[..n][1..];
    }
  }

  // ---------------------------------------------------------------------
  // The intended behaviour: decode the file as one stream of bytes.
  // ---------------------------------------------------------------------

  /** The bytes of the file the loop reads: the chunks before the first
      empty read, concatenated. */
  function StreamBytes(script: seq<Chunk>): seq<u8> {
    Flatten(script[..FirstEmpty(script)])
  }

  /** Concrete input: a reader that delivers the bytes 00 00 80 3F (the
      single-precision 1.0) as a read of three bytes and then a read of one.
      The loop as written drops both pieces and returns no word, while the
      file holds one. */
  lemma ReadBinaryMisaligns()
    ensures var script: seq<Chunk> := [[0x00, 0x00, 0x80], [0x3F]];
      && ReadBinary(script) == []
      && DecodeWords(StreamBytes(script)) == [0x3F80_0000]
  {
    var script: seq<Chunk> := [[0x00, 0x00, 0x80], [0x3F]];
    assert FirstEmpty(script[1..][1..]) == 0;
    assert FirstEmpty(script) == 2;
    assert script[..2] == script;
    assert Flatten(script) == [0x00, 0x00, 0x80, 0x3F] by {
      assert Flatten(script[1..][1..]) == [];
    }
  }

  /** As written, the loop still decodes the whole stream when every read
      but the last returns a multiple of four bytes. */
  lemma {:induction false} ReadBinaryAlignedIsStream(script: seq<Chunk>)
    requires forall j :: 0 <= j < FirstEmpty(script) - 1 ==> |script[j]| % 4 == 0
    ensures ReadBinary(script) == DecodeWords(StreamBytes(script))
    decreases |script|
  {
    var n := FirstEmpty(script);
    if n > 0 {
      var rest := script[1..];
      assert FirstEmpty(rest) == n - 1;
      assert script[..n] == [script[0]] + rest[..n - 1];
      assert Flatten(script[..n]) == script[0] + Flatten(rest[..n - 1]);
      if n == 1 {
        assert FirstEmpty(rest) == 0;
        assert Flatten(rest[..0]) == [];
        assert script[0] + [] == script[0];
      } else {
        forall j | 0 <= j < FirstEmpty(rest) - 1
          ensures |rest[j]| % 4 == 0
        {
          assert rest[j] == script[j + 1];
        }
        ReadBinaryAlignedIsStream(rest);
        DecodeWordsAppend(script[0], Flatten(rest[..n - 1]));
      }
    }
  }

  /** The corrected loop: the bytes left over after the last complete word
      of a chunk are kept and put in front of the next chunk. */
  function ReadCarrying(script: seq<Chunk>, pending: seq<u8>): seq<u32>
    decreases |script|
  {
    if |script| == 0 || |script[0]| == 0 then []
    else
      var bytes := pending + script[0];
      var used := |bytes| / 4 * 4;
      DecodeWords(bytes) + ReadCarrying(script[1..], bytes[used..])
  }

  function ReadBinaryStream(script: seq<Chunk>): (ws: seq<u32>)
    ensures ws == DecodeWords(StreamBytes(script))
  {
    ReadCarryingIsStream(script, []);
    assert [] + StreamBytes(script) == StreamBytes(script);
    ReadCarrying(script, [])
  }

  /** With leftovers carried, the loop decodes the pending bytes (fewer
      than a word) followed by the whole stream, however the reads split it. */
  lemma {:induction false} ReadCarryingIsStream(script: seq<Chunk>, pending: seq<u8>)
    requires |pending| < 4
    ensures ReadCarrying(script, pending) == DecodeWords(pending + StreamBytes(script))
    decreases |script|
  {
    var n := FirstEmpty(script);
    if n == 0 {
      assert StreamBytes(script) == [];
      assert pending + [] == pending;
    } else {
      var bytes := pending + script[0];
      var used := |bytes| / 4 * 4;
      ReadCarryingIsStream(script[1..], bytes[used..]);
      StreamBytesCons(script);
      assert pending + StreamBytes(script) == bytes + StreamBytes(script[1..]);
      DecodeCarryStep(bytes, StreamBytes(script[1..]));
    }
  }

  /** A nonempty first read is the head of the stream. */
  lemma StreamBytesCons(script: seq<Chunk>)
    requires FirstEmpty(script) > 0
    ensures StreamBytes(script) == script[0] + StreamBytes(script[1..])
  {
    var n := FirstEmpty(script);
    var rest := script[1..];
    assert FirstEmpty(rest) == n - 1;
    assert script[..n] == [script[0]] + rest[..n - 1];
  }

  /** Decoding `bytes` then the stream equals decoding the complete words of
      `bytes`, then the leftover bytes followed by the stream. */
  lemma DecodeCarryStep(bytes: seq<u8>, stream: seq<u8>)
    ensures DecodeWords(bytes + stream)
         == DecodeWords(bytes) + DecodeWords(bytes[|bytes| / 4 * 4..] + stream)
  {
    var used := |bytes| / 4 * 4;
    assert bytes + stream == bytes[..used] + (bytes[used..] + stream);
    DecodeWordsAppend(bytes[..used], bytes[used..] + stream);
    DecodeWordsAppend(bytes[..used], bytes[used..]);
    assert bytes[..used] + bytes[used..] == bytes;
    DecodeWordsShort(bytes[used..]);
  }

  lemma DecodeWordsShort(bytes: seq<u8>)
    ensures |bytes| < 4 ==> DecodeWords(bytes) == []
  {
  }
}
