/**
 The block-read assembly loop of `read_audio_file`.

 The native reader is a script: the k-th `sox_read` call returns the k-th
 `Fill` of the script, that is, the raw `usize` result of the call and the
 contents of the 8192-sample buffer after it. Calls beyond the end of the
 script return the EOF sentinel. The loop
 - stops on the sentinel, appending nothing;
 - otherwise appends `buffer[..n]` (a slice that panics when n > 8192);
 - continues only while n == 8192, so a short read is appended and ends it.
 The handle is then closed once and the converter is mapped over the
 collected samples in order.

 `Collect` is the reference definition of what the loop gathers;
 `ReadAudioFile` is the loop itself, shown to agree with it; the lemmas
 characterise `Collect` without recursion.
 */
module AudioRead {
  import opened Native
  import opened SoxError
  import opened Sample
  import opened Seqs

  /** `SAMPLES`: the capacity of the reusable buffer and the requested count. */
  const SAMPLES: nat := 8192

  type Block = b: seq<i32> | |b| == 8192 witness seq(8192, _ => 0)

  /** One `sox_read` call: its raw result and the buffer contents after it. */
  datatype Fill = Fill(count: usize, block: Block)

  /** The handle events the loop causes, in order. */
  datatype Event = Read | Close

  /** What the loop gathers before the handle is closed: the native samples
      and the number of `sox_read` calls, or the slice panic on line 111. */
  datatype Collected =
    | Collected(raw: seq<i32>, calls: nat)
    | SliceOutOfBounds(calls: nat)

  /** The result of `read_audio_file`: it returns (always `Ok`), or it panics
      before closing the handle. */
  datatype Outcome =
    | Returned(result: Result<seq<real>, SoxErrorT>, trace: seq<Event>)
    | Panicked(trace: seq<Event>)

  function ZeroBlock(): Block {
    seq(SAMPLES, _ => 0)
  }

  /** The k-th read of the script; past its end the reader reports EOF. */
  function FillAt(script: seq<Fill>, k: nat): Fill {
    if k < |script| then script[k] else Fill(EOF_SENTINEL, ZeroBlock())
  }

  predicate IsEof(f: Fill) {
    f.count == EOF_SENTINEL
  }

  /** A result the slice on line 111 accepts: the sentinel or at most 8192. */
  predicate InBounds(f: Fill) {
    IsEof(f) || f.count <= SAMPLES
  }

  /** The samples one read contributes: nothing for the sentinel, otherwise
      the first `count` entries of the buffer. The loop never appends for an
      out-of-range count (it panics), so that case is clamped only to make the
      function total. */
  function Valid(f: Fill): seq<i32> {
    if IsEof(f) then [] else if f.count <= SAMPLES then f.block[..f.count] else f.block
  }

  /** The number of samples one read contributes. */
  function AppendedCount(f: Fill): nat {
    if IsEof(f) then 0 else f.count
  }

  /** The first `n` reads of the script. */
  function Consumed(script: seq<Fill>, n: nat): seq<Fill> {
    seq(n, j requires 0 <= j => FillAt(script, j))
  }

  /** The concatenation of the valid prefixes of `fills`, in order. */
  function ValidPrefixes(fills: seq<Fill>): seq<i32>
    decreases |fills|
  {
    if |fills| == 0 then []
    else ValidPrefixes(fills[..|fills| - 1]) + Valid(fills[|fills| - 1])
  }

  function SumCounts(fills: seq<Fill>): nat
    decreases |fills|
  {
    if |fills| == 0 then 0
    else SumCounts(fills[..|fills| - 1]) + AppendedCount(fills[|fills| - 1])
  }

  function Reads(n: nat): (t: seq<Event>)
    ensures |t| == n && forall i :: 0 <= i < n ==> t[i] == Read
  {
    seq(n, _ => Read)
  }

  /** Puts `acc`, gathered in `k` earlier full reads, in front of `c`. */
  function Shift(acc: seq<i32>, k: nat, c: Collected): Collected {
    match c
    case Collected(raw, n) => Collected(acc + raw, k + n)
    case SliceOutOfBounds(n) => SliceOutOfBounds(k + n)
  }

  /** Reference definition of the read loop on lines 105-120. At least one
      read happens, and at most one past the end of the script. */
  function Collect(script: seq<Fill>): (r: Collected)
    ensures 1 <= r.calls <= |script| + 1
    ensures r.Collected? ==> |r.raw| <= SAMPLES * r.calls
    decreases |script|
  {
    if |script| == 0 || IsEof(script[0]) then Collected([], 1)
    else if script[0].count > SAMPLES then SliceOutOfBounds(1)
    else if script[0].count != SAMPLES then Collected(script[0].block[..script[0].count], 1)
    else Shift(script[0].block, 1, Collect(script[1..]))
  }

  /** The converter mapped over the collected samples, index by index. */
  function ConvertAll(raw: seq<i32>): seq<real> {
    seq(|raw|, i requires 0 <= i < |raw| => SampleToFloat32(raw[i]))
  }

  /** The sequential form of the conversion on lines 127-130: the output has
      the input's length and order, and every value lies in [-1, 1]. */
  method ConvertSamples(raw: seq<i32>) returns (out: seq<real>)
    ensures |out| == |raw|
    ensures forall i :: 0 <= i < |raw| ==> out[i] == SampleToFloat32(raw[i])
    ensures out == ConvertAll(raw)
    ensures forall i :: 0 <= i < |out| ==> -1.0 <= out[i] <= 1.0
  {
    out := [];
    var i := 0;
    while i < |raw|
      invariant i <= |raw| && |out| == i
      invariant forall j :: 0 <= j < i ==> out[j] == SampleToFloat32(raw[j])
    {
      out := out + [SampleToFloat32(raw[i])];
      i := i + 1;
    }
  }

  /** The loop on lines 105-120 over the scripted reader. It gathers what
      `Collect` defines, and its trace is one `Read` per `sox_read` call. The
      invariant: the samples gathered so far are the concatenation of the
      valid prefixes of the reads so far, all of which were full. */
  method ReadLoop(script: seq<Fill>) returns (c: Collected, trace: seq<Event>)
    ensures c == Collect(script)
    ensures trace == Reads(c.calls)
  {
    var k: nat := 0;
    var acc: seq<i32> := [];
    trace := [];
    var buffer: Block := ZeroBlock();
    while true
      invariant k <= |script|
      invariant trace == Reads(k)
      invariant forall j :: 0 <= j < k ==> script[j].count == SAMPLES
      invariant acc == ValidPrefixes(script[..k])
      invariant Collect(script) == Shift(acc, k, Collect(script[k..]))
      decreases |script| - k
    {
      var f := FillAt(script, k);
      LoopExit(script, k, acc);
      buffer := f.block;
      ReadsSnoc(k);
      trace := trace + [Read];
      if f.count != EOF_SENTINEL {
        if f.count > SAMPLES {
          c := SliceOutOfBounds(k + 1);
          return;
        }
        if f.count != SAMPLES {
          acc := acc + buffer[..f.count];
          c := Collected(acc, k + 1);
          return;
        }
        LoopStep(script, k, acc);
        acc := acc + buffer[..f.count];
        buffer := ZeroBlock();
        k := k + 1;
      } else {
        c := Collected(acc, k + 1);
        return;
      }
    }
  }

  /** `read_audio_file` after the open: the read loop, then one close, then
      the conversion. It returns `Ok` on every path that returns; the handle
      is closed exactly once, after the last read; a read result the slice
      rejects panics before the close. */
  method ReadAudioFile(script: seq<Fill>) returns (out: Outcome)
    ensures out.Panicked? <==> Collect(script).SliceOutOfBounds?
    ensures out.Returned? ==>
      && out.result.Ok?
      && out.trace == Reads(Collect(script).calls) + [Close]
      && |out.result.value| == |Collect(script).raw|
      && (forall i :: 0 <= i < |out.result.value| ==>
            out.result.value[i] == SampleToFloat32(Collect(script).raw[i]))
      && out.result.value == ConvertAll(Collect(script).raw)
    ensures out.Panicked? ==> out.trace == Reads(Collect(script).calls)
    ensures Close in out.trace ==> out.Returned?
  {
    var c, trace := ReadLoop(script);
    if c.SliceOutOfBounds? {
      return Panicked(trace);
    }
    trace := trace + [Close];
    var converted := ConvertSamples(c.raw);
    out := Returned(Ok(converted), trace);
  }

  /** One step of `Collect` on the suffix of the script from read `k` on. */
  lemma CollectUnfold(script: seq<Fill>, k: nat)
    requires k <= |script|
    ensures IsEof(FillAt(script, k)) ==> Collect(script[k..]) == Collected([], 1)
    ensures !InBounds(FillAt(script, k)) ==> Collect(script[k..]) == SliceOutOfBounds(1)
    ensures !IsEof(FillAt(script, k)) && FillAt(script, k).count < SAMPLES ==>
      Collect(script[k..]) == Collected(FillAt(script, k).block[..FillAt(script, k).count], 1)
    ensures FillAt(script, k).count == SAMPLES ==>
      k < |script| && Collect(script[k..]) == Shift(script[k].block, 1, Collect(script[k + 1..]))
  {
    if k < |script| {
      assert script[k..][0] == script[k];
      assert script[k..][1..] == script[k + 1..];
    }
  }

  /** The loop leaves on read `k` exactly as `Collect` ends. */
  lemma LoopExit(script: seq<Fill>, k: nat, acc: seq<i32>)
    requires k <= |script|
    requires Collect(script) == Shift(acc, k, Collect(script[k..]))
    ensures var f := FillAt(script, k);
      && (IsEof(f) ==> Collect(script) == Collected(acc, k + 1))
      && (!InBounds(f) ==> Collect(script) == SliceOutOfBounds(k + 1))
      && (!IsEof(f) && f.count < SAMPLES ==> Collect(script) == Collected(acc + f.block[..f.count], k + 1))
  {
    CollectUnfold(script, k);
  }

  /** A full read keeps the loop invariant with `k + 1` reads. */
  lemma LoopStep(script: seq<Fill>, k: nat, acc: seq<i32>)
    requires k < |script| && script[k].count == SAMPLES
    requires forall j :: 0 <= j < k ==> script[j].count == SAMPLES
    requires acc == ValidPrefixes(script[..k])
    requires Collect(script) == Shift(acc, k, Collect(script[k..]))
    ensures acc + script[k].block == ValidPrefixes(script[..k + 1])
    ensures Collect(script) == Shift(acc + script[k].block, k + 1, Collect(script[k + 1..]))
  {
    StepCollect(script, k, acc);
    StepPrefixes(script, k);
  }

  lemma StepCollect(script: seq<Fill>, k: nat, acc: seq<i32>)
    requires k < |script| && script[k].count == SAMPLES
    requires Collect(script) == Shift(acc, k, Collect(script[k..]))
    ensures Collect(script) == Shift(acc + script[k].block, k + 1, Collect(script[k + 1..]))
  {
    var b := script[k].block;
    CollectUnfold(script, k);
    var rest := Collect(script[k + 1..]);
    assert Collect(script[k..]) == Shift(b, 1, rest);
    match rest
    case Collected(raw, n) =>
      assert acc + (b + raw) == (acc + b) + raw;
    case SliceOutOfBounds(n) =>
  }

  lemma StepPrefixes(script: seq<Fill>, k: nat)
    requires k < |script| && script[k].count == SAMPLES
    requires forall j :: 0 <= j < k ==> script[j].count == SAMPLES
    ensures ValidPrefixes(script[..k]) + script[k].block == ValidPrefixes(script[..k + 1])
  {
    var f := script[k];
    var prefix := script[..k + 1];
    assert prefix[..k] == script[..k] && prefix[k] == f;
    assert Valid(f) == f.block;
  }

  lemma ReadsSnoc(n: nat)
    ensures Reads(n) + [Read] == Reads(n + 1)
  {
  }

  lemma FillAtTail(script: seq<Fill>, j: nat)
    requires |script| > 0
    ensures FillAt(script[1..], j) == FillAt(script, j + 1)
  {
  }

  lemma ConsumedTail(script: seq<Fill>, n: nat)
    requires |script| > 0
    ensures Consumed(script, n + 1) == [script[0]] + Consumed(script[1..], n)
  {
    forall j | 0 <= j < n
      ensures Consumed(script, n + 1)[j + 1] == Consumed(script[1..], n)[j]
    {
      FillAtTail(script, j);
    }
  }

  /** `ValidPrefixes` unfolded from the front. */
  lemma {:induction false} ValidPrefixesCons(f: Fill, fills: seq<Fill>)
    ensures ValidPrefixes([f] + fills) == Valid(f) + ValidPrefixes(fills)
    decreases |fills|
  {
    var all := [f] + fills;
    if |fills| > 0 {
      var init := fills[..|fills| - 1];
      assert all[..|all| - 1] == [f] + init;
      assert all[|all| - 1] == fills[|fills| - 1];
      ValidPrefixesCons(f, init);
    } else {
      assert all[..0] == [];
    }
  }

  /** The sum of the counts of `fills` is the length of their valid prefixes. */
  lemma {:induction false} ValidPrefixesLength(fills: seq<Fill>)
    requires forall j :: 0 <= j < |fills| ==> InBounds(fills[j])
    ensures |ValidPrefixes(fills)| == SumCounts(fills)
    decreases |fills|
  {
    if |fills| > 0 {
      ValidPrefixesLength(fills[..|fills| - 1]);
    }
  }

  /** The loop reads up to and including the first read that is not a full
      block (the sentinel, a short read, or an out-of-range count), and no
      further; it panics exactly when that read's count is out of range. */
  lemma {:induction false} CollectStopsAtFirstShortRead(script: seq<Fill>)
    ensures forall j :: 0 <= j < Collect(script).calls - 1 ==> script[j].count == SAMPLES
    ensures FillAt(script, Collect(script).calls - 1).count != SAMPLES
    ensures Collect(script).SliceOutOfBounds? <==>
      !InBounds(FillAt(script, Collect(script).calls - 1))
    decreases |script|
  {
    if |script| > 0 && !IsEof(script[0]) && script[0].count == SAMPLES {
      var tail := script[1..];
      CollectStopsAtFirstShortRead(tail);
      var k := Collect(tail).calls;
      assert Collect(script).calls == k + 1;
      FillAtTail(script, k - 1);
      forall j | 0 <= j < k
        ensures script[j].count == SAMPLES
      {
        if j > 0 {
          assert script[j] == tail[j - 1];
        }
      }
    }
  }

  /** Every read a successful loop makes returned the sentinel or at most
      8192 samples. */
  lemma {:induction false} CollectReadsInBounds(script: seq<Fill>)
    requires Collect(script).Collected?
    ensures forall j :: 0 <= j < Collect(script).calls ==> InBounds(FillAt(script, j))
    decreases |script|
  {
    if |script| > 0 && !IsEof(script[0]) && script[0].count == SAMPLES {
      var tail := script[1..];
      CollectReadsInBounds(tail);
      forall j | 0 <= j < Collect(script).calls
        ensures InBounds(FillAt(script, j))
      {
        if j > 0 {
          FillAtTail(script, j - 1);
        }
      }
    }
  }

  /** What a successful loop gathers is the concatenation, in read order, of
      the valid prefixes of every read it made: nothing from stale buffer
      entries, nothing duplicated or dropped at block boundaries. */
  lemma {:induction false} CollectIsValidPrefixes(script: seq<Fill>)
    requires Collect(script).Collected?
    ensures forall j :: 0 <= j < Collect(script).calls ==> InBounds(FillAt(script, j))
    ensures Collect(script).raw == ValidPrefixes(Consumed(script, Collect(script).calls))
    decreases |script|
  {
    CollectReadsInBounds(script);
    if |script| > 0 && !IsEof(script[0]) && script[0].count == SAMPLES {
      var tail := script[1..];
      CollectIsValidPrefixes(tail);
      FullReadPrefixes(script, Collect(tail).calls);
    } else {
      LastReadPrefix(script);
    }
  }

  /** A full first read followed by the `n` reads of the tail. */
  lemma FullReadPrefixes(script: seq<Fill>, n: nat)
    requires |script| > 0 && script[0].count == SAMPLES
    ensures ValidPrefixes(Consumed(script, n + 1))
         == script[0].block + ValidPrefixes(Consumed(script[1..], n))
  {
    var tail := script[1..];
    ConsumedTail(script, n);
    ValidPrefixesCons(script[0], Consumed(tail, n));
    assert Valid(script[0]) == script[0].block;
  }

  /** A loop that ends on its first read gathers that read's valid prefix. */
  lemma LastReadPrefix(script: seq<Fill>)
    requires Collect(script).Collected?
    requires |script| == 0 || IsEof(script[0]) || script[0].count != SAMPLES
    ensures InBounds(FillAt(script, 0))
    ensures Collect(script).raw == ValidPrefixes(Consumed(script, 1))
  {
    var f := FillAt(script, 0);
    assert Consumed(script, 1) == [f];
    assert [f][..0] == [];
  }

  /** The number of samples gathered is the sum of the counts of the reads
      made, the sentinel counting zero. */
  lemma CollectLength(script: seq<Fill>)
    requires Collect(script).Collected?
    ensures |Collect(script).raw| == SumCounts(Consumed(script, Collect(script).calls))
  {
    CollectIsValidPrefixes(script);
    ValidPrefixesLength(Consumed(script, Collect(script).calls));
  }

  /** A reader that keeps to `sox_read`'s bound never makes the loop panic. */
  lemma NoPanicWhenCountsInBounds(script: seq<Fill>)
    requires forall j :: 0 <= j < |script| ==> InBounds(script[j])
    ensures Collect(script).Collected?
  {
    CollectStopsAtFirstShortRead(script);
  }

  /** Reads after the one that ends the loop are never made: extending the
      script past that point changes nothing. */
  lemma {:induction false} CollectIgnoresLaterReads(script: seq<Fill>, later: seq<Fill>)
    requires Collect(script).calls <= |script|
    ensures Collect(script + later) == Collect(script)
    decreases |script|
  {
    var all := script + later;
    assert all[0] == script[0];
    if !IsEof(script[0]) && script[0].count == SAMPLES {
      assert all[1..] == script[1..] + later;
      CollectIgnoresLaterReads(script[1..], later);
    }
  }

  /** Converting the concatenation equals concatenating the conversions. */
  lemma ConvertAllAppend(a: seq<i32>, b: seq<i32>)
    ensures ConvertAll(a + b) == ConvertAll(a) + ConvertAll(b)
  {
  }

  /** The parallel map on line 128 splits the samples into contiguous pieces
      and converts each: whatever the split, the collected result is the
      sequential conversion, in the original order. */
  lemma {:induction false} ConvertPiecesInOrder(pieces: seq<seq<i32>>)
    ensures Flatten(seq(|pieces|, i requires 0 <= i < |pieces| => ConvertAll(pieces[i])))
         == ConvertAll(Flatten(pieces))
    decreases |pieces|
  {
    var converted := seq(|pieces|, i requires 0 <= i < |pieces| => ConvertAll(pieces[i]));
    if |pieces| > 0 {
      var rest := pieces[1..];
      ConvertPiecesInOrder(rest);
      assert converted[1..] == seq(|rest|, i requires 0 <= i < |rest| => ConvertAll(rest[i]));
      ConvertAllAppend(pieces[0], Flatten(rest));
    }
  }
}
