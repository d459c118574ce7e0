/** The grain player of hearnet.c: every captured packet bumps a pending-grain
    counter (PacketHandler); the audio callback (Process) zeroes the output
    buffer, is meant to lay one copy of a 44-sample grain per pending packet
    end to end from the start of the buffer, truncating the last one at the
    buffer's end, and resets the counter.

    As written, the callback mixes units: `len` and the `memcpy` length count
    bytes, while the destination `out + i*GRAIN_PERIOD` is an offset in floats.
    Each copy moves 44 bytes (22 samples, as raw bits) to a 176-byte stride,
    leaving gaps, and the truncation, computed in bytes, does not stop copies
    at the buffer's end. `CopyPlan` records the memory operations it issues,
    in bytes, so that the lemmas below can decide which of them stay inside the
    buffer. `GrainPlayer` is the callback as intended: every count in frames
    and each 16-bit sample converted to a float sample. */
module Grains {

  /** GRAIN_PERIOD: the length of the grain, in samples. */
  const GrainPeriod: nat := 44

  /** sizeof(jack_default_audio_sample_t): a 32-bit float. */
  const SampleBytes: nat := 4

  /** sizeof(short): one sample of the grain wavetable. */
  const ShortBytes: nat := 2

  /** The size of `grain_wavetable`, in bytes. */
  const GrainBytes: nat := GrainPeriod * ShortBytes

  /** `len`: the size of an nframes-sample output buffer, in bytes. */
  function BufferBytes(nframes: nat): (len: nat)
    ensures len == SampleBytes * nframes && len >= nframes
  {
    SampleBytes * nframes
  }

  // ---------------------------------------------------------------------------
  // Index arithmetic of the copy loop
  // ---------------------------------------------------------------------------

  /** The length of copy i into a buffer of `size` units: a whole grain,
      shortened by how far the grain would run past the end of the buffer. */
  function CopyLength(i: nat, size: nat): (n: int)
    ensures i * GrainPeriod <= size ==> 0 <= n <= GrainPeriod
    ensures i * GrainPeriod <= size ==>
      n == if size - i * GrainPeriod < GrainPeriod then size - i * GrainPeriod else GrainPeriod
    ensures i * GrainPeriod <= size ==> i * GrainPeriod + n <= size
  {
    var truncate := (i + 1) * GrainPeriod - size;
    GrainPeriod - (if truncate < 0 then 0 else truncate)
  }

  /** How many grains the loop copies before it stops: every pending one,
      unless it first meets a grain that starts past `size`. */
  function GrainsCopied(pending: nat, size: nat): (c: nat)
    ensures c <= pending
    ensures c == 0 || (c - 1) * GrainPeriod <= size
    ensures c < pending ==> c * GrainPeriod > size
  {
    var fit := size / GrainPeriod + 1;
    if pending < fit then pending else fit
  }

  /** The three facts GrainsCopied ensures single out one count. */
  lemma GrainsCopiedUnique(pending: nat, size: nat, c: nat)
    requires c <= pending
    requires c == 0 || (c - 1) * GrainPeriod <= size
    requires c < pending ==> c * GrainPeriod > size
    ensures c == GrainsCopied(pending, size)
  {
  }

  // ---------------------------------------------------------------------------
  // The callback as written, as a trace of memory operations in bytes
  // ---------------------------------------------------------------------------

  /** A `memset` or `memcpy` on the output buffer; `dest` and `bytes` in bytes
      from the start of the buffer, `src` in bytes from the start of the grain. */
  datatype MemOp =
    | MemSet(dest: int, bytes: int)
    | MemCopy(dest: int, src: int, bytes: int)

  /** Copy i as written: to float offset i*GRAIN_PERIOD, that is byte offset
      SampleBytes*i*GRAIN_PERIOD, with a length computed against `len` in bytes. */
  function AsWrittenCopy(i: nat, len: nat): (op: MemOp)
    ensures op.MemCopy? && op.dest == SampleBytes * (i * GrainPeriod) && op.src == 0
    ensures i * GrainPeriod <= len ==> 0 <= op.bytes <= GrainPeriod
  {
    MemCopy(SampleBytes * (i * GrainPeriod), 0, CopyLength(i, len))
  }

  /** The operation's destination range [dest, dest + bytes) lies within
      bytes [0, len) of the buffer. (A zero-length copy past the end writes
      nothing, but its range is still counted as outside.) */
  predicate InBuffer(op: MemOp, len: nat)
  {
    0 <= op.dest && 0 <= op.bytes && op.dest + op.bytes <= len
  }

  /** The memory operations the callback issues, in order: the memset of `len`
      bytes, then one memcpy per grain until the pending count runs out or a
      grain would start past `len`. */
  method CopyPlan(nframes: nat, pending: nat) returns (ops: seq<MemOp>)
    ensures |ops| == 1 + GrainsCopied(pending, BufferBytes(nframes))
    ensures ops[0] == MemSet(0, BufferBytes(nframes)) && InBuffer(ops[0], BufferBytes(nframes))
    ensures forall i :: 0 <= i < |ops| - 1 ==> ops[i + 1] == AsWrittenCopy(i, BufferBytes(nframes))
  {
    var len := SampleBytes * nframes;
    ops := [MemSet(0, len)];
    var i := 0;
    while i < pending
      invariant 0 <= i <= pending
      invariant i == 0 || (i - 1) * GrainPeriod <= len
      invariant |ops| == 1 + i && ops[0] == MemSet(0, len)
      invariant forall k :: 0 <= k < i ==> ops[k + 1] == AsWrittenCopy(k, len)
    {
      if i * GrainPeriod > len {
        break;
      }
      var truncate := (i + 1) * GrainPeriod - len;
      if truncate < 0 {
        truncate := 0;
      }
      ops := ops + [MemCopy(SampleBytes * (i * GrainPeriod), 0, GrainPeriod - truncate)];
      i := i + 1;
    }
    GrainsCopiedUnique(pending, len, i);
  }

  /** Copy i (one the loop issues) stays in the buffer exactly when it is the
      first, or when a whole grain's worth of bytes fits after its float offset. */
  lemma CopyInBufferIff(i: nat, len: nat)
    requires i * GrainPeriod <= len
    ensures InBuffer(AsWrittenCopy(i, len), len) <==>
      i == 0 || SampleBytes * (i * GrainPeriod) + GrainPeriod <= len
  {
  }

  /** Every copy the callback as written issues has its destination range in
      the nframes-sample buffer exactly when it copies at most one grain, or
      when the last grain copied fits whole after its float offset. */
  lemma {:induction false} AsWrittenInBufferIff(nframes: nat, pending: nat)
    ensures var len := BufferBytes(nframes);
      var c := GrainsCopied(pending, len);
      (forall i :: 0 <= i < c ==> InBuffer(AsWrittenCopy(i, len), len)) <==>
      (c <= 1 || SampleBytes * ((c - 1) * GrainPeriod) + GrainPeriod <= len)
  {
    var len := BufferBytes(nframes);
    var c := GrainsCopied(pending, len);
    if c > 1 {
      if SampleBytes * ((c - 1) * GrainPeriod) + GrainPeriod <= len {
        forall i | 0 <= i < c
          ensures InBuffer(AsWrittenCopy(i, len), len)
        {
          assert i * GrainPeriod <= (c - 1) * GrainPeriod;
          CopyInBufferIff(i, len);
        }
      } else {
        CopyInBufferIff(c - 1, len);
      }
    }
  }

  /** Two packets in one 44-frame callback: the second copy writes bytes
      [176, 220) of a 176-byte buffer. */
  lemma AsWrittenOverrun()
    ensures GrainsCopied(2, BufferBytes(44)) == 2
    ensures AsWrittenCopy(1, BufferBytes(44)) == MemCopy(176, 0, 44)
    ensures !InBuffer(AsWrittenCopy(1, BufferBytes(44)), BufferBytes(44))
  {
  }

  /** A copy as written moves at most GRAIN_PERIOD bytes: at most half of the
      grain's GRAIN_PERIOD 16-bit samples, as raw bits into float slots. */
  lemma AsWrittenHalfGrain(i: nat, len: nat)
    requires i * GrainPeriod <= len
    ensures 2 * AsWrittenCopy(i, len).bytes <= GrainBytes
    ensures len >= (i + 1) * GrainPeriod ==> 2 * AsWrittenCopy(i, len).bytes == GrainBytes
  {
  }

  // ---------------------------------------------------------------------------
  // The callback with counts in frames and converted samples
  // ---------------------------------------------------------------------------

  /** A signed 16-bit sample. */
  predicate IsShort(x: int)
  {
    -32768 <= x <= 32767
  }

  /** A 16-bit sample as a float sample in [-1, 1). */
  function ShortToSample(x: int): (y: real)
    ensures IsShort(x) ==> -1.0 <= y < 1.0
    ensures x == 0 <==> y == 0.0
    ensures y * 32768.0 == x as real
  {
    x as real / 32768.0
  }

  /** A wavetable of GRAIN_PERIOD 16-bit samples. */
  predicate IsGrain(grain: seq<int>)
  {
    |grain| == GrainPeriod && forall k :: 0 <= k < |grain| ==> IsShort(grain[k])
  }

  /** What frame j of the buffer holds after the callback: sample j mod 44 of
      the grain when j lies in one of the first `pending` grain periods,
      silence otherwise. */
  function FrameValue(j: nat, pending: nat, grain: seq<int>): real
    requires |grain| == GrainPeriod
  {
    if j / GrainPeriod < pending then ShortToSample(grain[j % GrainPeriod]) else 0.0
  }

  /** The output buffer after the callback: every frame in [-1, 1), and
      silence beyond the first `pending` grain periods (so all of it with no
      packet pending). */
  function GrainFill(nframes: nat, pending: nat, grain: seq<int>): (out: seq<real>)
    requires IsGrain(grain)
    ensures |out| == nframes
    ensures forall j :: 0 <= j < nframes ==> out[j] == FrameValue(j, pending, grain)
    ensures forall j :: 0 <= j < nframes ==> -1.0 <= out[j] < 1.0
    ensures forall j :: pending * GrainPeriod <= j < nframes ==> out[j] == 0.0
  {
    seq(nframes, j requires 0 <= j < nframes => FrameValue(j, pending, grain))
  }

  /** Frame j of grain period i is sample j - 44*i of the grain. */
  lemma InPeriod(j: nat, i: nat)
    requires i * GrainPeriod <= j < i * GrainPeriod + GrainPeriod
    ensures j / GrainPeriod == i && j % GrainPeriod == j - i * GrainPeriod
  {
  }

  /** The grain as float samples, in order. */
  function Converted(grain: seq<int>): (c: seq<real>)
    requires IsGrain(grain)
    ensures |c| == GrainPeriod
    ensures forall k :: 0 <= k < GrainPeriod ==> -1.0 <= c[k] < 1.0 && c[k] * 32768.0 == grain[k] as real
  {
    seq(GrainPeriod, k requires 0 <= k < GrainPeriod => ShortToSample(grain[k]))
  }

  /** Each of the first `pending` grain periods that fits in the buffer holds
      the whole grain, every one of its samples converted. */
  lemma GrainFillWholeGrain(nframes: nat, pending: nat, grain: seq<int>, i: nat)
    requires IsGrain(grain) && i < pending && (i + 1) * GrainPeriod <= nframes
    ensures GrainFill(nframes, pending, grain)[i * GrainPeriod .. (i + 1) * GrainPeriod] == Converted(grain)
  {
  }


  /** The globals `play_grain` and `grain_wavetable`. */
  class GrainPlayer {
    var playGrain: nat
    const grain: seq<int>

    ghost predicate Valid()
      reads this
    {
      IsGrain(grain)
    }

    /** The initial state: nothing pending, and the wavetable as loaded from
        the grain file. */
    constructor (wavetable: seq<int>)
      requires IsGrain(wavetable)
      ensures Valid() && playGrain == 0 && grain == wavetable
    {
      playGrain := 0;
      grain := wavetable;
    }

    /** packet_handler: one more grain pending. */
    method PacketHandler()
      modifies this
      ensures playGrain == old(playGrain) + 1
    {
      playGrain := playGrain + 1;
    }

    /** The memset: every frame of the buffer set to 0. */
    static method ClearBuffer(out: array<real>)
      modifies out
      ensures forall j :: 0 <= j < out.Length ==> out[j] == 0.0
    {
      var s := 0;
      while s < out.Length
        invariant 0 <= s <= out.Length
        invariant forall j :: 0 <= j < s ==> out[j] == 0.0
      {
        out[s] := 0.0;
        s := s + 1;
      }
    }

    /** Copy n samples of the grain to frames [i*44, i*44 + n), converting each. */
    method CopyGrain(out: array<real>, i: nat, n: nat)
      requires Valid() && n <= GrainPeriod && i * GrainPeriod + n <= out.Length
      modifies out
      ensures forall j :: 0 <= j < out.Length ==>
        out[j] == if i * GrainPeriod <= j < i * GrainPeriod + n
                  then ShortToSample(grain[j - i * GrainPeriod]) else old(out[j])
    {
      var k := 0;
      while k < n
        invariant 0 <= k <= n
        invariant forall j :: 0 <= j < out.Length ==>
          out[j] == if i * GrainPeriod <= j < i * GrainPeriod + k
                    then ShortToSample(grain[j - i * GrainPeriod]) else old(out[j])
      {
        out[i * GrainPeriod + k] := ShortToSample(grain[k]);
        k := k + 1;
      }
    }

    /** process: silence the buffer, copy one grain per pending packet from
        the start, the last one truncated at the end of the buffer, and reset
        the counter. */
    method Process(out: array<real>)
      requires Valid()
      modifies this, out
      ensures Valid() && playGrain == 0
      ensures out[..] == GrainFill(out.Length, old(playGrain), grain)
    {
      var nframes := out.Length;
      ClearBuffer(out);
      var i := 0;
      while i < playGrain
        invariant 0 <= i <= playGrain && playGrain == old(playGrain)
        invariant forall j :: 0 <= j < nframes ==> out[j] == FrameValue(j, i, grain)
      {
        if i * GrainPeriod > nframes {
          break;
        }
        var n := CopyLength(i, nframes);
        CopyGrain(out, i, n);
        forall j | 0 <= j < nframes
          ensures out[j] == FrameValue(j, i + 1, grain)
        {
          if i * GrainPeriod <= j < i * GrainPeriod + GrainPeriod {
            InPeriod(j, i);
          }
        }
        i := i + 1;
      }
      forall j | 0 <= j < nframes
        ensures out[j] == FrameValue(j, old(playGrain), grain)
      {
      }
      playGrain := 0;
    }
  }
}
