# hearnet: the voice engine and the grain player, verified

hearnet turns captured network packets into sound. This project models the
two small state machines under its JACK and pcap plumbing:

- **`Voices`** (voices.dfy) models hearnet.cpp. It has a fixed table of 16
  voice slots (`struct voice`, `voices[]`).
  - `packet_handler` claims the lowest free slot for a new enveloped sine
    voice, or drops the packet when the table is full.
  - The JACK `process` callback silences the output buffer. It then mixes
    every active voice into every frame, hard-clipping the running sample to
    [-1, 1] after each addition.
  - After each frame, `process` steps the voice's envelope and phase: an
    attack ramp first, then a multiplicative decay.
  - `process` retires a voice once its amplitude falls below 0.001.
- **`Grains`** (grains.dfy) models hearnet.c.
  - `packet_handler` increments a pending-grain counter.
  - `process` zeroes the buffer, then is meant to lay one 44-sample grain
    per pending packet end to end, truncating the last grain at the buffer's
    end, and resets the counter.
  - As written, each copy moves 44 bytes (22 samples, as raw bits) to a
    176-byte stride, leaving gaps between grains. The truncation is computed
    in bytes and does not stop copies at the buffer's end (see Findings).

Both callbacks hold one mutex for their whole body, so each is modelled as one
atomic step on the shared state.

- The voice table is a class over an `array<Voice>` (`VoiceTable`). Its
  methods mirror the source's loops and in-place field writes. Each method is
  proved equal to a pure specification:
  - `FirstFree` and `Admit` for allocation;
  - `Step`, `Evolve`, `Sound`, `RenderSlots` and `Render` for the audio
    callback.
- The properties are lemmas about those specification functions:
  - bounded polyphony;
  - the output bound;
  - the monotone envelope;
  - the ramp finishing on time;
  - the decay's closed form and retirement within a bounded number of frames;
  - no activation by `process`.
- The hearnet.c callback as written mixes byte counts with float offsets.
  - `CopyPlan` records, in bytes, the `memset`/`memcpy` operations that the
    callback issues, and lemmas decide which of them stay inside the buffer.
  - `GrainPlayer` is the callback with every count in frames. It converts each
    16-bit sample to a float sample (see Findings).
- Arithmetic is on `real`.
  - `sin` is a parameter of the audio callback.
  - The values of `pow(2, …)` and the four `rand()` draws in the voice handler
    arrive as a `Trigger`.
  - The sample rate is a positive parameter.

The frame loop (hearnet.cpp:88-113) has no `break`: a voice that retires
mid-buffer is still mixed and stepped until the buffer ends.
`SoundIgnoresActive` states that a voice's contribution to the buffer does not
depend on its `active` flag. Decay starts at any `attack >= 1`
(hearnet.cpp:99-106), because the ramp can overshoot 1.

## Model

| member | source | states |
|---|---|---|
| Voices.NewVoice | hearnet.cpp:146-156 | a new voice is active, with attack, phase and age 0 and amp*MAX_VOICES = 0.5; its attack length lies in [0.001, 0.020] and its decay length in [0.100, 0.199], whatever the random draws |
| Voices.FirstFree | hearnet.cpp:57-65 | None exactly when every slot is active; otherwise the slot returned is inactive and every slot below it is active |
| Voices.FirstFreeIsLowest | hearnet.cpp:57-65 | an inactive slot with only active slots below it is the one the scan returns |
| Voices.AdmitSpec | hearnet.cpp:143-157 | a full table is left unchanged; otherwise exactly the lowest free slot changes, to the handler's new voice, and the active count grows by one; no active voice is overwritten |
| Voices.AdmitConfigured | hearnet.cpp:153-155 | after the handler, every active slot has attack and decay lengths in the handler's ranges |
| Voices.AdmitAllBounded | hearnet.cpp:143-157 | over a burst of packets the active count never falls, grows by at most one per packet and never exceeds MAX_VOICES |
| Voices.AdmitAllFills | hearnet.cpp:143-157 | from slots 0..m-1 active, packet j of a burst takes slot m+j, in order, while the table has room |
| Voices.AdmitFillsNext | hearnet.cpp:143-157 | with slots 0..m-1 active and slot m free, a packet takes slot m |
| Voices.AdmitAllKeepsActive | hearnet.cpp:143-157 | a burst never changes a voice that is already active |
| Voices.AdmitAllWhenFull | hearnet.cpp:143-145 | once the table is full, every further packet is dropped |
| Voices.ActiveCountMonotone | hearnet.cpp:82-115 | if no slot becomes active, the active count does not grow |
| Voices.Clip | hearnet.cpp:91-98 | the clipped sample lies in [-1, 1], equals the input inside that range and saturates at 1 and -1 outside it |
| Voices.RatesOf | hearnet.cpp:101-107 | the attack increment 1/(srate*attacklength) is positive; the decay factor 1 - 1/(srate*decaylength) is below 1, and not negative when srate*decaylength >= 1 |
| Voices.StepWith | hearnet.cpp:99-111 | a frame never writes attacklength, sinfreq, decaylength or age |
| Voices.Step | hearnet.cpp:99-111 | a frame keeps the voice's settings, and so its attack and decay lengths, in range |
| Voices.StepEnvelope | hearnet.cpp:99-106 | while attack < 1, attack rises by 1/(srate*attacklength) and amp is kept; otherwise amp is multiplied by 1 - 1/(srate*decaylength) and attack is kept |
| Voices.StepMonotone | hearnet.cpp:99-111 | one frame never lowers attack; the voice is active afterwards exactly when it was active before and its new amp is at least 0.001; with a decay factor in [0, 1], a non-negative amp stays non-negative and does not grow |
| Voices.StepAmpBounded | hearnet.cpp:103-106 | with a decay factor in [0, 1], one frame keeps a non-negative amp within [0, amp] |
| Voices.Evolve | hearnet.cpp:88-113 | any number of frames keeps the voice's settings |
| Voices.EvolveStep | hearnet.cpp:99-111 | the in-place step at the sample rate is the next frame of the evolution under the voice's own rates |
| Voices.EvolveEnvelope | hearnet.cpp:88-113 | over k frames attack never falls and the voice is never activated; a voice left below 0.001 is inactive; with a decay factor in [0, 1] and amp >= 0, amp never grows and, for k > 0, the voice is active afterwards exactly when it was before and its amp is still at least 0.001 |
| Voices.EvolveDecay | hearnet.cpp:103-106 | a decaying voice keeps its attack, and after k frames its amp is amp * f^k for the decay factor f |
| Voices.StepDecays | hearnet.cpp:103-106 | a decaying voice with positive amp and a decay factor in [0, 1) loses amplitude at every frame |
| Voices.DecayRetires | hearnet.cpp:103-111 | a decaying voice with that decay factor is retired after any k > D*(1000*amp - 1) frames |
| Voices.EvolveAdd | hearnet.cpp:88-113 | j frames then k frames are j + k frames |
| Voices.VoiceRetires | hearnet.cpp:88-113 | a configured voice is retired once its ramp is over (srate*attacklength frames) and k > srate*decaylength*(1000*amp - 1) further frames have passed |
| Voices.EvolveAttackAfter | hearnet.cpp:99-102 | attack after k frames is the ramp AttackAfter, independent of amp, phase and activity |
| Voices.AttackAfterBound | hearnet.cpp:99-102 | after k frames, the ramp is at least min(1, start + k*increment) |
| Voices.RampCompletes | hearnet.cpp:99-102 | a ramp from attack >= 0 is complete once k*increment >= 1 |
| Voices.EvolveAttackCompletes | hearnet.cpp:99-102 | a voice starting its ramp at attack >= 0 has finished it after srate*attacklength frames |
| Voices.EvolveIgnoresActive | hearnet.cpp:88-113 | envelope and phase evolve the same whatever the `active` flag |
| Voices.ContributionIgnoresActive | hearnet.cpp:90 | what a voice adds to a frame does not depend on its `active` flag |
| Voices.Sound | hearnet.cpp:88-113 | a voice sounds one value per frame of the buffer |
| Voices.SoundAt | hearnet.cpp:90 | frame j hears sin(phase)*amp*attack of the voice as it stands after j frames |
| Voices.SoundIgnoresActive | hearnet.cpp:88-113 | a voice that retires mid-buffer still sounds for the rest of the buffer, exactly as if it had stayed active |
| Voices.MixInto | hearnet.cpp:90-98 | every sample of a mixed buffer lies in [-1, 1] |
| Voices.RenderSlots | hearnet.cpp:82-115 | after slots 0..n-1, each slot active on entry is its voice evolved over the whole buffer, and every other slot is unchanged |
| Voices.RenderSlotsBounded | hearnet.cpp:80-98 | starting from samples in [-1, 1], every sample stays in [-1, 1] |
| Voices.RenderSlotsIdle | hearnet.cpp:80-84 | with no active slot, the buffer and the table are unchanged, so the cleared buffer stays silent |
| Voices.RenderSpec | hearnet.cpp:74-120 | after one callback: all nframes samples lie in [-1, 1]; an inactive slot is untouched; no slot is activated and the active count never grows; an active slot left below 0.001 is inactive; attack never falls; when srate*decaylength >= 1, amp never grows and a slot active on entry is active afterwards exactly when its amp is at least 0.001, and every active slot keeps amp >= 0.001; with no active slot the buffer is silent and the table unchanged |
| Voices.VoiceTable.constructor | hearnet.cpp:50 | the global table starts with 16 zeroed, inactive slots |
| Voices.VoiceTable.InitVoices | hearnet.cpp:52-55 | every slot is cleared and inactive afterwards |
| Voices.VoiceTable.FreeVoice | hearnet.cpp:57-65 | the scan returns the lowest inactive slot, or None exactly when all 16 are active, and changes nothing |
| Voices.VoiceTable.PacketHandler | hearnet.cpp:139-160 | the table becomes Admit of the old table, so AdmitSpec applies, and the table invariant is kept |
| Voices.VoiceTable.StepVoice | hearnet.cpp:99-111 | the in-place envelope, phase and retirement update of one slot is Step, and no other slot changes |
| Voices.VoiceTable.MixSample | hearnet.cpp:90-98 | one frame of the buffer becomes Clip(old + contribution), and no other frame changes |
| Voices.VoiceTable.RenderVoice | hearnet.cpp:86-113 | the frame loop mixes the slot's Sound into the buffer and leaves the slot evolved over every frame, with no early exit |
| Voices.VoiceTable.ClearBuffer | hearnet.cpp:80 | the buffer is all zeros |
| Voices.VoiceTable.Process | hearnet.cpp:74-120 | the buffer and the table become Render of the old table, so RenderSpec applies; every sample lies in [-1, 1] and the table invariant is kept |
| Grains.CopyLength | hearnet.c:90-92 | for a grain that starts inside the buffer, the copy length is min(44, space left), lies in [0, 44] and ends inside the buffer, counted in the same unit as the size |
| Grains.GrainsCopied | hearnet.c:81-88 | the loop copies at most the pending count; every grain copied starts within `len`; when it stops early, the next grain starts past `len` |
| Grains.GrainsCopiedUnique | hearnet.c:81-88 | those three facts determine the number of grains copied |
| Grains.AsWrittenCopy | hearnet.c:92 | copy i writes to byte offset 4*44*i, reads from the start of the wavetable and, for a grain starting within `len`, copies 0 to 44 bytes |
| Grains.CopyPlan | hearnet.c:76-93 | the callback issues a memset of `len` bytes (4 per frame), whose destination range is the whole buffer, then exactly GrainsCopied memcpys, copy i being AsWrittenCopy(i, len) |
| Grains.CopyInBufferIff | hearnet.c:84-92 | an issued copy's destination range lies in the buffer exactly when it is the first, or when 44 bytes fit after byte 176*i |
| Grains.AsWrittenInBufferIff | hearnet.c:76-93 | every destination range the callback issues lies in the buffer exactly when at most one grain is copied or the last grain copied fits after its float offset |
| Grains.AsWrittenOverrun | hearnet.c:84-92 | with 44 frames and 2 pending packets, both grains are copied and the second writes bytes 176..219 of a 176-byte buffer |
| Grains.AsWrittenHalfGrain | hearnet.c:92 | a copy moves at most 44 bytes, half of the 88-byte wavetable, and exactly that when the grain fits |
| Grains.ShortToSample | hearnet.c:25 | a signed 16-bit sample becomes a float sample in [-1, 1), is 0 exactly when the sample is 0, and scales back by 32768 |
| Grains.Converted | hearnet.c:25 | the grain as 44 float samples, each in [-1, 1) and scaling back to its 16-bit sample |
| Grains.GrainFill | hearnet.c:80-93 | the filled buffer has nframes frames, every one in [-1, 1); frames beyond the first `pending` grain periods are silent, so with nothing pending the whole buffer is |
| Grains.GrainFillWholeGrain | hearnet.c:81-93 | each pending grain period that fits in the buffer holds the whole grain, all 44 samples converted |
| Grains.GrainPlayer.constructor | hearnet.c:25-27 | nothing is pending, and the wavetable holds 44 signed 16-bit samples |
| Grains.GrainPlayer.PacketHandler | hearnet.c:117-122 | play_grain grows by exactly one, and nothing else changes |
| Grains.GrainPlayer.ClearBuffer | hearnet.c:80 | every frame of the buffer is 0 |
| Grains.GrainPlayer.CopyGrain | hearnet.c:92 | frames [44i, 44i+n) get grain samples 0..n-1 converted, and no other frame changes |
| Grains.GrainPlayer.Process | hearnet.c:71-98 | the buffer becomes GrainFill of the old pending count, so GrainFill's bounds and GrainFillWholeGrain apply; every write stays in the buffer, and play_grain is 0 afterwards, whatever it was |

## Left out

- JACK client setup, port registration, the `set_srate`, `error` and `shutdown` callbacks, pcap capture, `usage` and both `main`s are library calls and process lifecycle. The sample rate is a fixed positive parameter. hearnet.cpp divides by `srate` (lines 101, 105, 107) even if `set_srate` has not yet run; the model does not cover that case. hearnet.c stores the sample rate but never reads it.
- The pthread mutex is not modelled as threads: each callback body holds it throughout, so each callback is one atomic step.
- `fill_grain_wavetable` (hearnet.c:33-68) is file I/O. The wavetable it loads is the argument of `GrainPlayer`'s constructor, an arbitrary 44 signed 16-bit samples. This over-approximates the loader: its `read` asks for `GRAIN_PERIOD - count` bytes, always into the start of the table (hearnet.c:50), so at most 44 bytes (22 samples) are ever loaded and samples 22-43 stay 0. It is the same confusion of bytes with samples as in the second row of Findings, and the `memcpy` as written copies exactly the 44 bytes the loader filled.
- IEEE single-precision rounding is not modelled; all arithmetic is on `real`.
  - `sin` is an arbitrary function supplied by the caller. The output bound comes from the clip alone, so no range on `sin` is needed.
  - The values of `pow(2, len/256*3/12)` and of the four `rand()` calls are the fields of a `Trigger`. `dbtoamp` is never called by the core.
- C integer widths are not modelled: `play_grain` is a `nat` and never wraps, and `len = 4*nframes` does not overflow. `age` is never written after the clear.
- The frequency formula's musical meaning is not modelled; `sinfreq` is kept as computed.
- Voices.VoiceRetires bounds the frames to retirement by Bernoulli's inequality (`PowBernoulli` and `DecayBelowRetire` are its arithmetic steps), k > srate*decaylength*(1000*amp - 1). The bound is sufficient, not tight: the exact count, the least k with amp*(1 - 1/(srate*decaylength))^k < 0.001, is logarithmic in amp and is not stated.
- The `fprintf(stderr, "!")` that hearnet.c's `process` (line 86) prints when it stops copying early is console output and is left out; `GrainsCopied` states when the loop stops.
- Voices.StepWith, Voices.Evolve and Voices.Sound take the per-voice rates (`RatesOf`) once per voice. The C code recomputes them every frame from fields the loop never writes, so the values are the same. `EvolveStep` connects the two.
- Grains.GrainPlayer.Process: the conversion of a 16-bit sample to a float by dividing by 32768 is the model's choice. The C code has no conversion (see Findings).

## Findings

| source | as written | input that shows it | evidently intended | confidence | as-written member | corrected member |
|---|---|---|---|---|---|---|
| hearnet.c:84-92 | `len` counts bytes (4 per frame), but the destination `out + i*GRAIN_PERIOD` is an offset in floats (176 bytes per grain). The break test and the truncation therefore let a copy start or run past the end of the buffer. | nframes = 44 with 2 packets pending: the second memcpy writes bytes 176..219 of a 176-byte buffer. With nframes = 1024, an overrun needs 25 or more pending packets. | compare grain offsets with the buffer size in frames, so every copy stays within the nframes frames | not executed | Grains.AsWrittenOverrun | Grains.GrainPlayer.Process |
| hearnet.c:92 | The memcpy length `GRAIN_PERIOD - truncate` is a byte count. A full copy therefore moves 44 of the wavetable's 88 bytes, which are 22 of its 44 samples, as raw 16-bit patterns into float slots. | any call with one packet pending and nframes >= 11: the first copy moves 44 bytes | copy all 44 grain samples, each converted from signed 16-bit to a float sample | not executed | Grains.AsWrittenHalfGrain | Grains.GrainFillWholeGrain |
