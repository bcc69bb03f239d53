# Addressable LEDs (Async) analyzer: a verified model

This project models the core of the Saleae "Addressable LEDs (Async)" analyzer plugin.
The plugin decodes the one-wire, pulse-width-coded protocol of WS2811-style LED
controllers. Each bit is one high pulse followed by one low pulse, and the widths
select the bit value and, on some controllers, a high-speed mode. A low time longer
than the controller's reset minimum ends a packet. A packet is a run of colour words.
Each word holds 3, 4 or 9 channels of 8 or 12 bits, most significant bit first, in the
controller's wire order (RGB or GRB).

The model has these modules, one per source file or per SDK class that the core uses:

- `Helpers` (`helpers.dfy`), from `AsyncRgbLedHelpers`:
  - timing windows and their inclusive test;
  - the colour value;
  - the RGB/GRB wire order and its inverse;
  - the byte copy of a colour into a 64-bit frame word and back;
  - the reduction of a colour to 8-bit web colour.
- `Settings` (`settings.dfy`):
  - the catalogue of nine controllers, with every width, count and window from
    `InitControllerData`;
  - the accessors that read the selected entry.
- `Bits` (`bits.dfy`): most-significant-bit-first bit runs. These are the SDK's
  `DataBuilder` in the decoder and `BitExtractor` in the encoder.
- `ChannelData` (`channel_data.dfy`): the SDK's `AnalyzerChannelData` over a captured
  channel. The capture is the strictly increasing samples at which the line changes
  level, plus its level at sample 0.
- `Decoding` (`decoding.dfy`): what the decoder computes, as functions of the capture. It
  includes:
  - `ReadBit`'s classification;
  - `DetectSpeedMode`;
  - `ReadRGBTriple`;
  - `SynchronizeToReset`;
  - the packet loop of `WorkerThread`, down to the list of frames handed to the results
    object.
- `Analyzer` (`analyzer.dfy`): the analyzer class. Its methods update its members and the
  channel cursor step by step, and each is proved to compute the `Decoding` function it
  implements.
- `Simulation` (`simulation.dfy`): the simulation data generator as a class. It writes
  its waveform into a model of the SDK's `SimulationChannelDescriptor`, which holds a
  list of (level, duration) segments. Each write method is proved to append the
  waveform that a specification function gives.
- `Loopback` (`loopback.dfy`): the two halves together, on a capture of the generator's
  waveform at one sample per nanosecond. At that rate the catalogue's nominal times are
  whole sample counts, so the capture's edges are the ends of the waveform's segments
  (`Captures`). On such a capture the decoder's own `ReadBit` reads every pulse pair
  the generator writes back as the bit it encodes, at the speed it was written in.
  `ReadRGBTriple` reads every colour the generator writes for a three-channel
  controller back as that colour.

Units:

- Catalogue durations are integer nanoseconds.
- A measured duration is a `real` number of nanoseconds: the sample count times 10^9,
  divided by the sample rate.
- A window test therefore needs no floating point.
- Conversions from nanoseconds to samples round down, as the source's casts do.

## Model

Lemmas that only unfold one step of a definition, used as proof steps by other members, are not listed.

| member | source | states |
|---|---|---|
| Helpers.WithinToleranceInclusive | src/AsyncRgbLedHelpers.cpp:6-9 | A window accepts a time exactly when the time lies between its minimum and maximum, both inclusive. A well-formed window accepts its minimum, nominal and maximum. |
| Helpers.BitTimingWithinToleranceBoth | src/AsyncRgbLedHelpers.cpp:11-14 | A bit timing accepts a (high, low) pair exactly when the positive window accepts the high time and the negative window accepts the low time. Failing either window rejects the pair. |
| Helpers.ConvertToControllerOrder | src/AsyncRgbLedHelpers.cpp:16-32 | Writes the three channels into values[0..3] in the wire order of the layout. The rest of the array is unchanged. |
| Helpers.ControllerOrderRoundTrip | src/AsyncRgbLedHelpers.cpp:34-44 | CreateFromControllerOrder undoes ConvertToControllerOrder for either layout. The result keeps red, green and blue, and its padding is 0. |
| Helpers.CreateFromControllerOrderRoundTrip | src/AsyncRgbLedHelpers.cpp:34-44 | In the other direction, re-ordering a decoded colour gives back the first three wire values. Values after the third are ignored. |
| Helpers.U64RoundTrip | src/AsyncRgbLedHelpers.cpp:46-60 | Reading a colour back from its 64-bit frame word gives the same colour, padding included. |
| Helpers.U64RoundTripRaw | src/AsyncRgbLedHelpers.cpp:46-60 | Every 64-bit word is the frame word of the colour read from it, so the byte copy is a bijection. |
| Helpers.ConvertTo8Bit | src/AsyncRgbLedHelpers.cpp:62-70 | Writes each channel shifted right by bitSize - 8 and truncated to a byte into values[0..3], and changes nothing else. Requires bitSize >= 8, as the source asserts. |
| Helpers.To8BitIdentity | src/AsyncRgbLedHelpers.cpp:62-70 | At 8 bits the reduction is the identity. |
| Helpers.To8BitKeepsTopBits | src/AsyncRgbLedHelpers.cpp:62-70 | For a channel that fits in bitSize bits, the byte is its top 8 bits: the value divided by 2^(bitSize-8). Full brightness maps to 255. |
| Bits.MsbValueBound | src/AsyncRgbLedAnalyzer.cpp:146-167 | A value assembled from n bits is below 2^n. |
| Bits.MsbValueOfBits | src/AsyncRgbLedAnalyzer.cpp:146-167 | Assembling the n bits that the encoder extracts from v gives v mod 2^n. |
| Bits.MsbBitsOfValue | src/AsyncRgbLedAnalyzer.cpp:146-167 | Extracting n bits from the value assembled from n bits gives those bits back. |
| Bits.MsbBits | src/AsyncRgbLedSimulationDataGenerator.cpp:111-116 | The encoder extracts exactly bit_count bits. |
| Bits.MsbBitsAt | src/AsyncRgbLedSimulationDataGenerator.cpp:109-117 | The i-th bit extracted from an n-bit value is bit n-1-i of the value. |
| Settings.CatalogueWellFormed | src/AsyncRgbLedAnalyzerSettings.cpp:54-208 | The catalogue has nine entries. Each has 8 or 12 bits per channel, 3, 4 or 9 channels, windows with minimum <= nominal <= maximum and a positive reset minimum. An entry without high speed has empty high-speed tables. |
| Settings.CatalogueFollowsEnum | src/AsyncRgbLedAnalyzerSettings.h:29-39 | Each Controller constant selects the catalogue entry of that name, and no two constants select the same entry. The SK6812 RGBW entry has no constant. |
| Settings.BitSize | src/AsyncRgbLedAnalyzerSettings.cpp:255-258 | The selected entry's bits per channel, which is 8 or 12. |
| Settings.LedChannelCount | src/AsyncRgbLedAnalyzerSettings.cpp:260-263 | The selected entry's channel count, which is 3, 4 or 9. |
| Settings.Pow2BitSize | src/AsyncRgbLedAnalyzerSettings.cpp:255-258 | 2^BitSize is 256 or 4096, so every channel value fits in 16 bits. |
| Settings.DataTiming | src/AsyncRgbLedAnalyzerSettings.cpp:270-276 | The timing of a bit value in the requested speed. High speed may only be asked of a controller that has it, as the source asserts. Every returned timing is well formed. |
| Settings.ResetTiming | src/AsyncRgbLedAnalyzerSettings.cpp:278-281 | The reset window, which is well formed with a positive minimum. |
| Settings.DataTimingSelectsSpeed | src/AsyncRgbLedAnalyzerSettings.cpp:270-276 | Where high speed exists, its nominal pulses are no longer than the low-speed ones, and its positive pulse is strictly shorter. The speed flag therefore selects a different timing. |
| Settings.NoHighSpeedMeansEmptyTables | src/AsyncRgbLedAnalyzerSettings.cpp:54-208 | A controller without high speed has empty high-speed tables. |
| Settings.Ws2811NeedsJointCheck | src/AsyncRgbLedAnalyzer.cpp:278-288 | For WS2811, a 600 ns high pulse fits both the low-speed 0 window and the high-speed 1 window, so the high time alone cannot decide. The low windows of those two timings are disjoint, and no (high, low) pair fits two of the four timings. |
| ChannelData.AnalyzerChannelData.AdvanceToNextEdge | src/AsyncRgbLedAnalyzer.cpp:198-205 | Moves the cursor onto the next edge, where the level flips. |
| ChannelData.AnalyzerChannelData.Advance | src/AsyncRgbLedAnalyzer.cpp:254-255 | Moves the cursor n samples ahead. It passes no edge when no transition lies within n samples. |
| ChannelData.AnalyzerChannelData.AdvanceToAbsPosition | src/AsyncRgbLedAnalyzer.cpp:113-129 | Moves the cursor to a sample at or after it. Moving to the sample of the next edge is the same as advancing to that edge. |
| ChannelData.AnalyzerChannelData.constructor | src/AsyncRgbLedAnalyzer.cpp:32 | A channel is read from sample 0, at the line's initial level. |
| ChannelData.NextEdgeCursor | src/AsyncRgbLedAnalyzer.cpp:198-205 | The position after the next edge lies strictly later, past one more edge, and has the opposite level. |
| ChannelData.AdvancedBy | src/AsyncRgbLedAnalyzer.cpp:244-255 | Advancing by n lands exactly n samples later. It passes no edge when WouldAdvancingCauseTransition(n) is false. |
| ChannelData.AdvancedTo | src/AsyncRgbLedAnalyzer.cpp:122-128 | Advancing to an absolute position lands exactly there. |
| Decoding.PositiveWindowsOrdered | src/AsyncRgbLedAnalyzer.cpp:214-229 | In every speed of every controller, the whole 0-bit positive window lies below the 1-bit one. |
| Decoding.ClassifyPositiveExact | src/AsyncRgbLedAnalyzer.cpp:214-229 | The positive-pulse test at a known speed gives value v exactly when v's positive window accepts the high time. It fails exactly when neither window accepts it. |
| Decoding.Candidates | src/AsyncRgbLedAnalyzer.cpp:316-338 | Only a controller with high speed is offered the high-speed timings. |
| Decoding.FirstMatch | src/AsyncRgbLedAnalyzer.cpp:316-338 | A linear search. It finds the first candidate at or after i that accepts the pulse pair, rejecting every earlier one, or none when no candidate accepts. |
| Decoding.DetectSpeedIsFirstMatch | src/AsyncRgbLedAnalyzer.cpp:311-343 | DetectSpeedMode is that search over low-speed 0 and 1, then high-speed 0 and 1, the last two only when the controller has high speed. |
| Decoding.CandidatesExclusive | src/AsyncRgbLedAnalyzer.cpp:311-343 | For any two timings that DetectSpeedMode tries, the positive windows or the negative windows are disjoint, on every controller. |
| Decoding.DetectSpeedExact | src/AsyncRgbLedAnalyzer.cpp:311-343 | DetectSpeedMode recognises (value, speed) exactly when that timing is a candidate and accepts the pulse pair. It fails exactly when no candidate accepts. |
| Decoding.MinimumLowBelowEveryWindow | src/AsyncRgbLedAnalyzer.cpp:34-44 | The cached minimum low time is at or below the negative minimum of every timing of the controller, so the too-short test never rejects a low time that a window accepts. |
| Decoding.NominalNegativeBelowReset | src/AsyncRgbLedAnalyzer.cpp:274-276 | Every nominal low time is shorter than the reset minimum. |
| Decoding.ResetThresholdsAgree | src/AsyncRgbLedAnalyzer.cpp:240-244 | For a whole number of samples, "no edge within the reset minimum in samples" agrees with "the low time exceeds the reset minimum", which SynchronizeToReset tests. |
| Decoding.HighPulse | src/AsyncRgbLedAnalyzer.cpp:198-205 | The high pulse ReadBit measures. It starts onto the rising edge if the line is low and ends on the following falling edge, where the line is low. |
| Decoding.ReadBit | src/AsyncRgbLedAnalyzer.cpp:193-309 | Each bit read consumes at least one edge and leaves a consistent session. Its meaning is fixed by ReadBitSound and ReadBitComplete (a valid bit, both directions), ReadBitInvalid (the rejections), ReadBitReset and ReadBitFlags. |
| Decoding.ReadBitSound | src/AsyncRgbLedAnalyzer.cpp:193-309 | A valid non-reset bit spans a measured high pulse and the low pulse after it, ending one sample before the next rising edge. The timing of the reported value and speed accepts both pulse widths. ReadBitComplete states the converse. |
| Decoding.BitAfterFallingEdge | src/AsyncRgbLedAnalyzer.cpp:206-230 | From the falling edge the bit read always ends, never going back past that edge. |
| Decoding.LowPulse | src/AsyncRgbLedAnalyzer.cpp:232-277 | The low pulse's tests always end, never going back past the falling edge. |
| Decoding.LowPulseEnd | src/AsyncRgbLedAnalyzer.cpp:257-306 | The low pulse ends on the next rising edge. |
| Decoding.LowPulseSound | src/AsyncRgbLedAnalyzer.cpp:232-306 | A valid data bit ends one sample before the rising edge, and the timing it reports accepts both of its pulse widths. |
| Decoding.LowPulseEndSound | src/AsyncRgbLedAnalyzer.cpp:267-306 | After a transition, a valid bit's timing accepts both pulse widths, through DetectSpeedMode on the first bit or the negative window otherwise. |
| Decoding.ResetAfterFallingEdge | src/AsyncRgbLedAnalyzer.cpp:240-256 | A reset bit never ends the first bit. Its value comes from its positive pulse, and the cursor stops the reset minimum, in samples, after the falling edge. The line then stays low for longer than the reset minimum. |
| Decoding.ReadBitFlags | src/AsyncRgbLedAnalyzer.cpp:193-309 | After the first bit the speed is fixed. The first bit after a reset clears that flag exactly when it is valid, and it is never a reset. A reset bit is always valid. |
| Decoding.ReadBitReset | src/AsyncRgbLedAnalyzer.cpp:240-277 | A reset bit occurs only after the first bit. Its value comes from its high pulse. The cursor stops the reset minimum, in samples, after the falling edge. The frame ends the nominal low time of that value after the falling edge. The low time up to the next edge exceeds the reset minimum. |
| Decoding.ReadBitComplete | src/AsyncRgbLedAnalyzer.cpp:193-306 | The converse of ReadBitSound. Take a high pulse whose low pulse ends on an edge after the minimum low time and within the reset minimum. With the speed locked, if the positive pulse classifies as v and v's negative window accepts the low time, the bit is a valid v. On the first bit, if DetectSpeedMode finds a timing, the bit is valid with that timing's value and locks its speed. Either way the bit ends the sample before the edge and the cursor stops on the edge. |
| Decoding.ReadBitInvalid | src/AsyncRgbLedAnalyzer.cpp:206-251 | The rejections after a measured high pulse, each keeping both flags. With the speed locked, a positive pulse outside both windows gives an invalid bit with the cursor on the falling edge. Otherwise, an edge within the minimum low time gives an invalid bit with the cursor on that edge. On the first bit, a low time reaching past the reset minimum gives an invalid bit with the cursor on the falling edge. |
| Decoding.ReadBitOrdered | src/AsyncRgbLedAnalyzer.cpp:193-309 | A bit begins at or after everything already consumed, and a valid bit ends before the cursor's new frontier. |
| Decoding.ReadBits | src/AsyncRgbLedAnalyzer.cpp:150-157 | Reading n > 0 bits consumes edges. |
| Decoding.ReadBitsWellStopped | src/AsyncRgbLedAnalyzer.cpp:150-157 | A run of bit reads stops after the first invalid bit. Every bit but the last is valid, and fewer than n bits come back only when the last one is invalid. |
| Decoding.ReadBitsOrdered | src/AsyncRgbLedAnalyzer.cpp:150-157 | The valid bits of a run each lie after the previous one, inside the span the run consumes. |
| Decoding.ReadBitsIsBitsOf | src/AsyncRgbLedAnalyzer.cpp:150-157 | The recursive run of bit reads equals the general loop over any bit reader, instantiated with ReadBit. |
| Decoding.ChannelValues | src/AsyncRgbLedAnalyzer.cpp:144-175 | The bits split into count channels of size bits each, each assembled most significant bit first and below 2^size. |
| Decoding.WordBits | src/AsyncRgbLedAnalyzer.cpp:135-136 | A word has at least 24 bits. |
| Decoding.ReadRgbTriple | src/AsyncRgbLedAnalyzer.cpp:133-191 | Reading a word consumes edges and leaves a consistent session. |
| Decoding.WordOfBits | src/AsyncRgbLedAnalyzer.cpp:133-191 | ReadRGBTriple is the run of channelCount*bitSize bit reads, assembled into one result. |
| Decoding.TripleValidIsFull | src/AsyncRgbLedAnalyzer.cpp:183-188 | A word is valid only when every bit of every channel was read and valid. |
| Decoding.TripleChannels | src/AsyncRgbLedAnalyzer.cpp:171-188 | A valid word's colour, put back in wire order, is its first three channel values as read. |
| Decoding.TripleColour | src/AsyncRgbLedAnalyzer.cpp:171-188 | For a word of all-valid bits, the colour in wire order is the first three channel values. |
| Decoding.WordColourBounded | src/AsyncRgbLedAnalyzer.cpp:183-188 | A complete word's colour has channels below 2^BitSize and padding 0. |
| Decoding.TripleBounded | src/AsyncRgbLedAnalyzer.cpp:183-188 | A valid word's channels are below 2^BitSize and its padding is 0. |
| Decoding.ReadRgbTripleOrdered | src/AsyncRgbLedAnalyzer.cpp:133-191 | A valid word begins at or after everything consumed before it and ends before the new frontier. |
| Decoding.ReadRgbTripleBounded | src/AsyncRgbLedAnalyzer.cpp:133-191 | Every colour that ReadRGBTriple reports fits the channel width and has padding 0. |
| Decoding.FindReset | src/AsyncRgbLedAnalyzer.cpp:111-130 | The reset search moves forward through the capture. What it finds is fixed by FindResetFindsReset and FindResetFirst. |
| Decoding.FindResetFindsReset | src/AsyncRgbLedAnalyzer.cpp:111-130 | When the search succeeds, the cursor sits on the rising edge that ends a low gap whose length exceeds the reset minimum. No edge lies inside the gap. |
| Decoding.FindResetFirst | src/AsyncRgbLedAnalyzer.cpp:111-130 | The search stops on the first reset: every low gap it passes before the reset's low start, from the start cursor on, is no longer than the reset minimum. When it stalls, no low gap from the start on that ends on an edge is longer. |
| Decoding.Synchronize | src/AsyncRgbLedAnalyzer.cpp:104-131 | When SynchronizeToReset succeeds, the cursor it returns is valid and strictly past the start, and the reset's low start is at or after the start. |
| Decoding.SynchronizeFirstReset | src/AsyncRgbLedAnalyzer.cpp:104-131 | On success, the cursor sits on the rising edge that ends a low gap, free of edges, longer than the reset minimum. From a high line that gap starts no earlier than the falling edge. Every low gap before it is no longer than the reset minimum. When it stalls, no low gap from the start on is a reset. |
| Decoding.RunOrdered | src/AsyncRgbLedAnalyzer.cpp:28-102 | The frames recorded from any point on begin at or after it, and never overlap or go backwards. |
| Decoding.RunRecordWellFormed | src/AsyncRgbLedAnalyzer.cpp:57-73 | Within each packet the frame indices run 0, 1, 2, and so on. Every recorded colour fits the channel width and has padding 0. |
| Decoding.DecodeWellFormed | src/AsyncRgbLedAnalyzer.cpp:28-102 | The whole record of a capture is well indexed, bounded and ordered. |
| Analyzer.AsyncRgbLedAnalyzer.constructor | src/AsyncRgbLedAnalyzer.h:31-44 | The members start from their declared defaults: no channel, a sample rate and minimum low time of 0, both flags false, and no results. |
| Analyzer.AsyncRgbLedAnalyzer.WorkerThread | src/AsyncRgbLedAnalyzer.cpp:28-102 | Appends to the results exactly the record that Decode gives for the capture, starting with a resync. The loop ends where the capture runs out. |
| Analyzer.AsyncRgbLedAnalyzer.ReadPacket | src/AsyncRgbLedAnalyzer.cpp:56-97 | One packet of the worker loop. It appends the packet's events and says whether the next run must resync. |
| Analyzer.AsyncRgbLedAnalyzer.ReadWord | src/AsyncRgbLedAnalyzer.cpp:63-96 | One word of the inner loop. It records the frame of a valid word, with the running index, and decides whether the packet ends. |
| Analyzer.AsyncRgbLedAnalyzer.DetectSpeedMode | src/AsyncRgbLedAnalyzer.cpp:311-343 | On success it sets the bit value, the speed flag and clears the first-bit flag, as DetectSpeed gives. On failure it leaves the value, clears the speed flag and keeps the first-bit flag. |
| Analyzer.AsyncRgbLedAnalyzer.ReadBit | src/AsyncRgbLedAnalyzer.cpp:193-309 | The result and the new cursor and flags are those of Decoding.ReadBit. The method stalls exactly when that function does. |
| Analyzer.AsyncRgbLedAnalyzer.ToFallingEdge | src/AsyncRgbLedAnalyzer.cpp:198-205 | Moves onto the falling edge of the next high pulse and returns the sample where the pulse began, as HighPulse gives. |
| Analyzer.AsyncRgbLedAnalyzer.ReadAfterFallingEdge | src/AsyncRgbLedAnalyzer.cpp:206-230 | Classifies the positive pulse, unless this is the first bit, and reads the rest of the bit, as BitAfterFallingEdge gives. |
| Analyzer.AsyncRgbLedAnalyzer.ReadLowPulse | src/AsyncRgbLedAnalyzer.cpp:232-277 | Applies the too-short test, the reset test and the reset end sample, as LowPulse gives. |
| Analyzer.AsyncRgbLedAnalyzer.ReadLowPulseEnd | src/AsyncRgbLedAnalyzer.cpp:257-306 | Ends the low pulse one sample before the next edge, then applies DetectSpeedMode or the negative-window test, as LowPulseEnd gives. |
| Analyzer.AsyncRgbLedAnalyzer.ReadRGBTriple | src/AsyncRgbLedAnalyzer.cpp:133-191 | The result, the stall and the new cursor are those of Decoding.ReadRgbTriple. |
| Analyzer.AsyncRgbLedAnalyzer.ReadWordChannel | src/AsyncRgbLedAnalyzer.cpp:144-180 | One pass of the channel loop. It either stores a complete channel in the channels array or ends the word. |
| Analyzer.AsyncRgbLedAnalyzer.ReadChannel | src/AsyncRgbLedAnalyzer.cpp:146-169 | Reads up to bitSize bits of one channel into its value, most significant first, and stops at the first invalid bit. |
| Analyzer.AsyncRgbLedAnalyzer.ReadWordBit | src/AsyncRgbLedAnalyzer.cpp:152-157 | One bit read inside a word, which is the next step of the word's bit trace. |
| Analyzer.AsyncRgbLedAnalyzer.AddBit | src/AsyncRgbLedAnalyzer.cpp:159-168 | Records the begin sample on the first bit of channel 0, and the end sample and reset flag of every valid bit. Shifts the bit into the channel value. |
| Analyzer.AsyncRgbLedAnalyzer.SynchronizeToReset | src/AsyncRgbLedAnalyzer.cpp:104-131 | The cursor ends where Synchronize gives, and the method stalls exactly when that function does. |
| Analyzer.AsyncRgbLedAnalyzer.SynchronizeStep | src/AsyncRgbLedAnalyzer.cpp:113-129 | One pass of the sync loop. It either ends, at a reset or at a stall, or skips one low gap and one high pulse without changing the outcome of the search. |
| Simulation.SimulationChannelDescriptor.Transition | src/AsyncRgbLedSimulationDataGenerator.cpp:129-131 | Flips the current level and writes nothing. |
| Simulation.SimulationChannelDescriptor.Advance | src/AsyncRgbLedSimulationDataGenerator.cpp:130-132 | Appends one segment of the current level and the given duration. |
| Simulation.SimulationChannelDescriptor.constructor | src/AsyncRgbLedSimulationDataGenerator.h:39-47 | A new channel is empty and low. |
| Simulation.SimulationChannelDescriptor.SetSampleRate | src/AsyncRgbLedSimulationDataGenerator.cpp:36 | Sets the rate and keeps the level and the waveform. |
| Simulation.SimulationChannelDescriptor.SetInitialBitState | src/AsyncRgbLedSimulationDataGenerator.cpp:37 | Restarts the waveform empty at the given level and keeps the rate. |
| Simulation.DurationConcat | src/AsyncRgbLedSimulationDataGenerator.cpp:53-82 | The length of two waveforms one after the other is the sum of their lengths. |
| Simulation.BitsWaveAppend | src/AsyncRgbLedSimulationDataGenerator.cpp:113-116 | Writing two runs of bits one after the other writes the waveform of their concatenation. |
| Simulation.WordWaveMsbFirst | src/AsyncRgbLedSimulationDataGenerator.cpp:109-117 | The pulse pairs of a word are those of its bits, most significant first. |
| Simulation.ValuesWaveBits | src/AsyncRgbLedSimulationDataGenerator.cpp:90-99 | The channels of a word, one after another, are the pulse pairs of their wire bits. |
| Simulation.WireBits | src/AsyncRgbLedSimulationDataGenerator.cpp:95-98 | The wire bits of n channels of a given width number n times that width. |
| Simulation.RandomRgb | src/AsyncRgbLedSimulationDataGenerator.cpp:135-141 | Each channel is a draw reduced modulo the maximum, so it is below the maximum, and the padding is 0. |
| Simulation.AfterPacket | src/AsyncRgbLedSimulationDataGenerator.cpp:71-77 | After one packet the 32-bit frame counter has moved up by one, wrapping at 2^32. The speed toggles exactly when the new count is a multiple of 7 and high-speed generation is on. Eighteen values have been drawn. |
| Simulation.StateAfter | src/AsyncRgbLedSimulationDataGenerator.cpp:59-78 | After any number of packets, high speed is on only when it was on at the start or high-speed generation is enabled. |
| Simulation.FrameCountAfter | src/AsyncRgbLedSimulationDataGenerator.cpp:71 | After k packets the frame counter is the start count plus k, mod 2^32, and 18k values have been drawn. |
| Simulation.SpeedFixedWithoutHighSpeedGeneration | src/AsyncRgbLedSimulationDataGenerator.cpp:73-77 | Without high-speed generation the speed never changes. |
| Simulation.SpeedCadence | src/AsyncRgbLedSimulationDataGenerator.cpp:73-77 | From a fresh generator with high-speed generation on, the speed after k packets is high exactly when k/7 is odd. The speed toggles after packets 7, 14, 21, and so on, until the count wraps. |
| Simulation.PacketAdvances | src/AsyncRgbLedSimulationDataGenerator.cpp:59-70 | Every packet makes the waveform longer, so the generation loop ends. |
| Simulation.AsyncRgbLedSimulationDataGenerator.constructor | src/AsyncRgbLedSimulationDataGenerator.h:37-47 | The members start with their declared defaults: maximum 255, frame 0, no high speed. |
| Simulation.AsyncRgbLedSimulationDataGenerator.Initialize | src/AsyncRgbLedSimulationDataGenerator.cpp:19-51 | The maximum becomes 2^BitSize - 1, the line starts low and empty at the given rate, and the draw count restarts, as srand(42) does. High-speed generation is on afterwards exactly when it was already on, or the controller has high speed and the rate is above 18 MHz; Initialize never turns it off. |
| Simulation.AsyncRgbLedSimulationDataGenerator.WriteBit | src/AsyncRgbLedSimulationDataGenerator.cpp:119-133 | From a low line, appends one high pulse and one low pulse of the bit's nominal widths at the current speed. The line ends low. |
| Simulation.AsyncRgbLedSimulationDataGenerator.WriteUIntData | src/AsyncRgbLedSimulationDataGenerator.cpp:109-117 | Appends the pulse pairs of the bitCount low bits of the value, most significant first. |
| Simulation.AsyncRgbLedSimulationDataGenerator.WriteRGBTriple | src/AsyncRgbLedSimulationDataGenerator.cpp:90-99 | Appends the three channels in the controller's wire order, each BitSize bits wide. |
| Simulation.AsyncRgbLedSimulationDataGenerator.WriteReset | src/AsyncRgbLedSimulationDataGenerator.cpp:101-107 | From a low line, appends a low segment of the nominal reset time. |
| Simulation.AsyncRgbLedSimulationDataGenerator.RandomRGBValue | src/AsyncRgbLedSimulationDataGenerator.cpp:135-141 | Returns the colour of the next three draws and counts them. |
| Simulation.AsyncRgbLedSimulationDataGenerator.CreateRGBWord | src/AsyncRgbLedSimulationDataGenerator.cpp:84-88 | Appends the word of the next random colour. |
| Simulation.AsyncRgbLedSimulationDataGenerator.WriteWords | src/AsyncRgbLedSimulationDataGenerator.cpp:66-69 | Appends six random words and draws 18 values. |
| Simulation.AsyncRgbLedSimulationDataGenerator.AdvanceFrame | src/AsyncRgbLedSimulationDataGenerator.cpp:71-77 | Increments the 32-bit frame counter, wrapping at 2^32. Toggles the speed when the new count is a multiple of 7 and high-speed generation is on. |
| Simulation.AsyncRgbLedSimulationDataGenerator.WritePacket | src/AsyncRgbLedSimulationDataGenerator.cpp:61-77 | Appends one reset and six words at the packet's speed, and moves the state as AfterPacket gives. |
| Simulation.AsyncRgbLedSimulationDataGenerator.WriteNextPacket | src/AsyncRgbLedSimulationDataGenerator.cpp:59-77 | One pass of the generation loop. It keeps the loop's invariant and makes the waveform strictly longer. |
| Simulation.AsyncRgbLedSimulationDataGenerator.GenerateSimulationData | src/AsyncRgbLedSimulationDataGenerator.cpp:53-82 | Returns one channel. Appends whole packets, each written from the state the previous ones left, until the sample position reaches the target, and every packet starts below the target. The settings are unchanged. |
| Loopback.NominalNegativeAboveMinimum | src/AsyncRgbLedAnalyzerSettings.cpp:54-208 | Every negative window of the catalogue has its minimum strictly below its nominal time. |
| Loopback.NominalPairAccepted | src/AsyncRgbLedAnalyzer.cpp:205-306 | For every bit value and supported speed, the nominal high time, with the nominal low time one sample short, is accepted as that bit. This holds under the locked-speed classification and window test, and DetectSpeedMode finds exactly that value and speed. |
| Loopback.SegmentEndsConcat | src/AsyncRgbLedSimulationDataGenerator.cpp:53-82 | The segment ends of two waveforms written one after the other are those of the first, then those of the second shifted by the first's length. |
| Loopback.CapturesConcat | src/AsyncRgbLedSimulationDataGenerator.cpp:53-82 | A capture of two waveforms one after the other is a capture of the first, and a capture of the second from the cursor just past the first. |
| Loopback.NominalBitRead | src/AsyncRgbLedSimulationDataGenerator.cpp:119-133 | On a capture of one pulse pair, ReadBit returns a valid data bit of the written value. This holds inside a packet locked to the written speed and as the first bit after a reset. The bit begins on the rising edge and ends one sample before the next one. The cursor stops on that edge with the written speed locked. |
| Loopback.PacketEndIsReset | src/AsyncRgbLedAnalyzer.cpp:240-256 | The last bit of a packet, whose low time runs into the next reset, is read as a valid reset bit carrying its value. Its frame ends the nominal low time after the falling edge, and the cursor stops the reset minimum after it. |
| Loopback.BitsRoundTrip | src/AsyncRgbLedSimulationDataGenerator.cpp:113-133 | On a capture of any run of bits the generator writes, ReadBits returns as many valid data bits, with exactly the values written. Each spans its own pulse pair. The cursor stops on the rising edge after the run, with the written speed locked. |
| Loopback.WordRoundTrip | src/AsyncRgbLedSimulationDataGenerator.cpp:109-117 | On a capture of the pulse pairs of a value that fits the width, ReadBits returns that many valid bits, which assemble, most significant first, to the value again. |
| Loopback.ChannelValuesOfWire | src/AsyncRgbLedAnalyzer.cpp:144-181 | Splitting the wire bits of channel values into channels gives the values back. |
| Loopback.WordColourOfWire | src/AsyncRgbLedAnalyzer.cpp:183-188 | For a three-channel controller, a word whose bits are a colour's wire bits decodes to that colour. |
| Loopback.TripleRoundTrip | src/AsyncRgbLedSimulationDataGenerator.cpp:90-99 | For a three-channel controller, ReadRGBTriple reads a written colour back as a valid, non-reset word holding that colour. The word spans the colour's pulse pairs, and the cursor stops on the rising edge after it with the written speed locked. |
| Loopback.GeneratedColourRoundTrip | src/AsyncRgbLedSimulationDataGenerator.cpp:135-141 | Every random colour the generator draws, with a maximum no larger than 2^BitSize, decodes back to itself. |

## Left out

- The results side is left out: FrameV2, AddFrameV2, CommitResults, CommitPacketAndStartNewPacket and ReportProgress.
  - The record the model keeps is the ordered list of packet starts and frames.
  - The FrameV2 block tests a layout `LAYOUT_GRBW` and a field `white` that `AsyncRgbLedHelpers.h` does not declare, and the model does not represent it.
- Settings user interface, load and save are left out: the constructor of the settings, SetSettingsFromInterfaces, UpdateInterfacesFromSettings, LoadSettings and SaveSettings. They only move the controller index between the interface and storage. The model takes the selected controller as a parameter.
- AsyncRgbLedAnalyzerResults is not part of this model. Neither are the plugin entry points: GetAnalyzerName, CreateAnalyzer, NeedsRerun, GetMinimumSampleRateHz and the analyzer's GenerateSimulationData wrapper.
- The SDK bodies of AnalyzerChannelData, SimulationChannelDescriptor, DataBuilder and BitExtractor are not visible. Their behaviour is stated as assumptions in `channel_data.dfy`, `simulation.dfy` and `bits.dfy`.
  - The one affecting decoding: WouldAdvancingCauseTransition(n) holds iff the next edge is at most n samples ahead.
  - When no edge is left, a blocking SDK call ends the model's decoding run instead of waiting forever.
- Floating point:
  - Windows are integer nanoseconds. Exact real arithmetic replaces the source's double arithmetic.
  - Products of seconds and a rate become floor divisions of integers.
- AdjustSimulationTargetSample is not part of this model. The adjusted target sample is a parameter of GenerateSimulationData.
- The ClockGenerator's rounding of each duration to whole samples is left out. Waveform segments carry exact nominal nanoseconds.
- Simulation.SimulationChannelDescriptor.Advance: takes nanoseconds rather than a sample count.
- rand() and srand(42) are a parameter, `rand`, which holds the sequence of values rand() returns. The model does not contain the C library's generator.
- The console messages on std::cerr are left out.
- Model-only splits:
  - The analyzer methods ReadPacket, ReadWord, ReadWordChannel, ReadChannel, ReadWordBit, AddBit, ToFallingEdge, ReadAfterFallingEdge, ReadLowPulse, ReadLowPulseEnd and SynchronizeStep are pieces of WorkerThread, ReadRGBTriple, ReadBit and SynchronizeToReset, split out to keep each proof small.
  - Likewise, WriteWords, AdvanceFrame, WritePacket and WriteNextPacket are pieces of GenerateSimulationData.
- The simulation writes three channels per word for every controller. The colour round trip (Loopback.TripleRoundTrip) is therefore stated only for the controllers with three channels. TM1809 reads 9 channels per word and SK6812 RGBW reads 4, so the decoder groups the generated bits differently for them.
- The round trips (Loopback) are stated for captures at one sample per nanosecond.
  - At other rates the ClockGenerator's rounding of durations to samples comes in, and that rounding is left out.
  - They are stated one word at a time. WorkerThread is not shown decoding a whole generated capture packet by packet.
- Helpers.ConvertToU64: assumes the byte order of a little-endian host for the source's memcpy. On a big-endian host the source would pack the fields in another order.
- The packet's frame index is a U32 in the source. The model's index is an unbounded nat, and the two differ only after 2^32 frames in one packet.
- Where the code and the usual protocol description differ, the model follows the code in two places:
  - a reset bit in the middle of a word does not stop the word's assembly, because only an invalid bit does;
  - the reset test is strict: a low time must exceed the reset minimum.
- At the very start of a simulated capture, the first reset is one nominal reset time of low line. For every controller except the two LPD1886 entries, that time equals the reset minimum, so the strict test does not take it for a reset. The LPD1886 entries have a nominal reset of 30 µs against a minimum of 24 µs, and their first reset is recognised. Every later reset follows a bit's low time and is recognised (Loopback.PacketEndIsReset).
