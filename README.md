# Adaptive-width LZW (MyLZW) in Dafny

This project models the core of `MyLZW.java`, an LZW codec whose code width W
grows from 9 to 16 bits as the codebook fills. It covers:

- **compress** (`MyLZW.java:25-114`): each pass writes the code of the longest
  codebook prefix of the remaining input at the current width W. When more
  input follows, it then adds "match + next char" to the codebook. When the
  codebook is full it widens W (and `L = 2^W`). At W = 16 it applies the
  full-codebook policy chosen on the command line: `n` does nothing, `r`
  resets to the 256 one-char strings. After the input it writes the sentinel
  256 at the current W.
- **expand** (`MyLZW.java:116-214`): it rebuilds the table in a 65536-slot
  array, one entry behind the encoder. A code equal to the next free slot i
  is resolved by the self-reference rule (`val + val.charAt(0)`). It widens
  and resets in step with compress.
- **the mode check of `main`** (`MyLZW.java:225`, `:242`): only the tokens
  `n`, `r` and `m` are accepted.

The modules are:

- `Common` holds bytes, codes with their widths (`Token`), the three modes,
  `Pow2` for `Math.pow(2, W)`, and the mode token check.
- `Encoding` is compress as a specification. The codebook (the source's
  ternary search trie) is a `map<seq<Byte>, int>`. `EncStep` is one pass of
  the main loop, `Steps` the whole loop, and `Encode` adds the sentinel.
- `Decoding` is expand as a specification. The table is a
  `seq<Option<seq<Byte>>>` where `None` is a null slot. `DecStep` is the
  table growth, `DecodeLoop` the `while (true)` loop, and `Decode` the whole
  of expand.
- `RoundTrip` relates the two sides. `SyncedAt` says the decoder's table
  holds the encoder's entries with the same codes, one entry behind, at the
  same width. `Simulation` carries that relation through the whole loop.
  `ExpandOfCompress` states exactly when `expand(compress(B)) == B`, in
  mode r for every input and in mode n before the codebook saturates.
- `Invariants` covers prefix closure of the codebook, consecutive code
  assignment, how W moves, and the two full-codebook policies.
- `Findings` holds the concrete input on which the sentinel is misread.
- `Program` is the imperative form of the two routines. Class `MyLZW` has the
  static fields `W`, `L` and `fullCodebook`:
  - `Compress` reassigns the codebook pass by pass.
  - `Expand` fills an `array` of 65536 slots in place, and allocates a fresh
    array on a reset, as `new String[65536]` does.
  - Each is proved to compute `Encode` or `Decode`, whose properties are
    proved in the other modules.

The bit stream is abstracted as a sequence of `Token(code, width)`:

- The writer rejects a code that does not fit its width (`Fits`).
- The reader (`ReadCode`) fails with `EndOfInput` when the stream is
  exhausted.
- It fails with `Misframed` when the next code was written with a width other
  than the one it is read with. Such a stream would be misread bit for bit.

Two consequences of the code as written:

- **Pending entry in a mode r reset.** On a reset, compress still puts the
  pending entry (match + next char) into the fresh codebook at code 257
  (`MyLZW.java:73`), and expand parks its own pending entry at slot 256
  (`MyLZW.java:173`). So the codebook is prefix-closed except after a reset
  whose match was longer than one char (`Invariants.ResetBreaksPrefixClosed`).
- **Round trip.** LZW's round trip `expand(compress(B)) == B` holds except in
  the cases under "## Findings", and in mode n after saturation (see
  "## Left out").

## Model

| member | source | states |
|---|---|---|
| Common.Pow2 | MyLZW.java:51 | the integer 2^W standing for `(int)Math.pow(2, W)` (also at `:150`), at least 1 |
| Common.Pow2Range | MyLZW.java:22-23 | L = 2^W lies within [512, 65536] for every W in [9, 16]; 2^9 = 512 and 2^16 = 65536 |
| Common.ParseMode | MyLZW.java:225 | a mode is accepted exactly for the tokens "n", "r" and "m" (anything else is the IllegalArgumentException), and the accepted mode's token is the one given |
| Common.ParseModeToken | MyLZW.java:242 | the token written for a mode is accepted again, as that same mode, when expand re-reads it |
| Encoding.Start | MyLZW.java:34-36 | the seeded codebook (all 256 one-char strings, each coded by its char) with next code 257 at W = 9 satisfies the codebook invariant |
| Encoding.MatchLength | MyLZW.java:39 | the longest-prefix search: the prefix found is a key, no longer prefix is a key, and a match of at least one char exists whenever the first char is a key |
| Encoding.Grow | MyLZW.java:44-74 | below L the entry gets code `next` and next advances by one; when full below 16 bits W grows by one first; at W = 16 mode n changes nothing and mode r restarts from the seed with the entry at 257; the codebook invariant (9 <= W <= 16, 257 <= next <= L, one-char keys coded by their char, longer keys in [257, next)) is kept |
| Encoding.EncStep | MyLZW.java:39-110 | one pass matches at least one char, splits the input into match and rest, writes the match's code at W with a code below 2^W and never 256, no longer prefix of the input is a key, and keeps the codebook invariant |
| Encoding.StepGrows | MyLZW.java:44-52 | after a pass the codebook is unchanged when the match was the whole input, and otherwise has grown by the match plus the next char, which was not a key before |
| Encoding.Steps | MyLZW.java:38-111 | the main loop writes at most one code per input char and at least one for non-empty input, every code fits its width and is not the sentinel, and the final state satisfies the codebook invariant |
| Encoding.Encode | MyLZW.java:25-114 | compress's output ends with the sentinel 256 at a valid width, all earlier codes are data codes that fit their width, and empty input gives only the sentinel at 9 bits |
| Decoding.SeedTable | MyLZW.java:126-127 | a fresh 65536-slot table with the one-char strings in slots 0..255 and nulls elsewhere |
| Decoding.StartDec | MyLZW.java:125-128 | the table after seeding and the unused "" at slot 256, with i = 257 and W = 9, satisfies the table invariant (every write `st[i++]` stays below 65536) |
| Decoding.ReadCode | MyLZW.java:138 | a code is read only when one is left and was written at the width it is read with; otherwise the read fails |
| Decoding.DecStep | MyLZW.java:143-174 | slot i is filled while i < L - 1; at i = L - 1 below 16 bits W grows and slot i is filled; at W = 16 mode n changes nothing and mode r restarts from a fresh table with the entry at slot 256 and i = 257; the table invariant is kept |
| Decoding.Resolve | MyLZW.java:141-142 | a code equal to i stands for val plus its first char, any other code for its table slot, and a resolved string is never empty |
| Decoding.DecodeLoop | MyLZW.java:135-212 | a successful run of expand's loop writes the current string first |
| Decoding.Decode | MyLZW.java:116-214 | the stream holding only the sentinel at 9 bits expands to the empty output |
| RoundTrip.ResolveMatches | MyLZW.java:141-142 | with both sides in step, the decoder resolves the code the encoder writes to exactly the encoder's match, including the self-reference case |
| RoundTrip.AddKeepsSynced | MyLZW.java:143-151 | below saturation, the encoder's new entry and the decoder's store of the previous entry keep the tables in step and the widths equal |
| RoundTrip.ResetKeepsSynced | MyLZW.java:160-173 | at saturation in mode r, the encoder's reset (entry at 257) and the decoder's reset (entry parked at slot 256, i = 257) leave the two sides in step |
| RoundTrip.StepKeepsSynced | MyLZW.java:141-174 | one pass on each side keeps them in step, in mode r always and in mode n before saturation |
| RoundTrip.LastCode | MyLZW.java:138-151 | after the last data code the decoder reads the sentinel at the width its own growth leaves it with, and misreads a sentinel of any other width |
| RoundTrip.Simulation | MyLZW.java:135-212 | in mode r, and in mode n while the codebook does not saturate: from synchronised states, expand's loop over the encoder's remaining codes and a sentinel written at width w outputs exactly the rest of the input if w is the decoder's width at that point, and fails as misframed otherwise |
| RoundTrip.FirstStep | MyLZW.java:130-133 | compress's first pass matches the first char alone and writes its char code at 9 bits; when input follows, the two sides are in step after expand's first read |
| RoundTrip.DecodeFirst | MyLZW.java:130-133 | expand's first read looks the code up in the seed table and enters the loop with that string |
| RoundTrip.DecodeSteps | MyLZW.java:25-214 | in mode r, and in mode n while the codebook does not saturate: expand of compress's data codes followed by a sentinel of width w gives the input back exactly when w is the width the decoder expects, and misframes otherwise |
| RoundTrip.FinalState | MyLZW.java:112 | the sentinel compress writes has the width of the encoder's final state |
| RoundTrip.ExpandOfCompress | MyLZW.java:25-214 | expand(compress(B)) == B, in mode r for every B and in mode n while the codebook does not saturate, except exactly when the run ends on a decoder width transition, in which case expand fails |
| RoundTrip.EncodeCorrected | MyLZW.java:112 | the corrected compress differs from compress only in the sentinel's width |
| RoundTrip.CorrectedRoundTrip | MyLZW.java:112 | with the sentinel written at the width the decoder expects, expand(compress(B)) == B without exception (mode n: before saturation) |
| Invariants.WidthMoves | MyLZW.java:44-71 | over one pass W stays, grows by exactly one only when the codebook is full, or returns to 9 only in a mode r reset at saturation |
| Invariants.StepKeepsPrefixClosed | MyLZW.java:44-52 | outside a reset, a pass keeps every key's one-char-shorter prefix in the codebook |
| Invariants.RunKeepsPrefixClosed | MyLZW.java:38-111 | in mode n, and in mode r before saturation, the codebook stays prefix-closed for the whole run |
| Invariants.ResetBreaksPrefixClosed | MyLZW.java:61-73 | a reset whose pending entry is longer than two chars leaves a codebook that is not prefix-closed |
| Invariants.CodeCount | MyLZW.java:44-52 | before saturation codes are assigned consecutively: the final next code is the initial one plus the number of codes written minus one, and W never decreases |
| Invariants.TransitionCount | MyLZW.java:44-52 | for a non-empty input whose run from the start never saturates (no reset in mode r, no frozen codebook in mode n): the final next code is 256 plus the number of data codes; below 16 bits (always in mode r) the decoder changes width on the last code exactly when that number is 2^W - 256 |
| Invariants.FreezeLeavesLastSlot | MyLZW.java:154-159 | in mode n at W = 16 with i = 65535 the decoder stops filling its table, and code 65535 resolves to the current string plus its first char whatever the encoder stored |
| Invariants.EncoderFillsLastCode | MyLZW.java:44-47 | with next code 65535 at W = 16 the encoder still stores its entry under code 65535 |
| Findings.AscendingStep | MyLZW.java:39-47 | on that input every pass matches one char and adds a two-char entry without touching the policy |
| Findings.AscendingRun | MyLZW.java:38-111 | on that input compress ends with next code 512 at W = 9 and never saturates |
| Findings.SentinelMisread | MyLZW.java:112 | on that input the final codebook is exactly full, the decoder widens before the sentinel, and expand(compress(B)) fails as misframed in both modes n and r |
| Findings.SentinelCorrected | MyLZW.java:112 | with the corrected sentinel width the same input is read back exactly |
| Program.SeedCodebook | MyLZW.java:34-35 | the loop of puts builds exactly the seed codebook |
| Program.SeedArray | MyLZW.java:126-127 | the seeding loop fills a fresh array with the one-char strings in slots 0..255 and nulls elsewhere |
| Program.MyLZW.constructor | MyLZW.java:22-24 | W = 9, L = 512 and the chosen mode |
| Program.MyLZW.Compress | MyLZW.java:25-114 | the codes written are those of Encode, and W ends at the final state's width |
| Program.MyLZW.MainLoop | MyLZW.java:38-111 | the while loop writes the codes of Steps and leaves W at the final width, keeping L = 2^W |
| Program.MyLZW.Pass | MyLZW.java:39-110 | one loop body computes the pass of EncStep: its code, its new codebook, next code and W, and the remaining input |
| Program.MyLZW.AddEntry | MyLZW.java:44-74 | the three growth branches update codebook, next code, W and L as Grow does |
| Program.MyLZW.Expand | MyLZW.java:116-214 | the result is that of Decode |
| Program.MyLZW.ExpandLoop | MyLZW.java:135-212 | the while(true) loop over the array gives the result of DecodeLoop on the array's contents |
| Program.MyLZW.StoreEntry | MyLZW.java:143-174 | the three growth branches update the array (or replace it by a fresh one on a reset), i, W and L as DecStep does |

## Left out

- Monitor mode `m` (`MyLZW.java:75-107`, `:175-208`) is accepted by
  `ParseMode`, but every codec member requires `mode != Monitor`. Its
  decision compares double-precision ratios with `> 1.1`. Also, expand stops
  counting compressed bits after the first code (the commented-out line
  139), so the two sides' decisions are not modelled as comparable.
- The ratio counters `comp`, `uncomp`, `oldRatio` and `newRatio` are left out
  in all modes. They only affect monitor mode.
- Bit packing, zero padding on close, and the reading and writing of
  standard input and output (`BinaryStdIn` and `BinaryStdOut` are not part
  of this model). The output is a sequence of `(code, width)` tokens, and
  the input a sequence of bytes.
- The ternary search trie (`TST` is not part of this model) is a map. Its
  `longestPrefixOf` is the specified `MatchLength`.
- The `main` plumbing (`MyLZW.java:216-255`) is left out: the
  `fullCodebook.txt` side file, the argument array and the exceptions. Only
  the token check is kept.
- Logging to `System.err` is left out.
- `Math.pow(2, W)` is the integer `Pow2(W)`; no floating point is involved.
- Program.MyLZW.Expand: the source writes each string as soon as it is
  resolved. The model returns the whole output or the error that stops the
  run, so output written before an error is not modelled. A null string is
  the error `UnknownCode`, where the source would fail with a null pointer
  exception.
- RoundTrip.ExpandOfCompress: in mode n the round trip is proved only while
  the codebook never saturates (`NoSaturation`). After saturation the encoder
  has stored code 65535 but the decoder never fills slot 65535
  (`Invariants.EncoderFillsLastCode`, `Invariants.FreezeLeavesLastSlot`). A
  later code 65535 is then resolved by the self-reference rule. No concrete
  failing input is exhibited for this case.
- Program.MyLZW.Compress: W and L are static fields in the source, never
  re-initialised between calls. The model requires W = 9 on entry (as does
  `Program.MyLZW.Expand`), which is what a fresh program run has.

## Findings

| source | as written | input that shows it | evidently intended | confidence | as-written member | corrected member |
|---|---|---|---|---|---|---|
| MyLZW.java:112 | compress writes the sentinel 256 at its own final W. Its codebook only grows (and so only widens or resets) when more input follows (`MyLZW.java:44-55`). expand grows its table on every data code it reads after the first, the last one included (`MyLZW.java:143-173`). When compress's final next code equals L, expand has already moved to W + 1 below 16 bits, or to 9 at 16 bits in mode r (in mode n at 16 bits it stays), and misreads the sentinel. | the 256 bytes 0, 1, ..., 255 in order, in mode n or r: 256 data codes, final next code 512 at W = 9, sentinel written at 9 bits and read at 10 | the sentinel is written at the width the decoder reads it with (W + 1 when the codebook ended full below 16 bits, 9 after a reset in mode r), so that expand(compress(B)) == B | not executed | Findings.SentinelMisread | RoundTrip.CorrectedRoundTrip |
