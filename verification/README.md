# Verified models of the OtterOS crates

Dafny models of the logic in OtterOS's self-contained crates, each proved against an
independent statement of what it is for. `dafny verify dfyconfig.toml` checks everything.
There is one module per file, named after its file. Loops, in-place buffers and objects of
the sources are loops, arrays, sequences and classes here; the masks and shifts that select
or cut are written as conditionals, division and remainder on bounded naturals.

## What is proved

**Grammar-constrained decoding** (`Schema`, `ToolCallLanguage`, `MatcherFrames`,
`FrameLanguages`, `StringDerivatives`, `FrameDerivatives`, `StackDerivatives`,
`MatcherTheorems`, `Liveness`, `DeadEnds`, `Matcher`, `ZeroBounds`, `CallShapes`,
`ToolInputs`, `Deviations`, `SpelledTexts`).
`ToolCallLanguage` defines the language of a grammar on byte strings: the fixed prefix, one object naming a
declared tool whose input conforms to that tool's schema, the fixed suffix; `SpelledTexts`
says the same without recursion, as concatenations of parts. Every byte step
of the pushdown machine is shown to be the derivative of that language, so the matcher
accepts exactly it, refuses no beginning of it, and its token mask is exact. It has no dead
ends if and only if the grammar is live, a condition on the enum values and tool names
alone.

**Big integers and RSA** (`Congruence`, `Limbs`, `Montgomery`, `ModularArithmetic`,
`LimbBytes`, `Truncation`, `Pss`, `Rsa`, `DerSignatures`, `Shamir`). Limb arrays with
carries, Newton inversion, REDC and square-and-multiply refine arithmetic modulo n for every odd n up to
4096 bits. On top of them both RSA verifiers accept exactly the signatures RFC 8017 does,
over an arbitrary hash. The DER parser and encoder are mutual inverses, and the combined
scalar multiplication computes u1 G + u2 Q over any addition that follows the group law.

**DEFLATE, zlib and PNG** (`BitStreams`, `Huffman`, `Inflate`, `Inflater`, `Deflate`,
`DeflateSymbols`, `DeflateStreams`, `BitPolynomials`, `Checksums`, `Zlib`, `Colors`,
`PngFilters`, `PngChunks`, `Png`, `PngPixels`, `PngFiles`).
`Inflate` states the format as a function of the bits; the decoder's loops compute it on
every byte string. The encoders are separate code and are undone by the decoder, up to
`decode(encode(surface)) == surface`. Beyond what the encoders write, streams of fixed and
dynamic blocks with matches are read back, and a PNG file of any colour type decodes to a
surface if and only if its chunks show it, pixel by pixel and channel by channel.

**Prime fields and GF(2^128)** (`Endian`, `FiveLimbs`, `Poly1305`, `FieldElements`,
`X25519`, `Clamps`, `Ghash`). Lazily reduced limbs never overflow and always stand for the exact
residue; Poly1305 is the polynomial of RFC 8439 for every chunking; X25519 refines the
ladder over integers modulo 2^255 - 19, bytes to bytes; the GCM shift register is polynomial
multiplication modulo a^128 + a^7 + a^2 + a + 1.

**Hash streaming** (`StreamingHash`). The buffering and padding of SHA-256 and SHA-512 over
an arbitrary compression function.

**Random numbers** (`HealthTests`, `ProportionCutoffs`, `Drbg`, `Csprng`,
`GeneratorHistory`, `JitterRing`). Health tests against sample histories, their cutoffs
against the binomial tail, HMAC_DRBG over an arbitrary keyed hash, the generator's invariants
and accounting over every run, from the credited samples to every byte given out, and the
interrupt ring as interleaved steps.

## What the code does that its documentation does not say

- A tool name or enum value with a non-ASCII character is a dead end: its lead byte is
  recorded, its continuation bytes are not, so the value never compares equal
  (`matcher.rs:639-720`). `DeadEnds.NoDeadEndsIffLive` is the exact condition.
- `maxItems: 0` lets one item through (`matcher.rs:903-925`): it is read as 1
  (`ZeroBounds.ReadsZeroAsOne`), and `ZeroBounds.SoundIffNoZero` says when that matters.
- The \u escapes E800-EFFF and F800-FFFF are refused along with the surrogates
  (`matcher.rs:771-773`): `Deviations.EscapesRefused`.
- The outer call object may have one space before its `,` and its `}`, which the rule in
  item 3 of `briefs/M9-T0c.md` does not list (`Deviations.OuterSpacesAccepted`); the language
  here follows the code.
- A schema object whose properties are `name`, `input` in that order is taken for the outer
  call when it closes (`matcher.rs:410-423`, `603-616`), so the suffix must follow it inside
  the input: `CallShapes.ExactIffNoCallShape` and `SoundIffNoCallShape`.
- A tool's index is kept in 16 bits (`matcher.rs:659`), so from the 65537th tool on an input is
  held against another tool's schema: `ToolInputs.TakesInputsOf`.
- A tool schema of type object that also has a `const` compiles to a string
  (`lib.rs:107-143`); the matcher then takes the empty object as input and nothing else
  (`ToolInputs.OnlyEmptyObjects`).
- Poly1305's limb one may end a carry step above 2^26, although its comment names 2^26 as the
  most (`poly1305.rs:48-55`): `Poly1305.FirstBlockExceeds` reaches 2^26 + 10 after one block,
  and the most that any input reaches is 2^26 + 37 (`LastCarrySmall`, `SharpestLimbOne`).
  No product overflows and the tag is right all the same.
- Adler-32's chunk of 5552 bytes is the longest safe one, though not for the reason its
  comment gives: the second sum grows quadratically.
- The jitter ring takes exactly 256 unread samples for none, so a writer that laps the
  reader costs 256 samples each time (`JitterRing.FullLooksEmpty`); order is still kept.

## Assumptions on a grammar

`Schema.WellFormed` collects what the matcher relies on: property names without `"` or
bytes below 0x20, distinct, at most 32 to an object (the candidate mask has 32 bits), as many
schemas as names, and text whose lead bytes are followed by continuation bytes, as in every
Rust `String`. It also rules out the four cases above, each of which has its own exact
statement: `maxItems: 0`, the `name`/`input` shape under a suffix, a tool number that leads to
a different schema, and a tool schema that is no object.

## Model

| member | source | states |
|---|---|---|
| MatcherFrames.RetryIsLighter | crates/otter-grammar/src/matcher.rs:125-954 | handing the same byte to the frame below always leaves a strictly lighter stack, so the reprocessing loop of `step` ends on every state and byte |
| FrameDerivatives.FrameDerivative | crates/otter-grammar/src/matcher.rs:140-950 | for every frame kind and phase but those that read the tool's name, which StepDerivative treats, one byte's reaction is the derivative of the frame's language: rejected exactly when no text starts with the byte, otherwise the new frames read exactly the rest |
| StackDerivatives.TopConsumes | crates/otter-grammar/src/matcher.rs:125-954 | a consuming reaction of the top frame turns the language of a whole stack into its derivative |
| StackDerivatives.TopRetries | crates/otter-grammar/src/matcher.rs:125-954 | passing the same byte on to the frame below keeps the language of the whole stack |
| MatcherTheorems.StepDerivative | crates/otter-grammar/src/matcher.rs:125-954 | one `step` from any valid state, the last-enum bookkeeping for the tool name included, is the language derivative by that byte |
| MatcherTheorems.RunDerivative | crates/otter-grammar/src/matcher.rs:118-123 | after any accepted bytes the texts that lead to completion are exactly the completions of those bytes; on rejection there is none |
| MatcherTheorems.NothingLeft | crates/otter-grammar/src/matcher.rs:992-994 | completion holds exactly when the empty continuation is in the language of the state |
| MatcherTheorems.AcceptsExactlyToolCalls | crates/otter-grammar/src/matcher.rs:108-123 | soundness and completeness: a fresh matcher accepts w and is complete exactly when w is prefix, one call of a declared tool whose input conforms to its schema, suffix (the texts CallSpelled and ObjectSpelled spell out) |
| MatcherTheorems.KeepsEveryContinuation | crates/otter-grammar/src/matcher.rs:118-123 | no beginning of a tool call is ever refused |
| SpelledTexts.CallSpelled | crates/otter-grammar/src/matcher.rs:140-350 | the language spelt out: a tool call is the prefix, one object with `name` and `input` and at most one space at each of six places, and the suffix; the name is the first of that name and plain |
| SpelledTexts.ObjectSpelled | crates/otter-grammar/src/matcher.rs:1016-1028 | a text conforms to an object schema exactly when it is members for some of the properties in increasing order, each with a conforming value, and every required property is among them |
| SpelledTexts.ArraySpelled | crates/otter-grammar/src/matcher.rs:881-950 | an array is conforming items behind commas, no more of them than the bound |
| SpelledTexts.StringSpelled | crates/otter-grammar/src/matcher.rs:691-784 | a string is characters of JSON between quotes, no more of them than the bound |
| SpelledTexts.EscapeCharacters | crates/otter-grammar/src/matcher.rs:739-784 | the escape letters are those of section 7 of RFC 8259; hexadecimal digits have their values |
| SpelledTexts.StructuralCharacters | crates/otter-grammar/src/matcher.rs:140-350 | the bytes the language mentions are the characters and words they are named after |
| Liveness.DrainValue | crates/otter-grammar/src/matcher.rs:1030-1076 | a witness text for every live schema, built by recursion over it, that drives a value frame to its end |
| Liveness.StepStaysLive | crates/otter-grammar/src/matcher.rs:125-954 | every accepted byte keeps the state live (stack invariant over all reachable states) |
| Liveness.NoDeadEnds | crates/otter-grammar/src/matcher.rs:125-954 | from every state a live grammar can reach some finite text completes the call |
| DeadEnds.DeadValue | crates/otter-grammar/src/matcher.rs:639-650 | in a schema that is not live some text leads to a value no text can finish |
| DeadEnds.DeadEnd | crates/otter-grammar/src/matcher.rs:691-720 | a grammar that is not live has a reachable dead end |
| DeadEnds.NoDeadEndsIffLive | crates/otter-grammar/src/matcher.rs:1016-1076 | the matcher never paints itself into a corner if and only if the grammar is live (every enum value and tool name that can be begun can be finished with plain characters) |
| DeadEnds.AcceptsExactlyPrefixes | crates/otter-grammar/src/matcher.rs:118-123 | in a live grammar the accepted byte strings are exactly the beginnings of tool calls |
| Matcher.Matcher.constructor | crates/otter-grammar/src/matcher.rs:108-114 | a new matcher is in the initial state, which reads the whole prefix-call-suffix language |
| Matcher.Matcher.StepByte | crates/otter-grammar/src/matcher.rs:125-954 | the loop over the object's frame stack computes the step whose language meaning StepDerivative states |
| Matcher.Matcher.AcceptBytes | crates/otter-grammar/src/matcher.rs:118-123 | feeds bytes until the first refusal; the state is that of the run over the accepted bytes |
| Matcher.Matcher.AcceptToken | crates/otter-grammar/src/matcher.rs:957-963 | a token is its bytes |
| Matcher.Matcher.AllowedTokens | crates/otter-grammar/src/matcher.rs:966-989 | the mask holds exactly the tokens whose bytes a clone accepts, and the end token exactly when complete; the matcher itself is untouched |
| Matcher.Matcher.IsComplete | crates/otter-grammar/src/matcher.rs:992-994 | true exactly in complete states |
| Matcher.Matcher.Reset | crates/otter-grammar/src/matcher.rs:997-1002 | back to the initial state |
| Matcher.Matcher.Clone | crates/otter-grammar/src/matcher.rs:1005-1013 | an equal but separate matcher |
| Matcher.TokenMask.Clear | crates/otter-grammar/src/lib.rs:280-282 | nothing allowed |
| Matcher.TokenMask.Allow | crates/otter-grammar/src/lib.rs:263-267 | exactly one token more, out-of-range numbers ignored |
| Matcher.AcceptedMeans | crates/otter-grammar/src/matcher.rs:118-123 | what acceptance by a fresh matcher says, in both directions |
| Matcher.MaskIsExact | crates/otter-grammar/src/matcher.rs:966-989 | in a live grammar the mask allows a token exactly when a tool call begins with the bytes so far and the token's, and the end token exactly after a whole call |
| Matcher.SomeTokenAllowed | crates/otter-grammar/src/matcher.rs:966-989 | with single-byte tokens available some token is always allowed |
| ZeroBounds.ReadsZeroAsOne | crates/otter-grammar/src/matcher.rs:903-925 | for every otherwise well-formed grammar, `maxItems` 0 included: a fresh matcher accepts w and is complete exactly when w is a tool call of the grammar with each bound 0 replaced by 1 |
| ZeroBounds.SoundIffNoZero | crates/otter-grammar/src/matcher.rs:903-925 | in a live grammar every accepted and complete text is a tool call if and only if no input schema of a callable tool has an array with `maxItems` 0 at any depth; otherwise a text with one item too many gets through |
| CallShapes.ExactIffNoCallShape | crates/otter-grammar/src/matcher.rs:410-423 | in a live grammar with a suffix the matcher accepts exactly the tool calls if and only if no input schema of a callable tool holds, at any depth, an object whose properties are `name`, `input` in that order; otherwise some tool call is refused |
| CallShapes.SoundIffNoCallShape | crates/otter-grammar/src/matcher.rs:603-616 | if moreover the suffix begins with none of space, comma and the two closing brackets, everything accepted is a tool call under the same condition and no other |
| CallShapes.Refused | crates/otter-grammar/src/matcher.rs:603-616 | given a call through such an object, a tool call that the matcher refuses |
| CallShapes.Admitted | crates/otter-grammar/src/matcher.rs:603-616 | given a call through such an object, an accepted text with the suffix inside the input, which is no tool call for those suffixes |
| Deviations.EscapesRefused | crates/otter-grammar/src/matcher.rs:755-784 | a matcher in a string with room for a character reads backslash, u and four hex digits if and only if the code unit lies in none of D800-DFFF, E800-EFFF, F800-FFFF, and then counts one character |
| Deviations.PrivateUseRefused | crates/otter-grammar/src/matcher.rs:771-773 | the escape of E800 is refused there |
| Deviations.CharactersRead | crates/otter-grammar/src/matcher.rs:691-784 | the characters of a string it reads are those of section 7 of RFC 8259 without the escapes in those three ranges, and no others |
| Deviations.NonAsciiValueIsDeadEnd | crates/otter-grammar/src/matcher.rs:639-720 | reading an enum value up to the first byte of a non-ASCII character within its bound is accepted and leads to a frame no text can finish |
| Deviations.OneOuterSpace | crates/otter-grammar/src/matcher.rs:265-350 | after the name and after the input of the call any number of spaces is accepted exactly up to one |
| Deviations.OuterSpacesAccepted | crates/otter-grammar/src/matcher.rs:265-350 | a whole call with a space before its comma, before its closing brace, or both, is accepted to completion |
| ToolInputs.TakesInputsOf | crates/otter-grammar/src/matcher.rs:655-662 | for every otherwise well-formed grammar, with any number of tools and schemas of any kind: a fresh matcher accepts w and is complete exactly when w is a call whose input is one for the schema under the tool's sixteen-bit number, or an empty object when that schema is no object |
| ToolInputs.WrappedToolCalled | crates/otter-grammar/src/matcher.rs:317-337 | a call of tool i with any input of the schema under its sixteen-bit number is accepted by a fresh matcher: tool 65536 with the inputs of tool 0 |
| ToolInputs.OnlyEmptyObjects | crates/otter-grammar/src/lib.rs:107-143 | for a tool schema that is no object, as a `const` beside the type makes it, the inputs are exactly `{}` and `{ }` |
| Limbs.Compare | crates/otter-crypto/src/bigint.rs:199-209 | limb order from the top is numeric order |
| Limbs.WrappingAddAssign | crates/otter-crypto/src/bigint.rs:162-169 | the carry loop adds modulo the capacity |
| Limbs.WrappingSubAssign | crates/otter-crypto/src/bigint.rs:175-187 | the borrow loop subtracts modulo the capacity |
| Montgomery.MacAdd | crates/otter-crypto/src/bigint.rs:215-230 | out + n m at an offset, every column and the final carry inside the buffer whenever the value fits |
| Montgomery.MulWide | crates/otter-crypto/src/bigint.rs:235-240 | schoolbook product of any two limb strings |
| Montgomery.NewtonRound | crates/otter-crypto/src/bigint.rs:248-254 | each iteration doubles the number of correct low bits |
| Montgomery.MontN0inv | crates/otter-crypto/src/bigint.rs:248-254 | five rounds give -1/n0 modulo 2^64 for every odd limb |
| ModularArithmetic.BitLength | crates/otter-crypto/src/bigint.rs:110-117 | the number of bits, from the highest nonzero limb |
| ModularArithmetic.LimbCleared | crates/otter-crypto/src/bigint.rs:338-341 | adding the chosen multiple of the modulus clears one limb and keeps those below clear |
| ModularArithmetic.Redc | crates/otter-crypto/src/bigint.rs:338-341 | all low limbs cleared by adding a multiple of n, without overflowing the buffer |
| ModularArithmetic.Quotient | crates/otter-crypto/src/bigint.rs:342-347 | what is left is below 2n, so one conditional subtraction is enough |
| ModularArithmetic.MontMul | crates/otter-crypto/src/bigint.rs:334-348 | below n and congruent to a b / R whenever a b < n R |
| ModularArithmetic.CancelRadix | crates/otter-crypto/src/bigint.rs:323-334 | R can be cancelled modulo every odd n, so Montgomery form determines the residue |
| ModularArithmetic.MontgomeryEncode | crates/otter-crypto/src/bigint.rs:351-353 | a R modulo n |
| ModularArithmetic.MontgomeryDecode | crates/otter-crypto/src/bigint.rs:356-358 | undoes the encoding |
| ModularArithmetic.MulMod | crates/otter-crypto/src/bigint.rs:366-370 | a b modulo n for operands below R |
| ModularArithmetic.Pow2Mod | crates/otter-crypto/src/bigint.rs:260-273 | 2^k modulo n by doublings |
| ModularArithmetic.NewModulus | crates/otter-crypto/src/bigint.rs:293-303 | accepts exactly odd moduli of at most 4096 bits and gets R and R^2 right |
| ModularArithmetic.NextBit | crates/otter-crypto/src/bigint.rs:120-125 | bit i of the limbs is bit i of the number |
| ModularArithmetic.PowMod | crates/otter-crypto/src/bigint.rs:376-386 | base^exponent modulo n for every exponent the type can hold |
| ModularArithmetic.AddMod | crates/otter-crypto/src/bigint.rs:394-401 | the sum modulo m of operands below m |
| ModularArithmetic.SubMod | crates/otter-crypto/src/bigint.rs:404-413 | the difference modulo m of operands below m |
| LimbBytes.FromBeBytes | crates/otter-crypto/src/bigint.rs:82-93 | the number the bytes spell; refused exactly when longer than the capacity |
| LimbBytes.ToBeBytes | crates/otter-crypto/src/bigint.rs:98-107 | exactly that many bytes of the number; refused exactly when it needs more |
| BitStreams.BitReader.ReadBit | crates/otter-gfx/src/inflate.rs:45-58 | the next bit of the stream |
| BitStreams.BitReader.ReadBitsLsb | crates/otter-gfx/src/inflate.rs:60-66 | the number the next n bits spell, or end of data exactly when fewer are left |
| BitStreams.BitReader.AlignToByte | crates/otter-gfx/src/inflate.rs:68-73 | drops the rest of a begun byte |
| BitStreams.BitReader.ReadU16Le | crates/otter-gfx/src/inflate.rs:84-88 | two aligned bytes |
| BitStreams.BitWriter.WriteBit | crates/otter-gfx/src/deflate.rs:23-33 | one bit at the end of what was written |
| BitStreams.BitWriter.WriteBitsLsb | crates/otter-gfx/src/deflate.rs:35-40 | the low bits of a value, least significant first |
| BitStreams.BitWriter.WriteHuffmanCode | crates/otter-gfx/src/deflate.rs:42-46 | a code word, most significant bit first |
| BitStreams.BitWriter.Finish | crates/otter-gfx/src/deflate.rs:48-57 | the bytes hold the bits written, then zeros to the byte boundary |
| Huffman.BuildTable | crates/otter-gfx/src/inflate.rs:101-136 | a table exactly for the length lists whose codes fit, and the table holds every symbol at its canonical place |
| Huffman.PlaceSymbols | crates/otter-gfx/src/inflate.rs:123-134 | each symbol at the index its length and rank give, none overwritten |
| Huffman.MatchesUnique | crates/otter-gfx/src/inflate.rs:111-121 | lengths that fit give a prefix code: at most one symbol's code word begins any bits |
| Huffman.Decode | crates/otter-gfx/src/inflate.rs:140-156 | reads exactly the symbol whose code word comes next, or fails when there is none |
| Huffman.CodeWordDecodes | crates/otter-gfx/src/inflate.rs:140-156 | the code word of any symbol of nonzero length, followed by anything, decodes to that symbol and no further bit |
| Huffman.CanonicalCodes | crates/otter-gfx/src/deflate.rs:61-81 | the encoder's codes are the canonical ones, none cut by 16 bits |
| Inflate.CopyIsPeriodic | crates/otter-gfx/src/inflate.rs:204-208 | a back-reference appends the periodic extension of the last bytes, overlaps included |
| Inflater.CopyMatch | crates/otter-gfx/src/inflate.rs:204-208 | the byte-by-byte copy |
| Inflater.InflateMatch | crates/otter-gfx/src/inflate.rs:192-209 | length, distance and copy, or the right error |
| Inflater.InflateBlock | crates/otter-gfx/src/inflate.rs:186-213 | a compressed block read to its end, for every bit string; it terminates with every index in range |
| Inflater.ReadLengths | crates/otter-gfx/src/inflate.rs:226-255 | the run-length coded code lengths, never more than announced |
| Inflater.ReadDynamicTables | crates/otter-gfx/src/inflate.rs:215-260 | both tables of a dynamic block, each a code, or the first error |
| Inflater.FixedTables | crates/otter-gfx/src/inflate.rs:159-171 | the fixed lengths always make tables |
| Inflater.InflateStored | crates/otter-gfx/src/inflate.rs:270-281 | a stored block, its length checked against its complement |
| Inflater.InflateRaw | crates/otter-gfx/src/inflate.rs:263-294 | terminates on every byte string with the output, or the error, the bit format defines |
| DeflateSymbols.FitsIffKraft | crates/otter-gfx/src/inflate.rs:101-133 | code lengths make a table if and only if none is above 15 and they keep Kraft's inequality |
| DeflateSymbols.LengthSymbols | crates/otter-gfx/src/inflate.rs:173-177 | lengths start at 3, each symbol begins where the extra bits of the one before end, symbol 285 is 258, and the extra bits follow (s - 261) / 4 (section 3.2.5 of RFC 1951) |
| DeflateSymbols.DistanceSymbols | crates/otter-gfx/src/inflate.rs:178-183 | distances start at 1, likewise contiguous, with s / 2 - 1 extra bits |
| DeflateSymbols.LengthSpelt | crates/otter-gfx/src/inflate.rs:173-177 | every length from 3 to 258 has a symbol and extra bits |
| DeflateSymbols.DistanceSpelt | crates/otter-gfx/src/inflate.rs:178-183 | every distance from 1 to 32768 has a symbol and extra bits |
| DeflateSymbols.CodeLengthOrder | crates/otter-gfx/src/inflate.rs:184-184 | the order of the code lengths: 16, 17, 18, 0, then outward from 8 |
| DeflateSymbols.FixedCodes | crates/otter-gfx/src/inflate.rs:159-166 | the fixed code words are the ranges of section 3.2.6 of RFC 1951 |
| DeflateSymbols.FixedDistanceCodes | crates/otter-gfx/src/inflate.rs:168-171 | fixed distances are five-bit numbers |
| DeflateStreams.BlockReadsTokens | crates/otter-gfx/src/inflate.rs:186-213 | any list of literals and matches, written with any prefix code, is read back as the bytes it stands for |
| DeflateStreams.DynamicReads | crates/otter-gfx/src/inflate.rs:215-260 | the tables of a dynamic block are read back from any run-length spelling of their lengths |
| DeflateStreams.StreamReads | crates/otter-gfx/src/inflate.rs:263-294 | a stream of fixed and dynamic blocks with literals and matches inflates to what its tokens stand for |
| Deflate.DeflateFixed | crates/otter-gfx/src/deflate.rs:115-127 | exactly the block header, the literals' code words and the end word, zero-padded |
| Deflate.BlockReadsLiterals | crates/otter-gfx/src/inflate.rs:186-213 | the decoder's block reads those words back |
| Deflate.FixedRoundTrip | crates/otter-gfx/src/deflate.rs:113-127 | a fixed-Huffman stream reads back as its data, whatever pads it |
| Deflate.DeflateStored | crates/otter-gfx/src/deflate.rs:93-111 | stored blocks of at most 65535 bytes, the last one marked |
| Deflate.StoredRoundTrip | crates/otter-gfx/src/deflate.rs:93-111 | any number of stored blocks reads back as the data |
| Deflate.RoundTrips | crates/otter-gfx/src/deflate.rs:93-127 | inflating either encoding gives the data back |
| Checksums.ChunkIsLongest | crates/otter-gfx/src/checksum.rs:55-58 | 5552 is the longest chunk whose sums are sure to stay inside 32 bits |
| Checksums.AddChunk | crates/otter-gfx/src/checksum.rs:58-62 | no 32-bit overflow inside a chunk, and the sums agree with the unreduced ones |
| Checksums.Adler32 | crates/otter-gfx/src/checksum.rs:51-67 | the chunked loop computes the two whole sums modulo 65521 |
| Checksums.AdlerIs | crates/otter-gfx/src/checksum.rs:51-67 | the closed form: 1 + d1 + ... + dn below and n + n d1 + (n - 1) d2 + ... + dn above, both modulo 65521 |
| Checksums.FeedAtOnce | crates/otter-gfx/src/checksum.rs:8-13 | feeding up to 32 bits one at a time is adding them at once and shifting |
| Checksums.TableStep | crates/otter-gfx/src/checksum.rs:25-28 | a byte through the table is its eight bits through the shift register |
| Checksums.FeedDivides | crates/otter-gfx/src/checksum.rs:3-13 | feeding bits is long division: the register is the remainder of the message polynomial times a^32 plus the first register at its top, modulo the generator polynomial |
| Checksums.CrcIsRemainder | crates/otter-gfx/src/checksum.rs:16-35 | the checksum is 2^32 - 1 less the number of that remainder, the first 32 coefficients of the message inverted |
| Checksums.Crc32.Update | crates/otter-gfx/src/checksum.rs:23-30 | any split into updates gives the register over the concatenation |
| Checksums.Crc32.Finish | crates/otter-gfx/src/checksum.rs:33-35 | the checksum of everything fed |
| Zlib.InflateZlib | crates/otter-gfx/src/inflate.rs:298-326 | header, body and checksum in the decoder's order, with its errors |
| Zlib.WrappedContents | crates/otter-gfx/src/deflate.rs:132-137 | whatever body inflates to its source, the wrapped stream does too |
| Zlib.CompressFixed | crates/otter-gfx/src/deflate.rs:146-148 | a wrapped fixed block that decodes to the data |
| Zlib.CompressStored | crates/otter-gfx/src/deflate.rs:140-142 | wrapped stored blocks that decode to the data |
| Colors.Div255Rounds | crates/otter-gfx/src/color.rs:13-16 | the shift trick rounds to nearest for every product of two bytes |
| Colors.ChannelRoundTrip | crates/otter-gfx/src/color.rs:64-71 | a channel not above alpha survives dividing and multiplying |
| Colors.UnscaledNearest | crates/otter-gfx/src/color.rs:64-71 | the channel recovered is the one whose product with alpha comes nearest; above alpha it is full |
| Colors.RoundTripIffPremultiplied | crates/otter-gfx/src/color.rs:50-71 | a pixel survives unpremultiplying and premultiplying exactly when no channel exceeds its alpha |
| PngFilters.Paeth | crates/otter-gfx/src/png.rs:94-106 | one of the three neighbours; none is nearer to left + above - corner, and of those equally near it is left, then above, then corner |
| PngFilters.FilterRowInjective | scripts/gen-gfx-fixtures.py:150-174 | filtering a row loses nothing, for each filter type |
| PngFilters.FilterImageInjective | scripts/gen-gfx-fixtures.py:150-174 | nor does filtering an image with any choice of types per row |
| PngFilters.UnfilterRow | crates/otter-gfx/src/png.rs:115-133 | filtering the reconstructed row gives the source bytes; other bytes of the buffer are untouched |
| PngFilters.Unfilter | crates/otter-gfx/src/png.rs:108-137 | the image whose filtering the raw data begins with, by position as FilteredAt states it; truncation and bad filter types exactly when they occur |
| PngFilters.UnfilterUndoesFilter | crates/otter-gfx/src/png.rs:108-137 | unfiltering gives back every image for every bpp and every choice among the five types |
| PngFilters.FilteredAt | crates/otter-gfx/src/png.rs:115-133 | every byte of the image is its filtered byte plus what its filter type predicts from the bytes one pixel before, above, and above that, zero outside |
| PngChunks.ReadChunk | crates/otter-gfx/src/png.rs:252-267 | one chunk, refused when truncated or its checksum differs |
| PngChunks.ReadChunks | crates/otter-gfx/src/png.rs:244-278 | the chunk loop up to IEND |
| PngChunks.ChunksRead | crates/otter-gfx/src/png.rs:251-278 | every list of encoded chunks up to the first IEND is read back, whatever follows |
| PngChunks.ReadsChunks | crates/otter-gfx/src/png.rs:251-278 | data read to IEND is nothing but encoded chunks with right checksums |
| PngChunks.WriteChunk | crates/otter-gfx/src/png.rs:315-323 | length, type, data, checksum at the end of the output |
| Png.SampleInByte | crates/otter-gfx/src/png.rs:156-166 | shifting and masking cuts out the number spelt by the sample's own bits |
| Png.UnpackSamples | crates/otter-gfx/src/png.rs:142-169 | every sample of 1, 2, 4, 8 or 16 bits is the number its bits spell, zero beyond the row |
| Png.DecodeRow | crates/otter-gfx/src/png.rs:181-237 | the premultiplied colour of every pixel of a row, for all colour types; ColorShown says by channel which colour that is |
| Png.DecodeRows | crates/otter-gfx/src/png.rs:307-312 | all rows in place |
| Png.Decode | crates/otter-gfx/src/png.rs:240-313 | the first error in the decoder's order, or the surface the chunks describe |
| PngPixels.DepthsAllowed | crates/otter-gfx/src/png.rs:85-92 | the fifteen combinations of colour type and depth of the PNG specification |
| PngPixels.Layout | crates/otter-gfx/src/png.rs:301-304 | rows take the fewest whole bytes; filters look back by one pixel, by one byte below eight bits |
| PngPixels.LevelIs | crates/otter-gfx/src/png.rs:142-169 | a sample is some bits of a byte, highest first, one byte or two |
| PngPixels.BeyondIsZero | crates/otter-gfx/src/png.rs:142-169 | samples beyond the end of a row are zero |
| PngPixels.ColorShown | crates/otter-gfx/src/png.rs:171-237 | the colour of a pixel by channel, for grey, colour, palette, grey with alpha and colour with alpha at every depth, with transparency by level or by palette entry |
| PngFiles.GatherLeaves | crates/otter-gfx/src/png.rs:269-286 | chunks by name: the joined IDAT data, the last PLTE, tRNS and IHDR; refused exactly when a header is malformed or the list does not end with its first IEND |
| PngFiles.DecodedPictures | crates/otter-gfx/src/png.rs:240-313 | whatever a file decodes to is the surface it shows: its named chunks, its header byte by byte, the image its IDAT data filter, every pixel by channel and blended by rounding |
| PngFiles.PictureDecodes | crates/otter-gfx/src/png.rs:240-313 | and conversely every file of chunks that shows a surface decodes to it, interlaced ones excepted |
| Png.RawIsFiltered | crates/otter-gfx/src/png.rs:327-335 | the encoder's rows are the image filtered with type zero |
| Png.Encode | crates/otter-gfx/src/png.rs:327-348 | signature, header, one zlib chunk of the pixel rows, end |
| Png.EncodedHeader | crates/otter-gfx/src/png.rs:240-298 | the decoder finds the encoder's chunks and nothing wrong with them |
| Png.DecodesEncoding | crates/otter-gfx/src/png.rs:240-348 | decoding an encoding gives size and pixels, each pixel through straight colour and back |
| Png.PixelsKept | crates/otter-gfx/src/png.rs:327-335 | a pixel comes back unchanged exactly when it is premultiplied |
| Png.SurfaceKept | crates/otter-gfx/src/png.rs:240-348 | an unpadded premultiplied surface is the one decoded |
| Png.RoundTrip | crates/otter-gfx/src/png.rs:240-348 | `decode(encode(s)) == s` for every such surface whose sizes fit 32 bits |
| FiveLimbs.ProductIsProduct | crates/otter-crypto/src/poly1305.rs:107-119 | the five-limb convolution with its upper limbs folded back is the product modulo radix^5 - c, for any radix and c |
| FiveLimbs.CarryKeeps | crates/otter-crypto/src/x25519.rs:116-135 | a carry pass with the top carry folded back keeps the residue |
| FiveLimbs.DifferenceValue | crates/otter-crypto/src/poly1305.rs:198-204 | the borrow chain is subtraction, its last borrow the comparison |
| Poly1305.LimbsOf | crates/otter-crypto/src/poly1305.rs:29-35 | five 26-bit limbs of the same number |
| Poly1305.WidenedLimbs | crates/otter-crypto/src/poly1305.rs:41-46 | a 17-byte block as limbs |
| Poly1305.CarryReduce | crates/otter-crypto/src/poly1305.rs:56-78 | no 64-bit overflow and the residue kept; every limb but one is below 2^26, and limb one is at most 2^26 if and only if the last carry is no more than the room left in it |
| Poly1305.LastCarrySmall | crates/otter-crypto/src/poly1305.rs:48-55 | with a clamped r and a widened block the last carry is at most 38, so limb one is at most 2^26 + 37 between blocks |
| Poly1305.FirstBlockExceeds | crates/otter-crypto/src/poly1305.rs:48-55 | a key and a first block after which limb one is 2^26 + 10, although the comment allows it 2^26 |
| Poly1305.SharpestLimbOne | crates/otter-crypto/src/poly1305.rs:48-55 | a key and two blocks after which limb one is 2^26 + 37, so the bound of LastCarrySmall is sharp |
| Poly1305.Poly1305.constructor | crates/otter-crypto/src/poly1305.rs:93-98 | clamped r in limbs, empty accumulator |
| Clamps.ClampIsMask | crates/otter-crypto/src/poly1305.rs:17-21 | the clamped r is the first half of the key, bitwise and the mask 0FFFFFFC0FFFFFFC0FFFFFFC0FFFFFFF |
| Poly1305.Poly1305.AbsorbBlock | crates/otter-crypto/src/poly1305.rs:100-122 | accumulator plus block, times r, modulo p, bounds kept |
| Poly1305.Poly1305.Update | crates/otter-crypto/src/poly1305.rs:132-155 | any chunking extends the message by exactly the input |
| Poly1305.FullCarry | crates/otter-crypto/src/poly1305.rs:170-186 | the final carry pass leaves every limb below 2^26 |
| Poly1305.Canonical | crates/otter-crypto/src/poly1305.rs:198-210 | one conditional subtraction gives the residue below p |
| Poly1305.Combine | crates/otter-crypto/src/poly1305.rs:215-219 | wrapping shifts and additions give the value modulo 2^128 |
| Poly1305.Poly1305.Finalize | crates/otter-crypto/src/poly1305.rs:158-221 | the tag of section 2.5 of RFC 8439 for everything fed in |
| Poly1305.AccumulatedIsPolynomial | crates/otter-crypto/src/poly1305.rs:10-13 | the accumulator is the polynomial of the blocks at r |
| Poly1305.Mac | crates/otter-crypto/src/poly1305.rs:225-229 | one-shot tag |
| Poly1305.MacOfChunks | crates/otter-crypto/src/poly1305.rs:131-155 | the tag does not depend on how the message is cut |
| FieldElements.LooseRound | crates/otter-crypto/src/x25519.rs:116-135 | a round on loose limbs leaves every limb below 2^51, so serializing drops no bit |
| FieldElements.CarryReduce | crates/otter-crypto/src/x25519.rs:116-137 | two rounds bring any 120-bit accumulators back to loose limbs of the same residue |
| FieldElements.Sum | crates/otter-crypto/src/x25519.rs:139-148 | exact sum modulo 2^255 - 19, bounds kept |
| FieldElements.Minus | crates/otter-crypto/src/x25519.rs:154-166 | exact difference, no limb below zero |
| FieldElements.Multiply | crates/otter-crypto/src/x25519.rs:171-188 | exact product, no overflow |
| FieldElements.Square | crates/otter-crypto/src/x25519.rs:190-192 | exact square |
| FieldElements.TimesSmall | crates/otter-crypto/src/x25519.rs:196-205 | exact small multiple |
| FieldElements.Invert | crates/otter-crypto/src/x25519.rs:210-219 | z^(p-2) |
| X25519.LoadLimb | crates/otter-crypto/src/x25519.rs:60-67 | 51 bits of the string as one limb |
| X25519.FromBytes | crates/otter-crypto/src/x25519.rs:58-69 | the residue of the lowest 255 bits |
| X25519.Canonical | crates/otter-crypto/src/x25519.rs:75-97 | the unique representative below p |
| X25519.StoreLimb | crates/otter-crypto/src/x25519.rs:99-106 | 51 bits written in place, nothing else disturbed |
| X25519.ToBytes | crates/otter-crypto/src/x25519.rs:75-108 | the 32 bytes of the canonical representative |
| X25519.DiffAddSymmetric | crates/otter-crypto/src/x25519.rs:277-282 | differential addition does not care which point a swap put first |
| X25519.Step | crates/otter-crypto/src/x25519.rs:272-284 | one ladder step on limbs is doubling and differential addition modulo p |
| X25519.DoubleIs | crates/otter-crypto/src/x25519.rs:272-284 | doubling in closed form: X = (x^2 - z^2)^2 and Z = 4xz (x^2 + 486662 xz + z^2) modulo p |
| X25519.DiffAddIs | crates/otter-crypto/src/x25519.rs:277-282 | differential addition in closed form: X = (2(x x' - z z'))^2 and Z = x1 (2(x z' - z x'))^2 modulo p |
| X25519.LadderQuotient | crates/otter-crypto/src/x25519.rs:257-290 | the ladder with deferred swaps computes the textbook ladder |
| X25519.LadderMultiplies | crates/otter-crypto/src/x25519.rs:255-290 | under the group law the ladder multiplies by the number its bits spell |
| X25519.ClampedRange | crates/otter-crypto/src/x25519.rs:247-253 | clamped scalars are multiples of eight with bit 254 set and 255 clear |
| Clamps.ScalarBits | crates/otter-crypto/src/x25519.rs:247-253 | bits 3 to 253 of the scalar are kept; of the others only bit 254 is set |
| X25519.X25519 | crates/otter-crypto/src/x25519.rs:296-304 | bytes to bytes: the function of section 5 of RFC 7748 over integers modulo p, refused exactly when its value is zero |
| Ghash.ReduceShift | crates/otter-crypto/src/ghash.rs:38-40 | shifting out a bit and folding it is multiplication by a, modulo the field polynomial |
| Ghash.ProductIsFieldProduct | crates/otter-crypto/src/ghash.rs:111-148 | the shift register equals schoolbook convolution followed by division |
| Ghash.Gf128Mul | crates/otter-crypto/src/ghash.rs:29-45 | the loop computes that field product |
| Ghash.ProductCommutes | crates/otter-crypto/src/ghash.rs:29-45 | commutative |
| Ghash.ProductDistributes | crates/otter-crypto/src/ghash.rs:29-45 | distributes over exclusive or on both sides |
| Ghash.ProductAssociates | crates/otter-crypto/src/ghash.rs:29-45 | associative |
| Ghash.ProductOne | crates/otter-crypto/src/ghash.rs:150-160 | the block 80 00 ... is the one |
| Ghash.HashedIsPolynomial | crates/otter-crypto/src/ghash.rs:74-78 | the chained hash is the polynomial of the blocks at the subkey |
| Ghash.Ghash.constructor | crates/otter-crypto/src/ghash.rs:70-72 | no blocks yet |
| Ghash.Ghash.Absorb | crates/otter-crypto/src/ghash.rs:75-78 | one block more |
| Ghash.Ghash.AbsorbPadded | crates/otter-crypto/src/ghash.rs:82-92 | the blocks of the data, the last one zero-padded |
| Ghash.Ghash.Finalize | crates/otter-crypto/src/ghash.rs:95-97 | the bytes of the polynomial's value |
| StreamingHash.Hasher.Absorb | crates/otter-crypto/src/sha256.rs:96-119 | buffering keeps the state equal to the fold over whole blocks |
| StreamingHash.Hasher.Update | crates/otter-crypto/src/sha256.rs:123-126 | the message grows by exactly the input, the length counter wraps |
| StreamingHash.Hasher.Finalize | crates/otter-crypto/src/sha256.rs:130-143 | the fold over the padded message; the zero loop stops |
| StreamingHash.ZerosNeeded | crates/otter-crypto/src/sha512.rs:164-166 | the buffer reaches the length field's place exactly after the padding's zeros |
| StreamingHash.WrappedLength | crates/otter-crypto/src/sha512.rs:161-162 | the wrapped bit count has the low bytes of eight times the length |
| StreamingHash.PaddingInjective | crates/otter-crypto/src/sha256.rs:130-136 | different messages short enough for the length field are padded differently |
| StreamingHash.PaddedByPosition | crates/otter-crypto/src/sha256.rs:130-136 | the padding byte by byte: the message, 80, the fewest zeros, eight times the length with the highest byte first |
| StreamingHash.HashOfChunks | crates/otter-crypto/src/sha512.rs:129-174 | the digest does not depend on how the message is cut, for both block sizes |
| DerSignatures.ContentUnique | crates/otter-crypto/src/ecc.rs:245-250 | a minimal content is the content of its value |
| DerSignatures.IntegerIff | crates/otter-crypto/src/ecc.rs:231-252 | an INTEGER parses exactly when the buffer begins with its encoding |
| DerSignatures.SignatureIff | crates/otter-crypto/src/ecc.rs:256-275 | the parser accepts exactly the short-form encodings and returns what they encode |
| DerSignatures.MutualInverses | crates/otter-crypto/src/ecc.rs:256-275 | parsing and encoding undo each other |
| Truncation.ShiftRight | crates/otter-crypto/src/bigint.rs:141-157 | shifting the limbs right divides the number by that power of two, whole limbs and single bits alike |
| Truncation.TruncateHash | crates/otter-crypto/src/ecc.rs:282-291 | the leftmost bits of the digest as limbs, as many as the order has (section 6.4.2 of FIPS 186-5) |
| Shamir.ScalarMulShamir | crates/otter-crypto/src/ecc.rs:157-171 | u1 G + u2 Q, for any addition that follows the group law |
| Pss.Mgf1 | crates/otter-crypto/src/rsa.rs:261-276 | the exact prefix of the concatenated blocks |
| Pss.VerifyEncoded | crates/otter-crypto/src/rsa.rs:200-251 | every check of section 9.1.2 of RFC 8017, over a buffer of eight zeros, digest and salt that it fills |
| Pss.ChecksEncode | crates/otter-crypto/src/rsa.rs:200-251 | an accepted message is the encoding of the digest with the salt it carries |
| Pss.EncodedChecks | crates/otter-crypto/src/rsa.rs:200-251 | every encoding is accepted |
| Pss.EncodedByPosition | crates/otter-crypto/src/rsa.rs:200-251 | an encoding by position: the trailer BC, before it the hash of eight zeros, digest and salt, and before that, bit by bit masked, zeros, 01 and the salt, the spare top bits clear |
| Pss.MaskAt | crates/otter-crypto/src/rsa.rs:261-276 | byte i of the mask is byte i mod hLen of the hash of the seed and the four-byte counter i / hLen |
| Pss.GenuineIffChecks | crates/otter-crypto/src/rsa.rs:192-251 | the checks on the bytes decide whether the recovered integer is an encoding |
| Rsa.FromComponents | crates/otter-crypto/src/rsa.rs:122-135 | a key exactly for odd moduli of 2048 to 4096 bits and odd exponents from three on |
| Rsa.RsaVp1 | crates/otter-crypto/src/rsa.rs:139-148 | s^e modulo n through the Montgomery limbs, for signatures of the right length and range |
| Rsa.VerifyPss | crates/otter-crypto/src/rsa.rs:192-251 | accepts exactly when the recovered integer is an encoding of the digest with some salt of the hash's length, as EncodedByPosition states it |
| Rsa.VerifyPkcs1 | crates/otter-crypto/src/rsa.rs:154-187 | accepts exactly when the recovered integer is the one padded encoding |
| Rsa.ExpectedPkcs1 | crates/otter-crypto/src/rsa.rs:164-181 | the expected message filled in place: 00, 01, FF up to a zero, prefix, digest |
| Rsa.Pkcs1ByPosition | crates/otter-crypto/src/rsa.rs:164-181 | those bytes by position, and no other message has them |
| HealthTests.CutoffsFollowCredit | crates/otter-crypto/src/entropy.rs:38-53 | the repetition cutoffs are 1 + ceil(20 / H) |
| HealthTests.NoLongRun | crates/otter-crypto/src/entropy.rs:56-67 | an accepted history never holds as many equal samples in a row as the cutoff |
| HealthTests.NoSkewedWindow | crates/otter-crypto/src/entropy.rs:95-107 | in no window of 512 samples does the first sample come 62, 177 or 311 times |
| ProportionCutoffs.CutoffIsCritical | crates/otter-crypto/src/entropy.rs:70-91 | each proportion cutoff is one more than the critical binomial value its comment names: a letter comes c times or more in at most 2^-20 of the windows if and only if c is no less than the cutoff |
| ProportionCutoffs.NextCount | crates/otter-crypto/src/entropy.rs:70-91 | the counts behind it are binomial terms |
| HealthTests.TestDecides | crates/otter-crypto/src/entropy.rs:127-143 | the counters decide exactly what the whole history says, repetition first |
| Drbg.UpdateSeparates | crates/otter-crypto/src/drbg.rs:34-61 | the update loses nothing but what the keyed hash loses: updates of different states or with different data (none, some or other) that end in the same key exhibit two inputs of the keyed hash with one output |
| Drbg.SeedsSeparate | crates/otter-crypto/src/drbg.rs:65-84 | different seeds give different generators, up to such a collision |
| Drbg.ReseedsSeparate | crates/otter-crypto/src/drbg.rs:89-105 | reseeds with different seeds or from different states give different keys, up to such a collision |
| Drbg.Instantiate | crates/otter-crypto/src/drbg.rs:65-84 | the state of section 10.1.2.3 of SP 800-90A |
| Drbg.Reseed | crates/otter-crypto/src/drbg.rs:89-105 | the state of section 10.1.2.4 |
| Drbg.Generate | crates/otter-crypto/src/drbg.rs:111-158 | the exact prefix of the output blocks and the state after it; refused past either limit |
| Drbg.RequestPrefix | crates/otter-crypto/src/drbg.rs:131-147 | a shorter request's bytes begin a longer one's |
| Drbg.RequestBytes | crates/otter-crypto/src/drbg.rs:111-158 | refused exactly after 2^20 requests since the seeding or past 2^16 bytes; byte i is byte i mod 32 of i / 32 + 1 applications of the keyed hash to V |
| Csprng.CreditOverRuns | crates/otter-crypto/src/entropy.rs:173-217 | after every run of samples, requests and reseeds the pool holds exactly the samples credited since it was last spent and their total credit, saturated at the largest 32-bit number; a sample is credited, and a source healthy, exactly if every sample the source ever offered passed both tests |
| GeneratorHistory.FromCreditedSamples | crates/otter-crypto/src/csprng.rs:44-135 | over every run the generator and every byte it gave are those of a DRBG seeded with the hash of exactly the samples credited up to the first spending and reseeded with the hashes of those of each later one |
| GeneratorHistory.SpentWhenReady | crates/otter-crypto/src/csprng.rs:44-57 | no samples are spent with less than 256 bits of credit, and there is a generator exactly when some have been; without one the credit is below 256 |
| GeneratorHistory.SamplesSeparate | crates/otter-crypto/src/entropy.rs:205-217 | different samples that seed the same key exhibit a collision of the hash or of the keyed hash |
| Csprng.Run | crates/otter-crypto/src/csprng.rs:44-135 | over every run the DRBG's counter is the call count plus one, the counters stay in bounds, and a ready pool implies a generator |
| Csprng.BetweenReseeds | crates/otter-crypto/src/csprng.rs:74-118 | between two reseeds at most 2^16 requests and fewer than 2^20 + 2^16 bytes |
| Csprng.PoolOnlySpentToSeed | crates/otter-crypto/src/csprng.rs:126-135 | no ready pool is thrown away |
| Csprng.ReadyServes | crates/otter-crypto/src/csprng.rs:68-121 | with a ready pool every request of at most 1 MiB is met |
| Csprng.UndueServes | crates/otter-crypto/src/csprng.rs:87-118 | from any state with a generator, bytes whose every chunk begins below both thresholds are produced without reseeding, and with a pool that is not ready no other request is met |
| Csprng.Csprng.constructor | crates/otter-crypto/src/csprng.rs:31-39 | empty pool, no generator |
| Csprng.Csprng.ExtractSeed | crates/otter-crypto/src/entropy.rs:205-217 | a ready pool is hashed and cleared, another left alone |
| Csprng.Csprng.AddSample | crates/otter-crypto/src/csprng.rs:44-57 | tests, credit, and the first seeding as soon as it is possible |
| Csprng.Csprng.Reseed | crates/otter-crypto/src/csprng.rs:126-135 | a ready pool goes into the generator and the counters restart |
| Csprng.Csprng.Generate | crates/otter-crypto/src/csprng.rs:68-121 | chunk by chunk the specified bytes; the DRBG's own error cannot occur |
| JitterRing.LoadedSlot | kernel/src/random.rs:249-250 | the slot loaded holds the sample that is due, however far the writer came since the comparison |
| JitterRing.InterruptKeeps | kernel/src/random.rs:219-229 | an interrupt at any point keeps the ring invariant |
| JitterRing.ThreadKeeps | kernel/src/random.rs:240-256 | so does each step of the drain |
| JitterRing.FedInOrder | kernel/src/random.rs:219-257 | every interleaving feeds interrupt samples in strictly increasing order, and what is missing is 256 for each lap plus what is pending |
| JitterRing.NothingLost | kernel/src/random.rs:219-257 | nothing is lost exactly when the writer never laps the reader; then the fed bytes are the first samples |
| JitterRing.FullLooksEmpty | kernel/src/random.rs:235-246 | 256 unread samples are taken for an empty ring |
| JitterRing.Shared.AddJitterSample | kernel/src/random.rs:219-229 | the handler is one interrupt step at any phase |
| JitterRing.Shared.Drain | kernel/src/random.rs:234-257 | an undisturbed drain is a sequence of thread steps that ends with equal indices |

## Left out

- CallShapes.SoundIffNoCallShape: suffixes that begin with a space, a comma, `}` or `]` have only ExactIffNoCallShape; such a suffix read inside the input can itself spell more of it.
- `compile_schema` (`lib.rs:130-229`): reading JSON schemas; grammars start compiled.
- Frame fields nothing reads (`pos`, `enum_idx`, `tool_idx` of inner frames) are not carried.
- The 32-bit candidate mask is a set of at most 32 indices.
- `BigUint::sub_u64` (`bigint.rs:134-138`): one call of the subtraction that is modelled.
- Truncation.ShiftRight: the two disjoint parts of a limb are joined by an addition, not a bitwise or.
- Constant-time behaviour, zeroizing and the hardware paths of AES, GCM and GHASH.
- `point_add`, curve membership, Fermat inverses and primality are not modelled.
- Shamir.ScalarMulShamir: that the points form a group under the addition is a hypothesis; the curve equations behind it are not part of this model.
- X25519.LadderMultiplies: that doubling and differential addition follow a group law is a hypothesis, for the same reason; LadderQuotient and X25519.X25519 do not use it.
- X25519.LadderQuotient: the masked swap of limbs is a conditional exchange.
- Poly1305.Poly1305.constructor: the clamp is taken byte by byte, as RFC 8439 states it; that this is the code's one 128-bit mask is Clamps.ClampIsMask.
- Ghash.Gf128Mul: a 128-bit word is its sequence of bits; shifts and masked exclusive ors act on that sequence.
- Checksums.Crc32.Update: the 32-bit register is its sequence of bits, least significant first.
- FieldElements.TimesSmall: constants below 2^17, as its comment promises; the ladder uses 121665.
- Loops over the five limbs of an array are written out limb by limb.
- The compression functions, HMAC and the hash inside PSS are arbitrary functions of the right output length; hash states are not serialized to bytes.
- StreamingHash.Hasher.Finalize: for messages whose bit count does not fit the length field the padded length is its low bytes, as in the code; the standard defines no digest there.
- Rsa.VerifyPss: the salt length equals the digest length, the only case the code has.
- Csprng.Csprng.AddSample: the pool, the DRBG and the per-source tests are values inside the object, as they are embedded in the source's structures; the reseed and byte counters are unbounded.
- Png.DecodeRows: pixels are appended row by row rather than written into a zeroed vector; sizes are not limited by memory.
- Png.Decode: interlaced images are refused, as in the code.
- Inflater.InflateRaw: bytes after the final block are ignored, as in the code.
- Memory ordering of the ring's atomics: one processor, an interrupt is indivisible, and one drain at a time holds the generator's lock.
- Hardware entropy, the jitter workload, boot seeding order and `fill`'s retry loop in `random.rs`.
- AES, ChaCha20, AEAD modes, HMAC, HKDF, TLS, the rasterizer, text, kernel, drivers, agents and tools.
