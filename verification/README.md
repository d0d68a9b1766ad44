# Verified models of the client's arithmetic, QR code, RPC and bookkeeping cores

This project models the parts of the repository whose correctness is not visible from reading one
function: the vendored Monocypher primitives, the QR encoder and the quirc QR decoder, the local RPC
channel to the core process, the group store with its background sort queue, and the auto selector's
planning. Every file is one component; `dafny verify dfyconfig.toml` checks all of them.

**Monocypher.** Limbs are bounded integers (`u32`, `u64`, `i32`, `i64` are subset types, so overflow
is a proof obligation at every step) and each limb array denotes one integer.

- `Limbs`, `ModArith`, `Bytes`, `Exponent`, `Lists`, `Wrappers`: positional values, congruence, bytes
  and bits, first occurrences in a list, and the result types all components share.
- `Poly1305`: the authenticator refines the integer recurrence of section 2.5 of RFC 8439, for every
  way of cutting the message into updates.
- `Field25519`: multiplication, squaring, carrying, decoding and encoding modulo 2^255-19.
- `ScalarModL`, `Montgomery`: Barrett reduction, Montgomery reduction and the inverse modulo the
  group order.
- `AbelianGroup`, `SlidingWindow`: signed sliding-window digits and the merged ladder over any
  abelian group.
- `Blake2b`: the buffered hash with its lazy last block and byte counter.
- `Argon2`: reference-block selection by the rule of RFC 9106, and independence of the segments of a slice under every
  block-by-block interleaving.

**QR codes.**

- `Galois`, `Galois256`, `Galois256Tables`: field laws for table-driven multiplication, and the proof
  that the 8-bit tables satisfy them and agree with the encoder's shift-and-reduce product.
- `BerlekampMassey`: the recurrence found is the shortest one.
- `ReedSolomon`, `RsEncoder`, `ErrorLocator`, `Forney`, `RsDecoder`: the encoder's blocks are
  codewords, and the decoder restores every codeword with at most half as many errors as parity
  bytes.
- `BitPacking`, `Zigzag`, `SymbolWalk`: both programs walk the symbol in the same order, and drawing,
  masking and reading round-trip.
- `QrFunctionCells`, `QrCapacity`: the cells without data, marked by one program and worked out by the
  other, and how many they leave.
- `QrVersions`, `QrBlocks`, `QrCodestream`: both programs' version tables, the cutting into blocks, the
  interleaving, and the decoder that takes the blocks apart and corrects them.
- `QrDamage`, `QrSymbol`: the whole way from text to cells and back with some cells flipped.
- `QrSegments`, `QrEncoding`, `QrPayload`: the bit stream of segments, version choice and padding,
  and the payload decoder that reads the texts back.
- `Region`, `FloodFill`: the bounded-stack span fill paints exactly a connected component, unless a
  chain of touching runs fills the stack.

**Channel, database, selector.**

- `RpcFraming`: incremental frame parsing does not depend on how the stream is cut.
- `RpcChannel`: callers, the I/O thread and waking threads as a step relation; ownership of calls and
  the absence of lock cycles hold in all reachable states.
- `SortQueue`, `GroupStore`: no sort request is lost, and exactly when deleted groups stay deleted, in every
  interleaving.
- `AutoSelector`, `AutoSelectorPlan`: eligibility, stable ranking, planning and re-ranking.

## Where the code and its documentation or intent differ

- `multiply` is documented as p = a*b + p but overwrites the upper eight words of p; the sum it
  computes takes the lower words only (`ScalarModL.MultiplyComment`). All callers clear the upper half.
- The carry chain's comment asks for |t0| < 2^63, but its first step adds 2^25 to t0, which overflows
  for the last 2^25 values (`Field25519.FirstAddition`); `Field25519.Carry` asks for exactly what that
  addition needs. All callers stay below 2^62.
- `processBuffer` casts a 32-bit length to `int`. A length of 2^31 or more turns negative and `mid`
  then takes the whole rest of the buffer: `RpcFraming.MidExact` says exactly when the data is right,
  `RpcFraming.LongFrameExample` shows it wrong.
- quirc's logarithm tables give the order p of the generator, not 0, as the logarithm of 1
  (`gf256_log[1]` is 255). All uses reduce the sum of logarithms modulo p, so the field laws are stated
  up to that (`Galois.ExpOfLog`).
- `AddGroup` falls back to id 0 when the counter cannot be read. The rule that a tombstoned group has
  no row survives a run exactly when no addition is given a tombstoned id (`GroupStore.RunSafe`), which
  a working counter guarantees (`GroupStore.CounterSuffices`) and a failing one does not
  (`GroupStore.FailingCounterRevives`). A deletion that runs before its id is handed out leaves no
  tombstone (`GroupStore.LateAdd`).
- `RerankAutoSelectorPool` does not normalise the selector first, while planning does; planning keeps
  the re-ranked pool exactly under the condition of `AutoSelectorPlan.PlanOfReranked`; a limit of 0
  breaks it (`AutoSelectorPlan.ZeroLimitReplans`).
- The two floods of `find_region_corners` restore the image only for a region without other black
  pixels beside it: `FloodFill.ThereAndBack` is an equivalence, and `FloodFill.BlackNeighbourIsTaken` an
  image that changes.
- `codestream_ecc` looks for the extra byte of a long block as many places too far as there are short
  blocks, so it takes blocks apart correctly exactly when there are no long ones
  (`QrBlocks.SlotsCompared`, `QrBlocks.ExactWithoutLongBlocks`). Error correction repairs the byte, at
  the price of one correction in each long block.
- quirc lists 92 as the last alignment centre of version 21; the encoder, like the standard, puts it at
  94. The two agree on the cells without data exactly for the other versions
  (`QrFunctionCells.ReservedAgree`, `QrCapacity.WalksAgree`).

## Model

| member | source | states |
|---|---|---|
| `Poly1305.MultiplyBlock` | 3rdparty/monocypher/monocypher.c:321-361 | one block: no 64-bit sum overflows, the limbs come out with the top one at most 4 (the stated bound on h), and the new value is congruent to (h+c)*r modulo 2^130-5 |
| `Poly1305.CarryChain` | 3rdparty/monocypher/monocypher.c:341-361 | the partial carry chain changes the value by a multiple of 2^130-5 only, with the top bits folded back times 5 |
| `Poly1305.Context.PolyBlocks` | 3rdparty/monocypher/monocypher.c:311-365 | for any number of blocks h becomes congruent to the integer recurrence of section 2.5 of RFC 8439 |
| `Poly1305.Context.constructor` | 3rdparty/monocypher/monocypher.c:367-376 | a fresh context holds the empty message; r is the first half of the key with the bits RFC 8439 clears, the pad is the second half |
| `Poly1305.KeyBits` | 3rdparty/monocypher/monocypher.c:371-375 | bit by bit, r is the first half of the key without the top four bits of every word and the low two of all words but the first, as section 2.5 of RFC 8439 clears them |
| `Poly1305.Context.Update` | 3rdparty/monocypher/monocypher.c:378-412 | appends the message to what has been absorbed, however it cuts across blocks; fewer than 16 bytes stay buffered |
| `Poly1305.Context.Final` | 3rdparty/monocypher/monocypher.c:414-441 | the tag is ((accumulator mod 2^130-5) + pad) mod 2^128 of the whole message, the last partial block marked with a 1 bit |
| `Poly1305.FullyReduced` | 3rdparty/monocypher/monocypher.c:424-433 | one subtraction of the modulus, decided by the carry of h+5, reduces any h the invariant allows |
| `Poly1305.AddPad` | 3rdparty/monocypher/monocypher.c:434-437 | the four output words are the sum modulo 2^128 |
| `Poly1305.MacOfChunks` | 3rdparty/monocypher/monocypher.c:378-449 | for every split of a message into updates the tag is the one-shot tag of the concatenation |
| `Field25519.Product` | 3rdparty/monocypher/monocypher.c:1257-1302 | the 64-bit product of a limb and a factor within the stated bounds fits, with room for the sums it enters |
| `Field25519.Dot10` | 3rdparty/monocypher/monocypher.c:1257-1302 | a column added up from left to right: every product and every partial sum fits in 64 bits |
| `Field25519.MulColumns` | 3rdparty/monocypher/monocypher.c:1257-1302 | for all limbs within the input bounds no 32-bit factor, 64-bit product or partial sum overflows and the ten columns represent the product modulo 2^255-19 |
| `Field25519.Dot6` | 3rdparty/monocypher/monocypher.c:1313-1354 | the same for a squaring column of six doubled terms |
| `Field25519.Dot5` | 3rdparty/monocypher/monocypher.c:1313-1354 | the same for a squaring column of five doubled terms |
| `Field25519.SqColumns` | 3rdparty/monocypher/monocypher.c:1313-1354 | the squaring columns, with their doubled factors and products, represent the square and no product or partial sum overflows |
| `Field25519.Carry` | 3rdparty/monocypher/monocypher.c:1029-1152 | for limbs below 2^62 (the first one up to where its addition would overflow) the carry chain overflows nothing, keeps the value modulo 2^255-19 and leaves limbs within 1.1*2^25 and 1.1*2^24 |
| `Field25519.FirstAddition` | 3rdparty/monocypher/monocypher.c:1079-1087 | the first addition of the carry chain fits exactly below 2^63 - 2^25; that number meets the stated bound and overflows |
| `Field25519.FeMul` | 3rdparty/monocypher/monocypher.c:1230-1305 | the product modulo 2^255-19 in bounds that can be multiplied again, also when the output aliases an input |
| `Field25519.FeSq` | 3rdparty/monocypher/monocypher.c:1307-1357 | the square modulo 2^255-19, in the same bounds and with the same aliasing |
| `Field25519.FromBytesMask` | 3rdparty/monocypher/monocypher.c:1160-1179 | the limbs represent the 32 bytes as a number without its nb_mask top bits |
| `Field25519.MaskValue` | 3rdparty/monocypher/monocypher.c:1160-1174 | masking the last three-byte group is the same as reducing the number modulo 2^(256-nb_mask) |
| `Field25519.Propagate` | 3rdparty/monocypher/monocypher.c:1211-1216 | the final carry pass leaves unsigned limbs and accounts for the multiple of 2^255 that leaves the top |
| `Field25519.ToBytes` | 3rdparty/monocypher/monocypher.c:1182-1228 | the bytes of the one representative in [0, 2^255-19) of any bounded limbs |
| `Field25519.Canonical` | 3rdparty/monocypher/monocypher.c:1160-1228 | reading then writing canonicalises every 32-byte string, the top bit ignored |
| `ScalarModL.MultiplyAdd` | 3rdparty/monocypher/monocypher.c:1604-1616 | the schoolbook product plus the low words already in place; no 64-bit step overflows |
| `ScalarModL.MultiplyComment` | 3rdparty/monocypher/monocypher.c:1603-1616 | the sum computed is the documented one if and only if the upper eight words already in place are zero |
| `ScalarModL.MultiplyCommentFails` | 3rdparty/monocypher/monocypher.c:1603-1616 | for p = 2^256 the documented sum is not what is computed |
| `ScalarModL.IsAboveL` | 3rdparty/monocypher/monocypher.c:1618-1628 | 1 exactly when the number is at least L |
| `ScalarModL.RemoveL` | 3rdparty/monocypher/monocypher.c:1630-1643 | subtracts L exactly when the number is at least L |
| `ScalarModL.Estimate` | 3rdparty/monocypher/monocypher.c:1646-1662 | the product with the reciprocal leaves a quotient estimate in the limbs from 16 on that is right or one too small |
| `ScalarModL.BarrettBound` | 3rdparty/monocypher/monocypher.c:1648-1666 | for every 512-bit number the quotient whose remainder is below 2^512 is right or one too small |
| `ScalarModL.ModL` | 3rdparty/monocypher/monocypher.c:1646-1688 | x mod L for every 512-bit x, although the second product is cut to 256 bits and L is subtracted at most once |
| `ScalarModL.MulAdd` | 3rdparty/monocypher/monocypher.c:1699-1710 | (a*b + c) mod L for all 256-bit a, b and c |
| `Montgomery.LowProductK` | 3rdparty/monocypher/monocypher.c:2786-2801 | the triangular product is x times the negated inverse of L, modulo 2^256 |
| `Montgomery.Redc` | 3rdparty/monocypher/monocypher.c:2784-2820 | for x < L*2^256 the value below L congruent to x*2^-256 modulo L |
| `Montgomery.MontMul` | 3rdparty/monocypher/monocypher.c:2851-2863 | a product of numbers in Montgomery form stays below L and in Montgomery form, so `redc` is always called within its precondition |
| `Montgomery.ToMont` | 3rdparty/monocypher/monocypher.c:2840-2849 | entering Montgomery form: any 256-bit scalar times 2^256, reduced modulo L |
| `Montgomery.LeaveMont` | 3rdparty/monocypher/monocypher.c:2864-2868 | leaving Montgomery form gives the number back modulo L |
| `Montgomery.Inverse` | 3rdparty/monocypher/monocypher.c:2822-2869 | the square-and-multiply loop ends with scalar^(L-2) mod L for every 256-bit scalar |
| `Exponent.Lm2Value` | 3rdparty/monocypher/monocypher.c:2825-2830 | the exponent bytes are L-2 |
| `SlidingWindow.WindowSum` | 3rdparty/monocypher/monocypher.c:1976-1982 | a signed window and the bits below it account for the same part of the scalar |
| `SlidingWindow.MasksFind` | 3rdparty/monocypher/monocypher.c:1983-1987 | the mask arithmetic finds the place of the lowest set bit |
| `SlidingWindow.OddPart` | 3rdparty/monocypher/monocypher.c:1976-1990 | what is left of a window after shifting its zeros out is odd and below 2^(width-1) in size |
| `SlidingWindow.Slide.constructor` | 3rdparty/monocypher/monocypher.c:1949-1968 | the search starts at or above the top bit of every scalar below 2^253 |
| `SlidingWindow.Slide.Step` | 3rdparty/monocypher/monocypher.c:1970-1994 | doubling and adding the digit keeps the account of the scalar; every digit is 0, or odd and below 2^(width-1) in size |
| `SlidingWindow.Slide.Finish` | 3rdparty/monocypher/monocypher.c:1970-1994 | after digit 0 the weighted digits add up to the scalar |
| `SlidingWindow.OddTable` | 3rdparty/monocypher/monocypher.c:2020-2030 | the table holds the odd multiples of the point |
| `SlidingWindow.AddDigit` | 3rdparty/monocypher/monocypher.c:2042-2048 | every digit picks a table index in range and adds that multiple of the point, subtracting for a negative digit |
| `SlidingWindow.Rounds` | 3rdparty/monocypher/monocypher.c:2037-2050 | one doubling and two digit additions a round, over any abelian group, end with [h]X + [s]Y |
| `SlidingWindow.Ladder` | 3rdparty/monocypher/monocypher.c:2000-2050 | the merged ladder computes [h]X + [s]Y for all h and s below 2^253, X being the negated key |
| `Argon2.LayoutOf` | 3rdparty/monocypher/monocypher.c:749-759 | blocks of 1 KiB rounded down to whole segments give four segments a lane of at least two blocks whenever nb_blocks >= 8*nb_lanes |
| `Argon2.TotalFits` | 3rdparty/monocypher/monocypher.c:749-759 | the rounded-down work area needs no more blocks than the caller gave, and fewer than four a lane are left unused |
| `Argon2.EachBlockFilled` | 3rdparty/monocypher/monocypher.c:804-823 | every pass fills every block of a lane, the first pass all but the first two |
| `Argon2.Places` | 3rdparty/monocypher/monocypher.c:825-831 | blocks lie lane by lane and segment by segment, and the previous block is one step back around the lane |
| `Argon2.WindowExact` | 3rdparty/monocypher/monocypher.c:860-882 | the window is the three other segments (in the first pass the finished ones) plus what is done of the own segment without the previous block, or minus one block at a segment start of another lane; it is never empty |
| `Argon2.WindowInside` | 3rdparty/monocypher/monocypher.c:860-882 | every position of the window belongs to the reference set of section 3.4 of RFC 9106 |
| `Argon2.WindowCovers` | 3rdparty/monocypher/monocypher.c:860-882 | every position of that reference set is in the window |
| `Argon2.ReferenceSafe` | 3rdparty/monocypher/monocypher.c:823-884 | the chosen block is in bounds, already filled, neither the current nor the previous one, and outside the slice being filled when it is in another lane |
| `Argon2.ReferenceRule` | 3rdparty/monocypher/monocypher.c:870-884 | of the W members of the reference set exactly W*(J1^2/2^32)/2^32 are newer than the one taken, J1 being the low half of the seed; the high half modulo the lanes chooses the lane, except in the first slice of the first pass |
| `Argon2.FillBlock` | 3rdparty/monocypher/monocypher.c:823-893 | one block is mixed in place from its predecessor and its reference |
| `Argon2.FillSegment` | 3rdparty/monocypher/monocypher.c:820-894 | the loop over a segment, with the address block refreshed every 128 blocks, is that many mixings in order |
| `Argon2.FillMemory` | 3rdparty/monocypher/monocypher.c:791-896 | passes, slices and lanes as the loops order them, on the work area in place |
| `Argon2.AloneFrame` | 3rdparty/monocypher/monocypher.c:820-894 | filling a segment changes nothing outside it |
| `Argon2.RunIsAlone` | 3rdparty/monocypher/monocypher.c:804-896 | in any interleaving of the lanes of a slice each lane ends up as if filled alone |
| `Argon2.AnyOrder` | 3rdparty/monocypher/monocypher.c:804-896 | any two complete interleavings, block by block, of the segments of a slice leave the same memory |
| `Argon2.SegmentsCommute` | 3rdparty/monocypher/monocypher.c:804-896 | so every one of them leaves what the sequential loop leaves |
| `Blake2b.AppendByte` | 3rdparty/monocypher/monocypher.c:568-579 | OR-ing a byte into a zeroed word is appending the byte to the block |
| `Blake2b.AppendWord` | 3rdparty/monocypher/monocypher.c:581-588 | loading a word is appending its eight bytes |
| `Blake2b.CounterStep` | 3rdparty/monocypher/monocypher.c:462-485 | the two 64-bit halves with a carry count message bytes modulo 2^128 |
| `Blake2b.Context.constructor` | 3rdparty/monocypher/monocypher.c:531-558 | a key counts as a first block of its own |
| `Blake2b.Context.Compress` | 3rdparty/monocypher/monocypher.c:462-529 | a block that is not the last joins the digested part with the byte counter in step |
| `Blake2b.Context.Update` | 3rdparty/monocypher/monocypher.c:560-626 | appends the message to what has been absorbed; input_idx stays in 0..128 and the last block is held back until more arrives or the end |
| `Blake2b.Context.Finish` | 3rdparty/monocypher/monocypher.c:628-638 | the digest is that of the whole message, padded with zeros, of section 3.3 of RFC 7693 |
| `Blake2b.DigestOfChunks` | 3rdparty/monocypher/monocypher.c:560-648 | for every split of a message into updates the digest is that of the key block and the concatenation |
| `Blake2b.BlockWords` | 3rdparty/monocypher/monocypher.c:580-615 | the words of a block are its bytes, lowest first |
| `Blake2b.DigestWords` | 3rdparty/monocypher/monocypher.c:628-638 | every eight bytes of the longest digest are a word of the chain value, lowest byte first |
| `Blake2b.DigestPrefix` | 3rdparty/monocypher/monocypher.c:628-638 | a shorter digest is a prefix of the longest |
| `Region.FillBack` | 3rdparty/quirc/identify.c:431-465 | recolouring a component black and filling black from the same seed finds that component again exactly when it touches no black |
| `FloodFill.Quirc.FloodFillLine` | 3rdparty/quirc/identify.c:132-164 | paints the maximal run around the pixel and nothing else |
| `FloodFill.Quirc.Visit` | 3rdparty/quirc/identify.c:166-207 | one resumption of the top frame: it opens a new span, which lowers the number of unpainted pixels, or has exhausted both sides |
| `FloodFill.Push` | 3rdparty/quirc/identify.c:183-203 | a new span is disjoint from all before it and still connected to the seed |
| `FloodFill.Skip` | 3rdparty/quirc/identify.c:182-206 | passing over a pixel loses no unexplored neighbour |
| `FloodFill.Pop` | 3rdparty/quirc/identify.c:276-280 | a frame is dropped only when every neighbour of its span is painted or reachable from another frame |
| `FloodFill.Exhausted` | 3rdparty/quirc/identify.c:236-284 | an empty stack means the whole component is painted |
| `FloodFill.Quirc.FloodFillSeed` | 3rdparty/quirc/identify.c:209-285 | terminates for every image, paints only pixels of the colour connected to the seed, reports each exactly once to the span callback, and paints the whole component; it stops early only when there is a chain of as many different maximal runs as the stack has frames, each touching the one before, the first through the seed |
| `FloodFill.NewSpanIsRun` | 3rdparty/quirc/identify.c:132-163 | every span reported is a maximal run of the original pixels |
| `FloodFill.PushStacked` | 3rdparty/quirc/identify.c:166-207 | a pushed frame prolongs the chain of touching runs the stack works on |
| `FloodFill.AreaCount` | 3rdparty/quirc/identify.c:342-345 | the callback adds up the spans, so the count is the number of painted pixels |
| `FloodFill.Quirc.RegionCode` | 3rdparty/quirc/identify.c:347-379 | no code for white or outside pixels or when the table is full, the old code for a marked pixel, else a new region whose count is the pixels marked: the component, or part of it when such a chain filled the stack |
| `FloodFill.Undo` | 3rdparty/quirc/identify.c:431-465 | painting black and back restores the image exactly when the second fill covers the region |
| `FloodFill.ThereAndBack` | 3rdparty/quirc/identify.c:431-465 | the two floods restore the image if and only if the region touches no other black pixel |
| `FloodFill.BlackNeighbourIsTaken` | 3rdparty/quirc/identify.c:431-465 | a one-pixel region with a black pixel beside it is not restored |
| `FloodFill.Quirc.FindRegionCorners` | 3rdparty/quirc/identify.c:431-465 | what each flood paints and what stopped one that was cut short; when none was, the pixels are restored if and only if the region touches no black pixel |
| `Galois.ExpOfLog` | 3rdparty/quirc/decode.c:24-32 | a logarithm and its residue modulo p stand for the same element, so an entry of p for 1 does no harm |
| `Galois.MulAssoc` | 3rdparty/quirc/decode.c:24-32 | multiplication through log and exp tables is associative |
| `Galois.Distribute` | 3rdparty/quirc/decode.c:24-32 | and distributes over xor |
| `Galois.QuotientMul` | 3rdparty/quirc/decode.c:208-208 | adding p minus the log of the divisor divides |
| `Galois256.TimesExp` | 3rdparty/qrcodegen.cpp:740-749 | multiplying powers of the generator adds exponents |
| `Galois256.ReedSolomonMultiply` | 3rdparty/qrcodegen.cpp:740-749 | the shift-and-reduce loop is the product of GF(2^8)/0x11D |
| `Galois256Tables.ExpLog` | 3rdparty/quirc/decode.c:50-118 | every nonzero byte has a logarithm of at most 255, and exp of it is the byte |
| `Galois256Tables.LogExp` | 3rdparty/quirc/decode.c:50-118 | log of exp is the identity from 1 to 254 and 255 at 0, as the table has it, so the generator has order 255 |
| `Galois256Tables.MulIsTimes` | 3rdparty/quirc/decode.c:50-125 | the decoder's table product is the encoder's computed product for all bytes |
| `Galois256Tables.Gf256IsField` | 3rdparty/quirc/decode.c:50-125 | the tables, with 255 as the logarithm of 1, satisfy every field law the coding theory assumes |
| `BerlekampMassey.PolyAdd` | 3rdparty/quirc/decode.c:130-150 | adds c*x^shift*src, cut at MAX_POLY |
| `BerlekampMassey.NextDiscrepancy` | 3rdparty/quirc/decode.c:195-206 | the loop computes the discrepancy of the current recurrence |
| `BerlekampMassey.Exchange` | 3rdparty/quirc/decode.c:178-228 | the double convolution of two recurrences does not depend on the order of summation |
| `BerlekampMassey.LongerNeeded` | 3rdparty/quirc/decode.c:212-220 | if a recurrence of length l fails at n, every recurrence that holds through n is at least n+1-l long |
| `BerlekampMassey.Update` | 3rdparty/quirc/decode.c:208-224 | the corrected polynomial generates one more syndrome, with nothing lost to the cut at MAX_POLY |
| `BerlekampMassey.StillShortest` | 3rdparty/quirc/decode.c:210-224 | the length stays the least possible |
| `BerlekampMassey.Solve` | 3rdparty/quirc/decode.c:178-228 | for every sequence of fewer than 64 syndromes: constant term 1, degree at most L, every index from L on annihilated, and no shorter recurrence exists |
| `ReedSolomon.ProductVanishes` | 3rdparty/qrcodegen.cpp:702-724 | the divisor product vanishes at 2^0 to 2^(n-1) |
| `ReedSolomon.GrowProduct` | 3rdparty/qrcodegen.cpp:709-723 | one multiplication round turns the product of i factors into that of i+1 |
| `ReedSolomon.DivideStep` | 3rdparty/qrcodegen.cpp:727-737 | one shift of the remainder keeps data = quotient * divisor + remainder |
| `RsEncoder.ComputeDivisor` | 3rdparty/qrcodegen.cpp:702-724 | a domain error exactly for degrees outside 1..255, else the product of (x - 2^i) |
| `RsEncoder.ComputeRemainder` | 3rdparty/qrcodegen.cpp:727-737 | the result is a remainder of the data modulo the divisor |
| `RsEncoder.MultipleIsCodeword` | 3rdparty/qrcodegen.cpp:498-533 | data followed by its remainder vanishes at all required powers |
| `RsEncoder.EncodeBlock` | 3rdparty/qrcodegen.cpp:498-533 | for all data and every parity length the decoder accepts, the block keeps the data and all the decoder's syndromes of it are zero |
| `ErrorLocator.ConvIsMoment` | 3rdparty/quirc/decode.c:178-261 | convolving the syndromes with a locator is a weighted power sum over the error positions |
| `ErrorLocator.Vandermonde` | 3rdparty/quirc/decode.c:178-228 | weights over distinct positions whose power sums all vanish are zero |
| `ErrorLocator.Synthetic` | 3rdparty/quirc/decode.c:310-330 | dividing a polynomial by (x - a) leaves its value at a |
| `ErrorLocator.RootCount` | 3rdparty/quirc/decode.c:318-322 | a polynomial of degree n has at most n distinct roots |
| `ErrorLocator.LocatorGenerates` | 3rdparty/quirc/decode.c:178-228 | the locator of the actual errors generates their syndromes |
| `ErrorLocator.ShortestFindsAll` | 3rdparty/quirc/decode.c:178-228 | with at most half as many errors as syndromes, the shortest recurrence has length the number of errors and vanishes at every one of them |
| `ErrorLocator.NoOtherRoot` | 3rdparty/quirc/decode.c:318-322 | and nowhere else |
| `Forney.DerivativeIsQuotient` | 3rdparty/quirc/decode.c:310-330 | the formal derivative at a root is the quotient by the root's factor |
| `Forney.EvaluatorIsSum` | 3rdparty/quirc/decode.c:263-292 | the error evaluator at a position is a sum of quotients weighted by the error values |
| `Forney.EvaluatorIsDerivative` | 3rdparty/quirc/decode.c:263-330 | at an error position the evaluator is the error value times the derivative, which is not zero |
| `RsDecoder.PowerByLog` | 3rdparty/quirc/decode.c:152-176 | any logarithm of an element, reduced or not, gives its powers |
| `RsDecoder.BlockSyndromes` | 3rdparty/quirc/decode.c:236-261 | the syndromes are the values at 2^i and the flag says whether all are zero |
| `RsDecoder.PolyEval` | 3rdparty/quirc/decode.c:152-176 | the log-domain loop evaluates the polynomial, also at zero |
| `RsDecoder.ElocPoly` | 3rdparty/quirc/decode.c:263-292 | the loop computes the product of syndromes and locator below x^(npar-1) |
| `RsDecoder.Derivative` | 3rdparty/quirc/decode.c:310-313 | odd coefficients move down, even ones vanish |
| `RsDecoder.SyndromesArePowerSums` | 3rdparty/quirc/decode.c:236-261 | the syndromes of a received block are the power sums of its errors |
| `RsDecoder.LocatorTest` | 3rdparty/quirc/decode.c:318-322 | the test at an inverse position succeeds exactly at the errors |
| `RsDecoder.ErrorValue` | 3rdparty/quirc/decode.c:323-328 | the quotient at an error is the error value |
| `RsDecoder.CorrectionRestores` | 3rdparty/quirc/decode.c:318-330 | so one turn of the loop restores that byte or rightly leaves it |
| `RsDecoder.CorrectBlock` | 3rdparty/quirc/decode.c:294-336 | success exactly when the result is a codeword; a codeword is left unchanged; any codeword at most npar/2 bytes away is restored |
| `RsDecoder.CodewordsApart` | 3rdparty/quirc/decode.c:294-336 | two codewords with at most npar differences are equal, so the restored one is unique |
| `RsEncoder.Transmit` | 3rdparty/qrcodegen.cpp:498-533 | end to end: encode, corrupt at most npar/2 bytes anywhere, decode, and the block is back |
| `Zigzag.WalkCells` | 3rdparty/qrcodegen.cpp:537-550 | a walk from a column pair on meets the cells of the columns it reaches, each once |
| `Zigzag.EachCellOnce` | 3rdparty/qrcodegen.cpp:536-560 | for every size congruent to 1 modulo 4 from 9 on the walk meets each cell outside column 6 exactly once |
| `Zigzag.SameMask` | 3rdparty/qrcodegen.cpp:563-584 | the encoder's mask formulas are the decoder's with the coordinates exchanged, for all eight masks |
| `Zigzag.MaskTwice` | 3rdparty/qrcodegen.cpp:563-584 | masking twice changes nothing |
| `Zigzag.DrawMaskRead` | 3rdparty/quirc/decode.c:455-469 | reading a cell of a drawn and masked symbol through the mask gives the drawn bit |
| `SymbolWalk.DrawCodewords` | 3rdparty/qrcodegen.cpp:536-560 | the right/vert/j loops write the data bits along the walk's unreserved cells and touch nothing else |
| `SymbolWalk.ApplyMask` | 3rdparty/qrcodegen.cpp:563-584 | a domain error and no change for masks outside 0..7, else every unreserved cell is masked |
| `SymbolWalk.ReadBit` | 3rdparty/quirc/decode.c:527-542 | appends one unmasked bit to the packed bytes |
| `SymbolWalk.RestStep` | 3rdparty/quirc/decode.c:544-569 | one turn of the x/y/dir cursor takes the next row of the same walk |
| `SymbolWalk.ReadData` | 3rdparty/quirc/decode.c:544-569 | terminates and collects the unmasked bits along the same walk |
| `SymbolWalk.DrawAndRead` | 3rdparty/qrcodegen.cpp:536-584 | drawing, masking, then reading gives back every codeword byte, for every size, mask and reserved-cell layout |
| `QrFunctionCells.GetAlignmentPatternPositions` | 3rdparty/qrcodegen.cpp:664-677 | the loop inserts 6 and the multiples of the step from the far edge, in increasing order |
| `QrFunctionCells.CentresSpaced` | 3rdparty/qrcodegen.cpp:664-677 | for every version the centres start at 6, end at most 7 before the edge and are at least 16 apart, the first two at least 12 |
| `QrFunctionCells.DrawAlignmentPatterns` | 3rdparty/qrcodegen.cpp:397-408 | the double loop marks exactly the cells within two of a pair of centres, but for the three finder corners |
| `QrFunctionCells.DrawFormatBits` | 3rdparty/qrcodegen.cpp:416-440 | the two copies of the format bits and the dark module, and nothing else |
| `QrFunctionCells.DrawVersion` | 3rdparty/qrcodegen.cpp:443-462 | the two 3 by 6 blocks of version bits, from version 7 on |
| `QrFunctionCells.DrawFunctionPatterns` | 3rdparty/qrcodegen.cpp:387-413 | together the patterns mark exactly the cells without data, described by their ranges |
| `QrFunctionCells.FindAlignment` | 3rdparty/quirc/decode.c:504-512 | the loop finds the last centre near each coordinate |
| `QrFunctionCells.ReservedCell` | 3rdparty/quirc/decode.c:471-525 | the decision for one cell is whether it holds no data, for any spaced list of centres |
| `QrFunctionCells.CentresAgree` | 3rdparty/quirc/version_db.c:19-421 | for every version but 21 quirc lists the centres the encoder computes |
| `QrFunctionCells.ReservedAgree` | 3rdparty/quirc/decode.c:471-525 | the two programs agree on which cells hold no data if and only if the version is not 21 |
| `QrCapacity.FreeSize` | 3rdparty/qrcodegen.cpp:536-560 | the walk has as many free cells as there are cells met that are not reserved |
| `QrCapacity.AlignedSize` | 3rdparty/qrcodegen.cpp:397-408 | what the alignment patterns take besides the fixed patterns: 25 cells for each pair of inner centres and 20 for each one on a timing pattern |
| `QrCapacity.FixedSize` | 3rdparty/qrcodegen.cpp:387-462 | what finder, timing, format and version patterns take |
| `QrCapacity.RoomForData` | 3rdparty/qrcodegen.cpp:680-692 | the formula of `getNumRawDataModules` counts exactly the cells that the function patterns leave, for every version |
| `QrCapacity.WalksAgree` | 3rdparty/quirc/decode.c:471-525 | quirc walks over the encoder's data cells if and only if the version is not 21 |
| `QrVersions.TablesAgree` | 3rdparty/quirc/version_db.c:19-421 | for all 40 versions and 4 levels quirc's row describes exactly the blocks of the encoder's tables, the raw size is within its asserted range and the capacity at most 2956 |
| `QrBlocks.InterleaveAt` | 3rdparty/qrcodegen.cpp:522-531 | byte k of block i lies in its slot of the interleaved sequence |
| `QrBlocks.SlotsCompared` | 3rdparty/quirc/decode.c:592-600 | the decoder looks for every byte in its slot, except for the extra byte of a long block, which it looks for as many places too far as there are short blocks |
| `QrBlocks.ExactWithoutLongBlocks` | 3rdparty/quirc/decode.c:592-600 | taking apart inverts interleaving for all blocks if and only if there are no long blocks |
| `QrBlocks.BlocksHoldCapacity` | 3rdparty/qrcodegen.cpp:503-514 | the blocks hold exactly as many data bytes as the capacity formula gives |
| `QrBlocks.SplitIntoBlocks` | 3rdparty/qrcodegen.cpp:510-520 | the data is cut into the blocks in order, and each block with its parity is a codeword |
| `QrBlocks.InterleavePadded` | 3rdparty/qrcodegen.cpp:522-531 | the double loop skips the padding byte of every short block and yields the interleaved codewords |
| `QrBlocks.AddEccAndInterleave` | 3rdparty/qrcodegen.cpp:498-533 | an error exactly for data of the wrong length; otherwise the interleaving of codeword blocks whose data, joined, is the input |
| `QrCodestream.ReadInto` | 3rdparty/quirc/decode.c:592-600 | the two loops gather the block the decoder takes for block i |
| `QrCodestream.OneNear` | 3rdparty/quirc/decode.c:602-604 | at most one codeword is within half the parity of what is read |
| `QrCodestream.CorrectOne` | 3rdparty/quirc/decode.c:592-606 | success exactly on a codeword, and the near codeword if there is one |
| `QrCodestream.CodestreamEcc` | 3rdparty/quirc/decode.c:571-612 | it fails only if some block has no codeword near it; otherwise the output is the joined data of corrected blocks, each the near codeword if there is one |
| `QrCodestream.SameLayout` | 3rdparty/quirc/decode.c:576-585 | the block counts and offsets derived from a right row are the encoder's |
| `QrCodestream.CleanIsRepairable` | 3rdparty/quirc/decode.c:592-606 | with two parity bytes or more every undamaged block is repaired, the misread byte included |
| `QrDamage.HitsBound` | 3rdparty/quirc/decode.c:592-606 | a block is no further from its codeword than the number of its bytes that were hit |
| `QrDamage.BearableIsRepairable` | 3rdparty/quirc/decode.c:592-606 | blocks with few enough hit bytes, one fewer in a long block, are repaired |
| `QrDamage.DrawnShows` | 3rdparty/qrcodegen.cpp:536-584 | drawn and masked cells show the codewords' bits |
| `QrDamage.UnhitByte` | 3rdparty/quirc/decode.c:527-542 | a byte none of whose cells was flipped is read as it was drawn |
| `QrSymbol.DrawSymbol` | 3rdparty/qrcodegen.cpp:320-359 | function patterns, parity, interleaving, drawing and a given mask: the data cells show codeword blocks of the data |
| `QrSymbol.ReadSymbol` | 3rdparty/quirc/decode.c:545-612 | reading and correcting a symbol with flipped cells gives the data back, for every version but 21, if no block has too many hit bytes |
| `QrSymbol.CleanIsReadable` | 3rdparty/quirc/decode.c:571-612 | an undamaged symbol of any version and level has few enough |
| `QrSymbol.EncodeDamageDecode` | 3rdparty/qrcodegen.cpp:259-359 | end to end: segments drawn at the chosen version, cells flipped, read, corrected and decoded give the texts, for every version but 21 and every damage the blocks can bear; otherwise no version fits |
| `BitPacking.AppendBit` | 3rdparty/quirc/decode.c:527-542 | OR-ing a bit into a zeroed byte is appending the bit |
| `BitPacking.PackDataByte` | 3rdparty/quirc/decode.c:527-542 | eight bits of a byte in order pack to that byte |
| `BitPacking.PackedStream` | 3rdparty/qrcodegen.cpp:310-314 | packing a bit stream and unpacking it again is the identity |
| `QrSegments.BitBuffer.AppendBits` | 3rdparty/qrcodegen.cpp:823-828 | appends the len low bits, most significant first, or fails and changes nothing exactly when the value or length is out of range |
| `QrSegments.MakeNumeric` | 3rdparty/qrcodegen.cpp:79-99 | a numeric segment that carries the digits; the domain error only for a text with another character |
| `QrSegments.MakeAlphanumeric` | 3rdparty/qrcodegen.cpp:102-122 | an alphanumeric segment that carries the text; the domain error only for a text outside the charset |
| `QrSegments.MakeBytes` | 3rdparty/qrcodegen.cpp:69-76 | a byte segment that carries the data, unless it is longer than an int |
| `QrSegments.MakeSegments` | 3rdparty/qrcodegen.cpp:125-140 | nothing for the empty text, else one segment of the densest mode that can hold it |
| `QrEncoding.GetTotalBits` | 3rdparty/qrcodegen.cpp:179-193 | the exact number of bits, or -1 exactly when a count field or an int would overflow |
| `QrEncoding.Concatenate` | 3rdparty/qrcodegen.cpp:290-297 | headers and data in order |
| `QrEncoding.Fill` | 3rdparty/qrcodegen.cpp:299-308 | terminator, zero bits to a byte and alternating pad bytes fill the capacity exactly |
| `QrEncoding.FilledShape` | 3rdparty/qrcodegen.cpp:299-308 | the filling is zeros up to the first padding byte, at most four terminator bits and the rest of a byte, and then 0xEC and 0x11 in turn |
| `QrEncoding.Pack` | 3rdparty/qrcodegen.cpp:310-314 | eight bits to a byte, big end first |
| `QrEncoding.EncodeSegments` | 3rdparty/qrcodegen.cpp:259-317 | the smallest version of the range that fits and the strongest correction level that still fits; the codewords fill the capacity and start with the segments; too long exactly when no version fits |
| `QrPayload.Decoder.TakeBits` | 3rdparty/quirc/decode.c:619-636 | the value of the next bits, or of as many as are left |
| `QrPayload.Decoder.NumericTuple` | 3rdparty/quirc/decode.c:638-657 | a group of up to three digits is written back in order |
| `QrPayload.Decoder.AlphaTuple` | 3rdparty/quirc/decode.c:695-718 | a group of up to two characters is written back in order |
| `QrPayload.Decoder.DecodeNumeric` | 3rdparty/quirc/decode.c:659-693 | for any stream the cursor and payload stay in bounds; on an encoded numeric segment the digits are appended |
| `QrPayload.Decoder.DecodeAlpha` | 3rdparty/quirc/decode.c:720-748 | the same for an alphanumeric segment |
| `QrPayload.Decoder.DecodeByte` | 3rdparty/quirc/decode.c:750-770 | the same for a byte segment |
| `QrPayload.Decoder.DecodePayload` | 3rdparty/quirc/decode.c:835-881 | for any stream terminates in bounds with the payload zero-terminated on success; on an encoded list of segments succeeds with the concatenated text |
| `QrPayload.TextsFit` | 3rdparty/quirc/decode.c:835-881 | ten characters need at least three bits, so the text of a symbol fits the payload |
| `QrPayload.FilledEnds` | 3rdparty/quirc/decode.c:844-850 | terminator and padding end the decoder's loop at any fill level |
| `QrPayload.EncodeAndDecode` | 3rdparty/qrcodegen.cpp:259-317 | round trip: for every list of segments that fits, encoding at the chosen version and decoding gives the concatenated texts; otherwise no version fits |
| `RpcFraming.ParseInTwo` | src/api/RPC.cpp:72-104 | parsing a stream in two parts dispatches the same frames and leaves the same bytes |
| `RpcFraming.EncodedFrames` | src/api/RPC.cpp:72-104 | a stream of whole frames and a partial one parses to exactly these frames, the partial one staying |
| `RpcFraming.MidExact` | src/api/RPC.cpp:83-87 | `mid` takes exactly the frame's data if and only if its length is below 2^31 or nothing follows it |
| `RpcFraming.LongFrame` | src/api/RPC.cpp:83-87 | a frame of 2^31 bytes or more is handed on with everything that has arrived behind it |
| `RpcFraming.LongFrameExample` | src/api/RPC.cpp:83-87 | a concrete pair of frames of which the first is handed on wrongly |
| `RpcFraming.Reader.ProcessBuffer` | src/api/RPC.cpp:72-104 | terminates, dispatches the frames of the buffer in order and keeps the rest |
| `RpcFraming.Reader.OnReadyRead` | src/api/RPC.cpp:55-59 | the same with the chunk appended |
| `RpcFraming.ReadChunks` | src/api/RPC.cpp:55-104 | for any splitting of frames below 2^31 bytes into reads exactly those (id, status, data) come out in order |
| `RpcChannel.StepKeeps` | src/api/RPC.cpp:61-104 | every step of a caller, the reader or a waking thread keeps the invariant |
| `RpcChannel.RunKeeps` | src/api/RPC.cpp:132-227 | so every state of every run satisfies it |
| `RpcChannel.OwnershipOfCalls` | src/api/RPC.cpp:61-227 | in every reachable state a registered call has left `pending` at most once, by one of reader, timeout or wake-all, `done` was set at most once, and it is in the map exactly while nobody took it |
| `RpcChannel.SuccessIsAnswered` | src/api/RPC.cpp:214-227 | a call that returned 0 carries exactly the data of a status-0 frame with its own id |
| `RpcChannel.ReturnOfCall` | src/api/RPC.cpp:214-227 | a call completed in time by the I/O thread returns the data of a received frame with its id, and 0 exactly for status 0, else 1; every other one returns 1, or that there is no connection, and no data |
| `RpcChannel.FailureIsTimeout` | src/api/RPC.cpp:188-212 | a registered call gives up only after timing out: once if it took itself out of `pending`, twice if the I/O thread had |
| `RpcChannel.RefusedWithoutConnection` | src/api/RPC.cpp:161-163 | a call returns that there is no connection only if it was called without one |
| `RpcChannel.FrameIsTaken` | src/api/RPC.cpp:89-94 | a frame whose id a waiting call is registered under is taken for that call |
| `RpcChannel.FrameIsDelivered` | src/api/RPC.cpp:95-102 | from then on the call is done and says what that frame said |
| `RpcChannel.NoLockCycle` | src/api/RPC.cpp:61-227 | no thread waits for itself, no two for each other, and no chain of waiting threads is longer than two, so there is no cycle of any length |
| `SortQueue.Merge` | src/database/GroupsRepo.cpp:504-517 | the merged job covers the new request and every request the pending one covered |
| `SortQueue.Queue.EnqueueSort` | src/database/GroupsRepo.cpp:504-517 | the request is pending, other groups' jobs are untouched, and a worker is live; no second one is started |
| `SortQueue.Queue.TakeBatch` | src/database/GroupsRepo.cpp:479-489 | the worker takes all that is pending as one batch, or ends exactly when nothing is |
| `SortQueue.Queue.SortGroup` | src/database/GroupsRepo.cpp:490-500 | one group of the batch is worked off; nothing else changes; after the last one the worker looks for work again |
| `SortQueue.OnlyAskedMerge` | src/database/GroupsRepo.cpp:504-517 | merging invents nothing: a job is full only if some request was, and names only profiles some request named |
| `SortQueue.Queue.NothingLost` | src/database/GroupsRepo.cpp:474-517 | once no worker is left, every accepted request is covered by a batch taken after it and worked off |
| `SortQueue.Run` | src/database/GroupsRepo.cpp:474-517 | for any interleaving of requests and worker steps the accepted requests are exactly those asked, in order; nothing else is ever sorted; one worker at most and pending work has one; and once no worker is left every request asked has been served by a later batch |
| `Lists.Unique` | src/database/GroupsRepo.cpp:311-324 | loading keeps every profile of a group, each once |
| `GroupStore.Dedupe` | src/database/GroupsRepo.cpp:311-324 | the loop computes that list, and an unchanged length means an unchanged list |
| `GroupStore.GroupsRepo.AddGroup` | src/database/GroupsRepo.cpp:332-350 | a new group gets the next id, or 0 when the counter cannot be read; the tombstone rule survives if and only if that id is not tombstoned |
| `GroupStore.GroupsRepo.LoadFromDatabase` | src/database/GroupsRepo.cpp:246-326 | never creates a row; repairs repeated profiles in an existing one only |
| `GroupStore.GroupsRepo.GetGroup` | src/database/GroupsRepo.cpp:352-361 | the cached group, else the row, which is then cached, else nothing; never a deleted group |
| `GroupStore.GroupsRepo.Save` | src/database/GroupsRepo.cpp:447-468 | writes the row and the cache exactly when the id is valid and not tombstoned |
| `GroupStore.GroupsRepo.DeleteGroup` | src/database/GroupsRepo.cpp:373-398 | on commit the row, the cache entry and the order entry are gone and the id of a found group is tombstoned; otherwise nothing changes |
| `GroupStore.GroupsRepo.SetGroupsTabOrder` | src/database/GroupsRepo.cpp:432-445 | the order without tombstoned groups |
| `GroupStore.StepSafe` | src/database/GroupsRepo.cpp:332-468 | the only locked section that can break the tombstone rule is an addition that is given a tombstoned id; no section drops a tombstone |
| `GroupStore.StepVisible` | src/database/GroupsRepo.cpp:332-468 | every locked section changes what a reader finds for one group at most: the one added or saved is found as given, the one deleted is not found, and reading changes nothing |
| `GroupStore.StepTombstones` | src/database/GroupsRepo.cpp:373-400 | a tombstone is left by a deletion whose look-up had found the group, and by nothing else |
| `GroupStore.StepOrder` | src/database/GroupsRepo.cpp:332-445 | the tab order gains what is added, loses what is deleted, and is replaced without tombstoned groups |
| `GroupStore.RunCoherent` | src/database/GroupsRepo.cpp:332-468 | in any interleaving the cache repeats the rows |
| `GroupStore.RestartKeeps` | src/database/GroupsRepo.cpp:311-324 | what is found survives emptying the cache, repeated profiles dropped |
| `GroupStore.RunSafe` | src/database/GroupsRepo.cpp:332-468 | in any interleaving the rule holds after every step if and only if no addition hands out a tombstoned id |
| `GroupStore.DeletedStaysDeleted` | src/database/GroupsRepo.cpp:332-468 | then a group deleted at any point is in no later table, cache or order |
| `GroupStore.CounterSuffices` | src/database/GroupsRepo.cpp:411-420 | if the counter can always be read and only ids it handed out are saved, no addition ever hands out a tombstoned id |
| `GroupStore.FailingCounterRevives` | src/database/GroupsRepo.cpp:411-420 | with an unreadable counter a deleted group comes back: from an empty store, add, look up, delete and add again |
| `GroupStore.Run` | src/database/GroupsRepo.cpp:332-468 | any interleaving of add, get, save, look-up, delete and reorder, with a working or failing counter, leaves exactly the state the events say |
| `GroupStore.LateAdd` | src/database/GroupsRepo.cpp:332-398 | a group deleted under an id that is only then handed out is alive afterwards: such a deletion leaves no tombstone |
| `AutoSelector.StrictWeakOrder` | src/configs/AutoSelectorPlan.cpp:122-147 | the comparison is irreflexive and transitive, also in its ties |
| `AutoSelector.MeasuredFirst` | src/configs/AutoSelectorPlan.cpp:122-147 | measured members first, the faster before the slower, then untested ones, then failed ones |
| `AutoSelector.SortedByLatency` | src/configs/AutoSelectorPlan.cpp:149-159 | so in a sorted list nothing measured stands behind anything slower, untested or failed, and nothing untested behind anything failed |
| `AutoSelector.FreshUntil` | src/configs/AutoSelectorPlan.cpp:48-55 | a result counts exactly until its validity runs out |
| `AutoSelector.EligibleExactly` | src/configs/AutoSelectorPlan.cpp:57-94 | a member is eligible if and only if it can be built, passes the name and country filters and did not fail lately where that counts |
| `AutoSelector.ReasonsExactly` | src/configs/AutoSelectorPlan.cpp:57-94 | each reason for leaving a member out is given exactly under its condition |
| `AutoSelector.TooManyTransitions` | src/configs/AutoSelectorPlan.cpp:97-110 | more than two core changes need all three hops, Xray outside and sing-box in the middle |
| `AutoSelector.ChainExactly` | src/configs/AutoSelectorPlan.cpp:202-214 | the chain rules leave out exactly a chained Xray full config and such a member |
| `AutoSelector.SortIsStable` | src/configs/AutoSelectorPlan.cpp:149-159 | the sorted list is ranked, a permutation, and keeps members of equal rank in order |
| `AutoSelector.StableIsUnique` | src/configs/AutoSelectorPlan.cpp:149-159 | no other list is ranked and keeps that order, so the contract of std::stable_sort determines the result |
| `Lists.Firsts` | src/configs/AutoSelectorPlan.cpp:195-197 | exactly the wanted elements, each once |
| `Lists.FirstsInOrder` | src/configs/AutoSelectorPlan.cpp:246-249 | first occurrences keep the order of the list |
| `AutoSelectorPlan.MembersDistinct` | src/configs/AutoSelectorPlan.cpp:161-236 | no member is planned twice and the selector never plans itself |
| `AutoSelectorPlan.FailedAreUntested` | src/configs/AutoSelectorPlan.cpp:219-226 | a member kept despite its failed test never counts as ranked by a test |
| `AutoSelectorPlan.EffectiveLatency` | src/configs/AutoSelectorPlan.cpp:130-138 | members are ranked by a result that still counts, and as untested otherwise |
| `AutoSelectorPlan.EligibleMembers` | src/configs/AutoSelectorPlan.cpp:161-236 | members plus skipped is the number of profiles in the groups, also when failed members are kept; each reason counts exactly the candidates judged so with the first group that lists them; errors and missing groups as they are |
| `AutoSelectorPlan.SortByLatency` | src/configs/AutoSelectorPlan.cpp:149-159 | reading each latency once before sorting gives the same order as reading it in every comparison |
| `AutoSelectorPlan.OrderMembers` | src/configs/AutoSelectorPlan.cpp:238-259 | surviving persisted members, then the newcomers sorted by latency |
| `AutoSelectorPlan.OrderedIsPermutation` | src/configs/AutoSelectorPlan.cpp:238-259 | the order is a permutation of the members |
| `AutoSelectorPlan.OrderedKeepsPrior` | src/configs/AutoSelectorPlan.cpp:238-259 | survivors come first in their persisted order; newcomers follow ranked by latency, equal ones in group order |
| `AutoSelectorPlan.Selector.Normalize` | include/configs/outbounds/autoselector.h:162-190 | every limit becomes the nearest one that satisfies 1 <= expected <= activeSize <= buildLimit <= poolCap <= 3000; the tracked groups are the non-negative ones, once each |
| `AutoSelectorPlan.ClampNearest` | include/configs/outbounds/autoselector.h:162-190 | a clamped limit is the nearest number of its range |
| `AutoSelectorPlan.Selector.StartQuorum` | src/configs/AutoSelectorPlan.cpp:362-369 | the quorum is the watched set, at least the expected number and at most the build |
| `AutoSelectorPlan.PlanMembers` | src/configs/AutoSelectorPlan.cpp:282-321 | pool within its limit, build a prefix of it, counts that balance, an error exactly without members, and a ranking asked for exactly when an unmeasured member would be built while others wait |
| `AutoSelectorPlan.Selector.PlanAutoSelector` | src/configs/AutoSelectorPlan.cpp:282-321 | the same for the selector's normalised settings; its persisted pool is not changed |
| `AutoSelectorPlan.Selector.RerankPool` | src/configs/AutoSelectorPlan.cpp:392-406 | the new pool is the members sorted by latency, untrusted ones as untested, cut at the limit as `mid` cuts; settings stay as they are |
| `AutoSelectorPlan.NormalizeKeepsMembers` | include/configs/outbounds/autoselector.h:162-190 | repeated and negative group numbers do not change the members |
| `AutoSelectorPlan.PlanOfReranked` | src/configs/AutoSelectorPlan.cpp:282-406 | planning on a pool just re-ranked gives it back if and only if the limit is in 1..3000, or no member is left, or a limit above 3000 meets at most 3000 members, or a negative one meets a single member |
| `AutoSelectorPlan.ZeroLimitReplans` | src/configs/AutoSelectorPlan.cpp:282-406 | re-ranking under a limit of 0 stores an empty pool, from which the next plan takes a member |
| `AutoSelectorPlan.ReplanKeepsPool` | src/configs/AutoSelectorPlan.cpp:282-406 | the same over the database and the settings as stored |

## Left out

- Curve-point formulas, point decoding, the precomputed base-point tables, Elligator and the final
  cofactor comparison: points are an abstract abelian group and table entries the named multiples.
- Constant-time behaviour and wiping of secrets: not functional properties.
- The BLAKE2b round function, the parameter block and the Argon2 block operations, initial hash and
  final extraction: they are parameters (`Mixing`, `Mixer`, the start value). The Argon2 work area is
  the rounded-down number of blocks.
- Primality and Fermat arguments: `crypto_x25519_inverse` is proved to compute the power, not the
  inverse.
- ScalarModL.ModL: the in-place final `remove_l(xr, xr)` is modelled as reading a snapshot of xr;
  the loop reads each word before it writes it.
- Blake2b.AppendByte: OR of non-overlapping bits is written as a sum (also in the field encoding and
  the bit packing); the lemma's premise is that the bits do not overlap.
- SlidingWindow.MasksFind: the lowest set bit is the power of two by trailing zeros rather than a
  two's-complement AND.
- Images and symbols are two-dimensional arrays instead of one row-major buffer.
- Thresholding, perspective, grid measurement and the scores of the corner callbacks: floating point
  or separate heuristics. A flood fill's callback is modelled by the list of spans it is given.
- FloodFill.Quirc.FloodFillSeed: of a fill cut short by the stack it is stated that it is part of the
  component, each pixel reported once, and what filled the stack; not which part.
- The colours of the function patterns: the drawing methods mark cells only. Format and version BCH
  codes and the field of 16 elements are not instantiated; the decoder is given version, level and mask.
- QrCodestream.CorrectOne: a block is gathered and corrected in an array of its own and then copied to
  its place in the output; the source works at that place, and the next block overwrites the parity.
- QrVersions.TablesAgree: quirc's table of records is kept as one list for each level and field.
- QrSymbol.EncodeDamageDecode: nothing is said about version 21 beyond the cells that differ.
- Kanji and ECI segments: decoding them is proved to stay in bounds, not to round-trip; the encoder
  has no Kanji segments.
- QrPayload.EncodeAndDecode: the table of capacities is a parameter, at most 2956 codewords as in
  `QrVersions.TablesAgree`.
- Penalty scores and the automatic choice of a mask.
- RpcChannel.RunKeeps: a new call's id is assumed not to be in use by an unfinished call.
  That is more than fewer than 2^32 outstanding calls: it also excludes that the counter laps a call that
  has long been outstanding. The 32-bit counter itself is not modelled. Timeouts may fire at any moment.
- Writing to the socket, moving sockets between threads, logging, and progress of `IsConnected` after
  a reconnection.
- SQL text, JSON conversion, profile ownership and events of the group store; a transaction is one
  step that commits or not.
- AutoSelectorPlan.EligibleMembers: the clock and the database are read once for one plan; the
  list of (reason, count) pairs is the multiset of reasons; null profiles and selectors are not
  modelled. `std::stable_sort` is modelled by the only list that meets its contract.
- AutoSelectorPlan.ReplanKeepsPool: assumes that no stored group has a negative number, as the id
  counter guarantees, and that nothing changes between re-ranking and planning.
- AutoSelectorPlan.Selector.Normalize: the interval, sampling, tolerance, retry and balance settings
  are independent clamps and not modelled.
- The mobile bindings, DNS, routing, TUN and user-interface code: thin wrappers or small
  branch-local logic.
