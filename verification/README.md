# Verified models of seven components of SuperNET's libjl777

Each component below stands on its own in the repository, without the network or the operating system
behind it. The Dafny files model what its code does, in the form the code has (loops, buffers and fields
where the source changes things, functions where it computes), and prove what it is for. `dafny verify
dfyconfig.toml` checks everything.

- **X25519 twice** (`Machine`, `Bits`, `Field25519`, `X25519`, `X25519Curve`, `Limbs51`, `Donna64`,
  `Donna64Codec`, `Donna64Limits`, `Donna64Bound`, `Limbs25`, `Donna32`, `Donna32Codec`, `X25519Agreement`). One
  specification over the field of 2^255-19 elements, two implementations that refine it, one with ten signed limbs in 64-bit
  integers and one with five unsigned limbs and 128-bit products. Machine integers are types with a range, so a
  verified body never wraps; masks and shifts are shown to be the arithmetic they stand for.
- **JSON** (`Json`, `JsonUnicode`, `JsonStandard`, `JsonRoundTrip`, `JsonAccepted`, `JsonPrint`, `JsonParse`,
  `JsonMinify`, `JsonComments`, `JsonMinified`, `JsonAgreement`), against the grammar of RFC 8259. Printer and parser
  undo each other in both formats, and minified text parses to the same tree; buffers are arrays of the length the
  first pass computes, so that every write is proved to land inside.
- **Hash table, ring queue, request server** (`HashTable`, `RingQueue`, `PingPong`, `HashServer`).
- **Stack and heap** (`HeapLayout`, `Heap`). One arena of eight-byte words with the free lists threaded
  through it.
- **Expression evaluator** (`Expression`, `ExpressionTree`, `ExpressionReading`, `ExpressionGrammar`). The
  shift-reduce machine against parse trees and the grammar and operators of C, with a record of every
  operator that is run.
- **Counter mode and layered codec** (`Counter`, `CtrMode`, `CtrCodec`), after section 6.5 of NIST
  SP 800-38A. Block cipher, key schedule and random initial vectors are parameters.
- **Calendar** (`Calendar`). Closed formulas against the calendar they stand for.

## Where the code and its documentation differ

The models follow the code. Some properties that the comments suggest hold only under a condition:

- `fmul` in the five-limb file says limbs below 2^55 are fine. They are not: `Donna64Limits.CommentTooLoose`
  has an input with a wrong product. Below 2^55 the product is right exactly if no 64-bit cast or sum cuts
  anything off (`Donna64Limits.RightExactly`), and it is right for all limbs up to b exactly if b is at most
  0x4a48c389476ad3 (`Donna64Bound.LargestBound`). `fmonty` supplies at most 2^54+2^51, the bound of
  `Donna64.Multiply`.
- The conditional swap of the five-limb file is described as swapping if and only if the flag is non-zero; it
  swaps if and only if the flag is 1 (`Donna64.FlagExactly`, and `Donna64.FlagTwo` for a flag that fails).
- Both ladders run over 256 bits where RFC 7748 runs over 255. The extra step multiplies a point by 4u;
  `X25519.ScalarmultIsRfc` shows that the result is the same, given that 2^255-19 satisfies Fermat's little
  theorem (its primality is a hypothesis of that lemma and of `X25519Agreement.ImplementsRfc`, of nothing else).
- Growth of the ring queue overwrites the oldest value unless the write position is 0:
  `RingQueue.EnqueueFifo` gives the exact condition, `RingQueue.LostValue` the smallest failing history.
- `process_pingpong_queue` returns twice the length of the first queue instead of the sum of both, and ends
  for every action and state if and only if neither target is the second queue (`PingPong.HaltsExactly`).
- In the evaluator a variable that directly follows a decided `&&` or `||` turns ignoring off at once, so
  the rest of that right side is run. `ExpressionTree.RunsMore` says exactly when more is run than should be,
  and `ExpressionTree.MachinedValue` when the value is still the right one: exactly when no operator that leaks
  is undefined. `0 && x / y` with y = 0 traps (`ExpressionTree.LeakExample`).
- Brackets nested a thousand deep lift operators above the precedence that stands for "ignore nothing", and
  they are skipped; deeper still the sixteen bits a node keeps of its precedence wrap around and they are run
  again. `ExpressionTree.NestedSum` has the exact condition for a sum.
- `ciphers_codec` treats an empty message as a failure when it decrypts (`CtrCodec.CodecRoundTrip`).
- `parse_string` accepts a string that is not terminated, and reads it as if the closing quote stood at the end
  of the text (`JsonAccepted.TerminatedExactly`). Of the texts that parse whole, such a literal is the only one that
  `cJSON_Minify` runs past the end of (`JsonMinified.MinifyParse`).
- `Jul_DUTCofYMD` gives numbers to dates that never were; a date comes back from its number if and only if
  there was such a date (`Calendar.RealExactly`, and `Calendar.LeftOutDays` for those of October 1582).
- `add_hashtable` replaces an illegal key by "123456", so such adders share the object of that key
  (`HashServer.ReplacedKey`, and `HashServer.SharedExactly` for exactly who shares).

## Model

| member | source | states |
|---|---|---|
| `X25519Agreement.BothWriteTheSameBytes` | libjl777/curve25519-donna.c:843-860 | for every secret and base point the ten-limb and the five-limb implementation write the same 32 bytes, and these encode the one field-level function both refine |
| `X25519Agreement.ExpandThenContract` | libjl777/curve25519-donna.c:424-612 | expanding 32 bytes and contracting them again clears the top bit and reduces modulo 2^255-19, in both files |
| `X25519Agreement.ImplementsRfc` | libjl777/curve25519-donna-c64.c:432-449 | given Fermat's little theorem for 2^255-19, the computed function is X25519 of section 5 of RFC 7748, with its 255-bit ladder |
| `X25519Agreement.ComputesMultiple` | libjl777/curve25519-donna.c:843-860 | in terms of the curve v^2 = u^3 + 486662u^2 + u alone, given Fermat: the result is the coordinate of the scalar, 2^254 plus bits 3 to 253 of the secret, times the base point, and 0 at infinity |
| `X25519Curve.StepDoubles` | libjl777/curve25519-donna.c:673-697 | one half of the step is Doubled, the formula for the double of a point with the constant 486662 of the curve |
| `X25519Curve.DoubledX` | libjl777/curve25519-donna.c:673-681 | over the integers: Doubled takes x : z to the residue of (x^2-z^2)^2 |
| `X25519Curve.DoubledZ` | libjl777/curve25519-donna.c:682-697 | and to the residue of 4xz(x^2+486662xz+z^2) |
| `X25519Curve.StepAdds` | libjl777/curve25519-donna.c:633-671 | the other half of the step is Added, the formula for the sum of two points whose difference is known |
| `X25519Curve.AddedX` | libjl777/curve25519-donna.c:633-662 | over the integers: Added takes x : z and x' : z' to the residue of 4(xx'-zz')^2 |
| `X25519Curve.AddedZ` | libjl777/curve25519-donna.c:633-671 | and to the residue of 4u(x'z-z'x)^2 |
| `X25519Curve.DoublingIsTangent` | libjl777/curve25519-donna.c:673-697 | for a point of the curve Doubled is where the tangent meets the curve again |
| `X25519Curve.AdditionIsChord` | libjl777/curve25519-donna.c:633-671 | for two points of the curve Added is where the line through them meets the curve again, given the coordinate of their difference |
| `X25519Curve.ChordLaw` | libjl777/curve25519-donna.c:633-671 | the coordinates of the sum and of the difference of two points multiply to (uu'-1)^2 / (u-u')^2 |
| `X25519Curve.RunCounts` | libjl777/curve25519-donna.c:726-771 | from m and m+1 times the base point, t bits of k lead to (m 2^t + k mod 2^t) times the base point and the one after |
| `X25519Curve.AffineIsQuotient` | libjl777/curve25519-donna.c:856-857 | given Fermat, x2 * z2^(p-2) is the quotient of both, and 0 if z2 is 0 |
| `X25519Curve.ClampValue` | libjl777/curve25519-donna.c:849-852 | the clamped scalar is 2^254 plus bits 3 to 253 of the secret, a multiple of 8 in [2^254, 2^255) |
| `X25519Agreement.ClampedTopBit` | libjl777/curve25519-donna.c:849-852 | clamping makes the first of the 256 ladder bits zero |
| `X25519.ClampScalar` | libjl777/curve25519-donna.c:849-852 | the three masking assignments give the decoded scalar of RFC 7748 |
| `X25519.StepByCode` | libjl777/curve25519-donna.c:625-698 | the order in which fmonty multiplies gives the ladder step of RFC 7748 with a24 = 121665 |
| `X25519.RunScale` | libjl777/curve25519-donna.c:726-771 | scaling both points by powers of one element scales the result of a whole run by powers of it (homogeneity) |
| `X25519.LeadingZero` | libjl777/curve25519-donna.c:726-771 | a leading zero bit leaves (1:0) alone and turns (u:1) into (4u^2:4u) |
| `X25519.LazySwap` | libjl777/curve25519-donna.c:726-771 | swapping back after every bit equals the delayed swap of the RFC |
| `X25519.ScalarmultIsRfc` | libjl777/curve25519-donna-c64.c:351-396 | a 256-step run on a scalar with a zero top bit equals the 255-step function of the RFC, including base point 0 |
| `X25519.ChainStep` | libjl777/curve25519-donna.c:798-833 | one link of the inversion chain: from 2^m-1 and n squarings to 2^(m+n)-1 |
| `X25519.LastStep` | libjl777/curve25519-donna.c:835-840 | the last link of the chain gives the exponent 2^255-21 |
| `Donna64.Sum` | libjl777/curve25519-donna-c64.c:39-48 | limbwise sum: the field sum, within the bound the next multiply needs |
| `Donna64.DifferenceBackwards` | libjl777/curve25519-donna-c64.c:54-65 | in - out in the field, no 64-bit subtraction wraps, limbs stay loose |
| `Donna64.ScalarProduct` | libjl777/curve25519-donna-c64.c:68-90 | product with 121665 in the field, every narrowing of a carry lossless |
| `Donna64.Multiply` | libjl777/curve25519-donna-c64.c:98-145 | for limbs up to 2^54+2^51: the field product, limbs at most 2^51 again, no 128-bit or 64-bit step wraps |
| `Donna64Limits.CarryChain` | libjl777/curve25519-donna-c64.c:131-138 | the carry chain with its 64-bit casts, on columns of any size that leaves room for a carry |
| `Donna64Limits.LosslessExactly` | libjl777/curve25519-donna-c64.c:131-138 | no cast or sum of the chain loses anything if and only if the running columns stay below 2^115 and the folded limb below 2^64 |
| `Donna64Limits.LosslessProduct` | libjl777/curve25519-donna-c64.c:98-145 | then the limbs stand for the field product, whatever the size of the inputs |
| `Donna64Limits.CarriedPoly` | libjl777/curve25519-donna-c64.c:131-138 | the limbs, together with what the casts cut off, stand for the columns |
| `Donna64Limits.SameResidue` | libjl777/curve25519-donna-c64.c:131-138 | so the limbs have the residue of the columns if and only if nothing is cut off |
| `Donna64Limits.RightExactly` | libjl777/curve25519-donna-c64.c:95-145 | for all limbs that the comment allows, below 2^55: the result is the field product if and only if the columns fit as in LosslessExactly |
| `Donna64Bound.LargestBound` | libjl777/curve25519-donna-c64.c:95-145 | the result is the field product for all limbs up to b if and only if b is at most 0x4a48c389476ad3, about 1.16 * 2^54 |
| `Donna64Bound.LimitFits` | libjl777/curve25519-donna-c64.c:131-138 | limbs up to that bound: no carry, and not the sum of limb 0 and 19 times the top carry, leaves 64 bits |
| `Donna64Bound.NextFolds` | libjl777/curve25519-donna-c64.c:136-136 | factors with limbs up to one more than that: that sum is 2^64 + 0xcf560 |
| `Donna64Bound.LatticePoints` | libjl777/curve25519-donna-c64.c:131-136 | near the bound column 0 is just below a multiple of 2^51 in two places only, and neither is reached |
| `Donna64Limits.CommentTooLoose` | libjl777/curve25519-donna-c64.c:95-96 | limbs of 2^55-1, which the comment allows, do not fit, and the result is not the product |
| `Donna64Limits.Multiply` | libjl777/curve25519-donna-c64.c:98-145 | fmul with its casts, for all limbs up to 2^59: the limbs that the columns and the casts leave; below 2^55 they are the product if and only if the columns fit |
| `Donna64Limits.MultiplyTooLoose` | libjl777/curve25519-donna-c64.c:95-145 | a call that the comment allows and whose output is not the square of its input |
| `Donna64.SquareTimes` | libjl777/curve25519-donna-c64.c:147-187 | count squarings: the power 2^count in the field, with the bounds of Multiply |
| `Donna64.Monty` | libjl777/curve25519-donna-c64.c:292-324 | one ladder step on the two projective points, with reduced limbs again |
| `Donna64.SwapConditional` | libjl777/curve25519-donna-c64.c:333-343 | the masked exchange of every pair of limbs for any flag; the flags 0 and 1 keep and exchange the elements |
| `Donna64.FlagExactly` | libjl777/curve25519-donna-c64.c:326-343 | all limbs are exchanged if and only if the flag is 1, and kept if and only if it is 0 |
| `Donna64.FlagTwo` | libjl777/curve25519-donna-c64.c:326-343 | the flag 2, not zero, does not exchange 1 and 0 |
| `Donna64.ProcessBit` | libjl777/curve25519-donna-c64.c:351-396 | one scalar bit: swap, step, swap back is the ladder bit of the specification |
| `Donna64.CMult` | libjl777/curve25519-donna-c64.c:351-396 | the points after all 256 bits are those of the specified run |
| `Donna64.CRecip` | libjl777/curve25519-donna-c64.c:402-428 | z^(2^255-21), with every intermediate inside the bound of the next multiply |
| `Donna64Codec.Expand` | libjl777/curve25519-donna-c64.c:216-225 | the five limbs of the number without its top bit |
| `Donna64Codec.Freeze` | libjl777/curve25519-donna-c64.c:228-275 | the carry passes give the unique representative in [0, 2^255-19) |
| `Donna64Codec.Contract` | libjl777/curve25519-donna-c64.c:228-281 | the 32 bytes encode the canonical value of the element |
| `Donna64Codec.Curve25519Donna` | libjl777/curve25519-donna-c64.c:432-449 | the output bytes encode the specified scalar multiplication |
| `Donna32.Sum` | libjl777/curve25519-donna.c:68-73 | limbwise sum in the field, with its bound |
| `Donna32.Difference` | libjl777/curve25519-donna.c:78-83 | in - output in the field, with its bound |
| `Donna32.ScalarProduct` | libjl777/curve25519-donna.c:86-91 | product with a constant in the field, inside int64 |
| `Donna32.FProduct` | libjl777/curve25519-donna.c:99-200 | the nineteen coefficients of the product of two ten-limb polynomials, no step leaves int64 |
| `Donna32.FSquareInner` | libjl777/curve25519-donna.c:345-402 | the same coefficients as FProduct on equal arguments |
| `Donna32.ReduceDegree` | libjl777/curve25519-donna.c:206-238 | degree 18 to degree 9 modulo 2^255-19, shifts written as in the source |
| `Donna32.CarryAll` | libjl777/curve25519-donna.c:282-302 | one carry chain keeps the value and brings the limbs under their radix |
| `Donna32.ReduceCoefficients` | libjl777/curve25519-donna.c:279-321 | all limbs below 2^26 in absolute value, same field element |
| `Donna32.Multiply` | libjl777/curve25519-donna.c:328-337 | for limbs below 2^27: the field product with limbs below 2^26, no intermediate leaves int64 |
| `Donna32.Square` | libjl777/curve25519-donna.c:410-421 | the field square with the bounds of Multiply |
| `Donna32.Monty` | libjl777/curve25519-donna.c:625-698 | one ladder step on the two projective points, with reduced limbs again |
| `Donna32.SwapConditional` | libjl777/curve25519-donna.c:709-720 | the masked swap exchanges or keeps the two elements, through 32-bit truncation |
| `Donna32.ProcessBit` | libjl777/curve25519-donna.c:726-771 | one scalar bit is the ladder bit of the specification |
| `Donna32.CMult` | libjl777/curve25519-donna.c:726-771 | the points after all 256 bits are those of the specified run |
| `Donna32.CRecip` | libjl777/curve25519-donna.c:776-841 | z^(2^255-21), with every intermediate inside the bound of the next multiply |
| `Donna32Codec.Expand` | libjl777/curve25519-donna.c:424-446 | the ten limbs of the number without its top bit |
| `Donna32Codec.S32Eq` | libjl777/curve25519-donna.c:449-457 | all ones if the arguments are equal, else zero |
| `Donna32Codec.S32Gte` | libjl777/curve25519-donna.c:461-465 | all ones or zero for a comparison of nonnegative arguments |
| `Donna32Codec.MakeNonNegative` | libjl777/curve25519-donna.c:471-531 | the borrow passes make every limb nonnegative and keep the element |
| `Donna32Codec.SubtractPrime` | libjl777/curve25519-donna.c:563-584 | the masked subtraction gives the representative below 2^255-19 |
| `Donna32Codec.Freeze` | libjl777/curve25519-donna.c:471-584 | from signed limbs to the canonical ten-limb form |
| `Donna32Codec.Contract` | libjl777/curve25519-donna.c:471-612 | the 32 bytes encode the canonical value of the element |
| `Donna32Codec.Curve25519Donna` | libjl777/curve25519-donna.c:843-860 | the output bytes encode the specified scalar multiplication |
| `JsonAgreement.PrintThenParse` | libjl777/cJSON.c:272-346 | for every printable tree and either format, printing and then parsing gives the tree back and uses up exactly the printed text |
| `JsonAgreement.PrintMinifyParse` | libjl777/cJSON.c:615-630 | formatted print, minified in place, is the unformatted print and parses to the tree |
| `JsonAgreement.PrintInjective` | libjl777/cJSON.c:336-351 | different trees are printed differently |
| `JsonAgreement.ParseStandard` | libjl777/cJSON.c:272-286 | every text of RFC 8259 with integers below 2^53, whatever its white space and escapes, is read as its tree, to the end |
| `JsonStandard.ValueRead` | libjl777/cJSON.c:321-334 | the same for a value in front of anything that does not continue a number |
| `JsonStandard.PrintsStandard` | libjl777/cJSON.c:336-351 | what the printer writes, in either format, is a text of RFC 8259 for the tree it was given |
| `JsonRoundTrip.RoundTrip` | libjl777/cJSON.c:321-541 | parsing the text of a tree, followed by anything that does not continue a number, gives the tree and that rest |
| `JsonRoundTrip.ItemsRoundTrip` | libjl777/cJSON.c:354-379 | the same for the items of an array, with white space in front |
| `JsonRoundTrip.MembersRoundTrip` | libjl777/cJSON.c:440-473 | the same for the members of an object, with the white space of either format |
| `JsonRoundTrip.EscapedRoundTrip` | libjl777/cJSON.c:163-256 | unescaping undoes escaping on every NUL-free string |
| `JsonRoundTrip.NumberRoundTrip` | libjl777/cJSON.c:100-145 | parsing undoes printing on every integer below 2^53 in absolute value |
| `JsonAccepted.TerminatedExactly` | libjl777/cJSON.c:163-219 | an accepted string without a closing quote is read to the end of the text as if the quote stood there; one with a closing quote ends right after it |
| `JsonAccepted.UnterminatedExample` | libjl777/cJSON.c:163-219 | a literal that is accepted without its closing quote |
| `JsonAccepted.AcceptedPrintable` | libjl777/cJSON.c:321-473 | every tree the parser returns on NUL-free text can be printed |
| `JsonAccepted.ParsePrintParse` | libjl777/cJSON.c:321-541 | parsing, printing in either format and parsing again is parsing |
| `JsonPrint.PrintStringPtr` | libjl777/cJSON.c:223-256 | the length of the first pass covers all writes of the second, and the buffer holds the quoted string |
| `JsonPrint.PrintNumber` | libjl777/cJSON.c:123-145 | the decimal text fits the fixed buffer |
| `JsonPrint.PrintArray` | libjl777/cJSON.c:382-437 | the summed length covers all writes, and the buffer holds the text of the array |
| `JsonPrint.PrintObject` | libjl777/cJSON.c:476-541 | the summed length covers all writes with tabs and line ends, and the buffer holds the text of the object |
| `JsonPrint.PrintValue` | libjl777/cJSON.c:336-351 | the buffer holds the text of the tree |
| `JsonParse.ParseStringAt` | libjl777/cJSON.c:163-219 | agrees with the string grammar; the second pass never writes past the length that the first pass counted |
| `JsonUnicode.UnicodeRead` | libjl777/cJSON.c:187-209 | a \u escape of a code point, as one number or as a pair of surrogates and in either case of its digits, is read as bytes that a decoder after the byte classes of RFC 3629 reads as that code point |
| `JsonUnicode.Utf8Decodes` | libjl777/cJSON.c:200-208 | the bytes written for a code point decode to it, whatever follows |
| `JsonUnicode.HalfDropped` | libjl777/cJSON.c:188-196 | a surrogate without its partner, and the code point 0, are dropped |
| `JsonUnicode.ShortEscapeRead` | libjl777/cJSON.c:179-212 | the one-letter escapes of section 7 of RFC 8259 stand for their bytes |
| `JsonParse.EscapeFits` | libjl777/cJSON.c:163-219 | no escape or surrogate pair stands for more bytes than the first pass counts for it |
| `JsonParse.ParseNumberAt` | libjl777/cJSON.c:100-119 | the number at the cursor, or none of the model for fractions, exponents and numbers from 2^53 on |
| `JsonParse.ParseArrayAt` | libjl777/cJSON.c:354-379 | the array at the cursor, failure included |
| `JsonParse.ParseObjectAt` | libjl777/cJSON.c:440-473 | the object at the cursor, failure included |
| `JsonParse.ParseValueAt` | libjl777/cJSON.c:321-333 | the value at the cursor, failure included |
| `JsonParse.ParseWithOpts` | libjl777/cJSON.c:272-286 | leading white space is skipped, and on request text after the value is a failure |
| `JsonMinified.MinifyParse` | libjl777/cJSON.c:615-630 | any text that parses whole can be minified if and only if it is not a literal without its closing quote, and the minified text parses whole to the same tree |
| `JsonMinified.ValueMinified` | libjl777/cJSON.c:321-334 | parsing a value commutes with minifying, up to what the rest of the text is minified to |
| `JsonMinified.BodyMinified` | libjl777/cJSON.c:163-219 | a literal ends in the same place for the minifier and for the parser, and its value does not depend on what follows |
| `JsonAgreement.MinifyThenParse` | libjl777/cJSON.c:615-630 | minifying any accepted text in place and parsing the buffer gives the tree of the text and uses up the buffer |
| `JsonMinify.MinifyPrinted` | libjl777/cJSON.c:382-541 | minifying the formatted print of any tree gives the unformatted print |
| `JsonMinify.Compose` | libjl777/cJSON.c:615-630 | minifying distributes over concatenation of pieces with known results |
| `JsonComments.MinifyKeeps` | libjl777/cJSON.c:615-630 | minifying a text of white space, comments of both kinds, words and literals keeps the words and literals, in order and unchanged, and nothing else |
| `JsonMinify.MinifyInPlace` | libjl777/cJSON.c:615-630 | the buffer ends up with the minified text; the write cursor never passes the read cursor |
| `HashTable.CalcDecimalHash` | libjl777/jl777hash.h:150-162 | the hash of the digits of a key, modulo 2^64 |
| `HashTable.HashValue` | libjl777/jl777hash.h:150-162 | the hash is the unbounded one modulo 2^64: a digit in place n multiplies by 63689 * 378551^n and is added |
| `HashTable.SearchHashtable` | libjl777/jl777hash.h:224-248 | the probe sequence of the specification |
| `HashTable.SearchResult` | libjl777/jl777hash.h:224-248 | in a well-formed table search decides membership, finds the object, and fails only when every slot is full |
| `HashTable.InsertResult` | libjl777/jl777hash.h:296-333 | inserting where search stopped keeps chains gapless and keys unique, adds one to the count and one entry to the map |
| `HashTable.ResizeHashtable` | libjl777/jl777hash.h:250-294 | the larger table holds the same map from keys to objects and the exact count |
| `HashTable.Hashtable.AddHashtable` | libjl777/jl777hash.h:296-333 | returns the object of the key, created exactly if the key was absent; different keys keep different objects; grows threefold above .666; never reports a full table |
| `HashTable.Hashtable.Find` | libjl777/jl777hash.h:224-248 | the slot of the key, or an empty slot exactly if the key is absent |
| `HashServer.EveryRun` | libjl777/jl777hash.h:335-416 | for every interleaving: each request is executed once, table and answers are those of the sequential run in execution order, each queue is served first in first out, no packet in use is freed |
| `HashServer.StepInv` | libjl777/jl777hash.h:387-416 | every client or server step keeps that invariant |
| `HashServer.DoneIsFinal` | libjl777/jl777hash.h:335-416 | after the done flag is set no step but the owner's changes the packet, and the server does not touch it |
| `HashServer.ClientsAgree` | libjl777/jl777hash.h:335-364 | all adders of one key get the same object and no two of them see created |
| `HashServer.OneCreator` | libjl777/jl777hash.h:335-364 | if the key was absent at first, exactly one executed adder sees created |
| `HashServer.SameObjectExactly` | libjl777/jl777hash.h:335-364 | in every reachable state two executed requests that got objects hold the same one if and only if they are about the same key |
| `HashServer.FindsWhatWasAdded` | libjl777/jl777hash.h:224-248 | in every reachable state a search executed after an adder of its key holds the object of that adder |
| `HashServer.FindsNothingElse` | libjl777/jl777hash.h:224-248 | a search for a key that was not there and that no adder gave before finds nothing |
| `HashServer.SharedExactly` | libjl777/jl777hash.h:303-307 | two executed adders share an object if and only if they gave the same key, or both a key that is added as "123456" |
| `HashServer.ReplacedKey` | libjl777/jl777hash.h:303-307 | an illegal key is added as the one that replaces it, and a later adder of that one finds it |
| `HashServer.ServerCanStep` | libjl777/jl777hash.h:387-416 | in every reachable state the server can take a step |
| `HashServer.ServedInTime` | libjl777/jl777hash.h:387-416 | in every run a queued packet has been executed once the server took as many steps as it was away, and three for each packet enqueued meanwhile |
| `HashServer.Serve` | libjl777/jl777hash.h:397-408 | one pass of the server over the open-addressing table does what the map does |
| `HashServer.ServeAll` | libjl777/jl777hash.h:397-408 | serving a log one by one on the open-addressing table gives the table and the answers of the sequential reference |
| `RingQueue.Queue.QueueEnqueue` | libjl777/jl777hash.h:35-63 | the new ring state, growth included |
| `RingQueue.Queue.QueueDequeue` | libjl777/jl777hash.h:65-89 | the oldest value and the ring without it, or null |
| `RingQueue.EnqueueFifo` | libjl777/jl777hash.h:35-63 | an enqueue appends if and only if the ring has room or its write position is 0 |
| `RingQueue.DequeueFifo` | libjl777/jl777hash.h:65-89 | a dequeue takes the first value of the contents |
| `RingQueue.LostValue` | libjl777/jl777hash.h:42-50 | the smallest history on which growth overwrites the oldest value |
| `RingQueue.RingRefinesFifo` | libjl777/jl777hash.h:35-89 | on every history whose growth happens at write position 0, the ring gives the outputs of a FIFO sequence |
| `PingPong.StepConserves` | libjl777/jl777hash.h:119-146 | handling an item neither loses nor duplicates one |
| `PingPong.DrainResult` | libjl777/jl777hash.h:119-146 | a round calls the action once for each item it finds, in order, and appends each to the queue it is routed to |
| `PingPong.BothRounds` | libjl777/jl777hash.h:113-148 | the calls of both rounds, and what every queue and the freed items hold afterwards, in order; pingpong[1] is empty |
| `PingPong.BothRoundsBySign` | libjl777/jl777hash.h:113-148 | the final queues by the sign of the action result alone: negative to the error queue, positive to the destination, freed if there is none, the rest and what a target pingpong[0] would get to the partner queue, in order |
| `PingPong.OthersUnchanged` | libjl777/jl777hash.h:113-148 | a queue that is neither a ping-pong queue nor a target is left alone |
| `PingPong.CallsHaveOrigins` | libjl777/jl777hash.h:113-148 | every call is the first one for an item, from its place in a queue, or the second one for an item the first round sent to pingpong[1] |
| `PingPong.AtMostTwice` | libjl777/jl777hash.h:113-148 | no two calls are the same call for the same item, so each item has at most two |
| `PingPong.EndsOnlyEmpty` | libjl777/jl777hash.h:113-148 | with such an action the second round ends if and only if both queues were empty, items arriving from the first round included |
| `PingPong.HaltsExactly` | libjl777/jl777hash.h:113-148 | both loops end for every action and every state if and only if neither target is pingpong[1] |
| `PingPong.SelfFeeding` | libjl777/jl777hash.h:113-148 | a second round whose items all go back to pingpong[1] keeps its queue as long as it is, for either target |
| `PingPong.ProcessPingpongQueue` | libjl777/jl777hash.h:113-148 | the nested loops give these calls, contents (also by sign, as in BothRoundsBySign) and conservation; queues that are no target are unchanged; returns twice the length of pingpong[0] |
| `HeapLayout.TilesDisjoint` | libjl777/heap.c:145-287 | the blocks of a tiling lie between its ends and do not overlap |
| `HeapLayout.TilesSplit` | libjl777/heap.c:198-208 | splitting a block keeps the tiling |
| `HeapLayout.Take` | libjl777/heap.c:172-196 | unlinking any node of a free list leaves well-formed lists and one more block in use |
| `HeapLayout.SplitBig` | libjl777/heap.c:198-208 | cutting the end off a listed block leaves a well-formed heap |
| `HeapLayout.Grow` | libjl777/heap.c:212-224 | extending the heap downwards leaves a well-formed heap |
| `HeapLayout.Give` | libjl777/heap.c:263-286 | pushing a block on a bucket list or the big list leaves a well-formed heap |
| `HeapLayout.Shrink` | libjl777/heap.c:252-262 | popping the lowest block leaves a well-formed heap |
| `Heap.OneBlock` | libjl777/heap.c:145-287 | every word above the heap bottom lies in exactly one block, which is in use or on one free list at one place |
| `Heap.Heap.constructor` | libjl777/heap.c:47-66 | an empty stack and heap in one arena |
| `Heap.Heap.FindBig` | libjl777/heap.c:181-184 | the first block of the big list that is large enough, and the node before it |
| `Heap.Heap.FindBlock` | libjl777/heap.c:165-224 | a block from its bucket, else by first fit from the big list, split or whole, else from the middle; none exactly if there is none |
| `Heap.Heap.HeapAllocMem` | libjl777/heap.c:145-233 | a block not in use before, cleared for the request; other blocks in use and the stack unchanged; null exactly if there is no room |
| `Heap.Heap.HeapFreeMem` | libjl777/heap.c:236-287 | the block is in use no more, the others keep place, size and contents |
| `Heap.Heap.HeapAllocStack` | libjl777/heap.c:77-90 | the requested bytes on top of the stack, cleared; null exactly if they would pass the heap bottom |
| `Heap.Heap.HeapUnpopStack` | libjl777/heap.c:93-99 | the top goes up by the aligned size, where room remains |
| `Heap.Heap.HeapPopStack` | libjl777/heap.c:102-115 | the top goes down by the aligned size unless that is below the arena |
| `Heap.Heap.HeapPushStackFrame` | libjl777/heap.c:118-126 | a frame that remembers the one before |
| `Heap.Heap.HeapPopStackFrame` | libjl777/heap.c:129-142 | the top and the frame pointer from before the matching push |
| `Heap.CallInFrame` | libjl777/heap.c:118-142 | whatever a program does inside a frame, popping it restores the stack top and the frame pointer, and the stack below is unchanged |
| `Heap.PerformAll` | libjl777/heap.c:47-287 | every run of allocations, frees, stores and nested frames keeps stack and heap apart, the tiling, and the blocks the program holds; blocks it neither stores into nor frees, and the frames below its own, have the same words at the end |
| `Expression.ExpressionStackCollapse` | libjl777/expression.c:808-931 | the loop reduces the stack as its specification does; an operator the source language leaves undefined halts it |
| `Expression.ExpressionParse` | libjl777/expression.c:992-1255 | the token loop and the final collapse, with all error exits; a node keeps sixteen bits of its precedence |
| `ExpressionTree.Simulate` | libjl777/expression.c:808-1255 | after the tokens of a subexpression, every collapse that can follow treats the stack as its value, or halts where its evaluation faults |
| `ExpressionTree.ParseRespecting` | libjl777/expression.c:992-1255 | the parser stops after the expression with the value and the operators run of the reading by precedence, or halts where the machine runs an undefined operator |
| `ExpressionTree.EvaluatesByPrecedence` | libjl777/expression.c:992-1255 | every sentence evaluates to the short-circuit value of its reading by precedence if and only if that reading has one and its leaks are harmless, else the source traps; without leaks it traps if and only if the reading faults, and runs exactly what the reading asks for |
| `ExpressionGrammar.EvaluatesByGrammar` | libjl777/expression.c:51-75 | an expression derived by the grammar of C, one rule for each level of operators, evaluates to its value exactly when it has one and its leaks are harmless; else a trap |
| `ExpressionGrammar.DerivedExactly` | libjl777/expression.c:51-75 | the grammar derives exactly the readings that respect the operator table |
| `ExpressionGrammar.GrammarComplete` | libjl777/expression.c:51-75 | every sentence has the tokens of an expression of the grammar |
| `ExpressionGrammar.ThreeOperands` | libjl777/expression.c:51-75 | of two infix operators between three operands the tighter one is applied first, the left one on equal levels, prefix operators before both |
| `ExpressionGrammar.OperatorMeans` | libjl777/expression.c:690-709 | every infix operator computes what C says, wherever C defines it: sums, differences and products modulo 2^32, truncated quotients and their remainders, shifts, bitwise operators bit by bit, comparisons |
| `ExpressionGrammar.UndefinedExactly` | libjl777/expression.c:690-709 | undefined are exactly division by 0, the smallest number by -1, and shifts by less than 0 or more than 63 |
| `ExpressionGrammar.PrefixMeans` | libjl777/expression.c:508-513 | plus, minus, not and complement, the last one bit by bit |
| `ExpressionGrammar.ShortCircuit` | libjl777/expression.c:1106-1118 | && and || look at their right side only if the left one does not decide, and give 0 or 1 |
| `ExpressionTree.MachinedValue` | libjl777/expression.c:808-931 | the machine finishes if and only if the meaning exists and every leaking right side evaluates without fault, and then with that value |
| `ExpressionTree.RunsMore` | libjl777/expression.c:1186-1188 | a machine that finishes ran more than the meaning asks for exactly when a decided right side starts with a variable and goes on; without leaks it does what the meaning says, faults included |
| `ExpressionTree.NoVariablesNoLeak` | libjl777/expression.c:1112-1119 | without variables no operator of a decided right side is run |
| `ExpressionTree.LeakExample` | libjl777/expression.c:1186-1188 | 0 && x / y divides although the left side decides, and traps for y = 0 where the meaning is 0 |
| `ExpressionTree.NestedSum` | libjl777/expression.c:6-36 | 1 + 1 in k brackets evaluates to 2 if and only if (20k + 12) modulo 2^16 is at most 20000, else to 0: right for k < 1000, wrong at 1000, right again at 3277 |
| `ExpressionTree.NormalRespects` | libjl777/expression.c:48-70 | every sentence has a reading that respects precedence and left associativity |
| `ExpressionReading.ReadsAll` | libjl777/expression.c:48-70 | a recursive parser written from the grammar finds that reading |
| `ExpressionReading.OneReading` | libjl777/expression.c:48-70 | two readings of the same tokens that respect precedence are the same |
| `ExpressionReading.EvaluatesWhatIsRead` | libjl777/expression.c:992-1255 | the evaluator computes the value of what the recursive parser reads, if and only if that has one and its leaks are harmless |
| `Counter.IncrementValue` | libjl777/ciphers.h:549-568 | the byte loop with carry adds one to the counter, modulo its width |
| `Counter.WordXor` | libjl777/ciphers.h:575-587 | a word-wide exclusive or is that of its bytes |
| `CtrMode.IncrementLittle` | libjl777/ciphers.h:549-558 | the increment of a little-endian counter, the rest of the block unchanged |
| `CtrMode.IncrementBig` | libjl777/ciphers.h:559-568 | the increment of a big-endian counter, the rest of the block unchanged |
| `CtrMode.CounterStep` | libjl777/ciphers.h:549-568 | one increment leads to the next counter value after the initial vector |
| `CtrMode.CounterBlockValue` | libjl777/ciphers.h:549-568 | the counter field of block k, as a number with the least significant byte first or last, is that of the initial vector plus k, modulo its width; the other bytes are unchanged |
| `CtrMode.SymmetricCTR.constructor` | libjl777/ciphers.h:461-511 | the context at position 0 of the keystream, RFC 3686 increment included |
| `CtrMode.SymmetricCTR.NextPad` | libjl777/ciphers.h:546-573 | a used-up pad is replaced by the next keystream block |
| `CtrMode.SymmetricCTR.Encrypt` | libjl777/ciphers.h:521-593 | the output is the input combined with the keystream from the current position, by bytes or by words alike |
| `CtrCodec.CtrStart` | libjl777/ciphers.h:461-511 | the context at the start of the keystream; counter width 0 means the whole block, one wider than the block is refused |
| `CtrCodec.EncryptChunks` | libjl777/ciphers.h:521-593 | for every way to cut a message into chunks the output is the one-shot exclusive or with the keystream |
| `CtrCodec.CryptTwice` | libjl777/ciphers.h:595-601 | decryption undoes encryption |
| `CtrCodec.EncryptCipher` | libjl777/ciphers.h:684-719 | the initial vector, then byte i of the data combined with byte i mod blocklen of the encryption of the block that, read with the least significant byte first, is i / blocklen more than the initial vector |
| `CtrCodec.LayerExactly` | libjl777/ciphers.h:684-719 | that is what a layer computes, and nothing else is |
| `CtrCodec.DecryptCipher` | libjl777/ciphers.h:658-682 | the data after the initial vector combined with the same bytes; nothing if there is none |
| `CtrCodec.OpenUndoesSeal` | libjl777/ciphers.h:721-779 | opening all layers undoes sealing them |
| `CtrCodec.SealFirst` | libjl777/ciphers.h:721-779 | the first layer is the innermost |
| `CtrCodec.OpenLast` | libjl777/ciphers.h:721-779 | decrypting undoes the last layer first |
| `CtrCodec.CodecRoundTrip` | libjl777/ciphers.h:721-779 | for any number of layers decoding what was encoded gives the data back if and only if it is not empty |
| `CtrCodec.CiphersCodec` | libjl777/ciphers.h:721-779 | the layers in order, in reverse order when decrypting |
| `Calendar.FixYM` | libjl777/jdatetime.h:46-62 | the month in 1 to 12 with the same count of months |
| `Calendar.NumberOf` | libjl777/jdatetime.h:64-82 | the day number without truncating divisions, counted in years from March |
| `Calendar.Consecutive` | libjl777/jdatetime.h:125-142 | consecutive dates have consecutive day numbers, also from 4 to 15 October 1582 |
| `Calendar.CountsFromEpoch` | libjl777/jdatetime.h:27-38 | day numbers count the days from 1 January 2000, in both directions |
| `Calendar.CutOver` | libjl777/jdatetime.h:144-151 | the day number the source compares with separates the two calendars |
| `Calendar.RoundTrip` | libjl777/jdatetime.h:125-151 | converting back gives the date, for every date there was from Julian day 0 on |
| `Calendar.RoundTripBack` | libjl777/jdatetime.h:84-151 | every day number from Julian day 0 on is that of a date there was, and comes back |
| `Calendar.RealExactly` | libjl777/jdatetime.h:125-151 | a date with a day number from Julian day 0 on comes back if and only if there was such a date |
| `Calendar.LeftOutDays` | libjl777/jdatetime.h:125-151 | the ten days left out of October 1582 get the numbers of the ten days after the change |
| `Calendar.FirstDay` | libjl777/jdatetime.h:75-82 | dates from Julian day 0 on are those from the year -4712 on |
| `Calendar.MonthsNormalise` | libjl777/jdatetime.h:46-62 | moving twelve months into the year does not change the day |
| `Calendar.GregorianInverse` | libjl777/jdatetime.h:84-102 | the Gregorian formulas are inverse to each other |
| `Calendar.JulianInverse` | libjl777/jdatetime.h:104-123 | the Julian formulas are inverse to each other |
| `Calendar.DateOfDUTC` | libjl777/jdatetime.h:144-151 | the date there was with the given day number |
| `Calendar.DUTCOfDate` | libjl777/jdatetime.h:125-142 | the day number for any month |
| `Calendar.ForwardFits` | libjl777/jdatetime.h:64-82 | no value on the way leaves 32 bits up to the last February that fits, in the year 1465073, and one does from the March after it on |
| `Calendar.BackwardFits` | libjl777/jdatetime.h:84-123 | no value on the way leaves 32 bits if and only if the day number is at most 536802342 |

## Left out

- Primality of 2^255-19 and Fermat's little theorem are hypotheses where they are needed, not proved.
- Constant-time behaviour and cryptographic strength of any routine.
- JSON fractions, exponents, numbers from 2^53 on, and rounding of doubles; `\u` escapes that are cut off or lack hex digits, and a backslash at the very end of a text: the model answers "outside" there.
- JSON item editing (add, detach, replace, duplicate, references), the error pointer, allocation failure, and wrap-around of 32-bit lengths for texts beyond 2 GB.
- JsonPrint.PrintNumber: negative zero, which the source prints as -0, is not a number of the model.
- JsonMinify.MinifyInPlace: asks for text whose string literals and comments are closed, because the source reads past the end of others.
- Expression tokens for assignment, pointers, structs, arrays, macros, function calls, casts, sizeof, the ternary operator, increment and decrement; values other than integers; two prefix operators in a row, which the source does not handle. `IsArithmeticPrefix` names the prefix operators of the sublanguage.
- Expression.ExpressionParse: an identifier followed by a bracket, a call in the source, is an error in the model; sums and products beyond 64 bits are taken modulo 2^32 like others, and the bracket level is an unbounded integer, where the source's overflows after a hundred million open brackets.
- ExpressionTree.EvaluatesByPrecedence: asks for fewer than 1000 nested brackets, beyond which operators are skipped; NestedSum has what happens then to a sum.
- JsonParse.ParseStringAt: escapes that are cut off or lack hex digits are answered with Unmodelled.
- JsonParse.ParseNumberAt: fractions, exponents and numbers from 2^53 on are answered with Unmodelled.
- HashTable.Hashtable.AddHashtable: the floating-point comparison with .666 is taken as 1000 * items > 666 * size; the checking pass and the messages of the resize, the statistics and the modified lists are not modelled.
- HashServer.EveryRun: the abstract map stands for the table (ServeAll ties them), a first-in first-out sequence for each queue, and the object for the slot index a search returns; reuse of a freed packet's address, the hashprocessing counter and scheduling fairness are not modelled.
- PingPong.ProcessPingpongQueue: the queues are first-in first-out sequences, and the action does not clear the pointer it is given; locks and messages are left out.
- Heap.Heap.constructor: the arena starts aligned and its size is a multiple of eight, so the alignment loop of HeapInit does nothing; pointers and sizes are those of a 64-bit machine, and the unused half of a size word is not modelled.
- Heap.Heap.HeapPopStackFrame: popping without a matching push, where the source trusts the word at the frame pointer, is not modelled; nor are builds that use malloc for stack or heap.
- Heap.Heap.HeapPopStack: asks for well-nested use, since the source checks against the start of the arena only.
- Heap.Heap.HeapUnpopStack: asks that room remains, which the source does not check.
- Heap.Heap.HeapPushStackFrame: asks that room for a word remains, which the source does not check.
- CtrMode.SymmetricCTR.Encrypt: accelerated ciphers and failing block ciphers are left out; the word-wide path is modelled for little-endian words.
- CtrCodec.CiphersCodec: key hashing, key sizes and the choice of cipher by number are folded into the layers; a layer that fails in the middle ends the model with failure, where the source goes on with a null pointer.
- Calendar.ForwardFits: dates before Julian day 0 are outside of the 32-bit statement; daylight saving, time zones and the date strings of jdatetime.h are not modelled.
- All other files of the repository: networking, remote calls, coin handling, storage, the C library of the interpreter and its lexer.
