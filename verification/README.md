# Verified model of chapulin

chapulin is a TLS 1.3 library for small devices, with its own P-256, ML-DSA and ChaCha20-Poly1305 code, CBMC
harnesses and analysis tools. This project models the parts whose correctness is hardest to see from one function
and proves them for every input and every run, where the harnesses stop at small bounds or at one step of a loop.

- **P-256 words.** Carry chains, masked selection and the single conditional subtraction; CIOS Montgomery
  multiplication for any word count, with the loop-exit bound `t < 2m` that proof/p256_mul_harness.c says no proof
  carries; inversion by Fermat's little theorem; the 16x16 decompositions of a wide multiply at full width.
  Modules `Words`, `Masks`, `WideMul`, `Montgomery`, `Fermat`, `Field`, `P256`.
- **Scalar multiplication.** The signed odd-window digits at any width, the ladder, and the two windowed walks over an
  abstract group, including why every incomplete addition is one the formula gets right, and the masked scans that pick
  an entry of a row. Modules `Digits`, `Groups`, `ScalarMul`, `Selects`.
- **ML-DSA.** The branch-free compaction behind RejBoundedPoly, and both number-theoretic transforms on `int32_t`
  arrays: their ranges, the values they compute, their round trip and multiplication through them. Modules `Eta`,
  `Residues`, `Twiddles`, `Zetas`, `Transform`, `Layers`, `Ntt`, `InvNtt`, `Ranges`, `Mldsa`.
- **Records.** The handshake reader over any transport with its compacting window: what it yields is never wrong, and a
  transport that delivers a stream, in pieces of any size, gets all of it read; record protection under either AEAD with
  overlapping buffers, and streams cut into sealed records; post-handshake messages, the runs of fragments that bring
  them and key updates; writing in parts and the length that fits a cap; and a connected session over any sequence of
  reads, writes and a close. Modules `Framing`, `Reader`, `Deliveries`, `Arrivals`, `Handshake`, `Keystreams`, `Aead`,
  `Gcm`, `RecordLayer`, `SealedStream`, `PostHandshake`, `Connected`, `Receiving`, `Writable`, `Writing`, `Sessions`.
- **The revocation epoch** over runs of sessions with failed stores, retries and power cuts. Module `Epoch`.
- **The analysis tools.** The call-stack machine of the stage trace, against runs given as nested calls; the deepest
  call path; and the include walk, sharding and merging of the coverage report. Modules `Trace`, `CallTrees`,
  `CallGraph`, `Coverage`.

`Common`, `Arith` and `Bits` hold what the others share. Word counts, window widths, stream lengths and shard counts
are parameters; `P256.FieldConstants`, `P256.OrderConstants`, `ScalarMul.ShippedWindows` and `Eta.ShippedPasses`
tie them to the shipped values.

The transport's answers, the trace, the primitives' outputs, the fates of writes and power cuts are parameters: every
theorem holds for all of them, and results are stated as what they determine. Integers that the C code keeps in 32 or
64 bits are truncated explicitly where that matters (`U32`, `U64`, `S32`, the `Int32` type).

`dafny verify dfyconfig.toml` checks the whole project.

## Where the code and its documentation differ

- src/mldsa_poly.h:62-64 says that `mld_montgomery_reduce` returns a value under q for every argument of size at most
  2^31 q. It does so for every such argument but 2^31 q itself, which gives q
  (`Residues.MontgomeryReduce`). Both callers stay below that argument (`Residues.MulZeta`, `Residues.MulReduced`).
- `rec_seal` takes contents of up to 0x40EF bytes and any type, and `rec_open` refuses contents over 0x4000 bytes and
  reads a zero type as padding. A sealed record opens to its type and content exactly when the content is at most
  0x4000 bytes and the type is not zero (`RecordLayer.OpenSealed`).
- src/tls.c:315-317 bounds records that bring no data, but `tls_read` looks for data only before it reads a record. After
  31 empty records data in the next one ends the session unread (`Receiving.LateData`). A call returns bytes if and only
  if data waits, or the first record that does not merely pass brings data and is not the last one under the cap
  (`Receiving.ReadIff`).
- docs/ca.md:422-424 and examples/ca_client.c:247-251 name one danger of a cut single-slot write, a slot that fails every
  later connect. The decimal text of examples/ca_client.c can also be cut inside its digits and still read, as a lower
  epoch: a device at 100 that writes 101 can read 1 (`Epoch.TornFalls`). No cut of a write lowers the epoch exactly when
  the new value's first digit alone is not below the old value (`Epoch.TornNeverFallsIff`); with two checksummed
  slots no cut ever does (`Epoch.TwoSlotsNeverFall`).
- docs/ca.md:429-430 and 498 take `ch_epoch_store_failed` as the sign that an epoch did not persist, and
  `epoch_store` of examples/ca_client.c drops the answer of `fprintf`. A write that falls short of its digits and still
  closes is reported as stored, and can leave a lower epoch than before (`Epoch.ReportedShort`). A write leaves its
  epoch if and only if all its digits reached the file (`Epoch.WrittenIff`).
- bench/stack.py:334 expects no cycle. On a graph with one, `deepest` can count the bytes of a call it does not
  follow, so its figure can exceed every path that repeats no function (`CallGraph.GuardCounts`);
  `CallGraph.Dominates` and `CallGraph.Attained` give its exact value on every graph, and `CallGraph.DeepestIsLongest`
  the plain reading on graphs without a cycle.

## Model

| member | source | states |
|---|---|---|
| Words.AddWords | src/p256_field.c:46-54 | for any word count, sum words and carry are exactly a + b, and the carry is 0 or 1 |
| Words.SubWords | src/p256_field.c:61-70 | for any word count, the difference modulo R, and the returned mask is all ones exactly when a < b |
| Words.SelectWords | src/p256_field.c:73-78 | the masked OR is a choice of one operand, whatever aliases the output |
| Words.ReduceOnce | src/p256_field.c:84-97 | one masked subtraction: a value below m is kept, one from m to m + R becomes itself less m |
| Words.KeepsBelow | src/p256_field.c:84-97 | a value with its high bit is below m exactly when the subtraction borrowed and no high bit covers the borrow |
| Words.FieldAdd | src/p256_field.c:193-197 | the sum modulo m for operands below m, in place too |
| Words.FieldSub | src/p256_field.c:199-207 | the difference modulo m for operands below m, in place too |
| Words.WrappedBack | src/p256_field.c:199-207 | a difference that wrapped by R is the residue once the modulus is added under the mask |
| Words.ScalarReduce | src/p256_scalar.c:188-193 | every n-word value reduces modulo m in one step when R is at most 2m |
| Words.BorrowMeans | proof/p256_field_harness.c:86-105 | a borrow out of a subtraction says a < b, and only that |
| Masks.ZeroMask | src/p256_field.c:165-171 | all ones exactly for the number zero |
| Masks.EqualMask | src/p256_field.c:173-179 | all ones exactly when every word agrees |
| Masks.CondSwap | src/p256_field.c:185-191 | the XOR exchange swaps both arrays under the mask and leaves both without it |
| Bits.XorBits | src/p256_field.c:185-191 | every bit of an exclusive or is the sum of the two bits modulo 2 |
| Bits.AndBits | src/p256_field.c:73-78 | every bit of an and is the product of the two bits |
| Bits.OrBits | src/p256_field.c:73-78 | every bit of an or is set exactly when one of the two is |
| Bits.SameBits | src/p256_field.c:73-78 | numbers with the same bits are the same |
| Masks.FieldNeg | src/p256_field.c:209-216 | -a modulo m, and zero rather than m for zero |
| Masks.RefAdd | proof/p256_field_harness.c:70-84 | the comparison-based carry chain is exact addition for any word count |
| Masks.RefSub | proof/p256_field_harness.c:86-99 | the comparison-based borrow chain is exact subtraction for any word count |
| Masks.ChainsAgree | proof/p256_field_harness.c:107-157 | two carry chains with one total agree word for word and in the carry, so the high-word and the comparison forms are one function |
| WideMul.Wide | src/ct.h:278-296 | the four-piece 16x16 ladder is the exact 64-bit product of all 32-bit operands |
| WideMul.WideOpaque | src/ct.h:323-346 | the form with compare carries is the same product |
| WideMul.MulSmall | src/ct.h:354-362 | the 64-by-32 form is the product modulo 2^64 |
| WideMul.WideSigned | src/ct.h:388-406 | the signed ladder on bit patterns is the exact product for both signs |
| WideMul.Ladder | src/ct.h:278-296 | recombining four bounded half products loses no carry |
| WideMul.SignedLadder | src/ct.h:388-406 | the arithmetic shifts recombine four signed half products exactly |
| WideMul.CompareCarries | src/ct.h:323-346 | the two comparisons are the two carries |
| Montgomery.MacWord | proof/p256_mul_harness.c:24-35 | the 64-bit accumulation cannot wrap and its carry is one word, for any operands |
| Montgomery.TailWord | proof/p256_mul_harness.c:37-54 | the tail fold of a pass spills at most one bit |
| Montgomery.MultiplyPass | src/p256_field.c:111-140 | a pass adds x b exactly and leaves at most one in the overflow word |
| Montgomery.FirstFold | src/p256_field.c:111-140 | the multiplier u clears the low word exactly |
| Montgomery.ReducePass | src/p256_field.c:111-140 | BASE times the new t is the old t plus a multiple of m, and the overflow word is free again |
| Montgomery.NextRound | proof/p256_mul_harness.c:11-15 | t R^i = a_i b + k m is kept by a round |
| Montgomery.RoundBound | proof/p256_mul_harness.c:11-15 | the round invariant alone bounds t below b + m |
| Montgomery.Rounds | proof/p256_mul_harness.c:11-15 | at loop exit t < b + m, so below 2m for a reduced b, with one bit above the n words and t R = a b + k m |
| Montgomery.MontMul | src/p256_field.c:111-140 | for any n, any a and any b below an odd m: the result is below m and congruent to a b R^-1, with output and operands aliased at will |
| Montgomery.FinalValue | src/p256_field.c:84-97 | one conditional subtraction lands below m in the same class |
| Fermat.InversePower | src/p256_field.c:234-248 | x^(m-2) is the inverse of a nonzero x modulo a prime m |
| Field.Enters | src/p256_field.c:226-228 | a Montgomery product with R^2 gives the Montgomery form |
| Field.Leaves | src/p256_field.c:230-232 | a product with 1 leaves the domain: in and out is the identity |
| Field.FormOfProduct | src/p256_field.c:218-220 | the product of two forms is the form of the product |
| Field.ScalarMul | src/p256_scalar.c:204-211 | two Montgomery products make the plain product modulo m |
| Field.PlainProduct | src/p256_scalar.c:204-211 | why they do: the factor R^-1 R^2 R^-1 cancels for every odd modulus |
| Field.BitOfWords | src/p256_field.c:234-248 | bit 32 q + r of the number is bit r of word q |
| Field.FieldPower | src/p256_field.c:234-248 | the square-and-multiply walk computes the form of base^e for every exponent |
| Field.PowerIsInverse | src/p256_field.c:234-248 | for a prime modulus that power is the form of the inverse |
| Field.PowerOfZero | src/p256_field.c:234-248 | zero goes to zero |
| Field.FieldInverse | src/p256_field.c:234-248 | for a prime modulus and a nonzero element the form of its inverse, and zero of zero, with the output aliased at will |
| Field.ScalarInverse | src/p256_scalar.c:213-232 | for every odd modulus the scalar to the power m - 2; for a prime the inverse of every nonzero scalar, and zero of zero |
| P256.FieldConstants | src/p256_field.c:19-43 | the constant words are p, R^2 mod p, R mod p, p - 2 and -1/p modulo 2^32 |
| P256.OrderConstants | src/p256_scalar.c:28-47 | the constant words are n, R^2 mod n, R mod n, n - 2 and -1/n modulo 2^32, and R is at most 2n |
| Digits.ScalarBit | src/p256_wide_mul.c:56-58 | the bit, for every index its callers read it at: none is past the scalar |
| Digits.ScalarBitOrZero | src/p256_wide_mul.c:62-67 | the bit, and zero past the scalar |
| Digits.WideMask | src/p256_wide_word.h:67-69 | the shift spreads a bit to all 64 |
| Digits.WindowBits | src/p256_wide_mul.c:85-102 | the bits gathered are the window's bits above its lowest |
| Digits.IndexOf | src/p256_wide_mul.c:85-102 | the masked XOR mirrors the index of a negative digit and stays inside the row |
| Digits.WindowDigit | src/p256_wide_mul.c:85-102 | index inside its row, sign mask, top digit positive, and index with sign is the digit of the recoding |
| Digits.DigitStep | src/p256_wide_mul.c:12-30 | one digit moves the telescoped sum up one window |
| Digits.PartialSum | src/p256_wide_mul.c:12-30 | below the top the digits sum to the low bits of k with bit 0 set, less the next window's weight |
| Digits.DigitsSum | proof/p256_wide_digit_harness.c:60-92 | for every scalar and any width that covers it the weighted digits sum to k with bit 0 set |
| Groups.TimesAdd | src/p256_point.c:126-161 | multiples add in any abelian group, negative ones too |
| ScalarMul.LadderRound | src/p256_point.c:135-144 | a round is one addition and one doubling of the selected points |
| ScalarMul.LadderStep | src/p256_point.c:135-144 | a round appends the bit and keeps r1 - r0 = P |
| ScalarMul.Ladder | src/p256_point.c:146-161 | the walk over all bits yields k P for every scalar in any abelian group |
| ScalarMul.DigitShape | src/p256_wide_mul.c:22-25 | every digit is odd and below 2^w in size, so none is zero |
| ScalarMul.IncompleteAdds | src/p256_wide_mul.c:241-306 | an addition that fails on equal, opposite or infinite points is right on multiples that the order keeps apart |
| ScalarMul.WindowApart | src/p256_wide_mul.c:241-306 | at every window the running sum, the entry, their sum and difference are kept apart |
| ScalarMul.OddMultiples | src/p256_wide_mul.c:241-306 | the row holds P, 3P, 5P and so on, each by one incomplete addition |
| ScalarMul.DigitMultiple | src/p256_wide_mul.c:182-189 | the selected, conditionally negated entry is the digit's multiple |
| Selects.EqualMask64 | src/p256_wide_mul.c:72-75 | all ones exactly for equal values |
| Selects.RowSelect | src/p256_wide_mul.c:120-160 | the scan over every entry returns the one at the index, for any row and entry length |
| ScalarMul.WindowStep | src/p256_wide_mul.c:241-306 | one window takes the sum above it to the sum from it up |
| ScalarMul.Correct | src/p256_wide_mul.c:241-306 | taking the point away for an even scalar turns the multiple for k with bit 0 set into k P |
| ScalarMul.WindowMul | src/p256_wide_mul.c:241-306 | the whole walk computes k P for every scalar and for the point at infinity |
| ScalarMul.TableApart | src/p256_wide_mul.c:191-232 | at every window of the table walk the sum below and the entry are kept apart |
| ScalarMul.TableStep | src/p256_wide_mul.c:191-232 | one window adds its table entry to the digits below it |
| ScalarMul.TableMul | src/p256_wide_mul.c:191-232 | the table walk computes k times the generator for every scalar |
| ScalarMul.ShippedWindows | src/p256_wide_mul.c:45-50 | 64 four-bit and 43 six-bit windows cover 256 bits, and 2^252 bounds what the order must exceed |
| Eta.EtaEntry | src/mldsa_sign_pack.c:89-95 | a kept half-byte becomes its value and its count of earlier rejections, a rejected one nothing |
| Eta.EtaChoose | src/mldsa_sign_pack.c:102-107 | the masks make the two choices of a pass |
| Eta.EtaPass | src/mldsa_sign_pack.c:115-126 | in place, every read above sees the entry before the pass |
| Eta.InOrder | src/mldsa_sign_pack.c:74-88 | in every pass kept entries stay in stream order, so two never meet |
| Eta.PositionStep | src/mldsa_sign_pack.c:109-126 | pass b moves an entry by 2^b exactly when its count has bit b |
| Eta.NeverBoth | proof/mldsa_sign_samplers_harness.c:72-83 | in no pass of any stream are stay-here and move-from-above both chosen, so the OR is a choice |
| Eta.LayoutStep | src/mldsa_sign_pack.c:109-126 | a pass takes the layout for the bits below b to the layout for those below b + 1 |
| Eta.KeptAt | src/mldsa_sign_pack.c:74-88 | a kept half-byte's place among the kept ones is its index less its rejections |
| Eta.KeptFrom | src/mldsa_sign_pack.c:74-88 | every kept value comes from exactly such a half-byte |
| Eta.Compacted | src/mldsa_sign_pack.c:128-144 | after the passes the front holds the kept values in order, and the rest is empty |
| Eta.Entries | src/mldsa_sign_pack.c:128-144 | the first loop writes one entry a half-byte and counts the rejections |
| Eta.Passes | src/mldsa_sign_pack.c:128-144 | the passes, lowest bit first, reach the final layout |
| Eta.FromStream | src/mldsa_sign_pack.c:128-144 | the coefficients are RejBoundedPoly's for every stream, -2 where it ran out, and the answer says whether it did |
| Eta.ShippedPasses | src/mldsa_sign_pack.c:128-144 | 481 bytes and ten passes meet the bounds above |
| Residues.Reduce32 | src/mldsa_poly.h:56-59 | for every int32_t a congruent value within 6291200 |
| Residues.MontgomeryReduce | src/mldsa_poly.h:61-67 | a 2^-32 modulo q for every argument below 2^62; for arguments within 2^31 q under q except at 2^31 q |
| Residues.MulZeta | src/mldsa_poly.h:69-75 | a product with a table entry, under q for every int32_t |
| Residues.MulReduced | src/mldsa_poly.h:77-81 | a product of any two int32_t, under q |
| Zetas.Zeta | src/mldsa_zetas.h:16-47 | each of the entries 1 to 255, as the literal it is, is zeta to the reversed index times 2^32, reduced to (-q/2, q/2] |
| Zetas.EntryIsTwiddle | src/mldsa_zetas.h:5-10 | a table that keeps 31 row laws and starts with 2^32 holds the twiddle of every index |
| Zetas.TableLawful | src/mldsa_zetas.h:16-47 | the shipped literals keep those laws |
| Zetas.RevSplit | src/mldsa_zetas.h:5-6 | a higher bit of an index adds its reversal to the exponent |
| Twiddles.RootOfUnity | src/mldsa_zetas.h:6-7 | 1753^256 = -1 modulo q |
| Twiddles.LeftSquared | src/mldsa_zetas.h:5 | a left child's twiddle is a square root of its parent's |
| Twiddles.RightSquared | src/mldsa_zetas.h:5 | a right child's is a square root of the opposite |
| Twiddles.OppositeTwiddles | src/mldsa_poly.c:43-61 | the twiddles the two transforms pair up multiply to -1 |
| Twiddles.EvenRoot | src/mldsa_zetas.h:5 | even leaves sit at zeta^(2 brv(i) + 1) |
| Twiddles.OddRoot | src/mldsa_zetas.h:5 | and so do odd leaves |
| Transform.FoldKeepsValue | src/mldsa_poly.c:20-35 | a butterfly layer keeps a polynomial's value at the roots of its modulus |
| Transform.PointPower | src/mldsa_poly.c:20-35 | every leaf's point is a root of every modulus above it |
| Transform.Evaluates | src/mldsa_poly.c:17-35 | each output of the transform is the polynomial's value at that leaf's point |
| Transform.Undoes | src/mldsa_poly.c:37-61 | the inverse tree undoes the forward tree up to the factor of its doublings, scaled inputs too |
| Transform.ProductIsConvolution | src/mldsa_poly.c:63-67 | the reference product modulo X^n + 1 is the negacyclic convolution |
| Transform.ValueOfProduct | src/mldsa_poly.c:63-67 | at a root of X^n + 1 the product's value is the product of values |
| Transform.TransformOfProduct | src/mldsa_poly.c:63-67 | the transform of a product is the pointwise product of transforms |
| Transform.ShippedLawful | src/mldsa_zetas.h:5-9 | the shipped twiddles satisfy the law the tree needs |
| Layers.BlockwiseIsTreewise | src/mldsa_poly.c:20-35 | the loops' blocks, left to right with a running index, are the tree's nodes of one height |
| Layers.SplitFinishes | src/mldsa_poly.c:20-35 | doing one layer leaves exactly the layers below |
| Layers.JoinRises | src/mldsa_poly.c:43-61 | doing one inverse layer leaves exactly the layers above |
| Ntt.PairDown | src/mldsa_poly.c:20-35 | one butterfly: both outputs in their classes, within int32_t and the bound plus q |
| Ntt.DownBlock | src/mldsa_poly.c:20-35 | the inner loop does its block and leaves every other coefficient |
| Ntt.DownLayer | src/mldsa_poly.c:20-35 | one layer in place, the twiddle index moving by its block count |
| Ntt.DownAll | src/mldsa_poly.c:20-35 | eight layers compute the transform |
| Ntt.PolyNtt | src/mldsa_poly.c:20-35 | from any coefficients: the transform modulo q, no sum leaving int32_t, and the result within 6291200 + 8q |
| InvNtt.PairUp | src/mldsa_poly.c:43-61 | one inverse butterfly: classes, and a bound that doubles |
| InvNtt.UpBlock | src/mldsa_poly.c:43-61 | the inner loop does its block and leaves every other coefficient |
| InvNtt.UpLayer | src/mldsa_poly.c:43-61 | one inverse layer in place, the index moving down |
| InvNtt.UpAll | src/mldsa_poly.c:37-61 | over all eight layers each sum and difference fits int32_t, the last within 256 * 6291200 |
| InvNtt.PolyInvNtt | src/mldsa_poly.c:43-61 | from any coefficients: 2^32/256 times the inverse's sums, under q |
| InvNtt.ScaledBack | src/mldsa_poly.c:41-60 | the scale 41978 is 2^64/256 modulo q |
| InvNtt.Inverts | src/mldsa_poly.c:43-61 | the inverse of a multiple of a transform is 2^32 times the polynomial by that multiple |
| InvNtt.PolyPointwise | src/mldsa_poly.c:63-67 | the pointwise product up to 2^-32, the output aliased at will |
| Ranges.Pair | proof/mldsa_stubs.h:35-40 | a butterfly of n-fold sums of contract values stays within int32_t and is a 2n-fold sum |
| Ranges.Layer | proof/mldsa_ntt_harness.c:1-34 | one inverse layer under the contract alone doubles the number of values in a sum |
| Ranges.EightLayers | proof/mldsa_stubs.h:13-18 | for every int32_t input and every choice of products the contract allows, no layer overflows, and the last lies in [-2^31, 2^31 - 255) |
| Mldsa.ForwardValue | src/mldsa_poly.c:17-35 | output i is the value at zeta^(2 brv(i) + 1), as FIPS 204 section 7.5 orders them |
| Mldsa.RoundTrip | src/mldsa_poly.c:37-61 | inverse after forward is 2^32 times the input, for every input |
| Mldsa.Multiply | src/mldsa_poly.c:20-67 | two transforms, a pointwise product and the inverse compute the product modulo X^256 + 1 |
| Framing.FramesInFront | fuzz/fuzz_handshake_record.c:80-97 | length-prefixed frames are read back one by one: no other cut of the same bytes exists |
| Framing.FramesCover | fuzz/fuzz_handshake_record.c:80-97 | frames and the rest are exactly the bytes, and the rest holds no whole frame |
| Framing.FramesGrow | fuzz/fuzz_handshake_record.c:80-97 | bytes that come later change no complete frame |
| Reader.RecordArrives | src/handshake_record.c:22-51 | one record more adds its handshake content to the payload |
| Reader.PartArrives | src/io.c:56-94 | part of a record adds nothing |
| Reader.MoveDown | src/handshake_record.c:78-121 | the overlapping move keeps every byte moved |
| Deliveries.SendAll | src/io.c:10-20 | every byte goes out once and in order, and it fails if and only if an answer is out of range |
| Deliveries.GatherIff | src/io.c:22-32 | a read of n bytes fails if and only if an answer it asks for is out of range, and otherwise has n bytes |
| Deliveries.GatherDelivered | src/io.c:22-32 | however a transport cuts a stream, a read gets its next n bytes, or fails with what is left when there are fewer |
| Arrivals.RefusesFirst | src/handshake_record.c:59-121 | the fifth change_cipher_spec, the 33rd record without handshake bytes and every record not accepted end the wait for a message |
| Arrivals.AwaitClean | src/handshake_record.c:125-148 | when the records hold a whole message it is found, and it and what is left hold what window and records held |
| Arrivals.YieldsAll | src/handshake_record.c:78-148 | from every stream of records that fit the buffer and that the reader goes past, with up to four change_cipher_specs and 32 empty records among them, the calls yield exactly the messages carried, all of them and in order |
| Handshake.Session.SetReadKey | src/handshake.c:127-138 | a key change is accepted exactly at a record's end and starts a stream of its own; otherwise the stream stays as it was |
| Handshake.Session.ReadExact | src/io.c:22-32 | fails if and only if an answer it asked for is out of range; short reads join to exactly n bytes, from a stream its next n, and no byte before the place changes |
| Handshake.Session.CheckBody | src/io.c:37-54 | exactly which lengths are refused, with which code and alert |
| Handshake.Session.ReadRecord | src/io.c:56-94 | exactly one record lands at its place, or what came holds no whole record; from a stream the code is what its next bytes decide |
| Handshake.Session.AcceptRecord | src/handshake_record.c:22-51 | the record's handshake bytes replace it, only an opened record counts, and the code is decided by the record |
| Handshake.Session.CcsTolerable | src/handshake_record.c:59-65 | exactly which change_cipher_spec is tolerated, and each spends a budget of four |
| Handshake.Session.QuietCapped | src/handshake_record.c:70-76 | a record without handshake bytes spends a budget, and exactly one past it is capped |
| Handshake.Session.Compact | src/handshake_record.c:78-121 | the unread window moves to the front unchanged |
| Handshake.Session.OneRecord | src/handshake_record.c:78-121 | one pass adds exactly the record's content behind the window, or spends a budget; from a stream its code, its next state and what is left are determined |
| Handshake.Session.FetchRecord | src/handshake_record.c:78-121 | terminates on every transport; the window plus new content is the old window plus what arrived; from a stream it succeeds exactly when the records of the stream say so |
| Handshake.Session.PeekMessage | src/handshake_record.c:125-148 | whether the window starts with a whole message of a permitted length |
| Handshake.Session.AwaitMessage | src/handshake_record.c:125-148 | fetches until the window starts with a message, losing and adding no byte, and finds one exactly when the stream brings it |
| Handshake.Session.NextMessage | src/handshake_record.c:125-148 | the next message inside the buffer, with pt_off <= pt_len <= buf_len throughout, or a refusal with nothing left to yield; from a stream it succeeds exactly when the stream brings a message, which is the one yielded |
| Handshake.Session.GivenLength | proof/handshake_record_harness.c:177-214 | a yielded message's length agrees with its 24-bit header |
| Handshake.Session.GivenInOrder | fuzz/fuzz_handshake_record.c:80-97 | what was yielded is the front of parsing everything that arrived |
| Handshake.Session.AllGiven | fuzz/fuzz_handshake_record.c:80-97 | when a call fails, every whole message that arrived was yielded |
| Handshake.ReadMessages | fuzz/fuzz_handshake_record.c:80-97 | over any run of calls and any transport each success yields exactly the next message of the parse, and a failure means all were yielded; from a stream the messages yielded are those it determines |
| Handshake.AnyCut | src/handshake_record.c:22-33 | however a stream is cut into records in the clear, the messages on the wire are the stream's |
| Handshake.ClearDelivery | src/handshake_record.c:78-148 | however a handshake stream is cut into records in the clear and those into pieces, the calls yield the stream's messages one by one, and all of them |
| Handshake.MessagesGrow | fuzz/fuzz_handshake_record.c:43-53 | later bytes add messages and change none |
| Keystreams.XorBlock | src/chacha20.c:95-119 | one block of the ascending loop that both ciphers run, with the output at or below the input: each byte is the old one under its key byte, and no other byte changes |
| Keystreams.XorByteBits | src/chacha20.c:95-119 | each bit of a byte under a key byte is the sum of their bits modulo 2: the two are combined by exclusive or |
| Keystreams.XorWithBits | src/chacha20.c:95-119 | so is every bit of a text under a keystream |
| Keystreams.XorTwice | proof/aead_stubs.h:63-78 | any keystream undoes itself |
| Aead.ChachaXor | src/chacha20.c:95-119 | for any length and backward offset each old byte under its keystream byte, the counter wrapping at 2^32, and nothing else changes |
| Aead.OneTimeBytes | src/aead.c:34-39 | no two bytes of a record are under one byte of the block function, and none under block 0, which keys the tag, for every block the counter can name |
| Aead.MacInputInjective | src/aead.c:11-32 | the authenticated input determines the associated data and the ciphertext |
| Aead.Seal | src/aead.c:34-39 | ciphertext and tag of the old plaintext, in place or moved down |
| Aead.Open | src/aead.c:54-62 | accepts exactly the right tag, and otherwise changes no byte |
| Aead.SealThenOpen | proof/aead_overlap_harness.c:16-41 | sealing and opening in one buffer returns the plaintext at any backward offset; any other tag changes nothing |
| Gcm.IncrementCounter | src/gcm.c:136-143 | the carry through four bytes is one more modulo 2^32, and the nonce stays |
| Gcm.NextBlock | src/gcm.c:136-143 | each call yields the next sixteen bytes of the keystream and moves the counter one on |
| Gcm.CounterMode | src/gcm.c:247-268 | for any length and backward offset each old byte under its keystream byte, from the count after the first, and nothing else changes |
| Gcm.OneTimeBytes | src/gcm.c:247-268 | no two bytes of a record are under one byte of the block cipher, and none under count 1, which masks the tag, for every block the count can name |
| Gcm.Seal | src/gcm.c:293-330 | ciphertext and tag of the old plaintext, in place or moved down |
| Gcm.Open | src/gcm.c:337-386 | accepts exactly the right tag of the ciphertext it overwrites; a wrong one leaves zeros where the plaintext would be and every byte outside as it was |
| RecordLayer.NonceInjective | src/record.c:121-128 | under one key no two sequence numbers share a nonce |
| RecordLayer.NonceBits | src/record.c:121-128 | each bit of the nonce is that of the IV, and in the low eight bytes plus the bit of the sequence number modulo 2 |
| RecordLayer.SuiteCiphers | src/record.c:42-67 | both AEADs keep lengths, undo themselves and give 16-byte tags, which is all the record layer uses of them |
| RecordLayer.OpenShrinks | src/record.c:170-205 | opening leaves room for the type and the tag, as the handshake reader requires |
| RecordLayer.OpenSealed | src/record.c:130-205 | a sealed record opens to its type and content if and only if the content is at most 2^14 bytes and the type is not zero, with the exact result otherwise |
| RecordLayer.UnpadNeverZero | src/record.c:170-205 | no record opens to type zero |
| RecordLayer.Direction.NonceOf | src/record.c:121-128 | the loop computes the specified nonce |
| RecordLayer.Direction.BuildInner | src/record.c:130-168 | header, content and type are laid out, from the same buffer too |
| RecordLayer.Direction.Protect | src/record.c:42-51 | in-place encryption under either AEAD, the tag behind it, and nothing before the record |
| RecordLayer.Direction.SealBody | src/record.c:42-51 | each arm gives the keystream and the tag of its suite |
| RecordLayer.Direction.OpenBody | src/record.c:58-67 | each arm accepts exactly the tag of its suite, and what each leaves on a wrong one |
| RecordLayer.Direction.Seal | src/record.c:130-168 | exactly when it succeeds, with the record ceiling of AES-GCM; then the record, and the sequence number up by one; otherwise nothing changes |
| RecordLayer.Direction.Decrypt | src/record.c:58-67 | opens exactly an authentic record; a wrong tag leaves every byte under ChaCha20-Poly1305 and zeros for the plaintext under AES-GCM |
| RecordLayer.Direction.Open | src/record.c:170-205 | agrees with the specified opening on type, content and refusal; the sequence number moves at most one; what each AEAD leaves of a buffer it refuses |
| RecordLayer.Direction.Strip | src/record.c:170-205 | the padding loop finds the last nonzero byte |
| SealedStream.SealedCutCarries | fuzz/fuzz_handshake_post.c:79-96 | bodies sealed one by one under one key are records that all open and carry the bodies in order |
| SealedStream.AnySealedCut | fuzz/fuzz_handshake_post.c:79-96 | however a stream is cut into sealed records, the messages their reader finds are the stream's |
| SealedStream.SealedDelivery | src/handshake_record.c:78-148 | the same for records sealed one by one under either AEAD |
| PostHandshake.KeyUpdateIsLast | src/handshake_post.c:307-325 | a KeyUpdate is taken or refused at the limit only as the last message of an otherwise valid input |
| PostHandshake.ScanOfTickets | src/handshake_post.c:341-367 | valid tickets are all used with an unfinished message behind them left, and a KeyUpdate behind them is taken below the limit and refused at it |
| PostHandshake.ScanOnlyTickets | src/handshake_post.c:341-367 | and no other input is used, taken or refused so: every input splits into tickets and what tells its outcome |
| PostHandshake.RunDecidesOnlyTheLimit | src/handshake_post.c:307-325 | the run changes no outcome but that one |
| PostHandshake.ScanResumes | src/handshake_post.c:399-441 | messages cut across records come out as they would in one piece |
| Receiving.FragmentCount | src/handshake_post.c:399-441 | a run reads at most its empty fragments and as many more as it brings bytes |
| Receiving.OpenFragment | src/handshake_post.c:377-397 | takes exactly the handshake records that fit behind what is there, and the code and alert of every other |
| Receiving.DrainRun | src/handshake_post.c:399-441 | stops at the first place where the bytes read, scanned in one piece, end in no cut message, where the quiet cap is reached or where no fragment comes that fits; its end is exactly what is found there, with at most one rekey |
| Receiving.OneStop | src/handshake_post.c:399-441 | the place where a run stops is unique, so its end is a function of the records |
| Receiving.DrainedIff | src/handshake_post.c:399-441 | a run succeeds if and only if the bytes read are whole messages or end with a KeyUpdate taken |
| Connected.Session.HandlePostHandshake | src/handshake_post.c:341-367 | for every input: the specified outcome, at most one rekey, the write direction untouched and the run within its limit |
| Connected.Session.SealRecord | src/record.c:130-168 | a key's sequence numbers stay below its limits and rise by one |
| Connected.Session.Fail | src/session.c:55-64 | exactly one alert, unless the peer sent one or no number is left, and nothing after it |
| Connected.Session.SendKeyUpdate | src/handshake_post.c:254-265 | one record under the old key, then the next key from sequence number zero; it succeeds if and only if the epoch cap, the numbers and the transport's answer allow it |
| Connected.Session.KeyUpdateBeforeRecord | src/tls_write.c:96-109 | the next data record always has a number left; a KeyUpdate goes out exactly when none is or an answer is owed, and the call succeeds exactly when that one does |
| Connected.Session.SendData | src/tls_write.c:150-180 | a data record takes one number and its bytes; it succeeds if and only if a number is left and the transport takes it, and otherwise the session is over |
| Connected.SentIff | src/tls_write.c:150-180 | n records all go out if and only if every send they need is taken and the keys they need are within the epoch cap and their numbers |
| Connected.Session.NoReuse | src/tls_write.c:62-109 | over every run no key seals two records under one sequence number |
| Receiving.ReadAlert | src/tls.c:222-239 | close_notify closes one direction, user_canceled goes on, any other alert ends the session, and after a fatal one nothing is sent |
| Receiving.CloseEnds | src/tls.c:222-239 | a close_notify ends a wait at once, as no failure and with what follows it unread |
| Receiving.CanceledPasses | src/tls.c:222-239 | a wait ends behind a user_canceled as it would without it, one record later |
| Receiving.AlertFails | src/tls.c:222-239 | every other alert fails it at once |
| Receiving.UpdatesPass | src/tls.c:245-338 | up to 16 KeyUpdates in a run pass and the data behind them is read and ends the run, with one answer owed if any asked and this side may still answer; the 17th fails the session |
| Receiving.Dispatch | src/tls.c:245-291 | exactly which records let a session go on, close the peer's direction or end it; the read key moves at most once, an alert goes out exactly when it ends without one from the peer, and only application data arrives |
| Receiving.AwaitData | src/tls.c:297-338 | the wait ends as the first record that does not merely pass says, under the cap, after exactly the records up to it; what arrived is their data |
| Receiving.Read | src/tls.c:297-338 | bytes, records read, end of the session and what the next read sees are all determined by the records; the bytes follow those read before |
| Receiving.ReadIff | src/tls.c:297-338 | a read returns bytes if and only if data waits or comes in a record before the last under the cap, with only passing records before it |
| Receiving.LateData | src/tls.c:315-338 | 31 empty records and then data: the session ends and the data is not returned |
| Receiving.Close | src/tls.c:340-348 | exactly one alert when a number is left, and the session is over |
| Writable.WireStep | src/tls_write.c:150-180 | one record of a write, with the KeyUpdate before it when due |
| Writable.FillIsExact | src/tls_write.c:204-215 | what one division returns fits the cap, and not a byte more does |
| Writable.WireIsPlain | src/tls_write.c:217-240 | the wire's length in closed form while one KeyUpdate is enough |
| Writable.BehindIsExact | src/tls_write.c:231-240 | the most that fits behind the KeyUpdate and that one key seals |
| Writable.FillNeverWraps | src/tls_write.c:201-215 | in a size_t of at least 15 bits no sum or product of the division wraps |
| Writable.AcrossNeverWraps | src/tls_write.c:217-240 | nor does one of the length across a KeyUpdate |
| Writable.WritableIsExact | src/tls_write.c:246-258 | tls_writable_len is exact: its answer fits the cap, KeyUpdate and all, and not a byte more does |
| Writable.WritableNeverWraps | src/tls_write.c:201-258 | tls_writable_len in a size_t of any such width is the exact answer for every cap it holds |
| Writing.ChunksCover | src/tls_write.c:150-180 | the records are the bytes in order, none empty, all full but the last |
| Writing.SkipEmpty | src/tls_write.c:122-127 | skipping empty parts passes over no byte |
| Writing.CopyRecord | src/tls_write.c:133-143 | a record takes the next bytes across parts, as many as fit |
| Writing.WriteRecord | src/tls_write.c:150-180 | one record keeps bytes sent plus bytes to send what they were, and succeeds exactly when the transport's answers and the limits allow |
| Writing.WriteParts | src/tls_write.c:150-180 | succeeds if and only if the session is connected, every send is taken and no limit is reached; then the parts went out as the records of one stream in exactly the bytes counted for them, and a failed write stopped inside that stream |
| Writing.WritesWithinCap | src/tls_write.c:246-258 | writing what tls_writable_len returned sends at most cap bytes |
| Sessions.OneCall | src/tls.c:297-348 | a call's reply, the end of the session and the state behind it are what the records, the parts and the transport's answers determine, and what arrived is the data of exactly the records it read |
| Sessions.Life | src/tls.c:245-348 | over every sequence of reads, writes and closes: every reply is determined by the records, the parts and the transport's answers, and idle behind the call that ends the session; the data that came is that of exactly the records read, and the bytes read are the front of it; no key seals two records under one number; the read key has moved at most RUN_MAX times for each record of data and RUN_MAX more |
| Epoch.ReadWhole | examples/ca_client.c:259-296 | what was written whole is read back |
| Epoch.NumberOfCut | examples/ca_client.c:259-277 | a prefix of the digits spells the value without its last digits |
| Epoch.ReadTorn | examples/ca_client.c:259-296 | what every cut of a write reads as |
| Epoch.TornNeverFallsIff | examples/ca_client.c:288-296 | no cut of a write lowers the epoch if and only if the new value's first digit is not below the old value |
| Epoch.TornFalls | examples/ca_client.c:288-296 | 101 cut after a digit reads 1 |
| Epoch.Device.constructor | docs/ca.md:416-418 | a provisioned device reads its epoch |
| Epoch.Device.Store | examples/ca_client.c:288-296 | for every fate of a write the slot holds exactly the characters that reached it, and zero is answered if and only if the file opened and closed and the power lasted |
| Epoch.WrittenIff | examples/ca_client.c:288-296 | a write is read back as its epoch if and only if all its digits reached the file |
| Epoch.ReportedShort | examples/ca_client.c:288-296 | a store reported as done that leaves 1 where 100 was and 101 was written |
| Epoch.Device.Connect | src/tls.c:33-78 | the stored epoch is loaded, and exactly the tickets below it or out of range are refused |
| Epoch.Device.Commit | src/handshake_auth.c:261-275 | a higher epoch of a certificate is taken and written as the fate says, with the failure flag its report; any other changes nothing |
| Epoch.Device.Handshake | src/handshake.c:145-185 | accepted if and only if checked, proved and finished, and then the commit; a peer that fails any of them moves nothing stored |
| Epoch.Device.Retry | examples/ca_client.c:328-340 | retries exactly a failed store, up to the first attempt reported or the power's end; slot and result are what the fates determine |
| Epoch.AttemptsAre | examples/ca_client.c:328-340 | of the attempts made the last that opened the file decides what it holds, and the report is that of the last |
| Epoch.EpochMoves | src/handshake_auth.c:261-275 | a peer that moves a device, and one attempt that is whole and reported before the power goes: the device reads the new epoch |
| Epoch.Life | examples/ca_client.c:225-240 | over every run of sessions the slot is what peers and fates determine, and the epoch read never falls, unless a write was cut inside its digits |
| Epoch.RunReads | examples/ca_client.c:225-240 | where no write is cut inside its digits the device reads, over every run, exactly the last epoch that an accepted peer moved it to and that reached the file |
| Epoch.TwoSlotsNeverFall | docs/ca.md:422-428 | over every run of cut and whole stores two checksummed slots always load, never lower, and at least the last whole store |
| Trace.FoldIsOutermost | bench/handshake_stages.py:227-237 | labels passed down frame by frame find the outermost root and the outermost part under it |
| Trace.FoldLaws | bench/handshake_stages.py:227-237 | a stage once set stays, and a part is set only under the signature |
| Trace.InStack | bench/handshake_stages.py:246-257 | a return address is counted exactly when a frame on the stack returns there |
| Trace.AlongTheStack | bench/handshake_stages.py:210-237 | along the stack the stage is none up to one root and constant above it, and so is the part |
| Trace.Machine.Push | bench/handshake_stages.py:243-250 | the callee of a pending call takes a frame with its labels |
| Trace.Machine.Pop | bench/handshake_stages.py:251-257 | a return pops to the innermost matching frame, which the count guarantees |
| Trace.Machine.TailCall | bench/handshake_stages.py:258-262 | a root reached by a branch takes its caller's frame |
| Trace.Machine.Follow | bench/handshake_stages.py:243-262 | the stack pass follows the calls, returns and tail calls of the stream, and leaves the stack alone at any other instruction |
| Trace.Machine.Count | bench/handshake_stages.py:267 | the instruction counts at the place of all the names it runs under |
| Trace.Machine.Step | bench/handshake_stages.py:239-278 | one instruction counts once, or closes the window |
| Trace.Machine.All | bench/handshake_stages.py:239-278 | a whole run attributes every instruction before the close marker as the reference run does |
| Trace.StaysClosed | bench/handshake_stages.py:265-266 | nothing after the close marker counts |
| Trace.SumWhere | bench/handshake_stages.py:278-286 | a sum over the counters is a count of the instructions |
| Trace.PartsUnderSign | bench/handshake_stages.py:227-237 | in every run a counted part is under the signature stage |
| Trace.StagesAddUp | bench/handshake_stages.py:129-143 | the stages and the messages make the handshake, and the windows the run |
| Trace.PartsAddUp | bench/handshake_stages.py:129-143 | the parts and the rest make the signature |
| Trace.CountsAll | bench/handshake_stages.py:239-278 | exactly the instructions before the first close marker count |
| Trace.Finish | bench/handshake_stages.py:129-143 | every row is the count of the instructions it names, the rests included, so none is negative, and the rows add up |
| Trace.Stages | bench/handshake_stages.py:129-286 | for every image and stream the rows of a whole run add up to the instructions before the close marker |
| CallTrees.FollowsIs | bench/handshake_stages.py:243-262 | a call opens one call, a return closes exactly that one, a branch to a root adds its name to the last, and any other instruction changes none |
| CallTrees.Attribution | bench/handshake_stages.py:207-278 | an activation and all it calls leave the open calls as they were, and each of its instructions is logged under its own callers |
| CallTrees.EachUnderItsCalls | bench/handshake_stages.py:207-278 | for every run given as nested calls, without a stack, each instruction is attributed to the names it runs under, from the outermost call in |
| CallTrees.WindowIs | bench/handshake_stages.py:263-266 | the window of an instruction is the exchange exactly from the handshake's marker on |
| CallTrees.LogGrows | bench/handshake_stages.py:239-278 | instructions that come later change nothing that was counted |
| CallGraph.DeepestOf | bench/stack.py:333-342 | the recursion with its loop terminates on every graph and computes the specified depth and path |
| CallGraph.Dominates | bench/stack.py:333-342 | on every graph the depth is at least the weight of every path without repetition, with a call back or without |
| CallGraph.Attained | bench/stack.py:333-342 | on every graph the returned path, with at most one call back, weighs exactly the depth |
| CallGraph.DeepestIsLongest | bench/stack.py:333-342 | on a graph without a cycle the returned path is a heaviest of all call paths and weighs the depth |
| CallGraph.GuardCounts | bench/stack.py:334-335 | with a cycle the depth can exceed every path that repeats no function |
| CallGraph.Uncounted | bench/stack.py:345-359 | exactly the functions without a frame that a function reached from the entries calls |
| CallGraph.Prune | bench/stack.py:369-382 | stops exactly on an unknown or repeated name, and otherwise removes exactly the names |
| CallGraph.PrunedPaths | bench/stack.py:369-382 | the paths left are those that avoid the names, at their old weight |
| CallGraph.PruningShortens | bench/stack.py:369-382 | pruning never deepens a walk |
| CallGraph.Merge | bench/stack.py:299-310 | an edge for each call but a direct one to itself, with the most bytes any of its calls pushes |
| Coverage.Seen.Includes | proof/coverage.py:161-174 | one call with the shared set marks and finds exactly what was not marked before |
| Coverage.HarnessIncludes | proof/coverage.py:161-174 | exactly the sources of the harnesses the file leads to, with cycles and shared children |
| Coverage.ShardPart | proof/coverage.py:250-257 | the slice holds the names at the places of its shard, in order |
| Coverage.PartsPartition | proof/coverage.py:250-257 | the n parts together hold each name exactly as often as the list |
| Coverage.PartOfPlace | proof/coverage.py:250-257 | in a list without repetition a name's part is its place's and no other |
| Coverage.NeighboursApart | proof/coverage.py:250-257 | two neighbours in the list never share a part, once there are two parts |
| Coverage.ReadParts | proof/coverage.py:906-928 | stops exactly on a report that is no part, a shard out of range or a shard read before; otherwise the rows of each shard are those of the file that names it |
| Coverage.Merging.ShardRows | proof/coverage.py:931-952 | one row for each of the shard's harnesses, and a problem exactly when the part is missing or holds another set |
| Coverage.IncreasingUnique | proof/coverage.py:983-988 | sorted lists of the same names are the same list |
| Coverage.MergeReports | proof/coverage.py:955-995 | when it stops; otherwise one row for each harness in name order from its own shard, and 0 exactly when every shard reported exactly its own harnesses |
| Coverage.MergedIsUnsharded | proof/coverage.py:955-995 | when every shard reported, the table is the unsharded run's |

## Left out

- Byte marshalling of field elements and scalars, point decoding and the on-curve check: each is a short loop or one
  equation.
- The point addition formulas: the group is a parameter, and the incomplete addition is assumed right wherever its
  operands are neither infinite, equal nor opposite.
- Primality of p and n: `Fermat.InversePower` and `Field.PowerIsInverse` take it as a hypothesis.
- The literal entries of the generator's window table: the model uses their documented definition.
- The ChaCha20 block, Poly1305, the AES block, GHASH and the hash functions: parameters with the lengths of their results.
- The AES-GCM paths of the vector and AES instructions (src/gcm.c:145-234): kernels of other files with one result.
- Digits.WindowDigit: window widths up to 64 bits, since the sign mask has 64.
- Eta.FromStream: streams of at most 4096 half-bytes, since an entry has twelve bits for the count.
- ScalarMul.DigitMultiple: indexes the row, since its entries are group elements; `Selects.RowSelect` proves the masked
  scan over their words equal to that index.
- ScalarMul.WindowMul: the point's order is at least 2^(w (windows - 1)), which the order of P-256 meets for both shapes.
- The feeding form of the handshake reader (src/handshake_record.c:153-219), QUIC and the server's handshake order.
- Parsing of tickets, certificates and handshake messages: a ticket's validity is a parameter.
- Handshake.Session.SetReadKey: the key itself is a function that opens records; its derivation is not modelled.
- Receiving.DrainRun: the window is a value and not the front of the session's buffer, and records come opened or refused,
  as `RecordLayer.Direction.Open` decides; a list of records that ends is a transport that fails.
- Receiving.Read: the blocking transport; CH_TRANSPORT_TCP_NONBLOCKING's return in the middle of a record is left out.
- Connected.Session.SealRecord: keys are numbers in their order of use, and the ciphertext is that of `RecordLayer`.
- Epoch.ReadTorn: `strtoul` on blanks, signs and lines over 15 characters, none of which the program writes.
- Epoch.Life: the fall after a write cut inside its digits is the finding above; the run theorem excludes it.
- Trace.Machine.All: the per-address report, the C library rows and `memset` counts, and the lookup of a name by address,
  which is a parameter.
- The reading of objdump, nm and report text in the three tools: the models start from the parsed data.
- CallGraph.Merge: which pointer a function loaded last is part of the listing's reading, so a call through a pointer
  comes with its target.
- CallGraph.DeepestOf: the order of a function's callees is a parameter, on which the depth does not depend
  (`CallGraph.Dominates` and `CallGraph.Attained` hold for every order).
- Coverage.MergeReports: the text above the table, the status lines and the list of dead harnesses.
- Constant-time behaviour, wiping of secrets and memory validity of the C code.
