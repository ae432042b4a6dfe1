# Verified models of the CocoonFS crypto and utility core

The project models the parts of the repository whose correctness is hard to see
from the code, and proves what they are for.

* **RSA and scalars.** Decryption with the Chinese remainder theorem and Garner's
  recombination in one recycled buffer, key loading from one prime, the
  RSAES-PKCS1-v1_5 codec with its rejection sampling, oversampled scalars, and EC
  Schnorr signatures (`NumberTheory`, `Cmpa`, `RsaCrt`, `RsaKeyLoading`, `RsaKeys`,
  `Pkcs1Padding`, `RandomScalar`, `Schnorr`).
* **In-place algorithms.** Applying and inverting a permutation along its cycles
  with a mark bit, and the log-step "expand" network on words of any power-of-two
  width (`IndexPermutation`, `BitExpand`).
* **Scatter-gather streaming.** The slice iterators, copying, xoring and comparing
  over them, block cipher modes, block KDFs, the Hash_DRBG and its reseeding wrapper:
  each equals a flat specification for every slicing (`IoSlices`, `BuffersSlice`,
  `SliceAccess`, `SliceMemory`, `IoSliceOps`, `Layouts`, `TakeExact`, `SymCipher`,
  `SymCipherInPlace`, `Kdf`, `KdfPieces`, `KdfBuffered`, `KdfOnce`, `KdfBlocks`, `Hashing`,
  `HashDrbg`, `DrbgGenerate`, `DrbgByReference`, `ChainedRng`).
* **The test executor.** A single-threaded round-robin scheduler as a step machine
  over everything a polled future may do (`TaskQueue`, `ExecutorState`,
  `ExecutorWaiters`, `Executor`).

`Arith`, `Bytes` and `Results` hold shared facts, byte strings as numbers, and
results with the error codes.

## How things are modelled

* A `cmpa` buffer is a natural number with a byte width (`Cmpa.Mp`); operations that
  truncate in the original truncate modulo 256^width. Limbs have 64 bits, and so has
  `usize`.
* Hash, HMAC and block transform are functions of which only the output length is
  known; the transform has a state. A curve is an abstract cyclic group of prime
  order, given by its operations and their laws. Primality of p and q is assumed only
  where a theorem says so.
* A random number generator is a function from the index of a call to what it
  delivers, or a failure.
* The traits of `io_slices.rs` are a record of operations (`SliceAccess.Access`) with
  the promises its consumers rely on (`IsAccess`); the iterators are shown to keep
  them, and references to them too. A source slice is a byte string, a destination
  slice is a sequence of addresses into a memory array, and `Put(m, a, x, k)` is the
  memory with the first `k` bytes of `x` written to the first `k` addresses of `a` and nothing else changed.
* What a polled future does is a script of spawns, wakes, and drops, polls and takes
  of waiters, so that every statement about runs is one about all scripts. What
  dropping a removed task's future does appears as the actions after it.
* Debug assertions of the original are assertions of the model where they hold. For the
  one that does not always hold the method returns whether it did, and goes on as a
  release build does; in a debug build the call ends there.
* A word of `expand_from_right` is the set of positions of its set bits.

## Where the code does something one might not expect

* `fill_padding_with_nonzero_random_bytes` does not stop at a fill without zeros: it
  always goes on until 16 rounds in a row brought nothing, so that a success takes
  at least 16 calls of the generator (`Pkcs1Padding.FillPadding`).
* Through a mutable reference, `is_empty` is the trait's default, which takes a chain
  whose first iterator is exhausted for empty. It is right exactly if the leading
  iterator has something left or nothing is left at all (`SliceAccess.ByRefIsRight`,
  with `ReferenceHidesBytes` for an input where it is wrong). What this does to its
  users depends on where they ask:
  * `generate` of the Hash_DRBG asks after each request. It stops before the end, and
    this passes for success, exactly where a request ends with a digest that is the last
    piece of an iterator of the chain, all in one slice, or where the first iterator has
    nothing on entry (`DrbgByReference.FillThroughReference` for every destination,
    `FillsTwo` for two slices: exactly if the second one is not empty and the first one
    is a multiple of the largest request). The reseeding wrapper stops at the same place.
  * `copy_from_iter_exhaustive` succeeds with bytes left in the source exactly if the
    destination ends where an iterator of the source's chain does
    (`Layouts.CopyThroughReference`, with `LeavesByteBehind` for an input).
  * `generate` of the Hash_DRBG asks the additional input as well. Behind a reference it
    uses all of it exactly if the leading iterator has something or there is none at all,
    and otherwise serves the request as if there were none
    (`DrbgGenerate.ExtraThroughReference`, with `InputIgnored` for an input).
  * The xoring KDFs ask right after a take of no length, where it is always right; they
    are complete also through a reference (`Kdf.GenerateAndXorChunkImpl`).
* `generate_chunk_impl` asserts in debug builds that a partial block goes to a slice with
  nothing behind it. Let the KDF have n bytes left, with a last block of p > 0 bytes that
  is not generated yet. The assertion fails exactly if the request gets some of that block
  and the part of the destination from byte n - p on is in more than one slice; behind a
  reference, exactly if the slice there is not the last one of an iterator of the chain
  (`Kdf.GenerateChunkImpl` with `KdfPieces.EndsDirectly` and `EndsThroughReference`;
  `KdfBuffered.BufferedKdf.Serve` for a series of requests, of which at most one can fail).
  `KdfOnce.KeyInTwoSlices` shows it for KDFa: 80 bits in slices of 4 and 6 bytes with
  digests of 32 bytes, or 320 bits in slices of 8 and 32 bytes with digests of 64, the
  slices `gen_random_scalar` draws into (crypto/src/ecc/gen_random_scalar.rs:46-51). In a
  release build these requests get their bytes like all others. The assertion of the xoring
  variant compares the total length and always holds.
* `take_exact` promises that too little below it is reported during iteration. Taking
  slices does so, but `for_each` never does, and `total_len` then is more than what
  `for_each` visits (`TakeExact.ForEach`).
* `compute_q` fails with an internal error if the quotient does not fit the buffer
  sized for a p without leading zero bytes; without them it always fits
  (`RsaKeyLoading.QuotientFits`, with `QuotientTooWide` for an input where it does not).
* The counter of MGF1 wraps after block 2^32 - 1, and the object then promises its
  whole length again although it is used up. This happens to a new object exactly if
  its total length is above 2^32 - 1 blocks (`KdfBlocks.Rfc8017Mgf1.UseUp`,
  `KdfBlocks.WrapsAbove`).
* `transform_next_blocks` slices out of range exactly if partial blocks are allowed and
  the source has less than a block and less than the first piece of the destination
  (`SymCipher.TransformNextBlocks`, with `OneByteForTwo` for an input); its callers
  compare the lengths first.

## Model

| member | source | states |
|---|---|---|
| `RsaCrt.Decrypt` | crypto/src/rsa/crt.rs:438-536 | for every usable key and every ciphertext the result is the number below p*q congruent to y^dP mod p and y^dQ mod q, with no truncation in the recycled buffers |
| `RsaCrt.Garner` | crypto/src/rsa/crt.rs:505-533 | the recombination of any x_p < p and x_q < q lies below p*q and has these remainders, in every sign case |
| `RsaCrt.GarnerRecombines` | crypto/src/rsa/crt.rs:505-533 | Garner's formula recombines whatever representative of the difference modulo q it starts from, q itself included |
| `RsaCrt.Difference` | crypto/src/rsa/crt.rs:505-517 | the branch-free computation of x_q - x_p gives the signed difference reduced modulo q |
| `RsaCrt.ScratchWidths` | crypto/src/rsa/crt.rs:444-454 | max(p_len, q_len) + q_len bytes hold every intermediate product |
| `RsaCrt.ExpReduced` | crypto/src/rsa/crt.rs:456-503 | reducing modulo one prime and exponentiating there gives the power of the ciphertext modulo that prime |
| `RsaKeyLoading.NewFromP` | crypto/src/rsa/crt.rs:100-130 | succeeds exactly for loadable inputs, then with p*q = n, e*d_p = 1 mod p-1, e*d_q = 1 mod q-1 and p*p_inv = 1 mod q; which errors bad exponents and even numbers give |
| `RsaKeyLoading.NewFromPQ` | crypto/src/rsa/crt.rs:162-200 | the same for two given factors; both factors are left as they were on every exit |
| `RsaKeyLoading.ComputeQ` | crypto/src/rsa/crt.rs:224-278 | the other factor, exactly if p divides n and the quotient fits its buffer, and which error each failure gives |
| `RsaKeyLoading.QuotientFits` | crypto/src/rsa/crt.rs:246-248 | a factor without leading zero bytes leaves a quotient that fits |
| `RsaKeyLoading.QuotientTooWide` | crypto/src/rsa/crt.rs:246-248 | a factor with leading zero bytes whose quotient does not |
| `RsaKeyLoading.ComputeDP` | crypto/src/rsa/crt.rs:303-365 | the inverse of e modulo p-1 exactly if there is one; clearing bit 0 of p is undone on every exit |
| `RsaKeyLoading.ReduceAndInvert` | crypto/src/rsa/crt.rs:387-417 | the inverse after reduction is the inverse, and exists exactly if it does |
| `RsaKeys.Encrypt` | crypto/src/rsa/encrypt.rs:32-74 | RSAEP with its range and length checks |
| `RsaKeys.DecryptUndoesEncrypt` | crypto/src/rsa/crt.rs:438-536 | for primes p and q and a key that inverts e, decrypting x^e mod n gives back every x < n, multiples of p or q included |
| `RsaKeys.EncryptUndoesDecrypt` | crypto/src/rsa/encrypt.rs:32-74 | the converse for every number below the modulus |
| `RsaKeys.DecryptKey` | crypto/src/rsa/key.rs:331-345 | succeeds exactly for a value below the modulus in a buffer that is wide enough and a key with a private part |
| `RsaKeys.PublicKeyFrom` | crypto/src/rsa/key.rs:124-144 | accepts exactly valid exponents and moduli with the topmost bit set |
| `RsaKeys.TopBit` | crypto/src/rsa/key.rs:135-138 | the bit-length test fails exactly if the topmost bit is clear |
| `RsaKeys.KeyFrom` | crypto/src/rsa/key.rs:382-405 | both parts of an accepted key belong together |
| `RsaKeys.AssembleModulus` | crypto/src/rsa/key.rs:241-290 | the modulus is the untruncated product of the primes |
| `Pkcs1Padding.FillPadding` | crypto/src/rsa/es_pkcs1_v1_5.rs:19-63 | terminates for every generator; on success no padding byte is zero and all come from the generator; nothing else is written; unless the generator fails it makes at least 16 calls and succeeds exactly if the last one delivers no zero; a generator that never fails and never delivers a zero succeeds with 16 calls |
| `Pkcs1Padding.Round` | crypto/src/rsa/es_pkcs1_v1_5.rs:29-52 | after each round the unfinished bytes are all zero or all non-zero |
| `Pkcs1Padding.EncodedEnds` | crypto/src/rsa/es_pkcs1_v1_5.rs:88-127 | every encoding has its padding end right before the message |
| `Pkcs1Padding.EndsMeansEncoded` | crypto/src/rsa/es_pkcs1_v1_5.rs:129-187 | whatever decodes is 00 02 PS 00 M with at least eight non-zero bytes PS |
| `Pkcs1Padding.Decode` | crypto/src/rsa/es_pkcs1_v1_5.rs:145-187 | decoding succeeds exactly on such blocks and returns the message |
| `RsaKeys.EsEncrypt` | crypto/src/rsa/es_pkcs1_v1_5.rs:88-127 | the ciphertext is the RSA image of a correctly padded message; too long messages and generator failures are the only errors of a proper key; it succeeds if the generator never fails and never delivers a zero, and gives up only for a zero in its sixteenth call or later |
| `RsaKeys.EsDecrypt` | crypto/src/rsa/es_pkcs1_v1_5.rs:129-187 | succeeds exactly if the decrypted block is an encoding, with its message; the errors for a wrong length, a number not below the modulus and a key without private part |
| `RsaKeys.EncodedBelowModulus` | crypto/src/rsa/es_pkcs1_v1_5.rs:88-127 | an encoded block is below every modulus with its top bit set |
| `RsaKeys.EsRoundTrip` | crypto/src/rsa/es_pkcs1_v1_5.rs:88-187 | for primes p and q, decrypting an encryption returns the message, whatever padding was drawn; every message that fits makes the round trip if the generator never fails and never delivers a zero |
| `RandomScalar.GenRandomScalar` | crypto/src/ecc/gen_random_scalar.rs:27-84 | the result is 1 + (drawn bits mod (order - 1)), in [1, order - 1], for every order from 3 on |
| `RandomScalar.ShiftAcross` | crypto/src/ecc/gen_random_scalar.rs:50-75 | the split shift is one right shift of the combined number |
| `RandomScalar.DrawnBits` | crypto/src/ecc/gen_random_scalar.rs:27-60 | 64 bits more than the order has are reduced |
| `Schnorr.Sign` | crypto/src/ecc/ecschnorr.rs:37-169 | whatever is returned is a valid signature; with a generator that is not the identity, the retries are exceeded exactly if each of 16 draws gives a challenge or a signature of zero |
| `Schnorr.SignWith` | crypto/src/ecc/ecschnorr.rs:78-165 | an attempt is repeated for a challenge or a signature of zero, and for no other reason unless the generator is the identity |
| `Schnorr.NeverIdentity` | crypto/src/ecc/ecschnorr.rs:85-92 | no scalar below the prime order takes the generator to the identity, so that this retry does not happen |
| `Schnorr.Verify` | crypto/src/ecc/ecschnorr.rs:179-247 | accepts exactly the valid signatures: s in range, a commitment e other than the identity with e + r*Q = s*G, and r the hash of the x coordinate of e followed by the digest, cut to the width of the order |
| `Schnorr.ChallengeBinds` | crypto/src/ecc/ecschnorr.rs:97-112 | with a hash without collisions that is not cut, one challenge belongs to one x coordinate and one digest |
| `Schnorr.SignThenVerify` | crypto/src/ecc/ecschnorr.rs:37-247 | every signature is accepted for the matching public key |
| `Schnorr.SignatureEquation` | crypto/src/ecc/ecschnorr.rs:119-160 | k*G + r*Q = s*G through all reductions |
| `Schnorr.CommitmentIsDifference` | crypto/src/ecc/ecschnorr.rs:205-240 | the point verification computes is the only one that completes r*Q to s*G |
| `Schnorr.MontgomeryProduct` | crypto/src/ecc/ecschnorr.rs:119-150 | the product modulo the order through Montgomery form |
| `IndexPermutation.ApplyAndInvertIndexPerm` | utils-common/src/index_permutation.rs:21-73 | the data is permuted, the permutation replaced by its inverse, no mark survives |
| `IndexPermutation.ApplyIndexPerm` | utils-common/src/index_permutation.rs:91-142 | the data is permuted, the permutation as before |
| `IndexPermutation.ApplyAndInvertTwice` | utils-common/src/index_permutation.rs:21-73 | running it twice restores both arrays |
| `IndexPermutation.WalkOneCycle` | utils-common/src/index_permutation.rs:43-63 | a cycle closes, with fewer unhandled entries than before |
| `IndexPermutation.ImageOfHandled` | utils-common/src/index_permutation.rs:56 | where a cycle closes, the entry of the second position leads back to the first one when inverting, and is handled otherwise |
| `IndexPermutation.RestIsFixed` | utils-common/src/index_permutation.rs:65-67 | in the end every entry is handled or a fixed point |
| `IndexPermutation.NextIsUnhandled` | utils-common/src/index_permutation.rs:43-63 | a cycle never runs into one handled before |
| `IndexPermutation.PermuteInverseCancels` | utils-common/src/index_permutation.rs:21-73 | permuting with the inverse undoes permuting |
| `BitExpand.ExpandFromRight` | utils-common/src/bitmanip.rs:104-132 | on every power-of-two width, bit j goes to the j-th set mask position from the right and all others are cleared |
| `BitExpand.ExpandFromLeft` | utils-common/src/bitmanip.rs:134-162 | the mirror image of it |
| `BitExpand.MovesRight` | utils-common/src/bitmanip.rs:104-120 | each round moves a mask bit by one binary digit of the zeros to its right |
| `BitExpand.MoveIsDigit` | utils-common/src/bitmanip.rs:108-120 | the parity mask at a moved position is that digit |
| `BitExpand.CarriesStep` | utils-common/src/bitmanip.rs:122-130 | undoing a move carries the value's bits one digit back up |
| `BitExpand.MirrorSpec` | utils-common/src/bitmanip.rs:134-162 | expanding from the left is expanding from the right in a mirror |
| `BitExpand.GatherExpanded` | utils-common/src/bitmanip.rs:104-132 | gathering under the same mask undoes expanding |
| `IoSlices.NextSlice` | utils-common/src/io_slices.rs:1004-1025 | a take from the front splits what is left in two, and yields nothing exactly if nothing is left |
| `IoSlices.NextSliceLength` | utils-common/src/io_slices.rs:2360-2405 | a slice is no longer than asked for and no shorter than reported; a chain that reports nothing gives up one of its iterators |
| `IoSlices.NextBackSlice` | utils-common/src/io_slices.rs:1027-1065 | the same from the back |
| `IoSlices.NothingLost` | utils-common/src/io_slices.rs:1004-1065 | under any interleaving of takes from both ends the pieces and the rest make up the original |
| `IoSlices.WalkIsDrain` | utils-common/src/io_slices.rs:1067-1083 | a walk visits exactly the slices that taking them yields, which make up the view |
| `IoSlices.TakeCutsWalk` | utils-common/src/io_slices.rs:2384-2405 | a take cuts its piece off the first slice of the walk and leaves the others |
| `IoSlices.RefillIsInvisible` | utils-common/src/io_slices.rs:972-1002 | refilling the head for its length changes nothing that follows |
| `IoSlices.TotalLen` | utils-common/src/io_slices.rs:527-534 | the sum over a walk is what is left |
| `BuffersSlice.BuffersSliceIter.TakeFront` | utils-common/src/io_slices.rs:972-1025 | the loops over `buffers_slice`, `head` and `tail` do what `NextSlice` says |
| `BuffersSlice.BuffersSliceIter.TakeBack` | utils-common/src/io_slices.rs:1027-1065 | and `NextBackSlice` |
| `BuffersSlice.BuffersSliceIter.Serve` | utils-common/src/io_slices.rs:953-1065 | conservation for every series of requests on the object |
| `BuffersSlice.BuffersSliceIter.DecoupledBorrow` | utils-common/src/io_slices.rs:1085-1098 | an independent iterator over the same data |
| `SliceAccess.ItersKeepPromises` | utils-common/src/io_slices.rs:2353-2428 | buffers, singletons and chains keep the promises of the traits, and their `is_empty` is accurate |
| `SliceAccess.ByRefKeepsPromises` | utils-common/src/io_slices.rs:148-154 | references keep them too |
| `SliceAccess.ByRefIsRight` | utils-common/src/io_slices.rs:73-75 | the default `is_empty` is right exactly if the leading iterator has something left or nothing is |
| `SliceAccess.ReferenceHidesBytes` | utils-common/src/io_slices.rs:148-154 | an input where it is wrong |
| `SliceAccess.SettledIsRight` | utils-common/src/io_slices.rs:73-75 | it is right where a length is reported or nothing is left |
| `IoSlices.NextSettles` | utils-common/src/io_slices.rs:2384-2405 | after a take of no length, a length is reported if anything is left |
| `IoSliceOps.CopyFromIter` | utils-common/src/io_slices.rs:286-310 | terminates, copies as many bytes as both sides have in order and nothing else, and leaves both behind them |
| `IoSliceOps.CopyExhaustive` | utils-common/src/io_slices.rs:321-338 | succeeds for equal lengths, and for a longer source exactly if it passes for empty where the destination ends |
| `Layouts.CopyDirectly` | utils-common/src/io_slices.rs:321-338 | from a source that is not behind a reference: exactly for equal lengths |
| `Layouts.CopyThroughReference` | utils-common/src/io_slices.rs:321-338 | behind a reference: also if the destination ends where an iterator of the source's chain does; then the destination holds the front of the source |
| `Layouts.LeavesByteBehind` | utils-common/src/io_slices.rs:321-338 | a source of three bytes for a destination of two |
| `Layouts.TakesFollow` | utils-common/src/io_slices.rs:2360-2405 | reported lengths, slices and what is left follow from how a chain's iterators and their slices are laid out |
| `Layouts.ReportsNothing` | utils-common/src/io_slices.rs:2360-2366 | after a take a chain reports nothing exactly if this was the last piece of one of its iterators |
| `IoSliceOps.XorFromIter` | utils-common/src/io_slices.rs:352-375 | the same for xoring into non-overlapping slices |
| `SliceMemory.XorIs` | utils-common/src/io_slices.rs:372 | each bit of the exclusive or is set exactly if it is set in one of both bytes and not in the other |
| `IoSliceOps.XorFromIterTwice` | utils-common/src/io_slices.rs:352-375 | xoring the same source in twice restores the memory |
| `IoSliceOps.CtEqWithIter` | utils-common/src/io_slices.rs:216-241 | whether both yield the same bytes, however sliced |
| `IoSliceOps.Skip` | utils-common/src/io_slices.rs:194-206 | succeeds exactly if enough is left, and leaves the rest |
| `TakeExact.ExactStep` | utils-common/src/io_slices.rs:2214-2235 | a take of the take-exact adaptor covers the front of the iterator below and leaves the rest there; it reports exhausted buffers exactly if something remains to be taken and nothing is left |
| `TakeExact.EnoughStays` | utils-common/src/io_slices.rs:2214-2258 | with enough below it there is enough after every take, and no take fails |
| `TakeExact.ExactKeepsPromises` | utils-common/src/io_slices.rs:2196-2258 | with enough below it the adaptor keeps the promises of the traits, and its `is_empty` is right even over a reference |
| `TakeExact.ForEach` | utils-common/src/io_slices.rs:2260-2293 | the walk visits the front and never reports exhausted buffers; `total_len` agrees with it exactly if there is enough |
| `SymCipher.TransformNextBlocks` | crypto/src/symcipher.rs:492-583 | for matching lengths every call makes progress along the flat transform by the batch, single-block or scratch path until nothing is left; exactly when it would slice out of range |
| `SymCipher.OneByteForTwo` | crypto/src/symcipher.rs:571-576 | an input where it would |
| `SymCipher.TransformMessage` | crypto/src/pure_rust/symcipher/mod.rs:255-301 | for every slicing of both sides the bytes written and the final state are those of the flat transform; which lengths are refused |
| `SymCipher.FlatFront` | crypto/src/symcipher.rs:507-530 | transforming a front of whole blocks first is the same |
| `SymCipher.FlatBlock` | crypto/src/symcipher.rs:507-530 | block by block: each block is transformed in the state the ones before lead to |
| `SymCipher.FlatUndone` | crypto/src/symcipher.rs:507-530 | a mode that undoes another one block by block undoes it on every message of whole blocks |
| `SymCipher.FirstBlock` | crypto/src/symcipher.rs:546-580 | a padded partial block gives the last bytes of the flat transform |
| `SymCipherInPlace.TransformNextBlocksInPlace` | crypto/src/symcipher.rs:585-653 | the same in place; it fails only for a partial block where none is allowed |
| `SymCipherInPlace.TransformMessageInPlace` | crypto/src/pure_rust/symcipher/mod.rs:303-350 | the same bytes and final state as from a separate source |
| `SymCipherInPlace.ReadingKeepsPromises` | crypto/src/symcipher.rs:628-636 | a decoupled borrow can be read like any source |
| `Kdf.GenerateChunkImpl` | crypto/src/kdf/mod.rs:146-199 | a request is refused exactly if it exceeds what is left, otherwise gets the next bytes, and those after it stay next; an empty buffer is never touched if slices are aligned; exactly when the assertion on partial blocks holds |
| `Kdf.GenerateAndXorChunkImpl` | crypto/src/kdf/mod.rs:224-261 | the same for xoring, also for destinations behind a reference |
| `Kdf.XorChunkTwice` | crypto/src/kdf/mod.rs:224-261 | a request xored in twice from the same state restores the memory |
| `Kdf.GenerateBuffered` | crypto/src/kdf/mod.rs:170-189 | a block by way of the buffer; the assertion fails exactly for the partial block if the destination does not pass for empty behind the slice |
| `Kdf.TailIs` | crypto/src/kdf/mod.rs:173-175 | the length of the partial block is what is left modulo the block length |
| `KdfPieces.EndsDirectly` | crypto/src/kdf/mod.rs:173-175 | the destination is empty behind that slice exactly if it is all that is left, in one slice |
| `KdfPieces.EndsThroughReference` | crypto/src/kdf/mod.rs:173-175 | behind a reference it passes for empty there exactly if the slice is the last one of an iterator of the chain |
| `KdfBuffered.BufferedKdf.GenerateChunk` | crypto/src/kdf/mod.rs:296-303 | the same with the buffer kept between requests |
| `KdfBuffered.BufferedKdf.GenerateAndXorChunk` | crypto/src/kdf/mod.rs:305-315 | and xored |
| `KdfBuffered.BufferedKdf.Serve` | crypto/src/kdf/mod.rs:289-315 | any series of mixed requests gets consecutive bytes of the stream; the assertion holds exactly if the request that crosses into the partial block, if any, has one piece there or is a xoring one |
| `KdfBuffered.CrossedOnce` | crypto/src/kdf/mod.rs:289-315 | at most one request of a series crosses into the partial block |
| `KdfBuffered.TellsDirectly` | crypto/src/kdf/mod.rs:296-303 | for the iterators themselves, one piece means one slice |
| `KdfBuffered.TellsThroughReference` | crypto/src/kdf/mod.rs:296-303 | for references, the last slice of an iterator of the chain |
| `KdfBuffered.UsedInOrder` | crypto/src/kdf/mod.rs:289-315 | conservation: what is left is what there was without the bytes of the accepted requests |
| `KdfBuffered.FilledIs` | crypto/src/kdf/mod.rs:296-315 | address by address, what a request leaves: the key bytes, or their exclusive or with what was there |
| `KdfBuffered.BufferedKdf.MaxRemainingLen` | crypto/src/kdf/mod.rs:290-294 | the length reported is what can still be requested |
| `KdfOnce.GenerateOnce` | crypto/src/kdf/tcg_tpm2_kdf_a.rs:182-200 | the one-shot request gets the front of the stream, without a buffer if all slices are multiples of a block; exactly for which layouts the assertion holds, directly and behind a reference |
| `KdfOnce.SplitsTail` | crypto/src/kdf/mod.rs:173-175 | for a key shorter than a block in two slices it does not, directly or behind a reference |
| `KdfOnce.KeyInTwoSlices` | crypto/src/kdf/mod.rs:146-199 | such a request to KDFa is served, and the assertion fails |
| `KdfOnce.MultiplesAlign` | crypto/src/kdf/tcg_tpm2_kdf_a.rs:187-194 | if all slices are multiples of a block, pieces of a block always are blocks |
| `KdfBlocks.KdfAIs` | crypto/src/kdf/tcg_tpm2_kdf_a.rs:128-174 | KDFa byte by byte: the HMAC of a string that has, at these positions, the block number in four bytes, the label, a separator unless the label is empty or ends in a zero, both contexts in order and the length in bits in four bytes; cut at the total length, the excess bits of the first byte cleared |
| `KdfBlocks.KdfEIs` | crypto/src/kdf/tcg_tpm2_kdf_e.rs:117-160 | KDFe byte by byte: the hash of block number, Z, usage, a zero byte and both party infos, laid out the same way |
| `KdfBlocks.LabelTerminator` | crypto/src/kdf/tcg_tpm2_kdf_a.rs:97-106 | a zero byte at the end of a label makes no difference |
| `KdfBlocks.KeyBits` | crypto/src/kdf/tcg_tpm2_kdf_a.rs:108-116 | a key of n bits, read as a number, is below 2^n |
| `KdfBlocks.CountingKdfOk` | crypto/src/kdf/tcg_tpm2_kdf_a.rs:87-174 | the remaining length goes down by what each block delivers |
| `KdfBlocks.TcgTpm2Kdf.GenerateBlock` | crypto/src/kdf/tcg_tpm2_kdf_a.rs:128-174 | the object does what the specification says; its hash instance is there exactly while something remains |
| `KdfBlocks.MaskIs` | crypto/src/kdf/mgf1.rs:54-90 | MGF1 byte by byte: the hash of the seed followed by the counter in four bytes |
| `KdfBlocks.Rfc8017Mgf1.GenerateBlock` | crypto/src/kdf/mgf1.rs:65-90 | the object does the same, and loses its invariant exactly when the counter wraps |
| `KdfBlocks.Rfc8017Mgf1.UseUp` | crypto/src/kdf/mgf1.rs:58-90 | all blocks of a new object are the mask, and nothing is promised afterwards exactly if the last counter is below 2^32 - 1 |
| `KdfBlocks.WrapsAbove` | crypto/src/kdf/mgf1.rs:38-40 | it is not exactly for a total length above 2^32 - 1 blocks |
| `KdfBlocks.CounterLast` | crypto/src/kdf/mgf1.rs:33-42 | the last counter covers the total length with less than a block to spare, or the request is too big |
| `HashDrbg.Hashgen` | crypto/src/rng/hash_drbg.rs:296-374 | fills the destination, up to the largest request, with the flat Hashgen for any slicing, and restores V modulo 2^(8*seedlen) |
| `HashDrbg.HashgenIs` | crypto/src/rng/hash_drbg.rs:333-365 | Hashgen byte by byte: the digests of V, V + 1 and so on modulo 2^(8*seedlen), as big-endian strings of the length of V |
| `HashDrbg.SubUndoesAdd` | crypto/src/rng/hash_drbg.rs:366-371 | subtracting the accumulated increments restores V even if it wrapped |
| `HashDrbg.HashDf` | crypto/src/rng/hash_drbg.rs:240-294 | Hash_df as the leftmost bytes of the digests, without overflow of its counter |
| `HashDrbg.HashDfIs` | crypto/src/rng/hash_drbg.rs:258-277 | Hash_df byte by byte: the digests of strings of the block number from one on in one byte, the length in bits in four bytes, and the input |
| `DrbgGenerate.Instantiate` | crypto/src/rng/hash_drbg.rs:66-111 | the state for the seed material, and exactly when it is refused |
| `DrbgGenerate.HashDrbgRng.Reseed` | crypto/src/rng/hash_drbg.rs:113-158 | the state for the old V, entropy and additional input |
| `DrbgGenerate.HashDrbgRng.Generate` | crypto/src/rng/hash_drbg.rs:160-222 | for any slicing the bytes are those of the flat algorithm over requests of the largest length, up to where a reseed is required or the destination passes for empty after a request, and the state is the one after these; additional input counts unless it passes for empty |
| `DrbgGenerate.HashDrbgRng.GenerateOne` | crypto/src/rng/hash_drbg.rs:173-218 | one request: its bytes and the next state, with additional input unless it passes for empty |
| `DrbgGenerate.MixedIs` | crypto/src/rng/hash_drbg.rs:178-194 | step 2: V plus the digest of a two, V and the additional input |
| `DrbgGenerate.RequestIs` | crypto/src/rng/hash_drbg.rs:196-218 | steps 3 to 6: every byte delivered, and V plus the digest of a three and V, C and the counter |
| `DrbgGenerate.RequestsAt` | crypto/src/rng/hash_drbg.rs:160-222 | of a long request, every part of the largest length is one request, with the additional input, in the state the ones before lead to |
| `DrbgGenerate.SeededIs` | crypto/src/rng/hash_drbg.rs:79-111 | V and C are Hash_df of the seed material and of a zero byte followed by V |
| `DrbgGenerate.ExtraDirectly` | crypto/src/rng/hash_drbg.rs:178-194 | additional input that is not behind a reference is used in full |
| `DrbgGenerate.ExtraThroughReference` | crypto/src/rng/hash_drbg.rs:178-194 | behind one, exactly if the leading iterator has something or there is none; otherwise none of it is |
| `DrbgGenerate.InputIgnored` | crypto/src/rng/hash_drbg.rs:179 | an additional input of one byte that is not used |
| `DrbgGenerate.FillPredicted` | crypto/src/rng/hash_drbg.rs:160-222 | it stops at the end of the first request after which the destination passes for empty |
| `DrbgByReference.FillThroughReference` | crypto/src/rng/hash_drbg.rs:160-222 | through a reference, for every destination, it stops at the first end of a request where the last digest is the last piece of an iterator of the chain, all in one slice |
| `DrbgByReference.StopsAfter` | crypto/src/rng/hash_drbg.rs:160-222 | a stop before the end is after whole requests |
| `DrbgByReference.StopsFirst` | crypto/src/rng/hash_drbg.rs:160-222 | and after the first ones where the destination passes for empty |
| `DrbgByReference.FillsTwo` | crypto/src/rng/hash_drbg.rs:160-222 | two slices are both filled exactly if the second is empty or the first is not a multiple of the largest request |
| `DrbgByReference.StopAt` | utils-common/src/io_slices.rs:148-154 | after a digest, a chain passes for empty exactly if the digest was such a piece |
| `DrbgGenerate.NothingThroughReference` | crypto/src/rng/hash_drbg.rs:170 | what an inaccurate `is_empty` does to it |
| `ChainedRng.ChainedHashDrbg.Generate` | crypto/src/rng/chained.rs:40-69 | terminates, goes on at the first unwritten byte after every reseed, fills the destination unless the parent fails, and never serves above 2^48 requests; behind a reference it stops where the child would, and uses additional input if the child would |
| `ChainedRng.ChainedHashDrbg.ReseedFromParent` | crypto/src/rng/mod.rs:206-230 | the child's state after a reseed with the parent's entropy |
| `ChainedRng.ReseededIs` | crypto/src/rng/hash_drbg.rs:128-158 | the seed material of a reseed is a one, V and the entropy |
| `ChainedRng.DrbgIsChild` | crypto/src/rng/hash_drbg.rs:160-222 | a Hash_DRBG that is ready delivers something, and is ready after a reseed |
| `TaskQueue.SelectNext` | utils-async/src/test.rs:515-582 | whatever the index hint, the first runnable task in cyclic order after the last one polled; nothing exactly if none is runnable |
| `TaskQueue.NoTaskPolledTwice` | utils-async/src/test.rs:502-582 | no task is polled twice while another stays runnable and is not polled |
| `ExecutorState.ActionKeeps` | utils-async/src/test.rs:310-500 | every action keeps the invariant: ids increasing and below `next_id`, slots empty only for the polled task, statuses right, pending waiters' tasks queued, results genuine |
| `ExecutorState.RunnableAfterIteration` | utils-async/src/test.rs:552-636 | after an iteration a queued task is runnable exactly if it was spawned or woken in it, or was runnable and not polled |
| `ExecutorState.WakeDuringPollIsKept` | utils-async/src/test.rs:573-576 | a wake during a task's own poll is not lost |
| `ExecutorState.GoneStays` | utils-async/src/test.rs:486-500 | a removed task does not come back |
| `ExecutorState.WaitIsBounded` | utils-async/src/test.rs:515-636 | while a runnable task waits, fewer polls take place than tasks have been spawned by then |
| `ExecutorWaiters.WaiterIsWoken` | utils-async/src/test.rs:395-417 | over every run: whoever polls a waiter without finding a result, and is the last to poll it, is runnable after the iteration in which the task is ready, if still queued |
| `ExecutorWaiters.LastWakerIsWoken` | utils-async/src/test.rs:623-629 | the same for the last such action, wherever in the run it is |
| `ExecutorWaiters.WokenBySecond` | utils-async/src/test.rs:395-417 | two tasks of which the first one polls the waiter of the second: blocked, then runnable again |
| `ExecutorWaiters.ResultIsKept` | utils-async/src/test.rs:395-417 | the value a task was ready with is there for its waiter until it is taken |
| `ExecutorWaiters.DroppedIsNotPolled` | utils-async/src/test.rs:373-388 | a task whose waiter is dropped before it has finished is not polled in any later iteration |
| `Executor.TestAsyncExecutor.RunToCompletion` | utils-async/src/test.rs:514-637 | every pick is the first in cyclic order; it ends with an empty queue, or stuck exactly if no queued task is runnable; the lock of the queue is never found held |
| `Executor.TestAsyncExecutor.RunActions` | utils-async/src/test.rs:486-500 | whatever a future does while it is polled or dropped, it finds the lock free and leaves it so |
| `Executor.TestAsyncExecutor.PollTask` | utils-async/src/test.rs:560-636 | one iteration, wherever the polled task has moved to |
| `Executor.TestAsyncExecutor.PollTaskWaiter` | utils-async/src/test.rs:395-417 | the task of a waiter without a result is always found and gets the waker, and nothing else changes; the value is the one the task was ready with |
| `Executor.TestAsyncExecutor.TakeResult` | utils-async/src/test.rs:357-370 | only a value the task was ready with is handed out |
| `Executor.TestAsyncExecutor.SpawnTask` | utils-async/src/test.rs:453-484 | a runnable task with a new id, larger than all others, at the end of the queue, and a pending waiter for it |
| `Executor.TestAsyncExecutor.WakeTask` | utils-async/src/test.rs:310-320 | a blocked task with this id becomes runnable, also while it is polled, and no other changes |
| `Executor.TestAsyncExecutor.DropTaskWaiter` | utils-async/src/test.rs:373-388 | removes the task of a pending waiter without a result, and only this, from the queue in order |

## Left out

- Allocation failures, failures of hash and cipher backends, constant-time behaviour and zeroization.
- ECDH, ECDSA, curve arithmetic and prime generation: of these only the group laws and the primality of p and q are used.
- The limb arithmetic of `cmpa`: its operations are modelled by what they compute.
- `GenericIoSlicesIter` and `GenericIoSlicesMutIter`, whose `decoupled_borrow` drops the tail, and zero-filled iterators.
- Take-exact adaptors inside chains, and errors of backend iterators.
- The remaining helpers of `bitmanip.rs`; the power-of-two rounding of batch lengths is modelled as subtraction of the remainder.
- Block cipher modes themselves, IV handling beyond the refusal for partial blocks, and the algorithm tables.
- `run_to_completion` called again from a polled future, wrap-around of the 64-bit task ids, and the panic for polling a waiter that is done, which the model treats as no action.
- Overflow of `usize` in lengths, and of the 32-bit block counters of KDFa and KDFe, which a total length of 32 bits rules out.
- SymCipher.TransformNextBlocks: for lengths that do not match only when it would slice out of range is stated, because its callers refuse them.
- RSA-PSS, RSA-OAEP, PKCS1 signatures, TPM marshalling, storage and command line code.
