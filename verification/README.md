# Verified models of iPXE components

The project models the parts of the iPXE network boot firmware whose
correctness rests on arithmetic, on state that is shared or updated in place,
or on protocols between several functions, and proves what those parts are
for. Each module follows one source file or component. Everything the firmware
cannot decide for itself is a parameter: entropy, the clock, whether an
allocation fails, the block cipher, the compression function, signature
checks, the effect of shell commands and the behaviour of other processes.
Every statement holds for all values of these parameters.

| area | modules |
|---|---|
| heap and I/O buffers | `FreeList`, `HeapLayout`, `HeapPhase`, `HeapState`, `Malloc`, `HeapRuns`, `IoBuffer` |
| big integers and RSA | `BigInt`, `Rsa`, `DigestInfo` |
| certificate validation | `X509` |
| digests and random bits | `Sha256`, `Hmac`, `HmacSha256`, `HmacDrbg`, `Drbg` |
| line editing | `EditString`, `Readline` |
| command lines and scripts | `Tokens`, `CommandLine`, `Shell`, `Script` |
| ASN.1 | `Der`, `Asn1` |
| calendar | `Calendar` |
| scheduler | `Process` |
| ciphers | `AesWrap`, `Cbc` |
| text encoding and pseudo-random numbers | `Base64`, `Random` |
| shared vocabulary | `Bits`, `Bytes`, `Memory`, `Platform`, `Wrappers` |

State that the source updates in place is a class whose methods are proved
against functions on values; invariants, round trips and statements about whole
runs are lemmas about those functions.

## Where the code differs from its description

- Leaked heap fragments: the comments place them at the ends of the heap. That
  holds if every offset is a multiple of the minimum block size, and
  `HeapState.HeadLeakIff` shows that the condition is needed.
- A heap request near the size of the address space passes the signed fit test
  of a small block. `HeapState.Params.AcceptsIff` and
  `HeapState.Params.RoundUpCoversIff` give the exact range in which test and
  rounding are right, and the allocator is proved for that range.
- Adding less than one minimum block to the heap lists an empty block
  (`HeapState.EmptyInsertCanonicalIff`).
- The length field of a digest wraps around for messages longer than the
  counter can hold (`Sha256.PaddingIsSpecifiedIff`).
- Key wrapping is described as working in place, but overwrites the first
  block before reading it (`AesWrap.WrapCorrectIff`); unwrapping does work in
  place (`AesWrap.AesUnwrap`). The step number is truncated to a byte, so the
  result is the standard's exactly up to 42 blocks (`AesWrap.MatchesRfcIff`).
- The RSA length limit is an unsigned subtraction. For a modulus of fewer than
  11 bytes it wraps, and too long a message is accepted instead of refused
  (`Rsa.RefusedIff`, `Rsa.ShortModulusAccepts`).
- The Base64 table has no terminator, so the search for a character reads on
  into whatever follows it, and some malformed strings are decoded
  (`Base64.DecodeRightIff`, `Base64.ForeignDecoded`). The encoder's bit counter
  is too narrow for data of 2^29 bytes or more (`Base64.EncodeRightIff`).
- Skipping an optional ASN.1 object is described as leaving the cursor alone on
  error; it does so only if the tag did not match or the data is too short
  (`Der.Parse`, `Asn1.Cursor.SkipIfExists`). A failed ASN.1 builder forgets the
  failure if it was empty (`Asn1.Builder.Grow`).
- Dates before 1898 are misnumbered and weekdays before 1899 can be negative
  (`Calendar.NextDayIff`, `Calendar.WeekdayIff`).

## Model

| member | source | states |
|---|---|---|
| `FreeList.InsertCorrect` | src/core/malloc.c:346-381 | a block returned to a sorted, coalesced list that it does not overlap gives a sorted, coalesced list covering exactly the old bytes and the block's |
| `FreeList.CanonicalUnique` | src/core/malloc.c:346-381 | a sorted, coalesced list is determined by the set of bytes it covers |
| `FreeList.RangeInOneBlock` | src/core/malloc.c:250-255 | any stretch of free bytes lies in a single list entry, so looking at entries one by one misses no space |
| `FreeList.FreeOrderIrrelevant` | src/core/malloc.c:324-387 | returning the same blocks in any two orders leaves the same free list |
| `FreeList.CarveThenInsert` | src/core/malloc.c:346-381 | returning exactly what was taken out of a list restores that list |
| `FreeList.CarveCanonical` | src/core/malloc.c:256-290 | splitting an entry keeps the list sorted and coalesced, whether or not fragments are kept |
| `FreeList.CarveCovers` | src/core/malloc.c:256-290 | after a split the list covers what it covered, less the allocation and the fragments that are too small to list |
| `FreeList.CarveKeepsMinimum` | src/core/malloc.c:273-290 | no entry below the minimum block size is ever listed by a split |
| `FreeList.PartitionSize` | src/core/malloc.c:291-292 | if a pool is split into free, allocated and leaked bytes without overlap, the sizes add up |
| `HeapLayout.LayoutTotal` | src/core/malloc.c:292-384 | the populated bytes are exactly the listed, the allocated and the leaked bytes |
| `HeapLayout.AllocKeepsSound` | src/core/malloc.c:250-298 | an allocation keeps free, allocated and leaked bytes a partition of the pool, with a coalesced list of large enough entries |
| `HeapLayout.FreeKeepsSound` | src/core/malloc.c:324-387 | so does freeing |
| `HeapLayout.PopulateKeepsSound` | src/core/malloc.c:513-518 | so does adding memory to the heap |
| `HeapPhase.AllocKeepsPhased` | src/core/malloc.c:268-290 | an allocation whose offset is a multiple of the minimum block size leaks only bytes at the very start or end of a populated region |
| `HeapPhase.FreeKeepsPhased` | src/core/malloc.c:324-387 | freeing leaks nothing and keeps every internal block boundary on the grid |
| `HeapPhase.PopulateKeepsPhased` | src/core/malloc.c:513-518 | so does adding memory |
| `HeapPhase.LeakBound` | src/core/malloc.c:268-290 | in all such states at most one minimum block is leaked for each populated region |
| `HeapState.FirstFitIsLowest` | src/core/malloc.c:250-255 | every suitably aligned address at which the request would fit lies at or above the one the first-fit search takes |
| `HeapState.SkipIsLeast` | src/core/malloc.c:252-253 | no smaller prefix of an entry ends at the requested physical alignment |
| `HeapState.HeadLeakIff` | src/core/malloc.c:284-290 | for every alignment, entries on the grid lose no bytes in front of an allocation, wherever they lie, exactly when the offset is a multiple of the minimum block size, so the comment that this happens only at the start of the heap needs that condition |
| `HeapState.EmptyInsertCanonicalIff` | src/core/malloc.c:513-518 | populating less than the minimum block size lists an empty block, and the list stays coalesced exactly when that block touches a neighbour it merges with |
| `HeapState.Params.RoundUpCoversIff` | src/core/malloc.c:242-245 | in machine arithmetic the rounded size is at least the requested one exactly when the request does not wrap around |
| `HeapState.Params.RoundUpMultiple` | src/core/malloc.c:337-340 | a size that is already rounded is unchanged, so freeing with either size frees the same block |
| `HeapState.Params.PreSizeIsSkip` | src/core/malloc.c:246-253 | the masked machine subtraction is the distance to the next address with the requested physical alignment |
| `HeapState.Params.AcceptsIff` | src/core/malloc.c:251-255 | the signed remainder tells whether a block has room, for every block the heap may hold and every distance to an aligned address, exactly when rounded size and alignment leave it in range |
| `HeapState.Params.HugeRequestAccepted` | src/core/malloc.c:251-255 | a request for nearly the whole address space passes the test in a block of two minimum blocks |
| `HeapState.FreememMeaning` | src/core/malloc.c:292-384 | the free memory counter is always the listed plus the leaked bytes, and with the allocated bytes makes up the pool |
| `HeapState.AllocKeepsInv` | src/core/malloc.c:231-314 | an allocation keeps the whole heap invariant (partition, accounting, cache, headers, contents) |
| `HeapState.FreeKeepsInv` | src/core/malloc.c:324-387 | so does freeing a block that its caller owns |
| `HeapState.PopulateKeepsInv` | src/core/malloc.c:513-518 | so does adding memory |
| `HeapState.DiscardKeepsInv` | src/core/malloc.c:194-204 | so does discarding a cached item |
| `HeapState.EntrustKeeps` | src/include/ipxe/malloc.h:84-98 | leaving a block to a cache discarder keeps the invariant and costs the caller that block only |
| `HeapState.AllocIsNew` | src/core/malloc.c:231-314 | a new allocation overlaps no live block and disturbs no contents |
| `HeapState.FreeDisturbsNoOther` | src/core/malloc.c:324-387 | freeing removes that block only, and changes neither contents nor headers of any other owned block |
| `HeapState.DiscardsDisturbNoOther` | src/core/malloc.c:301-308 | discarding any number of cached items touches no block owned by a caller |
| `HeapState.CopySummary` | src/core/malloc.c:441-446 | copying into the new block carries over the common prefix and changes no other block |
| `HeapState.ReallocatedSummary` | src/core/malloc.c:409-453 | allocating, copying and freeing together move the contents and leave every other owned block as it was |
| `Malloc.InsertFree` | src/core/malloc.c:346-381 | the gap-tracking loop over the free list computes the sorted, coalescing insertion, for any list of non-empty blocks |
| `Malloc.SplitEntry` | src/core/malloc.c:256-290 | the in-place split of an entry into up to two listed fragments removes exactly the allocation and the unlisted fragments |
| `Malloc.FitIsLowest` | src/core/malloc.c:250-255 | the address chosen is a legal placement and the lowest one |
| `Malloc.Allocator.FindFit` | src/core/malloc.c:250-255 | the search stops at the first entry that passes the test on its distance to the requested alignment, for every size and list |
| `Malloc.Allocator.AcceptsMeansFits` | src/core/malloc.c:251-255 | for a representable request the entry that passes is one with enough room |
| `Malloc.Allocator.CarveEntry` | src/core/malloc.c:256-297 | taking space from an entry gives exactly the specified heap and keeps the invariant |
| `Malloc.Allocator.AllocOnce` | src/core/malloc.c:249-299 | one pass either places the request at the lowest possible address or proves that no placement exists and changes nothing |
| `Malloc.Allocator.AllocMemblock` | src/core/malloc.c:231-314 | cached items are discarded one by one only while nothing fits; failure means that the cache is empty and no placement exists, success is the lowest placement in the heap reached |
| `Malloc.Allocator.FreeMemblock` | src/core/malloc.c:324-387 | the block is returned to the list, its contents and header are forgotten, and a null pointer is ignored |
| `Malloc.Allocator.DiscardCache` | src/core/malloc.c:194-204 | reports zero exactly when nothing is cached, and otherwise frees one cached item |
| `Malloc.Allocator.Entrust` | src/include/ipxe/malloc.h:84-98 | a block left to a cache discarder is the next, or any later, one to be given up |
| `Malloc.Allocator.Populate` | src/core/malloc.c:513-518 | memory of at least one minimum block is added as the region rounded down; less lists an empty block |
| `Malloc.Allocator.MallocDma` | src/include/ipxe/malloc.h:44-51 | the whole effect of the allocation passes through: cached items go only while nothing fits, null means that nothing is cached and no address fits, and otherwise the lowest suitable address is taken; the block has the requested physical alignment and offset, is at least as large as requested and disjoint from everything owned |
| `Malloc.Allocator.AllocAutosized` | src/core/malloc.c:417-434 | the first half of `realloc`: exactly such an allocation of size and header, with the size recorded in the header; null means that no address fits |
| `Malloc.Allocator.ReleaseAutosized` | src/core/malloc.c:436-450 | the second half: exactly a copy up to the smaller size and a free of the old block |
| `Malloc.Allocator.Realloc` | src/core/malloc.c:409-453 | all cases of `realloc` as a sequence of allocation, copy and free: size zero gives the reserved pointer and frees, null means that no address fits and leaves the old block alone, success keeps the common prefix and every other block |
| `Malloc.Allocator.Malloc` | src/core/malloc.c:464-466 | a block disjoint from everything owned, the reserved pointer for size zero, or null if nothing is cached and no address fits |
| `Malloc.Allocator.Free` | src/core/malloc.c:478-480 | the block is gone and nothing else is touched; null and the reserved pointer are ignored |
| `HeapRuns.AllocFreeRestores` | src/core/malloc.c:231-387 | freeing an allocation that leaked nothing restores the whole heap |
| `HeapRuns.ReallocExchanges` | src/core/malloc.c:409-453 | reallocation replaces one held block by one apart from all others that holds the stored data up to the smaller size |
| `HeapRuns.Serve` | src/core/malloc.c:194-518 | one request of any kind (donation, aligned or autosized allocation, reallocation, writing, leaving a block to a cache discarder, release): the caller holds exactly what the request leaves it, every block it holds is live, apart from the others and holds what was stored in it, nothing else stays allocated outside the cache, aligned blocks are aligned, and null means that nothing is cached and no address fits |
| `HeapRuns.Session` | src/core/malloc.c:194-518 | the same after each request of every run, with the accounting of every donated byte and, if all offsets are on the grid, at most one minimum block leaked for each donated region |
| `IoBuffer.Pow2AboveIsLeast` | src/core/iobuf.c:53-53 | the alignment used is the least power of two that is not below the one requested |
| `IoBuffer.DetachedIsApart` | src/core/iobuf.c:68-85 | a separately allocated descriptor can never lie exactly at the end of its buffer, which is what tells the two cases apart when freeing |
| `IoBuffer.WithinBoundary` | src/core/iobuf.c:99-109 | the padded length never exceeds the power of two it is aligned to |
| `IoBuffer.AllocDetached` | src/core/iobuf.c:70-85 | buffer and descriptor are two new disjoint blocks, or neither is kept, by exactly the allocations and frees of the source |
| `IoBuffer.AllocIobRaw` | src/core/iobuf.c:44-88 | the empty buffer has the rounded length and requested alignment and owns exactly its new block or blocks, with the descriptor inline exactly if that stays within the alignment; the heap is exactly what those allocations leave |
| `IoBuffer.AllocIob` | src/core/iobuf.c:99-109 | an empty buffer of the padded length, at least the one requested, that does not cross an alignment boundary |
| `IoBuffer.FailedMeansFull` | src/core/iobuf.c:61-85 | a buffer is refused only if nothing is cached and no address fits the data, or the descriptor |
| `IoBuffer.FreeIob` | src/core/iobuf.c:116-141 | exactly the blocks allocated for the buffer are returned, with the sizes they were allocated with, in both layouts, and nothing else changes |
| `IoBuffer.TookThenGave` | src/core/iobuf.c:44-141 | allocating and then freeing a buffer leaves every other block undisturbed and nothing new allocated |
| `BigInt.NoBitLost` | src/crypto/bigint.c:70-73 | rotating the modulus up to the length of the product loses no bit |
| `BigInt.ScaleUp` | src/crypto/bigint.c:68-73 | the modulus is scaled by the power of two that lines it up with the product |
| `BigInt.SubtractDown` | src/crypto/bigint.c:75-80 | subtracting while shifting back down leaves the remainder |
| `BigInt.ModMultiply` | src/crypto/bigint.c:42-87 | the product reduced modulo the modulus, for all operands that fit the element count |
| `BigInt.PowMul` | src/crypto/rsa.c:342-358 | raising to one exponent and then another is raising to their product |
| `BigInt.SquareStep` | src/crypto/bigint.c:122-134 | one iteration of square-and-multiply keeps the value it is going to compute |
| `BigInt.ModExp` | src/crypto/bigint.c:100-135 | congruent to base to the exponent for every input, and fully reduced unless the exponent is 0 and the modulus is 1 |
| `Rsa.BigintInit` | src/arch/x86/include/bits/bigint.h:26-44 | the little-endian value in memory is the number the big-endian bytes spell |
| `Rsa.BigintDone` | src/arch/x86/include/bits/bigint.h:299-312 | the big-endian bytes written are those of the little-endian value |
| `Rsa.GetRandomNz` | src/crypto/random_nz.c:58-76 | success gives exactly the first non-zero bytes of the random stream, and so no zero byte; otherwise the status of the generator is returned |
| `Rsa.NonZeroMeaning` | src/crypto/random_nz.c:58-76 | the bytes obtained are of the requested number and none is zero |
| `Rsa.Context.Cipher` | src/crypto/rsa.c:342-358 | the output is the input as a number raised to the exponent modulo the modulus, whatever buffers alias the context's |
| `Rsa.RefusedIff` | src/crypto/rsa.c:374-378 | the length test keeps the eleven bytes of overhead free, and the working buffer in bounds, exactly for moduli of at least eleven bytes |
| `Rsa.ShortModulusAccepts` | src/crypto/rsa.c:374-378 | a modulus of ten bytes accepts a message longer than itself |
| `Rsa.PaddingLength` | src/crypto/rsa.c:374-375 | the padding length computed in machine arithmetic is the room left, or else runs past the buffer |
| `Rsa.Context.Encrypt` | src/crypto/rsa.c:369-409 | for moduli of any length: the plaintexts refused, those that overrun the buffer, the status of a failing random source with the output left alone, and otherwise the cipher of the padded message of section 7.2.1 of RFC 3447 |
| `Rsa.Context.Decrypt` | src/crypto/rsa.c:420-468 | a wrong length is refused, and otherwise exactly the messages of the form given in section 7.2.2 of RFC 3447 are accepted and returned |
| `Rsa.Context.WriteDigest` | src/crypto/rsa.c:479-526 | the encoded digest of section 9.2 of RFC 3447 is written, or the exact reason is reported, or the buffer is overrun |
| `Rsa.DigestOverhead` | src/crypto/rsa.c:496-504 | with at least eleven bytes of modulus exactly the digests that fit with their padding are encoded; with fewer every listed digest overruns the buffer |
| `Rsa.Context.Sign` | src/crypto/rsa.c:537-559 | the signature is the cipher of the encoded digest, or the outcome of encoding it |
| `Rsa.Context.Verify` | src/crypto/rsa.c:571-618 | a signature is accepted exactly when its cipher is the encoded digest, in every byte, and otherwise refused with its reason |
| `Rsa.CipherInverse` | src/crypto/rsa.c:342-358 | for a key pair, deciphering an enciphered padded block returns it byte for byte |
| `Rsa.DecodeEncode` | src/crypto/rsa.c:369-468 | removing the padding returns the message, for every padding without zero bytes |
| `Rsa.EncryptDecrypt` | src/crypto/rsa.c:369-468 | for every key pair, plaintext and random stream, decryption returns the plaintext whenever encryption succeeds, which happens exactly when it is not refused, fits and enough random bytes were found |
| `Rsa.SignVerify` | src/crypto/rsa.c:537-618 | for every key pair and digest, a signature made is accepted for that digest and for no other digest of that algorithm |
| `Rsa.EncodeDigestInjective` | src/crypto/rsa.c:479-526 | different digests have different encodings |
| `DigestInfo.PrefixIsDer` | src/crypto/rsa.c:96-127 | each listed prefix followed by a digest is the encoding of the digest under its algorithm's object identifier, and no other algorithm is listed |
| `DigestInfo.ShortIsDer` | src/crypto/rsa.c:96-127 | the short form used there is the DER encoding of the other modules |
| `X509.CheckRoot` | src/crypto/x509.c:1232-1255 | a certificate is trusted exactly when its fingerprint is one of the root list's |
| `X509.Info.MayCertSignMeaning` | src/crypto/x509.c:1191-1197 | the bit test allows signing exactly if there is no key usage extension or its keyCertSign bit is set |
| `X509.RemainingMeaning` | src/crypto/x509.c:1359-1363 | the remaining path length respects the constraint of every certificate above |
| `X509.RemainingTight` | src/crypto/x509.c:1359-1363 | and is as large as some constraint allows, so no valid chain is rejected for its length |
| `X509.ExtendDerivation` | src/crypto/x509.c:1299-1372 | a certificate that passes every check against a validated issuer with room left has a derivation from a trusted root |
| `X509.Validate` | src/crypto/x509.c:1299-1372 | the status is the first failing check in order, each stated on the certificate itself (period with margin, root list, issuer, names, CA, key usage, signature, path length, OCSP); success caches validity with the right remaining length, and failure changes nothing |
| `X509.ValidateAmong` | src/crypto/x509.c:1299-1372 | among any certificates only the one validated may become marked |
| `X509.FindStandalone` | src/crypto/x509.c:1561-1570 | the anchor is the first certificate of the chain that is valid on its own, and the marks are those of that search |
| `X509.WorkBack` | src/crypto/x509.c:1572-1584 | working back from the anchor validates every certificate, or stops at the first that its issuer does not support, with exactly the marks of those steps |
| `X509.ValidateChain` | src/crypto/x509.c:1549-1591 | status and marks are those of search and working back; success means that every certificate up to the anchor is valid, and each failure names the certificate and check responsible |
| `X509.ChainAcceptedIff` | src/crypto/x509.c:1549-1591 | a chain of distinct unmarked certificates is accepted exactly if those up to the first one that stands alone are a derivation, so no valid chain is refused |
| `X509.Invalidate` | src/include/ipxe/x509.h:364-367 | the cached validity is cleared |
| `X509.Run` | src/crypto/x509.c:1299-1591 | every sequence of validations, chains and invalidations on shared certificates has exactly the statuses and marks of its operations; each certificate marked valid has a derivation from a trusted root that respects dates, issuers, signatures and path lengths, and loses its mark only by being invalidated itself |
| `Sha256.PaddingIsSpecifiedIff` | src/crypto/sha256.c:212-235 | the padding is that of section 5.1.1 of FIPS 180-4 exactly when the message length does not wrap the length counter |
| `Sha256.LengthFieldExactIff` | src/crypto/sha256.c:212-235 | the encoded bit length is exact under the same condition |
| `Sha256.PadInjective` | src/crypto/sha256.c:212-235 | different length fields give different padded messages |
| `Sha256.Context.Init` | src/crypto/sha256.c:73-85 | the context stands for the empty message |
| `Sha256.Context.DigestData` | src/crypto/sha256.c:92-180 | the in-place round leaves the compression of digest and data block in the digest, for any compression function |
| `Sha256.Context.Update` | src/crypto/sha256.c:189-204 | the context then stands for the old message followed by the data, however the data is split |
| `Sha256.Context.PadToLength` | src/crypto/sha256.c:220-226 | padding bytes are added up to the length field and no further |
| `Sha256.Context.Final` | src/crypto/sha256.c:212-235 | the output is the digest the standard defines for the message, for every message length the counter can hold |
| `Hmac.ReduceKey` | src/crypto/hmac.c:41-49 | a key is replaced by its digest in place |
| `Hmac.HmacInit` | src/crypto/hmac.c:64-83 | the digest has absorbed the reduced key masked with the inner pad, and a key longer than a block is reduced in place |
| `Hmac.HmacFinal` | src/crypto/hmac.c:99-123 | the outer digest over the pad and the inner digest, also when key and output are the same buffer |
| `Hmac.ComputeHmac` | src/crypto/hmac.c:64-123 | the three calls compute the function of section 2 of RFC 2104 for every key and text |
| `HmacSha256.HashIsSpecified` | src/crypto/sha256.c:238-246 | below the limits of its counters the digest is SHA-256 as specified |
| `HmacSha256.HashOf` | src/crypto/sha256.c:238-246 | initialising, updating and finalising the streaming context computes the digest that the keyed hash is built on |
| `HmacSha256.ComputeHmac` | src/crypto/hmac.c:41-123 | the keyed hash over the streaming SHA-256 code is the function of section 2 of RFC 2104, also when the output overwrites the key |
| `HmacDrbg.OutputPrefix` | src/crypto/hmac_drbg.c:326-344 | shorter requests return prefixes of longer ones |
| `HmacDrbg.OutputAt` | src/crypto/hmac_drbg.c:326-344 | each output byte comes from the round of `V = HMAC ( K, V )` that its position says |
| `HmacDrbg.AfterOutputIs` | src/crypto/hmac_drbg.c:326-344 | the value left behind is that of the last round needed |
| `HmacDrbg.State.DoUpdateKey` | src/crypto/hmac_drbg.c:62-90 | the key becomes the keyed hash of value, separator byte and data, computed in place |
| `HmacDrbg.State.DoUpdateValue` | src/crypto/hmac_drbg.c:107-126 | the value becomes its keyed hash, computed in place |
| `HmacDrbg.State.Update` | src/crypto/hmac_drbg.c:142-170 | the chain of keyed hashes of section 10.1.2.2 of NIST SP 800-90: key over value, byte 0 and data, then value, and once more with byte 1 if there is data |
| `HmacDrbg.State.Instantiate` | src/crypto/hmac_drbg.c:194-225 | the state depends only on entropy and personalisation, not on what was there before |
| `HmacDrbg.State.Reseed` | src/crypto/hmac_drbg.c:243-271 | the state absorbs entropy and additional input, and the counter restarts |
| `HmacDrbg.State.Fill` | src/crypto/hmac_drbg.c:326-344 | the buffer receives exactly the requested number of bytes of the output stream and nothing beyond |
| `HmacDrbg.State.Fragment` | src/crypto/hmac_drbg.c:331-343 | each round contributes one value, cut to what is still needed |
| `HmacDrbg.State.Generate` | src/crypto/hmac_drbg.c:294-359 | a state past its reseed interval is refused and unchanged; otherwise output and next state are those of section 10.1.2.5 |
| `Drbg.ServedStep` | src/crypto/drbg.c:267-397 | how each event moves the number of requests served since the last seed |
| `Drbg.Generator.Instantiate` | src/crypto/drbg.c:62-159 | the working state is the fresh one of section 10.1.2.3 of NIST SP 800-90, and valid exactly after entropy was obtained; errors leave everything as it was |
| `Drbg.Generator.Reseed` | src/crypto/drbg.c:174-247 | an invalid state, too much input and a failing source are reported and change nothing |
| `Drbg.Generator.Generate` | src/crypto/drbg.c:267-397 | for every request the retry loop ends after at most two attempts and one entropy request, no state serves more than the reseed interval, output, next state, counter and history are exactly determined, and the generator stays usable |
| `Drbg.Generator.FromStep7` | src/crypto/drbg.c:328-396 | the loop from step 7 on: reseed when required, retry once, and otherwise serve |
| `Drbg.Generator.Produce` | src/crypto/drbg.c:62-397 | every run of requests after instantiation has the statuses and outputs determined by the fresh state, whatever was there before |
| `Drbg.AllServed` | src/crypto/drbg.c:267-397 | with entropy to be had, every request within the limits succeeds, however many come before it |
| `Drbg.Generator.Uninstantiate` | src/crypto/drbg.c:407-427 | the working state is erased and the generator invalid |
| `EditString.SpliceMeaning` | src/hci/editstring.c:50-78 | everything before the cursor and after the deleted text is kept, and inserted text is cut only when the buffer is full |
| `EditString.EditKeyMeaning` | src/hci/editstring.c:171-217 | what each key takes from the text on either side of the cursor, and where it leaves the cursor |
| `EditString.InsertBackspace` | src/hci/editstring.c:81-111 | backspace takes back a character that was inserted |
| `EditString.EditString.InsertDelete` | src/hci/editstring.c:50-78 | the buffer holds the spliced line, terminated and within bounds, and the modified range covers every changed character |
| `EditString.EditString.Backspace` | src/hci/editstring.c:106-111 | the character before the cursor is removed, if there is one |
| `EditString.EditString.KillSol` | src/hci/editstring.c:118-122 | the text before the cursor is removed |
| `EditString.EditString.KillEol` | src/hci/editstring.c:129-131 | the text from the cursor on is removed |
| `EditString.EditString.Replace` | src/hci/editstring.c:139-142 | the text is replaced, as far as it fits, with the cursor at its end |
| `EditString.EditString.Edit` | src/hci/editstring.c:161-220 | each key has its effect on the line, unused keys are returned, and the recorded range covers every change |
| `Readline.SyncConsole` | src/hci/readline.c:44-75 | if the terminal showed the old line with its cursor, it shows the new one afterwards, whatever the edit was |
| `Readline.AppendedMeaning` | src/hci/readline.c:174-196 | in the circular buffer the new line becomes the most recent and the oldest is lost |
| `Readline.History.Move` | src/hci/readline.c:147-166 | moving shows what is stored at the new depth, keeps the line being edited as a temporary copy at the old one, refuses to go beyond what is stored, and changes no stored line |
| `Readline.History.Append` | src/hci/readline.c:174-196 | the stored lines are the new one followed by the old ones, less the oldest |
| `Readline.History.Cleanup` | src/hci/readline.c:203-221 | all temporary copies are dropped and all stored lines kept |
| `Readline.HistoryStep` | src/hci/readline.c:305-312 | an arrow key does to line and history what visiting the neighbouring depth means, and redraws |
| `Readline.HandleKey` | src/hci/readline.c:281-312 | one key does to line and history what the editing machine says, and the terminal shows the result |
| `Readline.UpThenDown` | src/hci/readline.c:147-166 | up and then down brings back the text being edited |
| `Readline.ReadlineHistory` | src/hci/readline.c:253-324 | after every sequence of keys, with or without a history, the line is the one the editing machine reaches; the first carriage return or line feed enters it, the first Ctrl-C cancels, and until then it waits; the terminal shows the line, and the history holds it unless it was empty or cancelled |
| `Readline.Finish` | src/hci/readline.c:315-321 | only a non-empty entered line is appended, and no temporary copy survives |
| `Tokens.SplitJoin` | src/core/exec.c:121-144 | splitting at white space is the inverse of joining with spaces |
| `Tokens.SplitTokens` | src/core/exec.c:121-144 | tokens are non-empty and hold no white space |
| `Tokens.NextLine` | src/image/script.c:66-92 | reading a line from its byte offset gives that line and the offset of the next one, and the offset passes the end exactly after the last line |
| `CommandLine.SplitCommand` | src/core/exec.c:121-144 | counting leaves the command alone; storing turns it in place into C strings that are exactly the tokens, in equal number |
| `Shell.LeftAssociative` | src/core/exec.c:287-347 | a line means what its connectors mean when they associate to the left |
| `Shell.ConnectorMeaning` | src/core/exec.c:152-210 | after any left operand, the success connector goes on exactly on success, the failure connector exactly on failure and the semicolon always, and otherwise the line ends with that operand's result |
| `Shell.TwoCommands` | src/core/exec.c:152-210 | the same for two commands, from the tokens of the line |
| `Shell.ParseFlatten` | src/core/exec.c:183-210 | every left-associated expression is recovered from its tokens |
| `Shell.CommentIgnored` | src/core/exec.c:188-190 | everything from a comment token on is ignored |
| `Shell.MoreFuelRun` | src/image/script.c:57-97 | the bound on lines processed never changes a result, so results hold for unbounded runs |
| `Shell.StraightRun` | src/image/script.c:57-97 | without `goto` and nested scripts every script ends, visiting each line at most once |
| `Shell.Find` | src/image/script.c:225-238 | the line found is the first one with the label, and otherwise no line has it |
| `Shell.LabelMeaning` | src/image/script.c:225-238 | a line carries a label exactly if it is a colon and the name, followed by nothing or white space |
| `Script.CommandTerminator` | src/core/exec.c:183-210 | the first command ends at the first comment or connector |
| `Script.Interpreter.ShellStopped` | src/core/exec.c:227-238 | a stop is reported from its own level up and consumed unless it is a stronger one |
| `Script.Interpreter.FindLabel` | src/image/script.c:57-97 | scanning by byte offset ends just after the first line with the label |
| `Script.Interpreter.GotoExec` | src/image/script.c:257-288 | a jump moves the offset and stops the command line; a missing label or lack of memory restores the offset |
| `Script.Interpreter.Execv` | src/core/exec.c:60-108 | one command has its specified effect, and a nested script gives back offset, current image and stop state |
| `Script.Interpreter.ScriptExec` | src/image/script.c:137-161 | executing a script has the effect and status of its line-by-line meaning and leaves the caller's place untouched |
| `Script.Interpreter.ProcessScript` | src/image/script.c:57-97 | the byte-offset loop computes the line-by-line meaning for every script, including jumps, exits, failures and lack of memory; an endless script agrees with it after every number of lines |
| `Script.Interpreter.ProcessLine` | src/image/script.c:66-92 | after each line the script is at the byte offset of the line that comes next |
| `Script.Interpreter.ScriptExecLine` | src/image/script.c:117-129 | labels do nothing, other lines are command lines |
| `Script.Interpreter.System` | src/core/exec.c:287-347 | a command line has its specified status and effect, and a jump or exit is left pending exactly as specified |
| `Script.Interpreter.Tokenise` | src/core/exec.c:287-304 | the copy is split into exactly the tokens, or memory is lacking |
| `Script.Interpreter.Evaluate` | src/core/exec.c:306-341 | the loop over commands computes the left-associated meaning and stops at a jump, an exit or a failed expansion |
| `Script.Interpreter.ExpandTokens` | src/core/exec.c:248-265 | all tokens are expanded, or none is used |
| `Der.ParseEncoded` | src/crypto/asn1.c:104-153 | an object written by the builder, followed by anything, is read back with its exact body, exactly when that is shorter than 2^31 bytes |
| `Der.EncodeInjective` | src/crypto/asn1.c:719-847 | encodings are unambiguous and none is a prefix of another |
| `Der.HeaderMinimal` | src/crypto/asn1.c:719-739 | no header the reader accepts for a body of that length is shorter (the minimal definite form of section 10.1 of X.690) |
| `Der.ByteCountBounds` | src/crypto/asn1.c:730-731 | the length field has exactly as many bytes as the length needs |
| `Der.VisitsElements` | src/crypto/asn1.c:224-233 | skipping through encoded elements stops once at each, in order |
| `Der.VisitReads` | src/crypto/asn1.c:166-233 | and entering at each stop gives that element's content |
| `Der.Parse` | src/crypto/asn1.c:104-153 | what is read lies inside the view; an error has moved the cursor exactly when tag and size were acceptable |
| `Asn1.Cursor.StartObject` | src/crypto/asn1.c:104-153 | the cursor is at the body and the length is returned, or the exact error, with 32-bit wrap-around of the length |
| `Asn1.Cursor.Enter` | src/crypto/asn1.c:166-180 | the cursor covers exactly the body, or nothing |
| `Asn1.Cursor.SkipIfExists` | src/crypto/asn1.c:193-211 | the cursor covers what follows; errors after the tag leave it advanced, unlike its description |
| `Asn1.Cursor.Skip` | src/crypto/asn1.c:224-233 | the cursor covers what follows, and nothing at the end or after an error, so it always shrinks |
| `Asn1.Cursor.Shrink` | src/crypto/asn1.c:246-264 | the cursor covers exactly the first object |
| `Asn1.Cursor.ForEach` | src/crypto/x509.c:878-884 | the element loop ends for every input and visits exactly the successive views until one is rejected |
| `Asn1.FillHeader` | src/crypto/asn1.c:719-739 | the two byte loops write the shortest header, within the buffer, for every length |
| `Asn1.Builder.Grow` | src/crypto/asn1.c:748-771 | the contents are moved up unchanged; an earlier failure is permanent exactly if something had been written by then |
| `Asn1.Builder.PrependRaw` | src/crypto/asn1.c:781-793 | the contents are the data followed by the old contents, or the allocation failed |
| `Asn1.Builder.Prepend` | src/crypto/asn1.c:804-822 | the contents are the encoded object followed by the old contents |
| `Asn1.Builder.Wrap` | src/crypto/asn1.c:831-847 | the contents are one object whose body is the old contents |
| `Asn1.WrapThenEnter` | src/crypto/asn1.c:166-847 | entering what was wrapped gives back what was wrapped |
| `Calendar.Tm.Mktime` | src/core/time.c:110-138 | seconds, day of year and day of week follow from the date, and nothing else changes |
| `Calendar.YearCountedIff` | src/core/time.c:72-80 | for which years the leap year count moves as the leap year test says: all from 1898 on, and before that exactly the listed ones |
| `Calendar.LeapIff` | src/core/time.c:53-64 | the leap year test agrees with the Gregorian calendar except for years before 1900 divisible by 400 |
| `Calendar.NextDayIff` | src/core/time.c:110-138 | for every date, the next day is one day later exactly when neither of those two errors applies to the day being left |
| `Calendar.NextDay` | src/core/time.c:110-138 | for every valid date from 1898 on the next calendar day is one day later |
| `Calendar.NextDayFails` | src/core/time.c:72-80 | 31 December 1897 is followed by a gap of two days |
| `Calendar.DaysMonotone` | src/core/time.c:110-138 | later dates have larger day numbers |
| `Calendar.SecondsInjective` | src/core/time.c:110-138 | seconds since the Epoch order all moments from 1898 on and tell them apart |
| `Calendar.PosixFormula` | src/core/time.c:28-39 | from 1970 on the day number is that of the formula of section 4.15 of POSIX:2008 |
| `Calendar.EpochIsZero` | src/core/time.c:128-129 | the Epoch is day zero |
| `Calendar.WeekdayIff` | src/core/time.c:89-98 | for every date, exactly when the weekday table agrees with counting days from a Thursday |
| `Calendar.Weekday` | src/core/time.c:89-98 | it does for every date from 1899 on |
| `Calendar.WeekdayFails` | src/core/time.c:89-98 | it gives a negative weekday for 1 January 1898 |
| `Process.Scheduler.RefIncrement` | src/core/refcnt.c:38-45 | the count of a counted object goes up by one |
| `Process.Scheduler.RefDecrement` | src/core/refcnt.c:57-87 | the object is freed when the count reaches -1 and at no other time |
| `Process.Scheduler.ProcessAdd` | src/core/process.c:55-65 | a process not yet queued is put last and takes a reference |
| `Process.Scheduler.ProcessDel` | src/core/process.c:75-86 | a queued process is removed and gives its reference back |
| `Process.Scheduler.SingleStep` | src/core/process.c:94-117 | the first process is rescheduled or removed, then executed while referenced, whatever it does, including running the scheduler |
| `Process.AddDelIdempotent` | src/core/process.c:47-86 | adding or removing a process again has no effect |
| `Process.AddThenDel` | src/core/process.c:47-86 | removing a process that was just added restores queue and counts and frees nothing |
| `Process.BeginQueue` | src/core/process.c:94-110 | the first process goes to the end of the queue if it is to be rescheduled and leaves it otherwise, and the others move up |
| `Process.RunKeeps` | src/core/process.c:55-117 | every legal sequence of actions, nested steps included, keeps the count of each object equal to the references held on it |
| `Process.NeverFreedWhileRunning` | src/core/process.c:94-117 | in every state of every run, also inside steps, no process is queued twice, an object is freed at most once, exactly when no reference is left, and never while one of its processes is queued or mid-step |
| `Process.RunProgress` | src/core/process.c:94-117 | each top-level step brings a queued process one place forward or executes it |
| `Process.Fair` | src/core/process.c:94-117 | a process at position p is executed within p + 1 top-level steps, whatever other processes do, unless it is removed |
| `Process.StaysQueued` | src/core/process.c:94-117 | a rescheduled process stays queued through every run that does not remove it |
| `Process.NotQueuedNotRun` | src/core/process.c:94-117 | a process that is neither queued nor added is not executed |
| `Process.OneShot` | src/core/process.c:94-117 | a process that is not rescheduled is executed at most once each time it is added |
| `AesWrap.StepInverse` | src/crypto/aes_wrap.c:58-108 | an unwrapping step undoes the wrapping step with the same number |
| `AesWrap.PassesInverse` | src/crypto/aes_wrap.c:55-110 | so all passes are undone, for any number of blocks |
| `AesWrap.TagIff` | src/crypto/aes_wrap.c:63-63 | flipping only the last byte agrees with the standard exactly when the step number fits a byte |
| `AesWrap.FoldPairs` | src/crypto/aes_wrap.c:63-63 | above the lowest byte the step numbers of the standard cancel in pairs, so only the last one counts |
| `AesWrap.MatchesRfc` | src/crypto/aes_wrap.c:55-67 | with at most 42 blocks wrapping is that of section 2.2.1 of RFC 3394 |
| `AesWrap.DiffersFromRfc` | src/crypto/aes_wrap.c:55-67 | from 43 blocks on, every key is wrapped differently from the standard by some cipher |
| `AesWrap.MatchesRfcIff` | src/crypto/aes_wrap.c:55-67 | the wrapping is that of section 2.2.1 of RFC 3394, for all ciphers and keys of that many blocks, exactly while six times the number of blocks fits a byte |
| `AesWrap.WrapInverse` | src/crypto/aes_wrap.c:38-124 | unwrapping what was wrapped gives the initial value and the data |
| `AesWrap.WrapInjective` | src/crypto/aes_wrap.c:38-71 | different data have different wrappings |
| `AesWrap.AesWrap` | src/crypto/aes_wrap.c:38-71 | for every placement of source and destination: the wrapping of the data as it is after the initial value was written, and nothing else changed |
| `AesWrap.WrapCorrectIff` | src/crypto/aes_wrap.c:51-53 | that is the wrapping of the data exactly when every data byte overwritten by the initial value already equalled it, so not in general for equal buffers as described |
| `AesWrap.AesUnwrap` | src/crypto/aes_wrap.c:85-124 | for every placement, also in place: the unwrapped blocks, and success exactly if the initial value was found |
| `AesWrap.WrapThenUnwrap` | src/crypto/aes_wrap.c:38-124 | wrapping and unwrapping in memory returns the data and passes the check |
| `Cbc.XorInto` | src/crypto/cbc.c:40-50 | the context is combined with the data byte by byte |
| `Cbc.CbcEncrypt` | src/crypto/cbc.c:62-76 | the chained encryption is written, in place, apart or to a lower address, and the context is the last block |
| `Cbc.CbcDecrypt` | src/crypto/cbc.c:88-104 | the chained decryption is written, in place, apart or to a lower address, and the context is the last ciphertext block |
| `Cbc.EncryptedBlock` | src/crypto/cbc.c:68-75 | each ciphertext block is the encryption of its plaintext block combined with the ciphertext block before it |
| `Cbc.DecryptedBlock` | src/crypto/cbc.c:95-103 | each plaintext block is the decryption of its ciphertext block combined with the ciphertext block before it |
| `Cbc.ClearIff` | src/crypto/cbc.c:68-75 | writing a block spares the source still to be read, whatever is written, exactly when the destination does not begin inside the source past its start |
| `Cbc.DecryptEncrypt` | src/crypto/cbc.c:62-104 | decryption undoes encryption for every context and number of blocks |
| `Cbc.EncryptSplit` | src/crypto/cbc.c:62-76 | two calls that carry the context are one call |
| `Cbc.DecryptSplit` | src/crypto/cbc.c:88-104 | likewise for decryption |
| `Cbc.EncryptAnySplit` | src/crypto/cbc.c:62-76 | any split into calls gives the result of a single call |
| `Cbc.DecryptAnySplit` | src/crypto/cbc.c:88-104 | likewise for decryption |
| `Cbc.WholeOf` | src/crypto/cbc.c:66-66 | a length divisible by the block size is that many whole blocks |
| `Base64.EncodedLength` | src/include/ipxe/base64.h:21-23 | the encoded length is four characters for each started group of three bytes |
| `Base64.EncodedAt` | src/core/base64.c:62-72 | each character is the six data bits at its position, or padding |
| `Base64.ExtractIsSextet` | src/core/base64.c:63-69 | the shifts and masks of the bit counter loop pick out those six bits |
| `Base64.Encode` | src/core/base64.c:53-78 | the loops write the encoding of section 4 of RFC 4648 and a terminator, exactly filling the buffer; for longer data, exactly what they write instead or that they do not end |
| `Base64.EncodeRightIff` | src/core/base64.c:56-62 | the encoder ends with the right encoding exactly for data of less than 2^29 bytes |
| `Base64.Deposit` | src/core/base64.c:140-143 | or-ing in the two halves of a value extends the decoded bytes by its six bits |
| `Base64.SpreadIsByteAt` | src/core/base64.c:140-144 | or-ing in six-bit values one by one gives their concatenation |
| `Base64.Match` | src/core/base64.c:131-138 | the search finds the first match in the table or in the characters beyond it, up to the next NUL |
| `Base64.Decode` | src/core/base64.c:94-161 | given what lies beyond the unterminated table: the decoded bytes and their number, or an error; the byte after the buffer is touched but not changed |
| `Base64.BareDecode` | src/core/base64.c:94-161 | with nothing beyond the table the decoder is right on every string |
| `Base64.DecodeRightIff` | src/core/base64.c:35-37 | the decoder is right whatever lies beyond the table exactly for strings whose characters before the first pad are white space or in the alphabet, and for those that are malformed even with foreign characters counted as letters |
| `Base64.ForeignDecoded` | src/core/base64.c:131-138 | a foreign character that happens to follow the table is decoded as if it were in the alphabet |
| `Base64.DecodeEncode` | src/core/base64.c:53-161 | decoding an encoding returns the data, for every byte string and whatever lies beyond the table |
| `Base64.SpaceIrrelevant` | src/core/base64.c:110-112 | strings that differ only in white space decode alike, wherever it is inserted |
| `Random.StepIsProduct` | src/core/random.c:36-39 | for every 32-bit seed no intermediate value overflows and the result is 40014 times the seed modulo 2147483563 |
| `Random.StepPermutes` | src/core/random.c:36-39 | seeds from 1 to 2147483562 stay in that range and no two have the same successor |
| `Random.StepZeroIff` | src/core/random.c:31-39 | exactly the multiples of the modulus lead to 0, after which the clock is consulted |
| `Random.Generator.Next` | src/core/random.c:28-41 | the new seed is returned, and the clock matters only when the seed was 0 |
| `Random.Generator.Run` | src/core/random.c:28-41 | a generator seeded within range stays there forever and never consults the clock |

## Left out

- Malloc.Allocator.AllocMemblock: the heap that results from a request outside the range of `HeapState.Params.AcceptsIff` and `HeapState.Params.RoundUpCoversIff`, where the fit test or the rounding goes wrong, is not described.
- Rsa.Context.Encrypt: an operation that overruns its buffer is reported as such; what the overrun overwrites is not described.
- Rsa.CipherInverse: that a key pair satisfies m^(e·d) ≡ m is taken as what makes it a key pair; the number theory behind generating one is not modelled.
- BigInt.ModMultiply: the element-wise assembly for addition, subtraction, rotation and comparison is modelled by the numbers it represents.
- X509.Run: a certificate validated through an issuer keeps its cached validity when only the issuer is invalidated later, as in the source.
- Sha256.Context.DigestData: the 64 rounds are an arbitrary function of digest and block, so nothing is said about the constants of the compression function.
- Readline.SyncConsole: the display claim is for printable text; other characters in a prefilled line have widths the source does not know either.
- Readline.ReadlineHistory: failure to duplicate a line or a history entry for lack of memory is not modelled.
- Script.Interpreter.ProcessScript: runs are bounded by a number of lines. `Shell.MoreFuelRun` shows that the bound never changes a result, and a run that the bound stops has had the specified effects so far, so of an endless script every finite part is covered.
- Script.Interpreter.Execv: commands other than `goto`, `exit` and executing a script are a parameter; replacing the running image is not modelled.
- Asn1.Builder.Grow: lengths are assumed not to overflow the size of the address space.
- Calendar.Tm.Mktime: integers are unbounded, so years beyond about five million, where 32-bit days overflow, are not covered.
- Process.Scheduler.SingleStep: the linked list is a sequence; link pointers and the table of permanent processes are not modelled.
- Cbc.CbcEncrypt: a destination that begins inside the source, past its start, is not covered, because source data is then overwritten before it is read (`Cbc.ClearIff`); the raw cipher is taken to read its block before writing it.
- Base64.Decode: the encoded string is shorter than 2^32 / 6 characters, so that the bit counter wraps only through padding.
- Random.Generator.Seed: seeds are 32-bit values; the conversion from an unsigned argument is the caller's.
- Parsing of certificates, keys and times, which would add many easy members about fixed formats.
- The other digests and block ciphers, which have the shape of the ones modelled.
- Drivers, network protocols, settings, menus and the firmware's start-up.
