# mcc verified core

A model of the algorithmic core of the mcc traffic generator, with proofs: the AES-GCM and AES code
behind its TLS layer, the block-cipher modes and the buffering cipher layer above them, the stateless
TCP stream simulator with its string matcher and its sender threads, the queues that carry work
between cores, the HTTP request codec, the relay buffers with their framing, receive-side scaling, and
the connection byte buffer. Check everything with `dafny verify dfyconfig.toml`.

Code that works by changing things in place is a class or a method with loops, proved against
functions on values; the laws are lemmas about those functions, so they hold of the code. The modules
whose names end in `Form` say what those functions are a second time, place by place and without
using them: each byte of a round, of a tag, of a ciphertext or of a packet by its position.

## What is proved

- **GCM** (`GhashField`, `GhashRing`, `GcmSpec`, `GcmStream`, `GcmLaws`, `GcmForm`, `Gcm`). The 4-bit table
  multiplication computes the bit-by-bit product of section 6.3 of NIST SP 800-38D for all blocks and
  keys, and with it the blocks are a field. Starting, updating in block-aligned pieces and finishing
  equals one-shot sealing as in section 7.1 of that standard, and for every other cut there is a block
  cipher that shows it; decryption restores the plaintext, and a wrong tag yields zeros. Key by key it is
  stated when the standard's counter is derived. Counter blocks never repeat under the length cap when
  only the last piece is partial. The tag is written out as a polynomial in the hash key, with both
  lengths in their places. Updates and the one-shot calls are also right in place and on overlapping
  memory.
- **AES** (`Gf256`, `AesSpec`, `AesTables`, `Aes`, `AesForm`). The table generation is right because {03} has
  order 255 in the field of FIPS 197; the table-driven rounds are the round functions of FIPS 197; the
  key expansion is that of its section 5.2, byte by byte; a block's encryption is the only one that
  follows the standard's byte equations; decryption undoes encryption for every key and block.
- **Modes** (`BlockModes`, `CipherLayer`, `AesCbc`, `ModeForm`). CBC, CFB128, CFB8 and CTR may be cut anywhere
  between calls and are undone by decryption, and CFB128 and CTR agree with the block-wise definitions
  of NIST SP 800-38A. The buffering layer hides how data is chunked, in both directions, with PKCS7
  padding; for AES the two directions compose to the identity.
- **Streams** (`StringMatcher`, `StreamGen`, `StreamForm`, `SendThreads`). The Sunday matcher finds the first
  occurrence. For every stored stream and every draw of lengths, clock and random numbers, the packets
  a node sends from CLOSED back to CLOSED are accepted in order by strict receivers and carry exactly
  the stream; it ends within a bound. On the wire of a whole thread every node's packets form one such
  connection after another, each carrying a stored stream, while buffers are exchanged and none is lost
  or doubled. A pass serves every node of the thread, so each of them completes stream after stream
  within a bounded number of passes.
- **Queues between cores** (`SmpProtocol`, `SmpQueue`, `SmpPoll`, `SmpLive`). For any number of cores
  and any interleaving no item is lost, duplicated or reordered, every callback gets the result of its
  own item after it ran, and full rings cannot lock two cores up. The poll of a core, with all other cores acting on any queue
  in its pauses and the functions it runs submitting work, is a run of that protocol, serves everything
  that waited, sends what was staged and reports it. Two cores that keep polling call back every
  submission, 128 at a time.
- **HTTP** (`HttpText`, `Http`). Parsing a serialized request gives it back exactly when the request is
  clean, in the sense of `Http.Clean`.
- **Relay buffers** (`RepFrames`, `RepBuffer`), **receive-side scaling** (`Rss`) and the
  **connection buffer** (`BufferModel`, `Buffer`): framing loses nothing, the hash is the Toeplitz
  matrix product and its symmetry is characterised, and the buffer holds the bytes put in without the
  consumed prefix. Appending and consuming need memory bounded by the largest size held; with reads the
  bound is in the number of bytes put in since the buffer was last empty, and it is reached.

## Where the code differs from what one would expect

- `mbedtls_gcm_starts` writes the IV's bit length into 32 bits, the standard asks for 64:
  `GcmLaws.IvLengthExact` gives the exact condition.
- Block-aligned updates are needed for GCM (`GcmLaws.ChunkingExact`): for any other cut some block
  cipher gives a different result, and 2^32 one-byte updates stay under the length cap and bring the
  counter back (`GcmLaws.UnalignedUpdatesWrap`).
- `mbedtls_gcm_auth_decrypt` looks at the tag length only after the output has been written, and that
  error does not clear it; a wrong tag does. `Gcm.FailureWithholdsExactly` gives the condition.
- The loop of `process_queue` reads the array element after the last one it uses. With a batch of 129
  that lies past the array; the value is never used (`SmpPoll.Core.ProcessIncoming`). Such a batch needs
  a ring that is full at the second pop. For requests that can happen without a new submission exactly
  when ring and staging held more than 128 items (`SmpQueue.OverrunExact`), and with submissions whenever
  there is a first item to pop (`SmpQueue.OverrunBySubmitting`); for answers exactly when the receiver
  had more than 128 items answered or to answer (`SmpQueue.OverrunOfAnswers`).
- The last round of the logarithm loop gives 1 the logarithm 255 instead of 0; the tables come out
  right because both exponents give 1.
- In `send_packet` the length is unsigned, so the branch for a missing header end is never taken and
  such a stream is cut up like a jumbo packet; modelled as written.
- `make_room()` without a size leaves the suggested room in every run in which that size is not changed
  (`BufferModel.RoomAlwaysLeft`). After `set_suggest_size` on a buffer that holds data it may not:
  `BufferModel.RaisedSuggestion` gives such runs, `BufferModel.DefaultRoomExactly` the condition.
- It also doubles the memory without ever moving the data to the front, so reading and consuming with a
  byte left over takes memory beyond any bound although no more than 2048 bytes are held
  (`BufferModel.NoBoundByPeak`). `BufferModel.ReadKeepsTightExactly` says when a read keeps the bound.
- The CBC, CFB and CTR code is compiled out by src/aes/config.h; it is modelled as written.
- Looking up an unknown method or version while parsing a request yields GET or HTTP/1.0.

## Model

| member | source | states |
|---|---|---|
| GhashField.ProductIsHorner | src/aes/gcm.c:216-270 | Horner's rule over sixteen multiples of the key, four bits at a time, equals the 128-step product of SP 800-38D for all inputs |
| GhashField.ShoupShiftIsMulP4 | src/aes/gcm.c:204-254 | a four-bit shift of the two words with its `last4` correction is four multiplications by the field's generator |
| GhashField.EntryPowers | src/aes/gcm.c:125-146 | table entries 8, 4, 2, 1 and 0 are the key times increasing powers of the generator, and zero |
| GhashField.EntrySplits | src/aes/gcm.c:148-158 | the remaining entries are sums of those, as the doubling loop assumes |
| GhashField.StoreLoad | src/aes/gcm.c:115-122 | reading a block as words and writing it back loses nothing |
| GhashRing.TimesIsProduct | src/aes/gcm.c:216-270 | the product of the standard is the ring's multiplication |
| GhashRing.TimesCommutes | src/aes/gcm.c:216-270 | that product commutes although its two arguments are treated so differently |
| GhashRing.TimesAssociates | src/aes/gcm.c:216-270 | and associates |
| GhashRing.TimesDistributes | src/aes/gcm.c:216-270 | and distributes over addition |
| GhashRing.Reduces | src/aes/gcm.c:140-142 | the constant 0xe1 is the reduction of P^128 to 1 + P + P^2 + P^7 |
| GhashRing.SquareIs | src/aes/gcm.c:216-270 | squaring has a closed form on the two words |
| GhashRing.SquareZeroIsZero | src/aes/gcm.c:216-270 | only zero has square zero |
| GhashRing.FixedIsZeroOrOne | src/aes/gcm.c:216-270 | only zero and one are their own squares |
| GhashRing.Invertible | src/aes/gcm.c:216-270 | every element but zero has an inverse: GF(2^128) as the code computes in it is a field |
| GhashRing.TimesInjective | src/aes/gcm.c:216-270 | multiplying by anything but zero loses nothing |
| Gcm.MulIsHorner | src/aes/gcm.c:216-270 | the standard's block product, on bytes, is the code's evaluation order |
| Gcm.Context.constructor | src/aes/gcm.c:163-202 | a keyed context holds the full multiplication table of its hash key |
| Gcm.Context.GenTable | src/aes/gcm.c:103-161 | the loops leave n times the hash key at every index n of the two word arrays |
| Gcm.Context.GenPowers | src/aes/gcm.c:125-146 | the halving loop fills the power-of-two entries |
| Gcm.Context.GenSums | src/aes/gcm.c:148-158 | from those entries the doubling loop completes the table |
| Gcm.Context.ShiftAndAdd | src/aes/gcm.c:249-254 | one step multiplies by the generator's fourth power and adds a multiple of the key |
| Gcm.Context.Accumulate | src/aes/gcm.c:237-265 | the loop over sixteen bytes is Horner's rule for the whole block |
| Gcm.Context.Mult | src/aes/gcm.c:216-270 | the output block is the standard's product of the input and the hash key, even when both are one buffer |
| Gcm.Context.HashString | src/aes/gcm.c:339-350 | absorbing a string piece by piece, the last one short, is GHASH of the zero-padded string |
| Gcm.Context.SetCounter | src/aes/gcm.c:300-328 | the counter is the IV with 1 appended for twelve bytes, else GHASH of the padded IV and a 32-bit bit length |
| Gcm.Context.Starts | src/aes/gcm.c:272-353 | succeeds exactly for lengths below 2^61, and then the context is a fresh stream; on failure nothing changes |
| Gcm.Context.CryptBlock | src/aes/gcm.c:381-409 | one round of the loop is an update by at most a block |
| Gcm.Context.Update | src/aes/gcm.c:355-412 | on separate buffers: accepts exactly while the length cap holds; writes the keystream XOR of the input and absorbs the ciphertext side in either mode |
| Gcm.MaskBytes | src/aes/gcm.c:395-402 | the byte loop is right in place and for any overlap with the output not inside the unread input |
| Gcm.Context.CryptInMemory | src/aes/gcm.c:381-409 | so is a whole round |
| Gcm.Context.UpdateInMemory | src/aes/gcm.c:355-412 | on shared memory: rejects exactly an output that starts inside the input after its first byte, or too long a message; otherwise writes what separate buffers would get and touches no other byte |
| Gcm.Context.Finish | src/aes/gcm.c:414-448 | for tag lengths 4 to 16 gives the tag of everything absorbed with both bit lengths |
| Gcm.Context.CryptAndTag | src/aes/gcm.c:450-492 | one call seals as section 7.1 of SP 800-38D says, for IVs below 2^29 bytes; states the exact error condition and that a rejected tag length leaves the output written |
| Gcm.Context.AuthDecrypt | src/aes/gcm.c:494-528 | opens as section 7.2 says for tags of 4 to 16 bytes: the plaintext if and only if the tag matches, otherwise an error and zeros; for every argument, the return code and what is left in the output |
| Gcm.Context.CryptAndTagInMemory | src/aes/gcm.c:450-492 | the same call on shared memory: what separate buffers would get and no other byte touched; an output that starts inside the input after its first byte is rejected and the memory left as it was |
| Gcm.Context.AuthDecryptInMemory | src/aes/gcm.c:494-528 | the same for decryption: code and memory for every argument, the plaintext if and only if the tag matches, and in place a wrong tag turns the only copy of the input into zeros |
| Gcm.Zeroize | src/aes/gcm.c:83-85 | exactly the given part of the memory becomes zeros |
| Gcm.Decrypted | src/aes/gcm.c:494-528 | what decryption leaves behind is nothing at all or as long as the input |
| Gcm.FailureWithholdsExactly | src/aes/gcm.c:473-528 | a failing call leaves nothing but zeros under every block cipher, if and only if the tag length is allowed, the lengths are refused first, or there is no input |
| Gcm.Difference | src/aes/gcm.c:518-519 | the accumulated difference is zero exactly for equal tags |
| Gcm.XorInto | src/aes/gcm.c:315-316 | adds a possibly short piece as if it were padded with zeros |
| Gcm.Inc32IsSucc | src/aes/gcm.c:385-387 | the carry loop over the last four bytes is the standard's 32-bit increment |
| Gcm.SealedInOneUpdate | src/aes/gcm.c:450-492 | start, one update and finish seal a message |
| Gcm.OpenedInOneUpdate | src/aes/gcm.c:494-528 | the same three steps and a tag comparison open it |
| GcmStream.UpdatedShort | src/aes/gcm.c:381-409 | an update of at most a block increments once, masks once and multiplies once |
| GcmStream.UpdatedAppends | src/aes/gcm.c:355-412 | an update of whole blocks followed by any other is one update of both |
| GcmLaws.ChunkingIsInvisible | src/aes/gcm.c:355-412 | however a message is cut at block boundaries, output and state are those of one update |
| GcmLaws.ChunkingExact | src/aes/gcm.c:355-412 | the cuts that do not show in the output under every block cipher are exactly those in which only the last non-empty piece ends inside a block |
| GcmLaws.StreamComputesTag | src/aes/gcm.c:272-448 | output and tag are the standard's GCTR and full tag from the counter of `starts`, in both modes |
| GcmLaws.StreamSeals | src/aes/gcm.c:272-448 | sealing in any aligned pieces is the standard's one-shot sealing |
| GcmLaws.StreamRoundTrip | src/aes/gcm.c:272-448 | decrypting what was encrypted restores it and recomputes the same tag, for every cipher, IV and length |
| GcmForm.GhashIsPolynomial | src/aes/gcm.c:339-350 | hashing is the polynomial in the hash key whose coefficients are the blocks, the last one at the first power |
| GcmForm.LengthBlockIs | src/aes/gcm.c:429-441 | the block hashed last has the bit length of the additional data in its first half and that of the text in its second |
| GcmForm.TagIsPolynomial | src/aes/gcm.c:414-448 | the full tag is that polynomial of the additional data, the ciphertext and the one block with these lengths, plus the encrypted pre-counter block |
| GcmForm.TagOfDataBlock | src/aes/gcm.c:414-448 | for one block of additional data: b H^2 plus the literal length block times H plus the mask |
| GcmForm.TagOfTextBlock | src/aes/gcm.c:414-448 | the mirror image for one block of text |
| GcmForm.PreCounterIs | src/aes/gcm.c:300-328 | twelve bytes are followed by the number one; any other IV is the polynomial of its blocks and its bit length |
| GcmForm.SealedByte | src/aes/gcm.c:381-409 | ciphertext byte i is masked with byte i mod 16 of the encrypted counter 1 + i / 16 steps on |
| GcmForm.SealedTag | src/aes/gcm.c:450-492 | the tag of a sealed message is the leftmost bytes of that polynomial |
| GcmLaws.StartCounterIsPreCounter | src/aes/gcm.c:300-328 | for IVs below 2^29 bytes the counter is the standard's pre-counter block |
| GcmLaws.IvLengthExact | src/aes/gcm.c:307-328 | key by key: that agreement holds if and only if the IV is below 2^29 bytes or the hash key is zero |
| GcmLaws.MulInjective | src/aes/gcm.c:216-270 | different blocks have different products with a hash key other than zero |
| GcmLaws.KeystreamAt | src/aes/gcm.c:383-402 | byte i is masked with byte i mod 16 of the counter i/16 steps on |
| GcmLaws.MaskedWith | src/aes/gcm.c:381-409 | over any list of updates each byte is masked with the counter block of its own update and place |
| GcmLaws.CounterAfter | src/aes/gcm.c:381-409 | after any updates the counter has moved by the blocks and partial blocks they took |
| GcmLaws.AlignedCounters | src/aes/gcm.c:381-409 | aligned updates take exactly as many counters as the message has blocks |
| GcmLaws.CountersDistinctExact | src/aes/gcm.c:381-409 | the counter blocks a list of updates encrypts differ from one another and from J0, if and only if there are fewer than 2^32 |
| GcmLaws.CountersNeverRepeat | src/aes/gcm.c:370-409 | under the length cap with aligned updates the counter blocks of a message never repeat or equal J0, and the IV part stays |
| GcmLaws.UnalignedUpdatesWrap | src/aes/gcm.c:370-409 | a concrete unaligned run within the cap that returns to the first counter |
| GcmSpec.GctrTwice | src/aes/gcm.c:383-402 | masking twice is the identity |
| GcmSpec.GctrAppends | src/aes/gcm.c:381-409 | masking a concatenation continues the counter after whole blocks |
| GcmSpec.GhashAppends | src/aes/gcm.c:339-350 | hashing a concatenation continues the hash of its first part |
| GcmSpec.OpenUndoesSeal | src/aes/gcm.c:450-528 | opening what was sealed gives the plaintext, for every cipher, IV, additional data and tag length |
| GcmSpec.IncByCounts | src/aes/gcm.c:385-387 | k increments add k modulo 2^32 to the last four bytes and keep the first twelve |
| GcmSpec.IncByDistinct | src/aes/gcm.c:385-387 | blocks fewer than 2^32 steps apart differ |
| GcmSpec.IncByWraps | src/aes/gcm.c:385-387 | 2^32 steps return to the start |
| Counter.Increment | src/aes/aes.c:1023-1025 | the carry loop, stopping early, counts the whole byte string one further |
| Counter.SuccCounts | src/aes/aes.c:1023-1025 | counting further adds one to the big-endian value modulo its range |
| Gf256.TimesXtime | src/aes/aes.c:385-386 | doubling moves freely through products |
| Gf256.TimesTriple | src/aes/aes.c:399-404 | so does the step of the power loop |
| Gf256.Order | src/aes/aes.c:399-404 | no smaller power than the 255th of {03} is one |
| Gf256.PowInjective | src/aes/aes.c:399-404 | its first 255 powers are distinct |
| Gf256.Generates | src/aes/aes.c:399-404 | every non-zero element is one of them, so the logarithm table is complete |
| Gf256.PowInverse | src/aes/aes.c:423 | negating an exponent gives the field inverse |
| Gf256.PowProduct | src/aes/aes.c:386 | adding exponents modulo 255 gives the field product |
| Gf256.TimesCommutes | src/aes/aes.c:386 | field multiplication commutes |
| Gf256.TimesAssociates | src/aes/aes.c:386 | field multiplication associates |
| Gf256.InverseUnique | src/aes/aes.c:423 | an element has one inverse, so the S-box is determined |
| AesSpec.AffineBits | src/aes/aes.c:425-429 | the rotations compute the bit equations of section 5.1.1 of FIPS 197 |
| AesSpec.SubByteInverse | src/aes/aes.c:418-433 | the two S-boxes are inverse permutations |
| AesSpec.InvMixColumnUndoes | src/aes/aes.c:453-456 | the matrix with coefficients 0e, 0b, 0d, 09 inverts MixColumns |
| AesSpec.RoundsUndone | src/aes/aes.c:714-821 | after r rounds of the equivalent inverse cipher the state is the one r rounds before the end of the cipher |
| AesSpec.CipherUndone | src/aes/aes.c:714-821 | the equivalent inverse cipher under the inverted schedule undoes the cipher, for any schedule |
| AesTables.GenLogarithms | src/aes/aes.c:399-404 | the loop leaves all powers of {03} and an exponent of every non-zero element |
| AesTables.Mul | src/aes/aes.c:386 | the table product is the field product, zero included |
| AesTables.Substitute | src/aes/aes.c:423-429 | the rotations turn an inverse into the standard's S-box value |
| AesTables.GenSboxes | src/aes/aes.c:418-433 | both S-boxes are those of FIPS 197 at all 256 indices |
| AesTables.ForwardWords | src/aes/aes.c:440-451 | the four forward words are the S-box value times the columns of the MixColumns matrix |
| AesTables.ReverseWords | src/aes/aes.c:453-462 | the four reverse words are those of the inverse |
| AesTables.GenForward | src/aes/aes.c:438-451 | all four forward tables are filled accordingly |
| AesTables.GenReverse | src/aes/aes.c:453-462 | all four reverse tables are filled accordingly |
| AesTables.GenRcon | src/aes/aes.c:409-413 | the round constants are the powers of {02} |
| AesTables.GenTables | src/aes/aes.c:390-464 | the generated tables are all the tables FIPS 197 calls for |
| AesTables.SboxesInverse | src/aes/aes.c:418-433 | as arrays, each generated S-box undoes the other at every byte |
| Aes.FWordIsRound | src/aes/aes.c:664-685 | four lookups and a key word give a column of SubBytes, MixColumns and AddRoundKey |
| Aes.RWordIsRound | src/aes/aes.c:687-708 | the same for the inverse round |
| Aes.FRoundIsRound | src/aes/aes.c:664-685 | a table round is SubBytes, ShiftRows, MixColumns and AddRoundKey |
| Aes.RRoundIsRound | src/aes/aes.c:687-708 | an inverse table round is the round of the equivalent inverse cipher |
| Aes.FLastIs | src/aes/aes.c:736-758 | the last encryption round omits MixColumns |
| Aes.RLastIs | src/aes/aes.c:793-815 | the last decryption round omits InvMixColumns |
| Aes.SubWordIs | src/aes/aes.c:534-582 | the byte shuffles of the key loop are SubWord with or without RotWord, which `AesForm.KeyWordRotated` writes out byte by byte |
| Aes.Expand128 | src/aes/aes.c:530-544 | the loop writes the 44 words of section 5.2 of FIPS 197 for four-word keys |
| Aes.Expand192 | src/aes/aes.c:546-562 | the loop writes the 52 words for six-word keys |
| Aes.Expand256 | src/aes/aes.c:564-588 | the loop writes the 60 words for eight-word keys, with the extra substitution |
| Aes.ExpandedSchedule | src/aes/aes.c:523-589 | those words, four at a time, are the round keys |
| Aes.InvWordIs | src/aes/aes.c:645-648 | the reverse tables after the forward S-box apply InvMixColumns to a key word |
| Aes.DecWordsIs | src/aes/aes.c:634-655 | every round key comes out reversed and, inside, through InvMixColumns |
| Aes.Context.constructor | src/aes/aes.c:468-471 | a context starts with no rounds |
| Aes.Context.SetKeyEnc | src/aes/aes.c:485-592 | accepts exactly 128, 192 and 256 bits and then holds the standard's schedule; otherwise nothing changes |
| Aes.Context.SetKeyDec | src/aes/aes.c:599-661 | the same for the inverted schedule |
| Aes.Context.Encrypt | src/aes/aes.c:714-764 | the unrolled double rounds compute the cipher of FIPS 197 under the held schedule |
| Aes.Context.Decrypt | src/aes/aes.c:771-821 | they compute the equivalent inverse cipher |
| Aes.DecryptUndoesEncrypt | src/aes/aes.c:485-821 | for every key of the three sizes and every block, decryption undoes encryption |
| AesForm.LoadedBytes | src/aes/aes.c:723-726 | byte r + 4c of a block is row r, column c of the state |
| AesForm.StoredBytes | src/aes/aes.c:760-763 | and is written back there |
| AesForm.RoundBytes | src/aes/aes.c:664-685 | each byte of a round: the coefficients 2, 3, 1, 1 turned to its row, times the S-box values ShiftRows brings to its column, plus its key byte; the last round without mixing |
| AesForm.KeyWordGiven | src/aes/aes.c:523-526 | the first words are the key's bytes in order |
| AesForm.KeyWordRotated | src/aes/aes.c:534-538 | byte r of the first word of a group is the one a group earlier, plus the S-box value of byte r + 1 of the word before, plus the round constant in byte 0 |
| AesForm.KeyWordSubstituted | src/aes/aes.c:578-582 | the fifth word of a group for 256-bit keys, without turning |
| AesForm.KeyWordPlain | src/aes/aes.c:540-542 | every other word is the sum of two |
| AesForm.RconValues | src/aes/aes.c:409-413 | the ten constants in hexadecimal |
| AesForm.ExampleWord | src/aes/aes.c:534-538 | the first word made from the example key of FIPS 197 is a0fafe17 |
| AesForm.EncryptsByteByByte | src/aes/aes.c:485-764 | for every key and block there are states from the block to its encryption that follow these byte equations, nr rounds of them |
| AesForm.OnlyEncryption | src/aes/aes.c:485-764 | and no other output does |
| BlockModes.CryptCbc | src/aes/aes.c:861-920 | rejects partial blocks, else gives CBC of SP 800-38A and leaves the IV for the next call |
| BlockModes.CbcAppends | src/aes/aes.c:861-920 | two calls with the carried IV equal one call |
| BlockModes.CbcUndone | src/aes/aes.c:861-920 | CBC decryption undoes encryption whenever the block functions are inverse |
| BlockModes.Resumes | src/aes/aes.c:927-1036 | for any byte machine, processing a then b with the carried state equals processing both at once |
| BlockModes.CryptCfb128 | src/aes/aes.c:927-968 | output, register and offset are those of the CFB128 machine |
| BlockModes.CfbUndone | src/aes/aes.c:927-968 | CFB128 decryption undoes encryption for an arbitrary block function and leaves the same state |
| BlockModes.CfbIsBlockwise | src/aes/aes.c:927-968 | from a block boundary CFB128 is the block-wise definition of SP 800-38A |
| BlockModes.CryptCfb8 | src/aes/aes.c:973-1000 | output and register are those of the CFB8 machine |
| BlockModes.Cfb8Undone | src/aes/aes.c:973-1000 | CFB8 decryption undoes encryption for an arbitrary block function |
| BlockModes.CryptCtr | src/aes/aes.c:1007-1036 | output, counter, stream block and offset are those of the CTR machine |
| BlockModes.CtrUndone | src/aes/aes.c:1007-1036 | CTR is its own inverse for an arbitrary block function |
| BlockModes.CtrIsBlockwise | src/aes/aes.c:1007-1036 | from a block boundary CTR is the block-wise definition of SP 800-38A |
| ModeForm.CbcEncryptedBlock | src/aes/aes.c:905-916 | ciphertext block j is the encryption of plaintext block j plus ciphertext block j - 1, or the IV |
| ModeForm.CbcDecryptedBlock | src/aes/aes.c:886-902 | plaintext block j is the decryption of ciphertext block j plus the one before |
| ModeForm.Cfb128ByteAt | src/aes/aes.c:952-963 | byte i is masked with byte i mod 16 of the encryption of the ciphertext block before it |
| ModeForm.Cfb8ByteAt | src/aes/aes.c:982-997 | byte i is masked with the first byte of the encryption of the sixteen bytes of IV and ciphertext before it |
| ModeForm.CtrByteAt | src/aes/aes.c:1018-1031 | byte i is masked with the encryption of the first counter plus i / 16, modulo 2^128 |
| CipherLayer.AddPkcsPadding | src/aes/cipher.c:434-442 | the rest of the block is filled with its own length |
| CipherLayer.GetPkcsPadding | src/aes/cipher.c:444-467 | accepts exactly the padded blocks and then reports the only data length that fits |
| ModeForm.PaddedBytes | src/aes/cipher.c:434-442 | one to sixteen bytes are added to any message, each holding their number |
| CipherLayer.UpdatedAppends | src/aes/cipher.c:300-376 | two updates are one update of both inputs, whatever is cached |
| CipherLayer.ChunkingIsInvisible | src/aes/cipher.c:300-376 | any cut of the input gives the same output and the same cache, within its bound |
| CipherLayer.UpdateParts | src/aes/cipher.c:320-373 | completing the cached block, then whole blocks, then caching the tail adds up to one update |
| CipherLayer.EncryptAnyChunking | src/aes/cipher.c:300-672 | updates in any pieces and a finish give one-shot CBC of the padded message |
| CipherLayer.DecryptAnyChunking | src/aes/cipher.c:300-672 | decrypting that ciphertext in any pieces gives the message back, the last block kept until finish |
| CipherLayer.Context.constructor | src/aes/cipher.c:197-234 | a new context has its IV and nothing cached |
| CipherLayer.Context.CacheTail | src/aes/cipher.c:348-359 | the incomplete block is cached, when decrypting the last block even if whole |
| CipherLayer.RemovePadding | src/aes/cipher.c:664-667 | the data of a padded block; an error and the whole block for any other |
| CipherLayer.Context.Update | src/aes/cipher.c:300-376 | the code's branches compute the update of the layer |
| CipherLayer.Context.Finish | src/aes/cipher.c:625-672 | every outcome: padded last block, missing block, bad padding with the whole block left in the output, or the data without its padding |
| AesCbc.RoundTrip | src/aes/cipher.c:300-672 | for every AES key, IV, message and cut of the ciphertext, the cipher layer restores the message |
| StringMatcher.SundayPre | src/stream_gen/string_matcher.c:14-25 | each byte's entry is its distance from its last place in the pattern to the place after it |
| StringMatcher.NothingSkipped | src/stream_gen/string_matcher.c:48-54 | a shift never jumps over an occurrence, whatever byte lies after the target |
| StringMatcher.SundayMatch | src/stream_gen/string_matcher.c:37-57 | the result is the index after the first occurrence, or -1 if there is none, as for the naive search |
| StringMatcher.FindEndIsFirst | src/stream_gen/string_matcher.c:27-36 | the naive search finds the first occurrence |
| StringMatcher.FirstEndUnique | src/stream_gen/string_matcher.c:27-36 | only one index meets that description |
| StreamGen.DataLen | src/stream_gen/stream_gen.c:995-1014 | a jumbo packet's part is between 40 bytes and the segment limit |
| StreamForm.CutLength | src/stream_gen/stream_gen.c:995-1014 | it is the fixed length when lengths are fixed and otherwise the stream's length by the number of parts, as far as the limits allow |
| StreamForm.SegmentIs | src/stream_gen/stream_gen.c:1033-1045 | the bytes of a data packet: up to the end of the first empty line in a complete packet if that fits, a cut otherwise, or the rest |
| StreamGen.WantedLen | src/stream_gen/stream_gen.c:1033-1045 | the length asked for is between 4 bytes and the segment limit |
| StreamGen.SegmentLen | src/stream_gen/stream_gen.c:865-923 | a data packet never reaches past the buffer, and only the last may be shorter than 4 bytes |
| StreamGen.StepAccepted | src/stream_gen/stream_gen.c:1017-1054 | every call emits packets both receivers accept (numbers, acknowledgements, echoed timestamps, none older than the last) and keeps sender and receivers in step |
| StreamGen.RestAccepted | src/stream_gen/stream_gen.c:1017-1054 | from any point of a connection the remaining packets are accepted and complete the stream |
| StreamGen.StreamDelivered | src/stream_gen/stream_gen.c:1017-1054 | from CLOSED to CLOSED the packets are accepted in order and their payloads add up to the stored stream |
| StreamForm.OneDataPacket | src/stream_gen/stream_gen.c:865-923 | data packet j with its numbers, timestamps and bytes, its acknowledgement, and the node afterwards |
| StreamForm.RestWritten | src/stream_gen/stream_gen.c:1017-1054 | from any point of the data transfer, all packets up to the close by their place |
| StreamForm.ConnectionWritten | src/stream_gen/stream_gen.c:1017-1054 | every packet of a whole connection written out: flags, numbers, timestamps and bytes, each piece as long as its call draws it, and the node ready for the next one |
| StreamGen.StepWatched | src/stream_gen/stream_gen.c:1017-1054 | two ends that start anew after each connection accept every call; the last call of a connection delivers exactly the stored stream |
| StreamGen.RankDecreases | src/stream_gen/stream_gen.c:1017-1054 | each call brings the node closer to being closed |
| StreamGen.Terminates | src/stream_gen/stream_gen.c:1017-1054 | however lengths are drawn, the node is closed again within its rank, len / 4 + 7 calls from the start |
| StreamGen.FewDataPackets | src/stream_gen/stream_gen.c:865-923 | a stream takes at most len / 4 + 1 data packets |
| StreamGen.BufNode.constructor | src/stream_gen/stream_gen.c:760-792 | a new node is closed at offset 0 |
| StreamGen.BufNode.SendSyn | src/stream_gen/stream_gen.c:428-534 | the three packets of the handshake and the fields they change, one per call |
| StreamGen.BufNode.SendAck | src/stream_gen/stream_gen.c:795-823 | the server's acknowledgement of everything sent, with a later timestamp |
| StreamGen.BufNode.SendDataPkt | src/stream_gen/stream_gen.c:865-923 | the next bytes with their acknowledgement; the last ones close the stream |
| StreamGen.BufNode.SendFin | src/stream_gen/stream_gen.c:548-651 | the packets of the close, the last of which resets the node |
| StreamGen.BufNode.SendPacket | src/stream_gen/stream_gen.c:1017-1054 | one call is one step of the state machine, with the length taken from the header end the matcher finds |
| SendThreads.SendsBelow | src/stream_gen/stream_gen.c:1408-1431 | no thread sends from an index at or above the number of concurrent streams |
| SendThreads.Partner | src/stream_gen/stream_gen.c:673-675 | the node a finished stream swaps with is in range and above that number |
| SendThreads.PartnerExactly | src/stream_gen/stream_gen.c:673-675 | some random number picks it if and only if it is neither the first nor the last of the spare ones |
| SendThreads.ExchangeIs | src/stream_gen/stream_gen.c:673-683 | at the end of a stream with more than twelve spares exactly the two buffers change places, and at no other time |
| SendThreads.BufsKept | src/stream_gen/stream_gen.c:673-683 | a call keeps the multiset of the thread's buffers |
| SendThreads.SentKeeps | src/stream_gen/stream_gen.c:651-684 | a call touches no other sending node, keeps spares idle and offsets in range |
| SendThreads.RunKeeps | src/stream_gen/stream_gen.c:1392-1431 | over any run no offset passes its length, spares stay idle and no buffer is lost or doubled |
| SendThreads.StreamsIsolated | src/stream_gen/stream_gen.c:1392-1431 | a stream in progress is what its own calls make of it, whatever the thread does in between |
| SendThreads.WireDelivers | src/stream_gen/stream_gen.c:1392-1431 | over any run of a thread the packets of each node form accepted connections one after another, delivering exactly the streams the node completed |
| SendThreads.FinishedStored | src/stream_gen/stream_gen.c:651-684 | each completed stream is one of those the thread stores, exchanges included |
| SendThreads.ThreadDelivers | src/stream_gen/stream_gen.c:1392-1431 | from the start of a thread on, every connection on the wire carries one stored stream from beginning to end |
| SendThreads.RunOneMore | src/stream_gen/stream_gen.c:1392-1431 | appending an event to a run is one more call after it |
| SendThreads.WireOneMore | src/stream_gen/stream_gen.c:1392-1431 | and adds the packets of that call to the wire |
| SendThreads.SendThread.constructor | src/stream_gen/stream_gen.c:1392-1431 | a thread starts with all its nodes closed at offset 0 |
| SendThreads.SendThread.SendOne | src/stream_gen/stream_gen.c:1417-1425 | one call continues a node's turn or completes it, because it was the last wanted or ended the stream |
| SendThreads.SendThread.Sweep | src/stream_gen/stream_gen.c:1408-1431 | a pass gives every node of the thread that exists one turn, in order: as many calls as drawn, fewer only when the last one ended its stream; and sends exactly the packets of these calls |
| SendThreads.AllServed | src/stream_gen/stream_gen.c:1408-1431 | stopping at the count or at the end of the nodes leaves none of the thread's nodes out |
| SendThreads.PassCalls | src/stream_gen/stream_gen.c:1408-1431 | so every node is called at least once in a pass |
| SendThreads.NodeFinishes | src/stream_gen/stream_gen.c:1392-1431 | a node that gets enough calls completes the stream it holds and then k more, whatever the others do |
| SendThreads.PassesFinish | src/stream_gen/stream_gen.c:1392-1431 | within (k + 1) times the calls the longest stream takes |
| SendThreads.SendLoop | src/stream_gen/stream_gen.c:1405-1432 | that many passes are one run of the thread in which every node is called that often |
| SmpProtocol.InvKept | src/smp.cc:15-95 | every action of either core keeps the stages in submission order, the runs in step and the rings within 128 |
| SmpProtocol.InOrder | src/smp.cc:15-95 | callbacks called are a prefix of the runs with their results, and runs a prefix of the submissions |
| SmpProtocol.EndsOwned | src/smp.cc:167-186 | each end of each ring and each staging area is used by one core only |
| SmpProtocol.SenderLeaves | src/smp.cc:15-95 | however often the sender acts, the receiver's popped batch, its staging and the runs stay as they are |
| SmpProtocol.ReceiverLeaves | src/smp.cc:15-95 | the same for the sender's popped answers while the receiver acts |
| SmpProtocol.Advance | src/smp.cc:15-95 | while something is under way some action can move it, however full the rings are |
| SmpProtocol.EverythingCompletes | src/smp.cc:15-95 | after submissions stop no schedule is longer than the work left, and one that cannot go on has completed everything in order |
| SmpProtocol.SystemInvKept | src/smp.cc:167-186 | a step of one core keeps the invariant of all queues of all cores |
| SmpProtocol.LiftedRuns | src/smp.cc:167-186 | actions on one queue are steps of its two cores and leave all other queues alone |
| SmpProtocol.InvThroughout | src/smp.cc:167-186 | so does any run from any good state |
| SmpProtocol.AnyInterleaving | src/smp.cc:167-186 | for any number of cores and any interleaving from empty queues nothing is lost, duplicated, reordered or answered early or wrongly |
| SmpQueue.MessageQueue.constructor | include/smp.h:105-107 | a new queue is empty |
| SmpQueue.MessageQueue.PushPending | src/smp.cc:15-24 | moves staged requests in order and leaves some only when the ring is full |
| SmpQueue.MessageQueue.FlushRequestBatch | src/smp.cc:39-43 | the same, and nothing to do when none is staged |
| SmpQueue.MessageQueue.SubmitItem | src/smp.cc:45-51 | the item goes behind all earlier ones |
| SmpQueue.MessageQueue.FlushResponseBatch | src/smp.cc:26-37 | moves staged responses in order and leaves some only when the ring is full |
| SmpQueue.MessageQueue.ProcessItem | src/smp.cc:53-58 | running an item records its result, puts it behind all earlier responses and leaves some staged only when the ring is full |
| SmpQueue.OverrunExact | src/smp.cc:65-75 | without new submissions the request ring can be full at the second pop, so that the batch is one longer than the array, if and only if ring and staging held more than 128 items |
| SmpQueue.OverrunBySubmitting | src/smp.cc:65-75 | with submissions it can if and only if there is a first item to pop |
| SmpQueue.OverrunOfAnswers | src/smp.cc:65-75 | the response ring can if and only if the receiver had more than 128 items answered or to answer |
| SmpQueue.RequestsKept | src/smp.cc:15-24 | ring and staging together change only by submissions |
| SmpQueue.AnswersKept | src/smp.cc:26-58 | items answered or to answer stay the same in number whatever the receiver does |
| SmpPoll.PauseQuiet | src/smp.cc:167-186 | whatever step another core takes on any queue, and whatever this one submits, the polling core's popped batches, runs and callbacks stay and its rings only grow |
| SmpPoll.PauseStill | src/smp.cc:167-186 | no other core submits in this one's name |
| SmpPoll.ReceiveQuiet | src/smp.cc:26-77 | the core's actions as receiver leave its side of all its other queues alone |
| SmpPoll.SendQuiet | src/smp.cc:15-77 | so do its actions as sender |
| SmpPoll.Core.constructor | src/smp.cc:167-186 | a poll starts with an empty run of the protocol |
| SmpPoll.Core.Take | src/smp.cc:15-95 | an atomic action on the queue objects is one step of the protocol over all cores and extends the run |
| SmpPoll.Core.Pause | src/smp.cc:167-186 | any steps of all other cores on any queue, and submissions of this one, extend the run and keep what the poll relies on |
| SmpPoll.Core.PopRequests | src/smp.cc:65-69 | the two pops, with everyone acting between them, take at least what the ring held and at most 129 items |
| SmpPoll.Core.FlushResponses | src/smp.cc:26-37 | the staged answers lose exactly as many from their front as the ring had room for, whatever the others do |
| SmpPoll.Core.FlushRequests | src/smp.cc:39-43 | the same for the staged requests |
| SmpPoll.FlushedAnswers | src/smp.cc:26-37 | so all answers are sent or the ring was filled |
| SmpPoll.MovedRequests | src/smp.cc:15-24 | and all requests |
| SmpPoll.Core.RunItem | src/smp.cc:53-58 | an item runs once and its own result is recorded; afterwards all answers are sent or the ring was filled, whatever it submits and the others do |
| SmpPoll.Core.RunBatch | src/smp.cc:70-76 | the loop runs the first item and then the array, in order |
| SmpPoll.Core.ProcessIncoming | src/smp.cc:60-85 | the oldest submissions not yet run, at least all the ring held, run once each in order; says exactly when the read after the last element leaves the array, and how much had to wait or be submitted for that |
| SmpPoll.Core.PopResponses | src/smp.cc:65-69 | the same two pops on the response ring |
| SmpPoll.Core.CompleteItem | src/smp.cc:87-95 | a callback is called once, with the result of its item |
| SmpPoll.Core.CompleteBatch | src/smp.cc:70-76 | the same loop over answers |
| SmpPoll.Core.ProcessCompletions | src/smp.cc:87-95 | the oldest answers, at least all the ring held, reach their callbacks in order, each with its own result; the same for the read after the last |
| SmpPoll.RoundComposes | src/smp.cc:171-182 | flush, process, flush and complete together serve what waited on the two queues, send what was staged as far as the rings have room, and leave the other queues' polling side alone |
| SmpPoll.Core.Round | src/smp.cc:171-182 | so a round does all that for one core and reports whether it ran or called back anything |
| SmpPoll.PolledMore | src/smp.cc:169-183 | a round adds one core to those served, keeps them served and the rest waiting, and adds exactly its own work to the report |
| SmpPoll.BusyWorked | src/smp.cc:167-186 | if anything waited when the poll began, the poll has done something |
| SmpPoll.Core.PollQueues | src/smp.cc:167-186 | the poll, with all that others do meanwhile, is a run of the protocol over all cores; everything that waited for the core is served, its staged answers are sent or the ring was filled, and so are its requests; it reports exactly whether it ran or called back anything, which is so whenever something waited |
| SmpLive.RunLater | src/smp.cc:15-95 | in any run nothing goes back: submitted, in the ring, popped, run, sent, popped again and called back only grow |
| SmpLive.SenderPoll | src/smp.cc:167-186 | after the sender's poll all answers sent before are called back and its requests are in the ring or fill it |
| SmpLive.ReceiverPoll | src/smp.cc:167-186 | after the receiver's poll all requests in the ring before have run and their answers are sent or fill the ring |
| SmpLive.Exchange | src/smp.cc:167-186 | a receiver's poll and then a sender's bring a queue 128 items further or to the end of what was submitted |
| SmpLive.TurnsAnswer | src/smp.cc:167-186 | so do k exchanges, 128 k items, whatever else happens during and between the polls |
| SmpLive.EverySubmissionAnswered | src/smp.cc:167-186 | with enough polls every submission has been called back, in order |
| SmpLive.AsleepStaysIdle | src/smp.cc:167-186 | a core that takes no step is not brought into the middle of a poll by others |
| SmpLive.PollOnce | src/smp.cc:167-186 | one poll of one core while another does nothing is such a poll |
| SmpLive.PollInTurn | src/smp.cc:167-186 | two cores polling in turn, all others acting as they like, reach that bound |
| HttpText.Split | http/http_parser.h:15-32 | the loop yields the non-empty pieces between delimiter characters |
| HttpText.TokensSeparate | http/http_parser.h:15-32 | a delimiter makes its two sides independent |
| HttpText.TokensOfWord | http/http_parser.h:15-32 | text without delimiters is one token, or none if empty |
| HttpText.TokensAreWords | http/http_parser.h:15-32 | no token is empty or holds a delimiter |
| HttpText.InsertOrdered | http/http_parser.h:163 | inserting keeps the header map in key order without duplicates |
| HttpText.LessExactly | http/http_parser.h:163 | the key order is that of the first differing character, a prefix first |
| Http.VerbNamed | http/http_parser.h:48-63 | the reversed map inverts the method map |
| Http.VersionNamed | http/http_parser.h:67-73 | the same for versions |
| Http.WireNames | http/http_parser.h:48-73 | what each verb and version is written as |
| Http.SpacesAre | http/http_parser.h:94-97 | the characters taken out of values are blank and the codes 9 to 13 |
| Http.HeaderRoundTrip | http/http_parser.h:90-108 | a header's text parses to the header if and only if its key has no colon and its value no white space |
| Http.HeaderOfLine | http/http_parser.h:90-99 | any line with a colon: the key before the first one, the value after it up to the line's end without white space |
| Http.HeaderWithoutColon | http/http_parser.h:90-99 | a line without one is all key |
| Http.Serialize | http/http_parser.h:125-136 | the loop writes the request line, the headers in key order and the empty line |
| Http.ExampleText | http/http_parser.h:104-136 | the text of a request with any resource, key and value, character by character |
| Http.Parse | http/http_parser.h:138-166 | the constructor's loops give the first line's three parts and the ordered map of the other lines, or one of two errors |
| Http.FirstHeaderWins | http/http_parser.h:158-164 | a header is in the parsed map if and only if its line is the first with its key |
| Http.NoLineExactly | http/http_parser.h:138-146 | there is no first line if and only if the text is nothing but line ends |
| Http.ParsedClean | http/http_parser.h:138-166 | whatever text is accepted, the request is clean and its map ordered |
| Http.CleanParses | http/http_parser.h:125-166 | the text of every clean request parses back to it |
| Http.RoundTrip | http/http_parser.h:125-166 | parsing a serialized request gives it back if and only if it is clean |
| Http.ReparseIsStable | http/http_parser.h:125-166 | serializing and parsing what was parsed changes nothing |
| RepFrames.UnframedFramed | mtcp/util/ring_buffer.c:149-193 | reading frames header by header gives back the data they were made of, for every header layout in which lengths up to 10240 can be read back |
| RepFrames.PackedIsFaithful | mtcp/util/ring_buffer.c:173-178 | there is such a layout, with one byte each for type and command and two for the length |
| RepFrames.PackedFrame | mtcp/util/ring_buffer.c:173-184 | in that layout a frame is 1, 0, the length in two bytes, and the data |
| RepBuffer.RingBuffer.constructor | mtcp/util/ring_buffer.c:39-47 | a new buffer is empty and has the size asked for |
| RepBuffer.RingBuffer.GetRemain | mtcp/util/ring_buffer.c:64-79 | keeps the data, moves it to the front exactly when it starts past the middle, and returns the room behind it |
| RepBuffer.RingBuffer.Remove | mtcp/util/ring_buffer.c:101-117 | takes the prefix off, or fails and changes nothing for a negative or too large size; never moves the data's end up |
| RepBuffer.RingBuffer.Add | mtcp/util/ring_buffer.c:119-125 | bytes copied behind the data become its suffix and are counted |
| RepBuffer.CopyData | mtcp/util/ring_buffer.c:127-147 | copies a prefix of the source, stopping at the limit, the source's end or a full destination, and counts it |
| RepBuffer.MoveFrame | mtcp/util/ring_buffer.c:171-189 | one round moves a chunk behind its header, and source and destination stay consistent |
| RepBuffer.MoveFrames | mtcp/util/ring_buffer.c:160-190 | the loop frames until the wanted data is gone or no byte fits behind a header, filling every frame but the last |
| RepBuffer.MoveToRep | mtcp/util/ring_buffer.c:149-193 | unframing what was added is exactly the prefix the source lost, the rest stays, both buffers stay within bounds; it stops only when the source is empty, a positive limit is reached or no byte fits; the running total grows by the frames |
| Rss.BuildKeyCache | mtcp/util/rss.c:84-105 | entry i of the cache is the 32-bit window of the key at bit i |
| Rss.AddField | mtcp/util/rss.c:124-143 | a shifting loop adds the windows at the field's one bits |
| Rss.GetRssHash | mtcp/util/rss.c:107-145 | the four loops compute the Toeplitz hash of the four fields laid end to end |
| Rss.HashIsMatrixProduct | mtcp/util/rss.c:107-145 | bit j of the hash is the parity of the input bits against the key from bit j on |
| Rss.HashBits | mtcp/util/rss.c:124-143 | bit j is the sum of the parities of source address, destination address and the two ports against the key from bits j, 32 + j, 64 + j and 80 + j on |
| Rss.HashLinear | mtcp/util/rss.c:107-145 | the hash is linear over XOR in the whole 4-tuple |
| Rss.HalvesMakeSymmetric | mtcp/util/rss.c:107-145 | with repeating windows, swapping addresses and ports keeps the hash |
| Rss.SymmetricExactly | mtcp/util/rss.c:107-145 | all flows hash like their reverses if and only if the windows repeat after 32 bits for addresses and 16 for ports |
| Rss.SystemKeyAgrees | mtcp/util/rss.c:83-90 | the repeated 0x05 key has that property |
| Rss.SystemKeyBytes | mtcp/util/rss.c:83-90 | each of its 40 bytes is 0x05 |
| Rss.RedirectReversesGroups | mtcp/util/rss.c:147-162 | redirection reverses each group of four, stays below 128 and is its own inverse |
| Rss.RedirectBijective | mtcp/util/rss.c:159-162 | redirection is injective on the table, so no two entries fall together |
| Rss.EntryInTable | mtcp/util/rss.c:157-162 | every flow's masked and redirected value lies in the table |
| Rss.LowSevenIs | mtcp/util/rss.c:157-160 | the masked value is the number of the last seven hash bits |
| Rss.GetRssCpuCore | mtcp/util/rss.c:153-165 | with m that number, the core is (m / 4 * 4 + 3 - m % 4) modulo the number of queues, and the same for both directions of a connection |
| BufferModel.RoomIsMade | include/buffer.h:25-33 | there is always room for the length asked, and the data keeps its size |
| BufferModel.RoomPolicy | include/buffer.h:25-33 | the data stays exactly when the bytes fit behind it; the memory is replaced exactly when they do not and half of it would not do, and then at least doubles |
| BufferModel.ConsumedAll | include/buffer.h:64-68 | consuming all there is gives the memory back and leaves a buffer like a new one |
| BufferModel.InvKept | include/buffer.h:25-71 | appending, reading, consuming and changing the suggested size keep the data where it belongs and the capacity within `Memory`, about twice the bytes put in since the buffer was last empty and the suggested size |
| BufferModel.DefaultRoomExactly | include/buffer.h:35-37 | `make_room()` leaves the suggested room if and only if it was there, nothing is held, or twice the capacity suffices |
| BufferModel.TightKept | include/buffer.h:25-71 | everything but reading keeps the capacity within the larger of the suggested size and four times the peak plus two |
| BufferModel.ReadKeepsTightExactly | src/posix_connection.cc:95-111 | reading keeps that bound if and only if the suggested room is there already or twice the capacity is within it |
| BufferModel.RunFrom | include/buffer.h:25-71 | both bounds over any run |
| BufferModel.RunContents | include/buffer.h:25-71 | after any run the contents are the bytes put in without the consumed prefix |
| BufferModel.AnyRun | include/buffer.h:12-71 | all this for every run from a new buffer |
| BufferModel.NoBoundByPeak | src/posix_connection.cc:95-111 | there are runs of reads and consumes that never hold more than 2048 bytes and take more memory than any given number |
| BufferModel.MemoryIsReached | src/posix_connection.cc:95-111 | for every suggested size there are arbitrarily long runs that take exactly the memory of the general bound |
| BufferModel.RoomAlwaysLeft | include/buffer.h:35-37 | in every run in which the suggested size is not changed `make_room()` leaves that much room |
| BufferModel.RaisedSuggestion | include/buffer.h:71 | changed while data is held, it leaves that much room if and only if the new size is at most twice the old less the data |
| Buffer.Buffer.constructor | include/buffer.h:12 | a new buffer is empty, without memory, and starts at 2048 |
| Buffer.Buffer.CopyOf | include/buffer.h:72-109 | a copy has the same bytes and sizes in memory of its own |
| Buffer.Buffer.Clear | include/buffer.h:14-19 | the buffer is as new except for its start size |
| Buffer.Buffer.MoveHead | include/buffer.h:87-91 | the data moves to the front unchanged, although source and target overlap |
| Buffer.Buffer.Expand | include/buffer.h:92-101 | the data moves unchanged into new memory of the right size |
| Buffer.Buffer.MakeRoom | include/buffer.h:25-33 | at least the room asked for behind unchanged data |
| Buffer.Buffer.MakeDefaultRoom | include/buffer.h:35-37 | keeps the data, and leaves the suggested room exactly under the stated condition |
| Buffer.Buffer.Fill | include/buffer.h:39-40 | bytes copied behind the data become its suffix |
| Buffer.Buffer.Read | src/posix_connection.cc:95-111 | making room and adding what was read is a step of the run model and keeps its invariant |
| Buffer.Buffer.SetSuggestSize | include/buffer.h:71 | so is changing the suggested size |
| Buffer.Buffer.Append | include/buffer.h:42-51 | so is an append |
| Buffer.Buffer.Consume | include/buffer.h:64-68 | so is a consume, which frees the memory when nothing is left |

## Left out

- Sockets, epoll, mTCP and DPDK calls, thread pinning, logging, option parsing and the applications: plumbing around libraries that are not part of this model.
- src/ssl_layer.cc and src/aes/cipher_wrap.c: thin dispatch over the modelled code.
- AES-NI and PadLock branches, the precomputed ROM tables and the self-test vectors.
- ECB dispatch, cipher set-up, and the paddings other than PKCS7 and none.
- Overlapping buffers in the cipher layer, and a GCM tag, IV or associated data in the memory that is written: they are separate values there.
- Secrecy, timing and the clearing of contexts.
- Packet bytes in the stream simulator: addresses, IP identification, checksums and option layout; a packet is its sequence, acknowledgement, timestamps, flags and payload.
- Out-of-order sending, sending without acknowledgements, the SYN flood simulator and the capture import.
- Clock and random numbers in the stream simulator: they are arbitrary choices passed to each step.
- SendThreads.SendThread.Sweep: the nodes of a thread are values in a sequence, so sharing of node memory is not modelled.
- AesTables.GenTables: the forward and reverse tables are filled by two loops where the code uses one, and the tables are then a value.
- SmpPoll.Core.FlushResponses: the polling core's own ring operations see the current indices of the rings; an older index, which the protocol allows, would move fewer items at that time.
- SmpLive.PollInTurn: while one of the two cores polls the other takes no step; polls that overlap the steps of any core are covered by SmpLive.TurnsAnswer.
- SmpPoll.Core.ProcessIncoming: the array element read after the last one has no value in the model.
- Submission to the core's own number, which runs the function directly; in the version with a value callback the callback is then not called.
- HTTP responses: they are only parsed, with undefined results for malformed ones.
- Characters are not limited to bytes in the HTTP model.
- RepBuffer.MoveToRep: the header's layout is a parameter, since its declaration is not part of this model; it may be any in which lengths up to MAX_REP_LEN can be read back.
- RepBuffer.CopyData: negative lengths, for which the copy is undefined.
- MoveData and the two socket functions of the relay buffer.
- RepBuffer.RingBuffer.Add: the running total does not overflow.
- Buffer sizes do not overflow size_t; nobody consumes more than is held or reads more than there is room for.
- Rss.GetRssHash: builds the key cache on each call, where the code keeps the one of its first call.
- Moving a finished stream's node within the hash table in single-thread mode.
- Timers, the date parser, the kernel module and the scripts.
