# A verified model of the miner

This project models the parts of the miner where a mistake would be silent: the SHA-256 code that trusts
precomputed terms, the nonce scans, the way from a block template to the submitted bytes, the in-place Merkle
loops and the coinbase, the vendored JSON library with its hash table, the barrier and the dataset rebuild, the
Stratum extranonce, and the arithmetic of payout addresses. Code that works in place is modelled in place: C
arrays are arrays, structures that are updated are classes, loops are loops. Each such method is tied to a
specification function or states its result outright, and the theorems are about those.

`dafny verify dfyconfig.toml` checks everything.

## The main results

- **SHA-256.** `Sha256Spec` is FIPS 180-4, sections 5.1.1 and 6.2.2; its constants are roots of primes, its
  functions do to bits what the standard says, and "abc" has the digest of the standard. The transform, the byte
  form for every length and overlap, and the shortened form of the scan (midstate, terms left out, four half rounds
  at the end) all compute it. The scan over nonces is sound and complete, and leaves its schedule ready after every
  nonce.
- **RandomX scans.** RandomX is an arbitrary function. The pipelined scan equals the plain one exactly when there is
  something to scan, and either stops only for a hit, the limit or the flag. The strict comparison of the top word
  loses solutions exactly when the top words are equal.
- **Submission.** From template to submitted bytes, through every byte swap, what is submitted is what was hashed,
  which is the header the network expects, and its commitment meets the target (`HeaderChain.MineTemplate`).
- **JSON.** The grammar of the lexer and the parser is a set of functions on byte sequences (`JsonText`). The stream
  with pushback, the lexer and the recursive parser accept exactly that grammar; accepted strings are valid NUL-free
  UTF-8 within the buffer sized for them; loading what was printed gives an equal value under all flags.
- **Hash table.** All buckets are contiguous segments of one ring of linked nodes. Over any sequence of operations
  the table answers as a map does, as long as its size stays below the last of its primes.
- **Barrier and rebuild.** Any number of threads, any number of phases, spurious wake-ups and a wrapping phase
  counter; on top of it the rebuild protocol, and exactly which changes of the seed can break it (`SeedChange`).
- **Stratum extranonce.** From the notification of a new job on, the works count from zero. The count holds exactly
  while the first coinbase part keeps its length; for any other length that leaves the extranonce inside the old
  coinbase, some job hands one out twice.
- **Merkle roots and coinbase.** Both loops overwrite what they read and still compute the recursive root; the
  Stratum branch fits every coinbase. The coinbase reads back after data were appended to its script.
- **Addresses.** Bech32 finds every burst within six characters, by linearity and injectivity of the checksum step,
  which divides by the generator of BIP 173. Bit regrouping is undone exactly. Base58 decoding accepts exactly the
  numbers that fit, and the test on leading zeros makes addresses unique. The script for an address, when run, asks
  for what the address stands for.

## What is assumed

- A little-endian host and successful allocation. Bytes and words are integers in range, and 32-bit wrap-around is
  written out (`Words.W32`); bit vectors appear only inside the SHA-256 functions and the Bech32 checksum.
- The flag that restarts a scan is a function of the hashes done when it is read.
- The RandomX hash and the commitment are arbitrary functions, and a VM has one pending input.
- The hash table: equal keys hash equally, since keys are values with a hash function, and a set that must grow
  finds another prime in the list (`CanGrow`).
- The barrier and the dataset lock: each locked section is one step. In `DatasetRebuild` a run is calm when the seed
  changes only while no miner is inside the rebuild, that is, between finding another key and passing the test of
  the flag; `SeedChange` says which other changes do harm. Seed hashes are not all zeros.
- Of Bitcoin scripts only the opcodes that the scripts here use are modelled (`Script`); HASH160 and the check of a
  signature are arbitrary functions.
- strtol and strtod stop where ISO C says for decimal numbers with a point (`NumberText`).
- When a notification of the same job puts the extranonce beyond the end of the old coinbase, its bytes are what
  `realloc` leaves there, which is unknown.
- Coinbase heights are not negative: for a negative height the loop of cpu-miner.c:649 does not end. Data are
  appended to a coinbase whose script length byte does not point beyond its end, which the code does not check for a
  coinbase that the server sends.

## Where the model looks different from the C code

- The round lines of `sha256_transform` and `sha256d_ms` are written out in C; here a loop runs them.
- JSON objects keep their fields in the order in which iteration gives them, which is the order of insertion under
  the flag that preserves it; `qsort` is an insertion sort. A real number keeps its text.
- Bytes at the very end of a text that are no UTF-8 are taken for the end of the text, as in the code, where the
  end-of-file test looks at the data and not at the error (`JsonStrings.AcceptedTexts`).
- The result of printing a key is ignored, as in the code: a value with an invalid key prints, with that key cut
  short and not closed (`JsonDump.StringText`).
- `convert_bits` combines with a bitwise or, the model adds: the lower bits are zero.
- `b58check` would read past its buffer if all 25 bytes were zero, which needs a double hash of 21 zero bytes that
  starts with four zero bytes; the model stops at the end of the buffer.
- A hex string of the template is given as its bytes.

## The files

`Words`, `Radix`: integers and numerals. `Sha256Spec`, `Sha256Constants`, `Sha256Example`, `Sha256` (module
`Sha256Code`), `Sha256Bytes`, `Sha256dScan`, `HeaderHash`: sha2.c. `RandomxScan`: randomx-miner.c. `HeaderChain`,
`Merkle`, `Coinbase`, `StratumWork`, `DatasetRebuild`, `SeedChange`: cpu-miner.c and util.c. `Bech32`,
`Bech32Generator`, `Bech32Decoder`, `ConvertBits`, `Base58`, `Script`, `Address`: util.c. `Barrier`:
pthread_barrier.c. `HashTable`, `Utf8`, `JsonText`, `NumberText`, `JsonLexer`, `JsonStrings`, `JsonDump`,
`JsonAscii`, `JsonRoundTrip`, `JsonLiterals`: compat/jansson.

## Model

| member | source | states |
|---|---|---|
| Sha256Code.ChMacroIsCh | sha2.c:54 | The three-operation macro for Ch computes the standard's function, for all words |
| Sha256Code.MajMacroIsMaj | sha2.c:55 | The macro for Maj computes the standard's function, for all words |
| Sha256Constants.ChBit | sha2.c:54 | Bit by bit, Ch chooses between its second and third argument |
| Sha256Constants.MajBit | sha2.c:55 | Bit by bit, Maj is the majority |
| Sha256Constants.BigSigma0Bit | sha2.c:57 | Each bit of the result is the sum of the three bits that the rotations of section 4.1.2 of FIPS 180-4 bring there |
| Sha256Constants.BigSigma1Bit | sha2.c:58 | The same with its rotations |
| Sha256Constants.SmallSigma0Bit | sha2.c:59 | The same with two rotations and a shift, which brings zeros from beyond the word |
| Sha256Constants.SmallSigma1Bit | sha2.c:60 | The same with its rotations and shift |
| Sha256Constants.RoundConstants | sha2.c:29-46 | Every round constant is the first 32 bits of the fractional part of the cube root of the prime of its number |
| Sha256Constants.InitialHash | sha2.c:24-27 | Every initial word is the same of the square root |
| Sha256Code.ViewStep | sha2.c:72-77 | Writing two slots and renaming all eight is the shift of the eight working variables by one |
| Sha256Code.RNDr | sha2.c:63-77 | One round on the rotating state array is one round of section 6.2.2 of FIPS 180-4 on the variables a to h |
| Sha256Code.MixRounds | sha2.c:107-170 | A run of round lines is that many rounds of the standard, in any interval |
| Sha256Code.ExtendSchedule | sha2.c:98-101 | Two schedule words a turn are the schedule of the standard, wherever the loop starts |
| Sha256Code.Sha256Transform | sha2.c:85-175 | The transform is the compression function of FIPS 180-4 on the block, byte-swapped or not |
| Sha256Example.AbcDigest | sha2.c:85-175 | The digest of "abc" is the one of the example of FIPS 180-4, through all 64 rounds |
| Sha256Bytes.PadAt | sha2.c:208-217 | What every byte of the padded message of section 5.1.1 is, from its position alone |
| Sha256Bytes.BlockByteIsPad | sha2.c:208-217 | The block the loop builds, byte by byte, is the same block of the padded message; the length goes into the last block and no other |
| Sha256Bytes.LoadPadded | sha2.c:209-217 | One turn of the loop loads exactly block n of the padded message |
| Sha256Bytes.SecondPassIsSha256 | sha2.c:220-222 | One compression of the digest words and the constant tail is SHA-256 of the 32-byte digest |
| Sha256Bytes.Sha256dBuffer | sha2.c:202-225 | For every length below 2^28 the buffer receives SHA-256 applied twice, also when output and input overlap, and no other byte changes |
| Sha256Bytes.Sha256d80Swap | sha2.c:187-200 | The word form gives the byte-swapped words of the double hash of two blocks |
| Sha256dScan.NonceWordsLow | sha2.c:229-234 | With the standard padding words, schedule words 16 to 21 are the kept terms plus the nonce term: the dropped terms are zero |
| Sha256dScan.NonceWordsMiddle | sha2.c:235-239 | The same for words 22 to 26 |
| Sha256dScan.NonceWordsHigh | sha2.c:240-244 | The same for words 27 to 31 |
| Sha256dScan.Preextend | sha2.c:227-245 | Prepares the schedule for every nonce: Prepared holds for the block and no header word changes |
| Sha256dScan.Prehash | sha2.c:247-253 | Gives the state after three rounds of the block |
| Sha256dScan.PrehashIgnoresNonce | sha2.c:247-253 | The first three rounds do not depend on the nonce |
| Sha256dScan.MsExtend | sha2.c:278-295 | The completed schedule is that of the block with the nonce in place, all 64 words |
| Sha256dScan.WordSeven | sha2.c:456-464 | Word 7 of 64 rounds is the last of four shortened rounds after round 57 |
| Sha256dScan.SecondHash | sha2.c:456-464 | The shortened second hash has word 7 of the full compression |
| Sha256dScan.RestoredIsPrepared | sha2.c:269-276 | Putting back the eight saved words makes the schedule fit for the next nonce |
| Sha256dScan.Sha256dMs | sha2.c:262-465 | The fast form gives word 7 of the plain double hash for the nonce in W[3], and leaves the schedule prepared |
| Sha256dScan.ValueOrder | util.c:844-853 | The highest differing 32-bit digit decides the order of two numbers |
| Sha256dScan.Fulltest | util.c:839-853 | The word loop decides 256-bit "at most", equality included |
| Sha256dScan.PrefilterLosesNothing | sha2.c:620 | A nonce that the test of word 7 drops does not solve the work |
| Sha256dScan.ScanhashSha256d | sha2.c:587-633 | Returns 1 with the first nonce from the start that solves the work, or 0 with every nonce tried ruled out and a reason to stop; reports the count and changes no other header word |
| HeaderHash.HeaderBlocks | sha2.c:187-194 | The header words are the padded 80 bytes of the header, block by block |
| HeaderHash.HashNumberIsDoubleHash | sha2.c:620-623 | The number compared with the target is the double hash of the 80 header bytes, read least significant byte first |
| HeaderHash.SolvesIsDoubleHash | sha2.c:587-633 | So a nonce solves the work of the scan if and only if the double hash of the 80 header bytes with that nonce is at most the target |
| RandomxScan.AcceptsExactly | randomx-miner.c:46-48 | The tests accept a nonce that meets the target exactly when the top words differ; the strict test alone already implies the rest |
| RandomxScan.LosesEverySolution | randomx-miner.c:46-48 | For any work and target there are commitments under which every nonce meets the target and the scan finds none |
| RandomxScan.PlainIsSound | randomx-miner.c:37-68 | A hit meets the target, and every nonce tried before it was rejected; nonce and count agree modulo 2^32 |
| RandomxScan.PlainReports | randomx-miner.c:37-68 | Nothing stopped the scan before the nonce it stops on: all before were rejected, below the limit and with the flag clear; a miss has the limit or the flag for its reason |
| RandomxScan.BatchReports | randomx-miner.c:92-132 | The same for the pipelined scan, which looks at limit and flag before its first nonce as well |
| RandomxScan.ReportsOnce | randomx-miner.c:37-132 | That leaves only one outcome for a scan |
| RandomxScan.BatchIsPlain | randomx-miner.c:92-132 | The pipelined scan has the outcome of the plain one if and only if the start is below the limit and the restart flag is clear at first |
| RandomxScan.BatchIsSound | randomx-miner.c:96-125 | A hit of the pipelined scan meets the target |
| RandomxScan.SerializeHeader | randomx-miner.c:25-31 | The buffer holds the header words most significant byte first, and zeros where the RandomX hash will go |
| RandomxScan.CheckCommitment | randomx-miner.c:46-48 | The prefilter and the full test together decide acceptance |
| RandomxScan.ScanhashRandomx | randomx-miner.c:17-69 | Return code, count, nonce word and stored hash are those of the outcome of the plain scan, which Reports describes |
| RandomxScan.ScanhashRandomxBatch | randomx-miner.c:72-133 | The same for the pipelined scan, whose VM holds the header of nonce n pending at every loop head |
| HeaderChain.AssembleHeader | cpu-miner.c:803-821 | The header words encode little-endian version, reversed previous hash, Merkle root, little-endian time and reversed bits, then the padding of an 80-byte message |
| HeaderChain.AssembleTarget | cpu-miner.c:827-828 | The target words have the value of the big-endian target of the template |
| HeaderChain.BothEnds | cpu-miner.c:827-828 | A big-endian numeral is the little-endian reading of the reversed bytes |
| HeaderChain.HeaderFields | cpu-miner.c:803-821 | The fields of the header in order, read least significant byte first: version, the hex number of the previous hash, Merkle root, time, the hex number of the bits, nonce |
| HeaderChain.HashedBytes | randomx-miner.c:25-44 | What is hashed for a nonce is the network's header for it, and 32 zero bytes |
| HeaderChain.SerializeWork | cpu-miner.c:929-936 | The 112 submitted bytes are the header words most significant byte first, then the RandomX hash |
| HeaderChain.FoundHeader | randomx-miner.c:52-53 | After a find, the words that will be submitted encode the header with the nonce that was found, although the nonce word was byte-swapped |
| HeaderChain.MineTemplate | cpu-miner.c:802-936 | Whatever the scan, it stops only for a hit, the limit or the flag; a submission is the template's header with the found nonce and its RandomX hash, whose commitment is at most the target; nothing is submitted without a hit |
| HashTable.ListInsert | compat/jansson/hashtable.c:28-34 | Inserting before a node of the ring inserts at that place of the sequence the ring stands for |
| HashTable.ListRemove | compat/jansson/hashtable.c:36-40 | Removing a node removes that place |
| HashTable.InsertElsewhere | compat/jansson/hashtable.c:47-60 | Inserting at the edge of one bucket keeps every other bucket a contiguous segment |
| HashTable.RemoveElsewhere | compat/jansson/hashtable.c:116-125 | Removing a pair of one bucket keeps every other bucket a contiguous segment |
| HashTable.HashTable.InsertToBucket | compat/jansson/hashtable.c:47-60 | The node joins its bucket in the one ring, and all buckets stay segments that hold exactly the pairs of their hash |
| HashTable.HashTable.FindPair | compat/jansson/hashtable.c:76-99 | Finds the pair of the key if and only if the map has the key |
| HashTable.HashTable.Get | compat/jansson/hashtable.c:288-302 | Looks the key up in the map |
| HashTable.HashTable.Del | compat/jansson/hashtable.c:304-308 | Removes the key from the map, and fails exactly when it is not there |
| HashTable.HashTable.Unlink | compat/jansson/hashtable.c:116-132 | Takes one pair out of ring and bucket; the other buckets and pairs stay |
| HashTable.HashTable.Rehash | compat/jansson/hashtable.c:155-187 | More buckets, the same map, the same pairs |
| HashTable.HashTable.Set | compat/jansson/hashtable.c:246-286 | Updates the map at the key, keeps every bucket a segment, and size at most the number of buckets |
| HashTable.HashTable.IterNext | compat/jansson/hashtable.c:347-353 | The next pair of the ring, or none after the last |
| HashTable.HashTable.CollectKeys | compat/jansson/hashtable.c:326-353 | Iteration visits every key of the map once, and as many keys as size says |
| HashTable.HashTable.Clear | compat/jansson/hashtable.c:310-324 | Empties the map and frees every pair once |
| HashTable.Perform | compat/jansson/hashtable.c:246-324 | One operation changes the map and answers as the map operation does |
| HashTable.Run | compat/jansson/hashtable.c:246-324 | Over any sequence of set, get, delete and clear whose map stays below the last prime, all answers, the final contents and the size are those of a map |
| Utf8.EncodedChecks | compat/jansson/utf.c:11-137 | Every encoded scalar value from U+0080 up passes the checks of its first byte and of the whole |
| Utf8.CheckedIsEncoded | compat/jansson/utf.c:83-137 | Every sequence that passes is the encoding of the scalar value it gives |
| Utf8.SequenceIsChecked | compat/jansson/utf.c:83-137 | Being the encoding of some scalar value and passing the check are the same |
| Utf8.Utf8Encode | compat/jansson/utf.c:11-45 | Writes the encoding of section 3 of RFC 3629 and its length, or fails outside 0 to 0x10FFFF |
| Utf8.Utf8CheckFull | compat/jansson/utf.c:83-137 | Accepts exactly encodings of non-surrogate code points, in shortest form, and gives the code point |
| Utf8.ValidIff | compat/jansson/utf.c:165-190 | The strings accepted are exactly the concatenations of encoded scalar values |
| Utf8.Utf8CheckString | compat/jansson/utf.c:165-190 | Accepts exactly those, for an explicit length or up to the first NUL |
| Utf8.Utf8Iterate | compat/jansson/utf.c:139-163 | Steps over one encoded character, or fails where there is none |
| Utf8.EncInjective | compat/jansson/utf.c:11-45 | Different code points have different encodings |
| Utf8.EncTable | compat/jansson/utf.c:11-45 | The encoding is that of the table of section 3 of RFC 3629: lengths by range, marks of the bytes, and the bits they carry |
| Utf8.EncExamples | compat/jansson/utf.c:11-45 | It gives examples of section 7 of RFC 3629 |
| JsonLexer.Lexer.StreamGet | compat/jansson/load.c:127-174 | The next character of the text, checked as UTF-8 one sequence at a time; EOF exactly when no valid text is left |
| JsonLexer.Lexer.StreamUnget | compat/jansson/load.c:177-182 | Puts the last character back in front of the rest; neither assertion can fail |
| JsonLexer.Lexer.UngetUnsave | compat/jansson/load.c:207-213 | Takes the last character back from the saved text and the stream alike; neither assertion can fail |
| JsonLexer.Lexer.ScanBody | compat/jansson/load.c:258-302 | The first pass accepts exactly well-formed string bodies, and saves body and closing quote |
| JsonLexer.Lexer.ReadUnicode | compat/jansson/load.c:326-370 | Decodes an escape or a surrogate pair, and rejects lone halves and U+0000 |
| JsonLexer.Lexer.DecodeSaved | compat/jansson/load.c:304-396 | The second pass decodes the body within the buffer sized from the saved text |
| JsonLexer.Lexer.LexScanString | compat/jansson/load.c:248-402 | String token or invalid token as the grammar says |
| JsonLexer.Lexer.LexScanNumber | compat/jansson/load.c:404-498 | The longest number by the grammar, an integer in the range of int, or an invalid token; neither assertion on where the conversion stopped can fail |
| NumberText.IntRead | compat/jansson/load.c:438-439 | strtol reads the text of every integer that the lexer saves to its end, and reads its value |
| NumberText.RealRead | compat/jansson/load.c:484-485 | strtod reads the text of every real that the lexer saves to its end |
| JsonLexer.Lexer.LexScan | compat/jansson/load.c:500-571 | The next token and the text after it are those of the grammar |
| JsonLexer.Lexer.ReadObject | compat/jansson/load.c:608-671 | An object by the grammar, later members replacing earlier ones of the same key; recursion ends on the unread text |
| JsonLexer.Lexer.ReadArray | compat/jansson/load.c:673-711 | An array by the grammar |
| JsonLexer.Lexer.ReadValue | compat/jansson/load.c:713-766 | A value by the grammar |
| JsonLexer.JsonLoads | compat/jansson/load.c:807-834 | Accepts exactly the texts of the grammar with nothing after them, and gives their value |
| JsonText.LexProgress | compat/jansson/load.c:500-571 | Every token but EOF and the invalid one takes at least one character, so that parsing ends |
| JsonText.DecodeStepFits | compat/jansson/load.c:304-310 | No escape sequence decodes to more bytes than it has characters |
| JsonLiterals.Classes | compat/jansson/load.c:500-571 | The digits, blanks, structural characters, exponent letters and simple escapes are those of section 2 of RFC 4627, spelled out |
| JsonLiterals.WordsAreOnly | compat/jansson/load.c:552-559 | The words true, false and null, spelled out, and no others |
| JsonLiterals.SimpleEscapes | compat/jansson/load.c:379-388 | What each of the eight simple escapes stands for |
| JsonLiterals.HexSpelled | compat/jansson/load.c:225-246 | Every spelling of four hexadecimal digits, in either case, has their value |
| JsonLiterals.ClefReads | compat/jansson/load.c:326-370 | The surrogate pair that section 2.5 of RFC 4627 gives for U+1D11E |
| JsonLiterals.SetThenLookup | compat/jansson/load.c:640-650 | A repeated key gets the later value, and no other key changes |
| JsonLiterals.ExampleLoads | compat/jansson/load.c:807-834 | A document spelled out, and the value it is read as |
| JsonStrings.BodyIsValid | compat/jansson/load.c:127-174 | The closing quote cuts valid text into valid text |
| JsonStrings.DecodedIsText | compat/jansson/load.c:320-396 | A decoded body is valid UTF-8 without NUL |
| JsonStrings.StringTokenText | compat/jansson/load.c:248-402 | Every accepted string token is valid UTF-8 without NUL |
| JsonStrings.LoadedIsText | compat/jansson/load.c:807-834 | So is every string and every key of a loaded value, at any depth |
| JsonStrings.AcceptedTexts | compat/jansson/load.c:127-174 | The texts accepted are exactly the accepted texts in valid UTF-8 with nothing or one bad tail behind them, which does not change the value |
| JsonStrings.BadTailAccepted | compat/jansson/load.c:127-174 | So some text that is not UTF-8 is accepted |
| JsonDump.SortIsSorted | compat/jansson/dump.c:307-340 | Sorted fields are the same fields, as often each, in the order of their keys |
| JsonDump.KeyLeIs | compat/jansson/dump.c:156-160 | The order is that of strcmp: the first byte that differs decides, or the shorter key comes first |
| JsonDump.FlushedValid | compat/jansson/dump.c:78-151 | What the loop over runs and escapes prints of valid text is the text escaped character by character |
| JsonDump.Dumper.DumpIndent | compat/jansson/dump.c:47-67 | The indentation text for a depth |
| JsonDump.Dumper.DumpEscape | compat/jansson/dump.c:111-148 | The escape text of a code point, a surrogate pair above U+FFFF |
| JsonLiterals.EscapesPrint | compat/jansson/dump.c:110-118 | The escapes printed, spelled out |
| JsonLiterals.UnicodePrints | compat/jansson/dump.c:121-140 | Other escapes are a backslash, a u and the four digits of the number |
| JsonDump.Dumper.DumpString | compat/jansson/dump.c:69-154 | Fails exactly on invalid UTF-8, where it has printed the string up to the last escape before the bad bytes, and otherwise prints the quoted text |
| JsonDump.Dumper.DumpMembers | compat/jansson/dump.c:307-400 | All members in the order chosen, with separators and indentation; a key that is not valid UTF-8 appears as far as it was printed |
| JsonDump.Dumper.DoDump | compat/jansson/dump.c:168-415 | Fails exactly if some string other than a key is invalid, and otherwise appends the text of the value |
| JsonDump.JsonDumps | compat/jansson/dump.c:418-438 | The text of an array or object; nothing for other values or if some string other than a key is invalid |
| JsonLiterals.WordsPrint | compat/jansson/dump.c:174-181 | The words printed for true, false and null, spelled out |
| JsonLiterals.PlainLayout | compat/jansson/dump.c:168-438 | A document printed on one line, spelled out |
| JsonLiterals.CompactLayout | compat/jansson/dump.c:168-438 | The same document in the compact form |
| JsonLiterals.IndentedLayout | compat/jansson/dump.c:168-438 | The same document indented by two spaces |
| JsonAscii.TextIsAscii | compat/jansson/dump.c:93-95 | Under the flag that asks for it, only ASCII characters are printed, whatever the value |
| JsonRoundTrip.CharReads | compat/jansson/dump.c:84-150 | Every printed character, plain or escaped, reads back as itself |
| JsonRoundTrip.StringReads | compat/jansson/load.c:248-402 | Every printed string reads back as its string |
| JsonRoundTrip.IntReads | compat/jansson/load.c:404-451 | Every printed integer reads back as its value |
| JsonRoundTrip.TextReads | compat/jansson/load.c:713-766 | The text of a value, with anything that can follow it, parses as the value and leaves what follows |
| JsonRoundTrip.ArrangedIsEqual | compat/jansson/value.c:272-296 | A value with its fields sorted is equal to the value |
| JsonRoundTrip.RoundTrip | compat/jansson/dump.c:168-438 | Loading the text of an array or object gives an equal value, under every indentation, compact, ASCII and sort setting |
| JsonRoundTrip.DumpThenLoad | compat/jansson/load.c:807-834 | Printing and loading never fails on such a value and gives it back, with the fields in the printed order |
| Barrier.BarrierT.Enter | pthread_barrier.c:104-113 | The locked part of entering: the last thread opens the next phase and is the serial one, any other remembers the phase |
| Barrier.BarrierT.Recheck | pthread_barrier.c:114-116 | The test after a wake-up lets the waiter leave exactly when the phase it waits for has ended |
| Barrier.ArriveKeeps | pthread_barrier.c:104-113 | Entering keeps the invariant: waiters of the open phase are counted, and the others lag by one phase at most |
| Barrier.WakeDecides | pthread_barrier.c:116 | Comparing phases modulo 2^32 tells exactly whether the thread's phase is over |
| Barrier.NobodyLeavesEarly | pthread_barrier.c:102-120 | In every run nobody has left the k-th wait before everybody has entered it |
| Barrier.ExactlyOneSerial | pthread_barrier.c:106-111 | Exactly one thread gets the serial result in each finished phase |
| Barrier.NeverStuck | pthread_barrier.c:102-120 | In every reachable state some thread can enter or leave |
| DatasetRebuild.MoveKeeps | cpu-miner.c:1488-1587 | Every step of a miner keeps the safety invariant |
| DatasetRebuild.SeedKeeps | cpu-miner.c:1492 | So does a change of the seed while no miner is inside the rebuild |
| DatasetRebuild.ScansAreSound | cpu-miner.c:1488-1598 | In every calm run a scanning miner's VM stands on the live dataset and has the key of its work |
| DatasetRebuild.RebuildsAlone | cpu-miner.c:1503-1573 | While one miner rebuilds, which it does for the newest seed, nobody scans or rebuilds as well |
| DatasetRebuild.StaleVmsAreDestroyed | cpu-miner.c:1495-1500 | A VM over a dataset that is gone is held only at the barrier or right behind it, where it is destroyed next: nobody scans with it again |
| DatasetRebuild.OneRebuildPerSeed | cpu-miner.c:1505-1515 | No change of the seed is rebuilt for twice, every change that needs a rebuild has one but perhaps the last, and none is missing once a miner scans work for the newest seed |
| DatasetRebuild.NeverStuck | cpu-miner.c:1488-1587 | In every run, calm or not, some miner can move |
| SeedChange.ChangeBreaks | cpu-miner.c:1488-1515 | With two threads or more a change of the seed can lead to an unsound scan or a second rebuild if and only if some thread is inside the rebuild, and all are if the seed goes back to the one of the dataset: threads meet at the barrier with different seeds, or a late one sets the flag again |
| SeedChange.SeedTooSoon | cpu-miner.c:1488-1515 | That is so in every state of every calm run |
| SeedChange.ReturnIsHarmless | cpu-miner.c:1490 | Going back to the seed of the dataset while some thread is outside does no harm: the others wait at the barrier for a thread that does not come |
| SeedChange.LoneThreadIsGood | cpu-miner.c:1488-1587 | A single thread scans soundly and rebuilds at most once for each change, whenever the seed changes |
| DatasetRebuild.SplitDataset | cpu-miner.c:1543-1551 | The chunks follow one another from the first item to the last |
| DatasetRebuild.ChunksPartition | cpu-miner.c:1543-1551 | Every item is in exactly one chunk |
| Merkle.RootIsTreeRoot | cpu-miner.c:791-800 | Halving level by level gives the root of the tree of least depth whose missing halves repeat their neighbour |
| Merkle.SmallTrees | cpu-miner.c:791-800 | The roots of one, two and three leaves, with left and right in their places and the odd leaf doubled |
| Merkle.HashPairs | cpu-miner.c:798-799 | Hashing all pairs in place gives the level above, although nodes are overwritten while others are read |
| Merkle.TransactionRoot | cpu-miner.c:791-800 | Node 0 ends as the root of all leaves, within the buffer allocated |
| Merkle.WitnessRoot | cpu-miner.c:687-694 | The same for the other loop and its larger buffer |
| Merkle.BranchGivesRoot | cpu-miner.c:1283-1288 | Hashing leaf 0 up along its siblings gives the root |
| Merkle.ShortBranches | cpu-miner.c:1283-1288 | The leaf and what is hashed from it stand on the left |
| Merkle.StratumRoot | cpu-miner.c:1283-1288 | The branch fits every coinbase: folding any leaf 0 gives the root with that leaf |
| Merkle.GenerateRoot | cpu-miner.c:1283-1288 | The 64-byte buffer ends with the folded branch over the coinbase hash |
| Coinbase.ParseSerialize | cpu-miner.c:637-702 | Every serialized transaction of this kind reads back, with nothing left over |
| Coinbase.HeightReads | cpu-miner.c:643-656 | The height reads back from the script by BIP 34, whatever follows it |
| Coinbase.HeightRuns | cpu-miner.c:643-656 | Run as a script, the height part pushes the height |
| Coinbase.HeightScriptLength | cpu-miner.c:643-656 | The script has at most five bytes, and the two that consensus wants exactly if the height is not 0 |
| Coinbase.PutHeight | cpu-miner.c:643-655 | The loop writes the height script |
| Coinbase.PutCommitment | cpu-miner.c:671-697 | The commitment script of BIP 141 over the witness root |
| Coinbase.BuildCoinbase | cpu-miner.c:637-702 | The bytes are the transaction with the height, the value, the script and the commitment, at most 154 of them |
| Coinbase.CollectExtra | cpu-miner.c:705-733 | The signature and the values that still fit, in order, never beyond 100 bytes of script |
| Coinbase.FittingTakes | cpu-miner.c:705-733 | An item is taken exactly if it fits behind those taken before it |
| Coinbase.AppendExtra | cpu-miner.c:734-747 | Only the script and its length change: the data go to its end, and what follows moves up unchanged |
| Coinbase.PushReads | cpu-miner.c:736-745 | The appended data read back as one push if and only if they leave two bytes of the script free; otherwise they stand bare |
| Coinbase.AppendedBytes | cpu-miner.c:734-747 | On serialized bytes, that is appending to the input script |
| Coinbase.CoinbaseReads | cpu-miner.c:637-748 | The result reads back as a transaction of version 1 that spends no output, with a final sequence number and the height first in a script of at most 100 bytes, the same outputs and lock time |
| Coinbase.CoinbaseLayout | cpu-miner.c:637-748 | Its bytes in order, spelled out, with the amount least significant byte first and the commitment of BIP 141 in the second output |
| Coinbase.MakeCoinbase | cpu-miner.c:637-748 | Building and appending together produce these bytes within the 256 allocated |
| StratumWork.CounterCounts | cpu-miner.c:1291 | Increment with carry counts in little-endian bytes |
| StratumWork.CounterValue | cpu-miner.c:1291 | The bytes are the count modulo 256^size |
| StratumWork.StratumCtx.Notify | util.c:1366-1391 | A new job starts the extranonce at zero; the same job goes on with the bytes that the old coinbase has at the place |
| StratumWork.StratumCtx.Increment | cpu-miner.c:1291 | Only the extranonce changes, by one |
| StratumWork.StratumCtx.Generate | cpu-miner.c:1277-1291 | Hands out the extranonce and the Merkle root of the coinbase that holds it, then counts |
| StratumWork.WholeIs | cpu-miner.c:1277-1288 | What is hashed is the first part, the extranonce of the connection, the one that counts, and the second part |
| StratumWork.WorksCount | cpu-miner.c:1277-1291 | While the first part keeps its length, the k-th work has the k-th extranonce, and no work is missing |
| StratumWork.NoRepeat | cpu-miner.c:1277-1291 | Then two works have the same extranonce if and only if a multiple of 256^size lies between them |
| StratumWork.NewJobCounts | cpu-miner.c:1277-1291 | In a new job that is k modulo 256^size for the k-th work |
| StratumWork.Run | util.c:1366-1391 | A connection generates exactly the works of any run of notifications and works |
| StratumWork.RunNewJob | cpu-miner.c:1277-1291 | From the notification of a new job on, the works have the extranonces 0, 1, 2 and so on modulo 256^size |
| StratumWork.FirstPartDecides | util.c:1371-1376 | If the first part changes its length within a job, then for some contents an extranonce is handed out twice in a row; if not, never |
| Bech32.StepLinear | util.c:648-656 | The checksum step is linear over GF(2) |
| Bech32.StepInjective | util.c:648-656 | It stays within 30 bits, where only zero goes to zero |
| Bech32Generator.StepDivides | util.c:648-656 | The step is a step of division by the generator of BIP 173 over the field of 32 elements |
| Bech32.BurstShows | util.c:648-656 | Up to six five-bit symbols leave the register zero only if all are zero |
| Bech32.BurstChangesChecksum | util.c:714 | Symbol strings that differ in a window of six have different checksums |
| Bech32Decoder.CharsetInverse | util.c:658-667 | The table is the inverse of the character set, for both cases |
| Bech32Generator.CharacterSet | util.c:658-667 | The character set as BIP 173 writes it |
| Bech32Generator.ExampleDecodes | util.c:669-724 | The first valid string of BIP 173 decodes to its prefix and no data |
| Bech32Decoder.Bech32Decode | util.c:669-724 | Decodes exactly the strings that BIP 173 allows, to the lower-case prefix and the data values, within both buffers |
| Bech32Decoder.BurstRejected | util.c:669-724 | Changing characters of a string that decodes, within any six consecutive places of the data part, never gives a string that decodes, if some value changes and none becomes '1' |
| ConvertBits.Convert | util.c:726-746 | Regroups the bits, padded or not, and accepts the unpadded leftover exactly if it is shorter than an input element and zero, although the 32-bit register overflows |
| ConvertBits.RoundTrip | util.c:726-746 | Bytes regrouped to five bits with padding come back whole |
| ConvertBits.Canonical | util.c:726-746 | Five-bit values that are accepted are the only ones that give their bytes |
| Base58.MultiplyAdd | util.c:598-602 | Multiplies the word array by 58 and adds a digit; the 64-bit products never overflow and the carry stays below 58 |
| Base58.Alphabet | util.c:578 | The digits are the letters and numerals but 0, O, I and l |
| Base58.AlphabetOrder | util.c:578 | Their values follow the order of the ASCII codes |
| Base58.TopWordDecides | util.c:603 | The test of the top word is the test of the whole number |
| Base58.Accumulate | util.c:594-605 | Fails exactly on a foreign character or a number from the capacity up |
| Base58.B58Dec | util.c:580-628 | Succeeds exactly if all characters are in the alphabet and the number is below 256^binsz, or 256^(binsz-4) if binsz is a multiple of 4; the output is the number, most significant byte first |
| Address.B58Check | util.c:630-646 | -1 for a wrong checksum, -3 if leading zero bytes and leading '1's do not match, or else the version |
| Address.Base58Unique | util.c:641-643 | A value and a number of leading '1's have only one string |
| Address.AddressUnique | util.c:641-643 | Two Base58 addresses that pass with the same bytes are the same string |
| Address.SegwitAddrDecode | util.c:748-761 | Accepts exactly witness versions and programs of the right lengths in a string that decodes |
| Address.Bech32ToScript | util.c:763-776 | A script that BIP 141 reads as the witness program of the address, or 0 exactly if there is none that fits |
| Address.AddressToScript | util.c:778-810 | Base58 first, Bech32 only if that cannot be read; a script that pays the address, or the length it needs |
| Address.HashScriptPays | util.c:790-808 | For versions 5 and 196 the script is opened by a preimage of the hash, for all others by a key with the hash and a signature |
| Script.PreimageScript | util.c:794-797 | Run on one item, the script for a script hash leaves whether the item hashes to it |
| Script.KeyScript | util.c:802-807 | Run on signature and key, the script for a key hash fails unless the key hashes to it, and then leaves the verdict on the signature |
| Address.WitnessScriptReads | util.c:772-774 | BIP 141 reads version and program back from the witness script |
| Words.Swab32Laws | miner.h:74-81 | Byte-swapping exchanges the two encodings of a word, and twice gives the word back |
| Words.BE32RoundTrip | miner.h:88-115 | Big-endian encoding and decoding undo each other |
| Words.LE32RoundTrip | miner.h:97-125 | Little-endian encoding and decoding undo each other |

## Left out

- RandomX itself, which is a submodule.
- The assembly forms of SHA-256 and the 4-way and 8-way scans; the portable path is modelled.
- Curl, sockets, JSON-RPC, the Stratum handshake, logging, options, signals, processor affinity, address files.
- The header words of stratum_gen_work and the hex strings of stratum_notify: only coinbase, extranonce and Merkle
  root are modelled there.
- The epoch seed string and its hash.
- Floating point: difficulty to target, hash rates, the values of JSON reals and their overflow.
- Error texts, positions and line numbers of the JSON library beyond counting lines; reference counts; the flags
  that guard against circular values, which trees do not need; json_loadf and the file forms.
- Allocation failure everywhere, including hashtable_set and rehash.
- Coverage of all nonces over whole runs: a scan returns an untested nonce that its caller then skips.
- The pthread calls inside the barrier, which are taken as one locked step each, and the shutdown of the threads.
- RandomxScan.PlainIsSound: does not claim that every solution is found, because the code's strict prefilter
  passes over one whose top word equals the target's; AcceptsExactly says exactly which, and LosesEverySolution
  that it can lose them all.
- DatasetRebuild.ScansAreSound: holds for calm runs, because the code fails in others; SeedChange.ChangeBreaks and
  SeedChange.LoneThreadIsGood say exactly which change of the seed can end a calm run badly.
- DatasetRebuild.RebuildsAlone: holds for calm runs, for the same reason.
- DatasetRebuild.OneRebuildPerSeed: holds for calm runs, for the same reason.
- Coinbase.AppendExtra: does not model a coinbase whose script length byte points beyond its end, which the code
  does not check for a coinbase that the server sends.
- StratumWork.Run: does not model a notification of the same job whose longer first part puts the extranonce beyond
  the end of the old coinbase, because its bytes are then those of fresh memory.
- HashTable.HashTable.Set: does not model the failure to allocate, and needs a larger prime in the list to grow.
