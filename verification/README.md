# Verified models of the algorithms in tig and nostril

This project models, in Dafny, the algorithmic parts of a repository that bundles the git
browser tig, the nostr event tool nostril and their support libraries, and proves what those
parts are for. Each module follows one source file. Code that updates state in place is modelled
by methods on arrays and classes; each method is tied by its contract to a specification, and the
properties are proved of the specification.

- **Hash table** (`HtabMod`, `HtabPrimeTable`, `HtabProbe`, `HtabSlots`, `Htab`, `StringMap`): open
  addressing with double hashing, tombstones and resizing, and a multiply-high reduction instead
  of `%`. It is proved to behave as a finite map over every run, and every probe loop to end.
- **Unicode** (`Grapheme`, `CanonicalOrder`, `Decompose`, `Utf8`): the stateful grapheme-break automaton against
  the rules of UAX #29, the canonical reordering loop against the unique stable sort, and reading,
  writing and in-place re-encoding of UTF-8 against RFC 3629.
- **Patch surgery** (`ChunkHeader`, `PatchReader`, `StageApply`, `StageSplit`, `StagePieces`): staging or unstaging
  one line or one run of changes of a hunk, and splitting a hunk into one hunk per run. A written text is
  taken apart by a reader of patches, and what a patch does is defined by following its lines on a text, as
  `git apply` does: neither knows how it was written.
- **Cryptography** (`Sha256`, `Sha256Stream`, `Sha256Constants`, `Sha256Vectors`, `AesBytes`, `AesSbox`, `AesBlock`,
  `AesKeys`, `AesVectors`, `Cbc`, `AesCbc`): the unrolled SHA-256 compression and the streaming context against
  FIPS 180-4, from the roots its constants come from to the digest of its example; AES-256 and CBC against
  FIPS 197 and SP 800-38A, with both inverses and the key schedule of the standard's example.
- **Revision graph** (`GraphRows`, `Graph`): the row of columns is the set of commits still awaited,
  after every commit of every history.
- **Encoders and buffers** (`Hex`, `NostrText`, `NostrReader`, `NostrEvent`, `Base64`, `LineReader`, `FileFinder`):
  the event serialisation is injective and a JSON reader finds the event in it, base 64 decodes what it
  encodes exactly for the right alphabets, lines do not depend on how reads split the stream, and the
  finder's cached counts are always those of a fresh count.

`Common` and `Decimals` hold what several modules share.

## How the models read the C code

- Fixed-width arithmetic is written out: 32-bit truncation in the table's reduction and probe step
  (`HtabMod.ModOne`, `HtabProbe.Advance`), bit-vectors in SHA-256, AES, UTF-8 and base 64, and the
  wrap of `unsigned long` counts (`StageApply.Wrap`).
- Outside input is a parameter or a nondeterministic choice: `read` delivers any number of bytes or
  fails (`LineReader.Io.Read`), the alignment of a message is an arbitrary predicate, a hash function
  and a key comparison are given by a record of functions.
- Loops that the C code leaves with `break` sometimes carry a flag instead; a group of statements
  is sometimes a method of its own. Nothing is computed in a different order.
- Characters of C strings are Dafny characters; a string is what `strlen` sees of it.

## Where the code does less than one might expect

Each of these is stated with the condition under which the code does what is expected; the member that
states it, or that gives an input, is named.

- The last table size is 4294967291, where the 32-bit sum of the probe step wraps. A step is exact if and
  only if the sum stays below 2^32 (`HtabProbe.AdvanceExactness`), and a size is walked exactly for all
  hashes if and only if it is at most 2147483647 (`HtabPrimeTable.WalksExactly`). With the last size, the
  walk of hash 0xffffffef leaves the probe sequence at once (`HtabProbe.LargestTableWraps`) and never
  looks at fourteen of sixteen slots (`HtabProbe.LargestWalkStays`, `HtabProbe.LargestWalkMisses`), so
  a search need not meet an empty slot that is there.
- `higher_prime_index` ends inside the table if and only if the request is at most 4294967291
  (`HtabTable.SearchExactly`); for 4294967292 it reads one row behind the table before it aborts
  (`HtabTable.SearchRunsOut`).
- Where a control character carried an Indic conjunct class, the automaton would join across it and
  the rules would not (`Grapheme.ClashExample`, `Grapheme.AutomatonExactly`). No Unicode character is both.
- With both decomposition and grapheme marks asked for, the reordering loop looks up the class of the
  mark -1 outside the property table. All its lookups are of code points if and only if no marks are asked
  for or the text has nothing but Hangul syllables (`Decompose.LooksInsideExactly`): those are written
  without asking the automaton, so that one behind a letter has no mark (`Decompose.SyllableUnmarked`).
  Up to the first syllable the marks are right (`Decompose.MarkedExactly`).
- Splitting the last hunk of a file in a view with several files runs on into the header of the next file
  and splits that off as a hunk (`StageSplit.NextFileIsSplitOff`). All new hunks are diffs if and only if
  the lines up to the next `@` or `\` are context, added and deleted lines (`StageSplit.PiecesAreDiffs`).
- `stage_apply_line` writes right counts if and only if the line is a change (`StageApply.LineCountsExact`);
  its callers only pass changes.
- The rewritten body of a patch is written in full if and only if each of its lines that is not dropped has
  at most 1022 bytes (`StageApply.FitsExactly`, `StageApply.LongLineRefused`); otherwise its beginning has
  been written when `io_printf` refuses. The lines of the file header have no limit.
- The text that is hashed tells all events with times below a bound if and only if the bound is at most
  10^15 (`NostrText.CommitmentExactly`); from there on `created_at` loses its last digits
  (`NostrText.TimeCollides`). Explicit tags print like the tags they spell
  (`NostrText.ExplicitTagsCollide`). Control characters without a letter of their own are printed raw, so that a
  reader that follows section 7 of RFC 8259 to the letter reads the text exactly if no string holds one
  (`NostrReader.CommitmentReads`).
- The greedy count of the file finder finds all tokens in exactly the texts that contain them if and only
  if the last token is not empty (`FileFinder.CountExactly`). Typed tokens are not.
- The file finder scrolls one row late. When the selected line is drawn after a move is stated for every
  window (`FileFinder.DrawnExactly`); it is always drawn if and only if the list is empty or shorter
  than the window (`FileFinder.AlwaysDrawn`), and otherwise going down line by line loses it under the title
  (`FileFinder.UnderTitle`, `FileFinder.SelectionUnderTitle`).
- Base 64 over another alphabet decodes what it encodes if and only if the 64 letters are different,
  `A` is among them and `=` is not (`Base64.RoundTripExactly`): the decoder fills up with `A` and strips `=`.
- SHA-256 writes the length of the message if and only if it has fewer than 2^61 bytes
  (`Sha256Stream.LengthFieldExactly`); beyond that the low 64 bits of the bit count are written.
- After a failed read the line reader does not use what later reads deliver: a read keeps the stream if and
  only if none has failed before or it delivers nothing (`LineReader.Io.Fill`).

## Model

| member | source | states |
|---|---|---|
| `HtabMod.QuotientExact` | compat/hashtab.c:97-124 | for any divisor d and scale p, a multiplier between 2^32 p and 2^32 p + p above d yields the exact quotient of every 32-bit dividend |
| `HtabMod.ModOneIsRemainder` | compat/hashtab.c:233-257 | the truncating multiply-high, halved sum and shift of `htab_mod_1` give x mod y for every 32-bit x whenever the multiplier is within tolerance |
| `HtabMod.FirstReductionExact` | compat/hashtab.c:259-266 | `htab_mod` is the remainder by the prime, for every hash and every row within tolerance |
| `HtabMod.SecondReductionExact` | compat/hashtab.c:268-275 | `htab_mod_m2` is 1 plus the remainder by the prime minus two, with the same shift |
| `HtabMod.RowReducesExactly` | compat/hashtab.c:233-275 | one row of constants serves both reductions for all hashes |
| `HtabPrimeTable.TableMultipliers` | compat/hashtab.c:135-167 | every row of the shipped table has both multipliers within tolerance |
| `HtabPrimeTable.SizesIncrease` | compat/hashtab.c:135-167 | the sizes strictly increase; all but the last stay at or below 2147483647 |
| `HtabPrimeTable.WalksExactly` | compat/hashtab.c:135-167 | a shipped size is walked exactly for all hashes if and only if it is at most 2147483647 |
| `HtabPrimeTable.ShippedTableIsGood` | compat/hashtab.c:135-195 | given that the first 29 sizes are prime, the shipped table has everything the table code relies on |
| `HtabProbe.ProbeClosedForm` | compat/hashtab.c:604-615 | k steps of the probe loop reach start + k * step modulo the size |
| `HtabProbe.AdvanceExactness` | compat/hashtab.c:604-609 | the 32-bit conditional subtraction is the modular step if and only if the sum stays below 2^32 |
| `HtabProbe.WalkIsProbes` | compat/hashtab.c:604-615 | up to 2147483647 slots the loop with its 32-bit sums visits the probe sequence |
| `HtabProbe.LargestTableWraps` | compat/hashtab.c:599-609 | with 4294967291 slots the first step for hash 0xffffffef already leaves the probe sequence |
| `HtabProbe.LargestWalkStays` | compat/hashtab.c:599-615 | where that walk goes: slots congruent to 15 modulo 16, and from then on slots congruent to 4 |
| `HtabProbe.LargestWalkMisses` | compat/hashtab.c:599-615 | it never meets slot 0 |
| `HtabProbe.NoSmallMultiple` | compat/hashtab.c:483-509 | no multiple k*h of a step h < p with 0 < k < p is divisible by the prime p |
| `HtabProbe.ProbesDistinct` | compat/hashtab.c:483-509 | the first p probes over a prime number p of slots are pairwise different |
| `HtabProbe.ProbesCover` | compat/hashtab.c:483-509 | every slot is met within p probes |
| `HtabSlots.EmptyProbe` | compat/hashtab.c:603-615 | while a slot is unused, every probe sequence meets an empty slot within size probes: the loops end |
| `HtabSlots.MissMeansAbsent` | compat/hashtab.c:594-616 | an empty slot reached without meeting the key proves that the map has no such key |
| `HtabSlots.StoreKeepsWellFormed` | compat/hashtab.c:636-698 | an entry written to a free slot on its probe path adds exactly that key and keeps all others reachable |
| `HtabSlots.TombKeepsWellFormed` | compat/hashtab.c:746-757 | a tombstone removes exactly that key and cuts no probe path |
| `HtabSlots.ReplaceKeepsWellFormed` | src/map.c:67-76 | overwriting the slot of a key changes the value of that key only |
| `HtabSlots.TombAwaitsStore` | compat/hashtab.c:687-693 | reusing the first tombstone on the path leaves a slot in which the new key belongs, with both counters right |
| `HtabSlots.EmptyAwaitsStore` | compat/hashtab.c:687-697 | without a tombstone the empty slot that ended the probe takes the new key |
| `HtabSlots.LiveCount` | compat/hashtab.c:223-229 | the difference of the two counters is the size of the map |
| `HtabSlots.LiveValuesVisitMap` | compat/hashtab.c:765-782 | the live slots, in order, list every entry of the map once |
| `HtabSlots.CopyStep` | compat/hashtab.c:560-577 | moving one more live entry to the fresh array keeps: the fresh array is tombstone-free and stands for the entries moved so far |
| `HtabSlots.ScanVisitsLiveValues` | compat/hashtab.c:765-782 | the scanning loop visits the live entries in order, up to the first refusal |
| `HtabSlots.VisitsExactly` | compat/hashtab.c:774-776 | entries are visited in order, all before the last visited one were accepted, and all are visited unless that last one was refused; only one list of visits is so |
| `HtabTable.SearchExactly` | compat/hashtab.c:173-195 | the binary search ends at the first row whose prime is at least n, and inside the table if and only if n is at most the last prime |
| `HtabTable.SearchRunsOut` | compat/hashtab.c:173-195 | for 4294967292 it ends behind the last row |
| `HtabTable.ExpandsSafelyExactly` | compat/hashtab.c:534-538 | an expansion goes to a size that is walked exactly if and only if at most 1073741823 entries are live, and with more it always resizes |
| `HtabTable.HigherPrimeIndex` | compat/hashtab.c:173-195 | the loop ends where the search does, for every n |
| `HtabTable.Htab.constructor` | compat/hashtab.c:283-324 | a new table stands for the empty map, with the first size large enough |
| `HtabTable.Htab.FindWithHash` | compat/hashtab.c:588-616 | the lookup answers as the finite map does |
| `HtabTable.Htab.FindEmptySlotForExpand` | compat/hashtab.c:484-509 | finds an empty slot on the probe path of the hash |
| `HtabTable.Htab.MoveEntries` | compat/hashtab.c:560-577 | the copying loop moves exactly the live entries |
| `HtabTable.Htab.Expand` | compat/hashtab.c:520-582 | resizing keeps the map, drops all tombstones, leaves at most half the slots used, and picks the size by the load |
| `HtabTable.Htab.ProbeForSlot` | compat/hashtab.c:646-685 | the probe ends at the key or at an empty slot and remembers the first tombstone |
| `HtabTable.Htab.FindSlotWithHash` | compat/hashtab.c:636-698 | returns the slot of the key, or nothing, or a slot that awaits the new entry; the map is otherwise unchanged |
| `HtabTable.Htab.ClearSlot` | compat/hashtab.c:746-757 | removes exactly the key of that slot |
| `HtabTable.Htab.RemoveEltWithHash` | compat/hashtab.c:726-739 | removes exactly the given key, if present |
| `HtabTable.Htab.Clear` | compat/hashtab.c:441-474 | empties the map and replaces a large slot array by a small one |
| `HtabTable.Htab.TraverseNoResize` | compat/hashtab.c:765-782 | visits the live entries in slot order until the callback stops it |
| `HtabTable.Htab.Traverse` | compat/hashtab.c:788-795 | resizes a sparse table without changing the map and then visits each entry once |
| `StringMap.StringMap.Get` | src/map.c:32-40 | a lookup of the map |
| `StringMap.StringMap.Put` | src/map.c:54-76 | the map with that key bound, through growth and tombstone reuse |
| `StringMap.StringMap.Remove` | src/map.c:43-90 | the map without that key, and the value it had |
| `StringMap.StringMap.Clear` | src/map.c:93-97 | the empty map |
| `StringMap.StringMap.Foreach` | src/map.c:105-120 | visits entries of the map, each at most once, and all of them unless stopped |
| `StringMap.StringMap.Step` | src/map.c:32-120 | one get, put, remove, clear or traversal has the effect and an answer it has on a finite map |
| `StringMap.StringMap.StepOrStop` | src/map.c:32-120 | one operation, unless it is a put that would expand the table to the last size |
| `StringMap.StringMap.Run` | src/map.c:32-120 | any sequence of gets, puts, removes, clears and traversals, up to the first put that would expand the table to the last size, leaves the finite map those leave, and every answer is one that map gives at that point |
| `StringMap.ShortRunFits` | src/map.c:32-120 | a run that is short enough never comes to such a put |
| `Grapheme.BreakState.BreakExtended` | compat/utf8proc.c:291-343 | the answer and the next state word of one call |
| `Grapheme.MemoryStep` | compat/utf8proc.c:304-340 | what the state remembers is a function of what it remembered and the next class: two bytes suffice for unbounded look-behind |
| `Grapheme.StateIsMemory` | compat/utf8proc.c:291-343 | from state 0 the state word always encodes the remembered bound class and conjunct state of the text so far |
| `Grapheme.MemoryDecides` | compat/utf8proc.c:261-343 | the test on the remembered classes is the rules of UAX #29, except where a linked consonant meets a control character |
| `Grapheme.AutomatonExactly` | compat/utf8proc.c:261-355 | for every sequence of classes a break is permitted exactly where the rules permit one and no clash occurs |
| `Grapheme.AutomatonIsRules` | compat/utf8proc.c:261-355 | where no control character has a conjunct class, the automaton is the rules GB3 to GB9c, GB11, GB12, GB13 and GB999 |
| `Grapheme.ClashExample` | compat/utf8proc.c:291-343 | a sequence of classes on which automaton and rules differ |
| `Grapheme.CharboundIsRules` | compat/utf8proc.c:522-531 | decomposition marks the start of the text and then every boundary of the rules |
| `CanonicalOrder.SwapInversions` | compat/utf8proc.c:588-606 | a swap removes exactly one inversion, which is why the loop that steps back ends |
| `CanonicalOrder.OrderedIsUnique` | compat/utf8proc.c:588-606 | at most one canonically ordered sequence is equivalent to a given one |
| `CanonicalOrder.SortRunsCorrect` | compat/utf8proc.c:588-606 | the reference sort is ordered and keeps every run stable class by class |
| `CanonicalOrder.EquivalentSortAlike` | compat/utf8proc.c:588-606 | canonically equivalent sequences have one and the same canonical order |
| `CanonicalOrder.SwapProgress` | compat/utf8proc.c:593-603 | a swap keeps equivalence with the input and the order before the position stepped back to |
| `CanonicalOrder.Reorder` | compat/utf8proc.c:588-606 | the in-place loop ends in the unique stable sort, starters left in place, and looks outside the property table if and only if it has two values or more and one of them is no code point |
| `Decompose.WriteAll` | compat/utf8proc.c:543-586 | the length of the decomposed and marked text, and as much of it as the buffer holds |
| `Decompose.MarkedExactly` | compat/utf8proc.c:455-531 | up to the first Hangul syllable the marks stand at the boundaries of the rules; the syllable has none |
| `Decompose.SyllableUnmarked` | compat/utf8proc.c:455-531 | a Hangul syllable behind a letter, with a boundary and no mark |
| `Decompose.LooksInsideExactly` | compat/utf8proc.c:522-606 | all values the loop looks up are code points if and only if no marks are asked for or there are only Hangul syllables |
| `Decompose.Normalize` | compat/utf8proc.c:588-766 | counting, writing and reordering give the unique stable sort of the decomposition, or look outside the table under that condition |
| `Utf8.ValidIsScalar` | compat/utf8proc.c:173-175 | the unsigned range trick accepts exactly the scalar values |
| `Utf8.EncodeThenIterate` | compat/utf8proc.c:125-201 | reading what was written for a scalar value gives it back, whatever follows |
| `Utf8.IterateThenEncode` | compat/utf8proc.c:125-201 | whatever is accepted is the encoding of a scalar value: no overlong form, surrogate or value above 10FFFF |
| `Utf8.AcceptsExactly` | compat/utf8proc.c:125-171 | a string is accepted exactly if it starts with the encoding of a scalar value |
| `Utf8.SurrogatesOnly` | compat/utf8proc.c:173-201 | of the values the writer accepts exactly the surrogates cannot be read back |
| `Utf8.ReadsDigits` | compat/utf8proc.c:125-171 | the value read is the number to the base 64 that the bytes spell without their marks |
| `Utf8.Decode` | compat/utf8proc.c:543-586 | the reading loop with a known length is the decoding function |
| `Utf8.OpenIsBounded` | compat/utf8proc.c:125-171 | reading without a length looks at no byte behind the NUL, and reads what it would read with the length up to it |
| `Utf8.DecodeNulTerminated` | compat/utf8proc.c:543-586 | the reading loop up to a NUL decodes what stands in front of it |
| `Utf8.DecodeThenEncode` | compat/utf8proc.c:543-586 | accepted bytes re-encode to themselves |
| `Utf8.EncodeThenDecode` | compat/utf8proc.c:543-586 | decoding an encoded text returns it |
| `Utf8.EncodeChar` | compat/utf8proc.c:177-201 | writes the encoding at the given place and nothing else |
| `Utf8.CharboundEncodeChar` | compat/utf8proc.c:204-229 | a grapheme mark is written as one byte, every other value as its encoding |
| `Utf8.Reencode` | compat/utf8proc.c:722-744 | writing over the array still being read yields the concatenated encodings of the original code points, with or without grapheme marks, in either byte order |
| `Utf8.WrittenApart` | compat/utf8proc.c:177-229 | the bytes written tell the code points and where the grapheme marks stood |
| `Utf8.DecodeReencodeRoundTrip` | compat/utf8proc.c:722-780 | decoding bytes and re-encoding in place restores them |
| `Sha256.ChRewritten` | sha256.c:52-55 | the rewritten Ch is that of section 4.1.2 of FIPS 180-4 |
| `Sha256.MajRewritten` | sha256.c:56-59 | the rewritten Maj is that of section 4.1.2 |
| `Sha256.Rotations` | sha256.c:60-75 | the four shift-and-join functions are the rotations of section 4.1.2 |
| `Sha256.Round` | sha256.c:78-84 | changing two registers is one round of section 6.2.2 with the registers renamed |
| `Sha256.FirstRounds0` | sha256.c:92-99 | eight rounds on words of the block |
| `Sha256.FirstRounds8` | sha256.c:100-107 | eight rounds on words of the block |
| `Sha256.LowRounds` | sha256.c:109-116 | eight rounds that replace w0..w7 in place compute the words t..t+7 of the 64-word schedule |
| `Sha256.HighRounds` | sha256.c:117-124 | eight rounds that replace w8..w15 in place compute the next eight words |
| `Sha256.LastRounds` | sha256.c:151-158 | the last rounds use two words without storing them |
| `Sha256.AllRounds` | sha256.c:87-158 | the 64 unrolled rounds are those of the standard |
| `Sha256.Transform` | sha256.c:87-168 | the compression of section 6.2.2 for every state and block |
| `Sha256Constants.WordIsNumber` | sha256.c:92-107 | the four bytes of a message word are the digits of its value to the base 256, most significant first |
| `Sha256Constants.BytesAreDigits` | sha256.c:229-230 | and the four bytes written for a word are those digits again |
| `Sha256Constants.BlockIsNumbers` | sha256.c:92-107 | word i of a block is the number spelt by bytes 4i to 4i + 3 |
| `Sha256Constants.OutputIsNumbers` | sha256.c:229-230 | bytes 4i to 4i + 3 of the digest spell register i |
| `Sha256Constants.InitIsRoots` | sha256.h:105-116 | the eight words are the first 32 bits of the fractions of the square roots of the first eight primes, section 5.3.3 of FIPS 180-4 |
| `Sha256Constants.Roots0` | sha256.c:92-99 | the round constants 0 to 7 are the first 32 bits of the fractions of the cube roots of their primes, section 4.2.2 |
| `Sha256Constants.Roots8` | sha256.c:100-107 | the round constants 8 to 15 are the first 32 bits of the fractions of the cube roots of their primes, section 4.2.2 |
| `Sha256Constants.Roots16` | sha256.c:109-116 | the round constants 16 to 23 are the first 32 bits of the fractions of the cube roots of their primes, section 4.2.2 |
| `Sha256Constants.Roots24` | sha256.c:117-124 | the round constants 24 to 31 are the first 32 bits of the fractions of the cube roots of their primes, section 4.2.2 |
| `Sha256Constants.Roots32` | sha256.c:126-133 | the round constants 32 to 39 are the first 32 bits of the fractions of the cube roots of their primes, section 4.2.2 |
| `Sha256Constants.Roots40` | sha256.c:134-141 | the round constants 40 to 47 are the first 32 bits of the fractions of the cube roots of their primes, section 4.2.2 |
| `Sha256Constants.Roots48` | sha256.c:143-150 | the round constants 48 to 55 are the first 32 bits of the fractions of the cube roots of their primes, section 4.2.2 |
| `Sha256Constants.Roots56` | sha256.c:151-158 | the round constants 56 to 63 are the first 32 bits of the fractions of the cube roots of their primes, section 4.2.2 |
| `Sha256Stream.CodeZerosAreFewest` | sha256.c:218-226 | the number of zeros added is the smallest that leaves room for the length, as section 5.1.1 demands |
| `Sha256Stream.PadZerosUnique` | sha256.c:218-226 | that number is unique |
| `Sha256Stream.LengthFieldExactly` | sha256.c:224-228 | the eight bytes at the end are the length in bits if and only if the message has fewer than 2^61 bytes |
| `Sha256Stream.AbsorbBlock` | sha256.c:171-204 | a full block adds one compression to the state absorbed so far |
| `Sha256Stream.AbsorbTail` | sha256.c:171-204 | a partial block only extends the buffered tail |
| `Sha256Stream.PaddingIsStandard` | sha256.c:218-228 | what is added at the end is the padding of section 5.1.1 and ends on a block boundary |
| `Sha256Stream.Sha256Ctx.constructor` | sha256.c:206-210 | a new context has absorbed the empty message |
| `Sha256Stream.Sha256Ctx.FillAndProcess` | sha256.c:176-184 | filling the buffer and processing it absorbs those bytes |
| `Sha256Stream.Sha256Ctx.ProcessBlock` | sha256.c:186-197 | a block is absorbed whether it is used in place or copied first |
| `Sha256Stream.Sha256Ctx.KeepTail` | sha256.c:199-203 | the rest is kept for later |
| `Sha256Stream.Sha256Ctx.Add` | sha256.c:171-204 | absorbs the data, however much the buffer held |
| `Sha256Stream.Sha256Ctx.Update` | sha256.c:212-216 | absorbs the data |
| `Sha256Stream.Sha256Ctx.Done` | sha256.c:218-232 | the digest of all absorbed bytes, for any number of them; the context is then invalid |
| `Sha256Stream.HashPieces` | sha256.c:206-242 | however a message is cut into pieces and wherever they lie, the digest is that of the whole |
| `Sha256Vectors.KnownDigest` | sha256.c:84-232 | the digest of "abc" is that of the example of FIPS 180-4, ba7816bf .. f20015ad |
| `Sha256Vectors.KnownAnswer` | sha256.c:206-232 | a context that is given the three bytes one by one delivers it |
| `AesBytes.SboxesInverse` | aes.c:68-141 | the two substitution tables undo each other |
| `AesSbox.SboxIsInverseThenAffine` | aes.c:79-96 | every entry of the table is the affine map of section 5.1.1 of FIPS 197 on the inverse in GF(2^8) |
| `AesBytes.MultiplyLinear` | aes.c:315-338 | multiplication by the four inverse coefficients is linear over GF(2^8) |
| `AesBytes.MixByteIsCoefficients` | aes.c:300-313 | the shortcut through the column sum is the matrix of section 5.1.3 of FIPS 197 |
| `AesBytes.UnmixByte` | aes.c:300-366 | the inverse matrix undoes the matrix |
| `AesBytes.RemixByte` | aes.c:300-366 | and the other way round |
| `AesBlock.ShiftRowsRotates` | aes.c:266-292 | the explicit moves rotate row r by r columns, and the inverse ones back |
| `AesBlock.AddRoundKey` | aes.c:237-247 | adds the key of the round to one block of a buffer and changes nothing else |
| `AesBlock.SubBytes` | aes.c:251-261 | substitutes the sixteen bytes in place |
| `AesBlock.ShiftRows` | aes.c:266-292 | the in-place moves through one temporary are the rotation of the rows |
| `AesBlock.MixColumns` | aes.c:300-313 | the in-place columns are those of the matrix |
| `AesBlock.InvMixColumns` | aes.c:350-366 | the in-place columns are those of the inverse matrix |
| `AesBlock.InvSubBytes` | aes.c:371-381 | substitutes back |
| `AesBlock.InvShiftRows` | aes.c:383-409 | rotates the rows back |
| `AesBlock.MixUndone` | aes.c:300-366 | mixing and unmixing a state undo each other |
| `AesBlock.RoundExactly` | aes.c:413-436 | every byte of the state after a round is, by sections 5.1.1 to 5.1.4 of FIPS 197, a sum of four substituted bytes with the coefficients 2, 3, 1, 1 (of one in the last round) and a byte of the key of that round |
| `AesBlock.DecryptUndoesRounds` | aes.c:413-461 | InvCipher retraces the states of Cipher round by round |
| `AesBlock.DecryptEncrypt` | aes.c:413-461 | InvCipher undoes Cipher for every array of round keys |
| `AesBlock.EncryptDecrypt` | aes.c:413-461 | Cipher undoes InvCipher |
| `AesBlock.Cipher` | aes.c:413-436 | the loop over rounds encrypts one block of a buffer in place |
| `AesBlock.InvCipher` | aes.c:439-461 | the loop over rounds decrypts it |
| `AesKeys.CopyKey` | aes.c:146-160 | the first round key is the key |
| `AesKeys.NextWord` | aes.c:162-216 | one turn of the loop adds the next word of the schedule of section 5.2 of FIPS 197 |
| `AesKeys.KeyExpansion` | aes.c:146-217 | the round keys are the schedule of section 5.2 |
| `AesVectors.RconDoubles` | aes.c:120-121 | the round constants are the powers of x in GF(2^8), from 1 on |
| `AesVectors.Words8` | aes.c:162-216 | words 8 to 11 of the schedule of the key in appendix A.3 of FIPS 197 are 9ba35411 and those behind it |
| `AesVectors.Words12` | aes.c:162-216 | words 12 to 15 are a8b09c1a and those behind it |
| `AesVectors.Words16` | aes.c:162-216 | words 16 to 19 are d59aecb8 and those behind it |
| `Cbc.CbcRoundTrip` | aes.c:501-529 | decrypting with the same key and IV restores every message of whole blocks, for any block cipher with an inverse |
| `Cbc.CbcInverseRoundTrip` | aes.c:501-529 | every message of whole blocks is the encryption of its decryption |
| `Cbc.CbcEncryptSplit` | aes.c:501-514 | encrypting in two calls with the chaining value kept gives the bytes of one call |
| `Cbc.CbcDecryptSplit` | aes.c:516-529 | the same for decryption |
| `Cbc.EncryptsEach` | aes.c:501-514 | every ciphertext block is the encryption of the sum of its plaintext block and the ciphertext block in front of it, or the IV |
| `Cbc.DecryptsEach` | aes.c:516-529 | every plaintext block is the sum of its decrypted ciphertext block and the ciphertext block in front of it, or the IV |
| `AesCbc.CipherUndone` | aes.c:413-461 | the two block functions of any key are mutual inverses |
| `AesCbc.XorWithIv` | aes.c:492-499 | adds a block that may lie earlier in the same buffer |
| `AesCbc.AesCtx.constructor` | aes.c:224-228 | the context holds the key schedule and the IV |
| `AesCbc.AesCtx.EncryptBuffer` | aes.c:501-514 | the buffer becomes its CBC encryption in place, and the context keeps the last ciphertext block |
| `AesCbc.AesCtx.DecryptBuffer` | aes.c:516-529 | the buffer becomes its CBC decryption in place, and the context keeps the last ciphertext block |
| `AesCbc.EncryptThenDecrypt` | aes.c:224-529 | two contexts with one key and IV: what one encrypts, the other restores |
| `AesCbc.EncryptPieces` | aes.c:501-514 | a message handed over in any number of calls is encrypted as in one |
| `AesCbc.DecryptPieces` | aes.c:516-529 | and decrypted as in one |
| `GraphRows.ClearedIds` | src/graph-v2.c:383-392 | clearing removes exactly that commit from the pending set |
| `GraphRows.WithParentsIds` | src/graph-v2.c:395-418 | inserting into free or new columns adds exactly the parents |
| `GraphRows.CopySurvives` | src/graph-v2.c:436-464 | of a run of repeated columns one copy is always kept |
| `GraphRows.CollapsedIds` | src/graph-v2.c:436-464 | dropping repeated columns loses no pending commit |
| `GraphRows.FilledIds` | src/graph-v2.c:467-477 | back-filling keeps the pending set and leaves empty columns at the end only |
| `GraphRows.FrontierIsPending` | src/graph-v2.c:480-520 | in a listing with children first, the pending set is every parent of a shown commit that is not itself shown |
| `GraphRows.ParentsRoundTrip` | src/graph-v2.c:782-789 | of a printed line of ids exactly the parents are read, in order |
| `Graph.CommitsCounts` | src/graph-v2.c:489-500 | the count is the number of columns that hold a commit |
| `Graph.CommitsExactly` | src/graph-v2.c:489-500 | it is zero exactly if no column has an id, and above one exactly if two have |
| `Graph.ShiftLeftExactly` | src/graph-v2.c:535-556 | a column shifts left exactly if the nearest column to its left that awaits the same commit awaited another one in the previous row, or shifted left there |
| `Graph.GraphV2.FindColumnById` | src/graph-v2.c:272-285 | the first column of that commit, or the first free one |
| `Graph.GraphV2.AddParent` | src/graph-v2.c:324-331 | one more parent column, unless the parents are already complete |
| `Graph.GraphV2.CopyRev` | src/string.c:68-80 | copies a word, cut to forty characters |
| `Graph.GraphV2.AddParents` | src/graph-v2.c:782-789 | the loop adds a parent for every space of the line of ids |
| `Graph.GraphV2.AddCommit` | src/graph-v2.c:769-794 | the position is the column that awaits the commit, or the first free column, and the parents are those in the line of ids |
| `Graph.GraphV2.Expand` | src/graph-v2.c:340-354 | all three rows grow by empty columns until the parents fit |
| `Graph.GraphV2.ClearCommit` | src/graph-v2.c:383-392 | the pass over the next row is the clearing function |
| `Graph.GraphV2.FindFreeColumn` | src/graph-v2.c:288-298 | the first empty column |
| `Graph.GraphV2.InsertParents` | src/graph-v2.c:395-418 | the pass over the next row inserts all parents, the other rows growing along |
| `Graph.GraphV2.CommitIsInRow` | src/graph-v2.c:421-433 | whether a row awaits the commit |
| `Graph.GraphV2.RemoveCollapsedColumns` | src/graph-v2.c:436-464 | the in-place pass gives every dropped column its nearest kept right neighbour |
| `Graph.GraphV2.FillEmptyColumns` | src/graph-v2.c:467-477 | the in-place pass fills every gap from its right |
| `Graph.GraphV2.GenerateNextRow` | src/graph-v2.c:480-486 | the next row awaits what the row did, minus the commit, plus its parents |
| `Graph.GraphV2.GenerateSymbols` | src/graph-v2.c:685-736 | one symbol per column: the commit in its column only, initial without and merge with more than one parent, and the columns that shift left |
| `Graph.GraphV2.CommitNextRow` | src/graph-v2.c:503-520 | the next row becomes the row and the previous row is rebuilt column by column |
| `Graph.GraphV2.Collapse` | src/graph-v2.c:364-373 | trims empty columns at the end and loses no commit |
| `Graph.GraphV2.RenderParents` | src/graph-v2.c:739-760 | one step keeps the three rows equally long and the pending set exact; every symbol is initial exactly if no parent has an id, merge exactly if two have, and shifts left as its column does |
| `Graph.GraphV2.Show` | src/graph-v2.c:739-794 | one commit leaves the pending set, its parents join it; its symbol is in its column, and all symbols say by the parents it lists whether it is initial or a merge |
| `Graph.GraphV2.Run` | src/graph-v2.c:739-794 | after any history the row is the frontier of pending parents |
| `ChunkHeader.ParseUlong` | src/parse.c:187-204 | one number behind a given character; optional, absent, malformed and saturated numbers as `strtoul` has them |
| `ChunkHeader.ParseChunkHeader` | src/parse.c:207-225 | positions and counts of an ordinary header, and of a combined one the last old side and the new side; a missing count is one |
| `ChunkHeader.ParsedFits` | src/parse.c:187-225 | every number read fits an `unsigned long` |
| `ChunkHeader.HeaderRoundTrip` | src/stage.c:332-335 | every header that is printed is read back exactly, whatever stands behind it |
| `ChunkHeader.CombinedRoundTrip` | src/parse.c:207-225 | of a printed header of a combined diff with any number of parents the last parent's side and the new side are read |
| `ChunkHeader.ShortRoundTrip` | src/parse.c:207-225 | a header with a count left out, as git prints it for a side of one line, is read back, whatever stands behind it |
| `ChunkHeader.StrtoulReads` | src/parse.c:196 | a numeral of any size, with or without a sign, is read as its number, saturated and negated modulo 2^64 |
| `Decimals.ReadsDecimal` | src/parse.c:187-204 | the digits printed for a number are read back as that number |
| `StageApply.FollowReplaces` | src/stage.c:83-115 | following a diff succeeds exactly on texts that begin with its old side and puts its new side in their place |
| `StageApply.ReversedSides` | src/stage.c:212-216 | reading a diff backwards exchanges its sides |
| `StageApply.AppliesInPlace` | src/stage.c:193-237 | a patch with exact counts and position changes that place of the file only |
| `StageApply.ChoiceEnds` | src/stage.c:83-115 | making no change of a hunk is its old side and making all is its new side |
| `StageApply.RewrittenSides` | src/stage.c:83-115 | the written lines keep one side of the hunk, and on the other exactly the selected changes are made (staging) or undone (unstaging) |
| `StageApply.RewrittenBalance` | src/stage.c:83-115 | the sizes of the written sides differ by what the selection adds and deletes |
| `StageApply.CountsExact` | src/stage.c:127-130 | the counts of the written header are those of the written lines if and only if the difference used is the net size of the selection |
| `StageApply.LineCountsExact` | src/stage.c:117-137 | for one line that is so if and only if the line is a change |
| `StageApply.SelectionApplies` | src/stage.c:83-191 | applying the written patch to a file makes (or undoes) the selected changes of the hunk |
| `StageApply.LineChangesOnly` | src/stage.c:117-137 | the patch for one change line changes that line only, wherever the hunk stands |
| `StageApply.LineTextChangesOnly` | src/stage.c:118-137 | the text written for one change line, read as a patch, has the file header of the view and changes that line only |
| `StageApply.RunInBody` | src/stage.c:152-180 | the run around a change stays inside the hunk |
| `StageApply.PartChangesOnly` | src/stage.c:139-191 | the patch for a part changes the maximal run of changes around the current line only |
| `StageApply.PartTextChangesOnly` | src/stage.c:140-191 | and the text written for a part changes the maximal run of changes around the current line only |
| `StageApply.DiffWrite` | src/stage.c:67-81 | writes lines up to the next chunk or file header |
| `StageApply.PrintLine` | src/stage.c:91-110 | one line is written as it is, as context, or not at all; a line too long for the format buffer fails |
| `StageApply.DiffRangeWrite` | src/stage.c:84-115 | writes the rewritten body, and fails exactly if one of its lines is too long |
| `StageApply.FitsExactly` | src/stage.c:84-115 | the rewritten body fits if and only if each of its lines that is not dropped has at most 1022 bytes |
| `StageApply.LongLineRefused` | src/stage.c:84-115 | a context line of 1023 bytes is refused |
| `PatchReader.ReadsLines` | src/stage.c:132-136 | a text whose lines are a file header, a printed chunk header and the lines of a hunk is read as these three |
| `StageApply.WroteReads` | src/stage.c:132-136 | for the lines of a view the text written is read as its file header, the printed chunk header and the rewritten lines |
| `StageApply.WritePatch` | src/stage.c:132-136 | file header, chunk header and rewritten body in this order, or a prefix of them on failure |
| `StageApply.ApplyLine` | src/stage.c:118-137 | the text read as a patch is the file header of the view, the resized header and the rewritten lines for one line; nothing is written if the chunk header cannot be read |
| `StageApply.FindFirst` | src/stage.c:153-163 | the forward scan finds the start of the run that ends before the current line |
| `StageApply.FindLast` | src/stage.c:165-180 | the end of the run and its net size |
| `StageApply.ApplyPart` | src/stage.c:140-191 | the text read as a patch is the file header of the view, the header resized by the net size of the run around the current line, and the lines rewritten for it |
| `StageSplit.AdvancedIsNext` | src/stage.c:393-395 | the header carried over to the next piece has the position and counts of the shared context |
| `StageSplit.ScanValid` | src/stage.c:368-408 | after any lines the pieces so far overlap in exactly the context between two runs, and only context lies between the last change and the current line |
| `StageSplit.CutsCover` | src/stage.c:357-416 | whatever the lines are, the pieces cover the body, each beginning with the context that ends the one before |
| `StageSplit.CutsAreGood` | src/stage.c:357-416 | an ordinary body is cut into pieces of one run of changes each |
| `StageSplit.PiecesAreDiffs` | src/stage.c:368-408 | the pieces are all diffs if and only if the body holds only context, added and deleted lines |
| `StageSplit.NextFileIsSplitOff` | src/stage.c:368-408 | a view of two files in which the second one's header is split off as a hunk |
| `StageSplit.StepOn` | src/stage.c:374-408 | a line that ends no piece keeps view, header and line pointers those of the scan |
| `StageSplit.StepSplit` | src/stage.c:386-408 | so does a split with the line that causes it |
| `StageSplit.FinishAt` | src/stage.c:410-414 | at the end of the chunk only the last header is left to rewrite |
| `StageSplit.View.InsertChunk` | src/stage.c:318-354 | the header line is rewritten, and an empty header line and a copy of the context are inserted |
| `StageSplit.View.SplitChunk` | src/stage.c:357-416 | the view becomes the hunks of the cuts, with positions modulo 2^64, or stays as it is for one piece; of an ordinary body each hunk has one run of changes |
| `StageSplit.OnePiecePerRun` | src/stage.c:357-416 | there are as many pieces as maximal runs of changes |
| `StageSplit.HeaderExact` | src/stage.c:330-335 | every new header is read back with the counts of its piece and the position behind the lines in front of it |
| `StageSplit.PieceApplies` | src/stage.c:357-416 | each new hunk applies on its own to the file the whole hunk was made for |
| `StageSplit.PieceUnapplies` | src/stage.c:357-416 | and in a staged view is undone on its own in the file that has the whole hunk |
| `StagePieces.EachApplies` | src/stage.c:357-416 | of several new hunks each applies to the file the whole hunk was made for, or is undone in the one that has it, and changes its part only |
| `StagePieces.AllApply` | src/stage.c:357-416 | applied one after another they make the whole change: from the last to the first at their own positions, and from the first to the last where the ones in front have moved them |
| `StagePieces.MovedExactly` | src/stage.c:393-395 | going forward a hunk stands where its header says if and only if the lines in front of it are as many on both sides |
| `StageSplit.RejoinRestores` | src/stage.c:340-351 | taking out the inner headers and the repeated context gives the original body back |
| `Hex.DecodeEncode` | hex.h:19-68 | decoding undoes encoding |
| `Hex.EncodeDecode` | hex.h:19-68 | encoding undoes decoding up to the case of letters |
| `Hex.HexDigits` | hex.h:42-49 | the digits are 0 to 9 and a to f |
| `Hex.HexEncode` | hex.h:51-68 | writes both digits of every byte and a NUL, or refuses a buffer that is too small |
| `Hex.HexDecode` | hex.h:19-35 | succeeds exactly on hexadecimal text for as many bytes as the buffer holds |
| `NostrText.StringOnce` | nostril.c:205-240 | an escaped string ends at the first quote no backslash announces: it can be read in one way only |
| `NostrText.TailOnce` | nostril.c:242-258 | a list of self-delimiting texts can be read in one way only |
| `NostrText.TagApart` | nostril.c:242-258 | different tags print differently and neither begins with the other |
| `NostrText.TagsOnce` | nostril.c:260-281 | the nested list of tags can be read in one way only |
| `NostrText.SignedOnce` | nostril.c:298-307 | so can a number in front of a comma |
| `NostrText.TimeFits` | nostril.c:286-297 | below 10^15 nothing of the time is cut off |
| `NostrText.TimeCollides` | nostril.c:286-297 | from 10^15 on every time prints like the one without its last digit |
| `NostrText.TimeExactly` | nostril.c:286-297 | the text tells all times below a bound if and only if the bound is at most 10^15 |
| `NostrText.CommitmentOnce` | nostril.c:284-317 | events with equal text have equal public key, time, kind, tags and content |
| `NostrText.CommitmentExactly` | nostril.c:284-317 | the text tells all events with times below a bound if and only if the bound is at most 10^15 |
| `NostrText.ExplicitTagsCollide` | nostril.c:260-266 | explicit tags print like the tags they spell |
| `NostrReader.CharsRead` | nostril.c:205-240 | a JSON reader reads a string as it was printed, whatever follows |
| `NostrReader.ControlsRefused` | nostril.c:205-217 | a reader that allows no control characters refuses a string with one that has no letter |
| `NostrReader.ListReads` | nostril.c:242-282 | a list of printed values reads as the list of the values, and is refused exactly if one of them is |
| `NostrReader.CommitmentReads` | nostril.c:284-317 | the text of an event reads as 0, public key, time, kind, tags and content in this order; a strict reader refuses it exactly if a string holds a control character without a letter |
| `NostrEvent.Cursor.PushByte` | cursor.h:132-142 | appends one byte if there is room |
| `NostrEvent.Cursor.PushStr` | cursor.h:234-293 | appends a string if it leaves room for one more byte |
| `NostrEvent.Cursor.PushEscapedChar` | nostril.c:205-217 | appends the character or its escape, which reads back as it (`NostrReader.CharsRead`), or nothing |
| `NostrEvent.Cursor.PushJsonStr` | nostril.c:219-240 | succeeds exactly if the whole quoted string fits, and then appends it |
| `NostrEvent.Cursor.PushTag` | nostril.c:242-258 | succeeds exactly if the whole list fits |
| `NostrEvent.Cursor.PushTagList` | nostril.c:268-281 | succeeds exactly if the whole nested list fits |
| `NostrEvent.Cursor.PushTags` | nostril.c:260-281 | the same, or the explicit tags as they are |
| `NostrEvent.KindFits` | nostril.c:287-298 | the kind is never cut off |
| `NostrEvent.EventCommitment` | nostril.c:284-317 | the length of the text and the text in the buffer, which reads back as the event (`NostrReader.CommitmentReads`), or 0 exactly if the buffer has not one byte more than the text |
| `Base64.BitsBack` | base64.c:63-74 | the four groups of six bits give the three bytes back |
| `Base64.SameNumber` | base64.c:63-74 | three bytes to the base 256 and their four groups to the base 64 are the same number |
| `Base64.QuartetOfTriplet` | base64.c:63-143 | four letters decode to the three bytes they stand for, over any alphabet of different letters |
| `Base64.TailBack` | base64.c:76-173 | a padded tail of one to three bytes decodes to them, and one of none is malformed, if the alphabet has `A` and lacks `=` |
| `Base64.RoundTrip` | base64.c:88-204 | decoding undoes encoding for all byte strings |
| `Base64.RoundTripFails` | base64.c:146-204 | without one of the conditions there are bytes that are not restored |
| `Base64.RoundTripExactly` | base64.c:88-204 | decoding undoes encoding for all byte strings if and only if the letters are different, `A` among them and `=` not |
| `Base64.RfcIsGood` | base64.c:212-213 | the alphabet of section 4 of RFC 4648 meets the condition |
| `Base64.Alphabet` | base64.c:212-213 | the letters are A to Z, a to z, 0 to 9, + and / |
| `Base64.PaddingCharacters` | base64.c:77-170 | the padding is the equals sign, and a tail is filled up with A, the letter of zero, before it is decoded |
| `Base64.Maps.constructor` | base64.c:47-56 | the decode map holds for every letter its last place, and -1 for all other bytes |
| `Base64.EncodeTriplet` | base64.c:63-74 | writes the four letters of three bytes |
| `Base64.EncodeTail` | base64.c:76-86 | writes at most three bytes as letters and padding |
| `Base64.Encode` | base64.c:88-114 | writes 4 * ceil(n / 3) letters and zeros, or refuses a small buffer without writing |
| `Base64.DecodeQuartet` | base64.c:121-143 | three bytes for four letters, or nothing if one is not of the alphabet |
| `Base64.DecodeTailInto` | base64.c:146-173 | the last one to three bytes, padding stripped |
| `Base64.Decode` | base64.c:175-204 | the decoded bytes and zeros after them; -1 for a small buffer or a malformed text |
| `Base64.EncodeAndDecode` | base64.c:88-204 | encoding into one buffer and decoding into another restores the bytes, zero-filled |
| `LineReader.Io.Read` | src/io.c:520-533 | any number of bytes, the end, or an error; nothing of the stream is lost |
| `LineReader.Io.MakeRoom` | src/io.c:595-603 | the unread bytes move to the front of a buffer that has room |
| `LineReader.Io.Fill` | src/io.c:595-609 | a read keeps what the stream still holds if and only if none has failed before or it delivers nothing |
| `LineReader.Io.FindEol` | src/io.c:556-563 | joining continued lines in the buffer counts them and changes nothing else of the remaining lines |
| `LineReader.Io.Take` | src/io.c:564-587 | hands out a line and keeps the stream behind it; the NUL is written inside the buffer |
| `LineReader.Io.GetLine` | src/io.c:550-611 | the next line is a function of the stream alone; without a line, and without an earlier failure, the stream still holds the same lines |
| `LineReader.ReadAll` | src/io.c:550-617 | the lines and their count depend on the stream and not on how reads split it |
| `LineReader.LinesAreSplit` | src/io.c:564-587 | the lines are the stream split at the separator, the last unterminated piece included, nothing lost or repeated |
| `LineReader.LinesAreJoined` | src/io.c:558-563 | for every separator and continuation character the lines are those of the stream with its continued lines joined |
| `LineReader.JoinedPointwise` | src/io.c:558-563 | if neither is a space, exactly the continued separators and the continuation characters in front of them are replaced |
| `LineReader.LinesCounted` | src/io.c:558-585 | the count is that of the separators there were or that a join made, plus one for a last line without |
| `FileFinder.GreedyFindsAll` | src/ui.c:175-187 | the greedy count finds all tokens exactly if they occur in order and without overlap inside the text |
| `FileFinder.NonemptyInside` | src/ui.c:175-187 | if the last token is not empty, that is any occurrence in order and without overlap |
| `FileFinder.CountExactly` | src/ui.c:175-187 | the count finds all tokens in exactly the texts that contain them, if and only if the last token is not empty |
| `FileFinder.ListedIsMatching` | src/ui.c:216-223 | for typed tokens the listed files are those that contain the tokens |
| `FileFinder.GreedyOfPrefix` | src/ui.c:175-187 | with fewer tokens the count is cut to their number |
| `FileFinder.CountCarries` | src/ui.c:202-214 | when an old count tells the new one without counting |
| `FileFinder.FileLine.LineMatches` | src/ui.c:175-187 | the counting loop is the greedy count |
| `FileFinder.ListedAt` | src/ui.c:216-223 | a listed file stands behind the listed files in front of it |
| `FileFinder.FileFinder.constructor` | src/ui.c:281-300 | all files are listed and the first is selected |
| `FileFinder.FileFinder.Refresh` | src/ui.c:205-214 | the cached count of one file becomes that of a fresh count |
| `FileFinder.FileFinder.Update` | src/ui.c:190-224 | all cached counts are fresh, the list is the matching files in order, and the selection moves with its file |
| `FileFinder.FileFinder.Move` | src/ui.c:99-117 | the selection moves within the list, the window follows it, and when the selected line is drawn then |
| `FileFinder.FileFinder.Draw` | src/ui.c:142-166 | the listed files from the offset on, one a row down to the title, and the row of the selected one if it is drawn |
| `FileFinder.DrawnExactly` | src/ui.c:99-166 | after a move the selected line is drawn if and only if it is not in the row of the title |
| `FileFinder.RowAfter` | src/ui.c:99-117 | with more lines than rows, a selection behind the window comes to its middle row and one in front of it to its first row; otherwise the window stays |
| `FileFinder.AlwaysDrawn` | src/ui.c:99-166 | every selection is drawn after every move if and only if the list is empty or shorter than the window |
| `FileFinder.UnderTitle` | src/ui.c:99-166 | otherwise going down line by line takes the selection under the title |
| `FileFinder.FileFinder.Refilter` | src/ui.c:232-243 | a file that is still listed stays selected; otherwise the next listed file is, or the last |
| `FileFinder.FileFinder.AppendToken` | src/ui.c:264-272 | one more token; a file that is still listed stays selected |
| `FileFinder.FileFinder.DeleteToken` | src/ui.c:233-243 | one token less; the selected file always stays selected |
| `FileFinder.FileFinder.Handle` | src/ui.c:227-278 | every key keeps counts, list and selection consistent, and a selected file that is still listed selected |
| `FileFinder.FileFinder.Run` | src/ui.c:227-278 | after any keys the list is the files that contain the tokens left |
| `FileFinder.FileFinder.RunEdits` | src/ui.c:227-278 | after any tokens typed and deleted, a selected file that contained the tokens throughout is still selected |
| `FileFinder.SelectionUnderTitle` | src/ui.c:99-166 | the third of five files in a window of three rows is not drawn |

## Left out

- HtabPrimeTable.ShippedTableIsGood: the primality of the 29 sizes up to 2147483647 is a hypothesis; their order and both multipliers of every row are proved.
- HtabTable.Htab.constructor: a table of more than 2147483647 slots starts as the empty map too, but its probe loops are not exact (`HtabPrimeTable.WalksExactly`) and nothing more is said of it.
- HtabTable.Htab.Expand: more than 1073741823 live entries need the last size (`HtabTable.ExpandsSafelyExactly`), with which the table is no map; failing allocation is not modelled.
- HtabTable.Htab.FindSlotWithHash: the same, where an insertion expands the table.
- StringMap.StringMap.Put: the same, where a put expands the table. A client stores a live entry in every slot returned for insertion, as `src/map.c` does; `src/refdb.c` can leave one empty and is not part of this model.
- StringMap.StringMap.Step: the same, where a put expands the table.
- StringMap.StringMap.Run: stops before such a put; it has no bound on the operations or on the entries otherwise.
- The counters of searches and collisions, the deletion callback and the string hash of `compat/hashtab.c`, which no property depends on.
- The property tables of `compat/utf8proc.c` (classes are parameters), and composition, case mapping and stripping, which depend on them.
- CanonicalOrder.Reorder: stops at the first value whose class would be looked up outside the property table, because nothing is known of what is read there; when that is so is `Decompose.LooksInsideExactly`.
- Utf8.Reencode: without the normalising options (composition, line ends, control characters).
- ChunkHeader.ParseChunkHeader: a combined header without any '-' in front of its closing signs is excluded, because the C code then looks for one in front of the line.
- StageApply.LineChangesOnly, StageApply.PartChangesOnly: hunks with a "no newline" marker are outside their domain; the writers and the scan handle such lines.
- StageSplit.View.SplitChunk: lines are those of the view; a wrapped diff line is a line of its own and not one line of the diff.
- Starting `git apply`, its exit status and write errors of the pipe: the patch is the text written.
- The pushing of single integers in `sha256.c`.
- AES-128, AES-192, the CTR and ECB modes.
- Graph.GraphV2.GenerateSymbols: of the fields of a symbol only those that the row computation reads are modelled (commit, boundary, initial, merge, shift-left); colours and the drawing of symbols are left out.
- `src/graph-v1.c`, key bindings, options, drawing and views are outside the model.
- NostrText.CommitmentOnce: holds without explicit tags and for times below 10^15; the two collision lemmas show why.
- Signing, key handling and encrypted messages of nostril are outside the model.
- Base64: the precomputed decode map is taken to be the one `base64_init_maps` builds from its alphabet; `char` is signed, as the comparison with 0xff needs.
- Allocation failure, reallocation of pointers and `free`: arrays and sequences grow instead.
