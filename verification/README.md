# Verified model of dse.clib

A Dafny model of the parts of dse.clib whose correctness does not show in any one body: the hash tables and what is
built on them, the streaming hashes, the MDF writer, the ASCII85 codec, the YAML tree builder, the schedule and the
vector with a separate index. Each part has a specification (functions on values), lemmas about it, and a class or
array methods that update state step by step as the C code does and are proved equal to the specification.

`dafny verify dfyconfig.toml` checks the whole project.

## What is modelled

**Open-addressing tables** (`Probing`, `Relayout`, `Displacement`, `Backshift`, `TableOps`). A table is a sequence of
slots, probed linearly and cyclically from `hash % number_nodes`. The hash function is any function, and an entry is
identified by its key and its hash, as in the code. `Ok` says that there are no duplicates and that every entry can be
reached from its home slot; for such tables lookup is lookup in a finite map (`Model`).
  - Growth: after doubling, one left-to-right pass makes every entry findable *whatever the old arrangement was*, so the
    loop in `hashmap.c` that repeats the pass until nothing moves always ends after its second, idle pass. This answers
    the question left open at `hashmap.c:306`, and justifies the single pass in `set.c`.
  - Removal: the back-shift after a removal stops at the first free slot or at the end of the array; it never goes
    round. Every other entry stays findable *if and only if* some slot at or above the freed one is crossed by no
    other entry's probe path. A free slot above the removed one is the usual case of this. The code does not check it:
    with two keys whose home is the last slot, removing the first one loses the second (`UnguardedRemovalLosesKey`,
    `UnguardedRemovalLosesEntry`). Putting the removed key back repairs the table without any such condition, because
    the new entry fills the hole (`RefillKeepsOk`).

**Sets** (`SimpleSets`, `SetAlgebra`, `SimpleSetStore`) and **maps** (`HashMaps`, `HashMapStore`). Whole runs refine
finite sets and finite maps exactly as long as removals are guarded as above; a run that only replaces keys, by removing
and setting them, needs no guard (`SetLastRefinesMap`). Two further results are exact conditions rather than the plain
property. `set_is_subset` against a full table reports every set as a subset, because a lookup that goes all the way
round returns neither "true" nor "false"; so its answers are right for every set exactly if the second table has a free
slot, which guarded runs from two or more slots always leave (`SubsetRightUnlessFull`, `SubsetOfFullTable`,
`NeverFull`). And the map's counter is ahead of the number of entries by one for every set that found its key stored
with a NULL pointer (`RunRefinesMap`, `CounterIsExact`, `NullValueCountedTwice`). The result of a set operation may be
one of its operands.

**Lists on maps, 32-bit keys** (`Decimals`, `HashLists`, `HashMapStore`). The list keeps its elements under printed
positions. It holds a sequence exactly for up to 2^31 + 1 elements: the key is printed with a format for signed
integers into a buffer of eleven characters, so positions 2^31 and 2^31 + 1 share the key `-214748364`. Appending NULL
does nothing.

**Streaming hashes** (`Words`, `Bits`, `XxhPrimes`, `XxhClassic`, `XxhAlgorithms`, `Xxh3Reference`, `Xxh3Loops`,
`Xxh3Streaming`, `Xxh3Kernels`). For XXH32, XXH64 and XXH3 (64 and 128 bits, all four ways to reset), hashing any split
of an input into updates equals hashing the concatenation at once. For XXH32 and XXH64 the rounds, mixers and finalisers
are parameters of that theorem, and `XxhAlgorithms` gives both with their own constants and steps, for which the
hypotheses hold. In `Xxh3Kernels` the accumulate and scramble steps and the derivation of a secret from a seed are
concrete: the portable 64 x 64 -> 128 multiplication is exact, and the SSE2 form computes the same hash as the scalar
form for every input, mode and seed. The state object also carries the cached seeded secret, whose reuse is shown sound
over any sequence of resets.

**What these hashes are** (`XxhInjective`, `Xxh64Injective`, `XxhPaths`, `Xxh64Paths`, `Xxh3Laws`, `Xxh3KernelLaws`).
These modules state the hashes independently of the definitions above.
  - Two inputs of the same length that differ in exactly one word, or one byte of the tail, have different XXH32 hashes
    for every seed (`Xxh32TellsUnitsApart`): rotations, shifted exclusive ors and odd factors lose nothing, the last with
    the inverses of the primes written out. For XXH64 the same holds behind the whole stripes (`Xxh64TellsTailsApart`);
    in a whole stripe one word changes its own accumulator and no other (`Xxh64TellsWordsApart`), and the merge of
    the accumulators, which multiplies sums of all four, is not claimed to keep them apart.
  - Every path with every constant and rotation as a number: the hash of the shortest input of each path (none, one unit
    of each kind, one stripe), for every seed and all bytes (`Xxh32OfNone` to `Xxh64OfStripe`), what each further stripe
    and each further unit of a tail adds (`NextStripe32`, `NextUnit32`, `NextStripe64`, `NextUnit64`), and the last mixing
    step bit by bit (`Avalanche32Folds`, `Avalanche64Folds`).
  - XXH3 above 240 bytes: stripe n of a block is keyed at 8 * n in the secret, the scramble at its last 64 bytes, the last
    stripe 71 bytes before its end, for every secret and length (`LongAccIsFlat`); which secret and which seed each of the
    four modes uses; and what one accumulate, one scramble and one seed do to a lane.

**MDF writer** (`MdfLayout`, `MdfRecords`, `MdfWriter`). The writer computes offsets in advance in one set of loops and
writes blocks in another. A reader that knows only the block types and follows links recovers the groups, in order, with
all names and with the place of each channel in the record (the timestamp at 0, signal k at 8 * k), *if and only if*
every group has at least one signal: with none, the master channel's `cn_cn_next` does not lead to a channel block.
The data records behind the blocks are read back *if and only if* all groups have as many signals as the first one and
no two have the same record id (`RunComesBack`): `cg_data_bytes` is computed from the first group for every group, so
with one signal in the first group and two in the second already the first sample is misread (`SecondGroupMisread`).

**ASCII85** (`Ascii85`, `Ascii85Format`, `Ascii85Loops`). Decoding an encoding gives the bytes back with their length, for every byte
string. The text is that of section 7.4.3 of ISO 32000-1, without the end marker (`Ascii85Format`): a whole group of
zeroes is a 'z' if at least four more bytes follow, any other whole group is five letters that spell its bytes to the
base 85, and one to three bytes at the end are one letter more. For other texts the decoder
takes every character for c - 33 and never writes outside its buffer (`WritesFit`), but its reads stay inside its padded
copy *if and only if* the number of 'z' inside groups is 0 or 4 modulo 5 (`ReadsExact`): the length it pads for counts
every 'z' as a group of its own. `abz` is read three characters past the terminator, `azzzz` up to the terminator, and
`~~~~~` not even that far.

**YAML builder** (`YamlTrees`, `YamlRebuild`, `YamlBuilder`). The parser's events are the input; nodes live in an arena
and pointers are indices. For every list of trees, feeding its event stream appends exactly these documents, the last
of equal keys winning, *if and only if* all keys are scalars and no sequence stands directly inside a sequence;
otherwise an assertion fails. Events of other kinds, such as the start and the end of the stream, change nothing wherever
they stand (`RunDelivered`, `RunFile`).

**Schedule** (`Schedule`, `ScheduleTraces`, `ScheduleStore`). Alarms and numbers of runs have a closed form after any sequence of calls,
with tasks added at any time, including the effect of the 32-bit tick counter coming round to zero (initialisation
tasks then run again). A beat is bracketed by the marshalling callbacks exactly if the list is empty, the counter comes
round to 0, or a task runs; the callbacks of a whole run are those of a timetable that knows no alarms. The formula for the number of beats to make up, with its factor 1.01, is exact for a gap of
whole beats if there are fewer than 100, and for any gap exactly if the fraction left over and a hundredth of the gap
stay below a beat together.

**Vector with separate index** (`SoaSorting`, `SoaVectors`, `SoaStore`). The insertion sort on two arrays is a stable
sort of pairs, and no other arrangement is sorted and stable. The documentation says that a NULL argument of a push
appends a zero-initialised slot; in the code the slot keeps what it held. The promise is kept *if and only if* the vector
is full, so that new storage is allocated, or the slot behind the last entry holds zero where an argument is NULL
(`PushExact`); after any run this is so when the length is at its highest since the storage was last allocated
(`PushAfterRun`), and nothing weaker than that can be said without looking at the slot (`HighIsNeeded`). Make a vector,
push an entry, pop it and push NULL: the entry is back (`StaleEntryComesBack`).

## Model

| member | source | states |
|---|---|---|
| Probing.FoundIffReachable | dse/clib/collections/set.c:354-377 | the probe finds an entry at its own slot exactly if no free slot lies between its home and that slot |
| Probing.LookupIsModel | dse/clib/collections/hashmap.c:337-359 | in a healthy table a lookup succeeds exactly for stored keys, and yields the stored value |
| Probing.RoomIsVacant | dse/clib/collections/hashmap.c:337-359 | with a free slot the probe never reports that it went all the way round |
| Probing.InsertKeepsOk | dse/clib/collections/set.c:379-388 | writing a new entry at the free slot the probe ended at keeps all entries findable and adds just that one |
| Relayout.PassKeepsNodes | dse/clib/collections/set.c:397-413 | a pass, of either kind, neither loses nor duplicates an entry |
| Relayout.PassOfOkIsQuiet | dse/clib/collections/hashmap.c:313-335 | on a healthy table a pass moves nothing and says so |
| Relayout.VacatedAboveFullRun | dse/clib/collections/set.c:397-413 | if the pass moves an entry of the upper half down, every slot of that half below it was occupied when the pass entered the half |
| Relayout.OnePassSuffices | dse/clib/collections/set.c:321-352 | after doubling, one left-to-right pass makes every entry findable from its new home, whatever the old arrangement; contents unchanged |
| Displacement.PassShortens | dse/clib/collections/hashmap.c:292-311 | a pass that moves anything makes the sum of probe displacements smaller, so repeating passes terminates |
| Displacement.OnePassStabilises | dse/clib/collections/hashmap.c:304-311 | the repeat-until-stable loop after doubling ends with what one pass gives (the question in the source's TODO) |
| Backshift.RemovalExact | dse/clib/collections/hashmap.c:313-335 | the back-shift removes exactly one entry; all others stay findable if and only if some slot at or above it is crossed by no other probe path |
| Backshift.FreeSlotAboveIsBarrier | dse/clib/collections/hashmap.c:102-120 | a free slot above the removed one is enough |
| Backshift.RefillKeepsOk | dse/clib/collections/hashmap.c:313-335 | the removed entry put back, with any value, fills the hole: the table is healthy again whatever the removal cut off |
| Backshift.HoleStep | dse/clib/collections/set.c:397-413 | while shifting back there is one hole, and moving an entry moves the hole |
| TableOps.ProbeArray | dse/clib/collections/hashmap.c:337-359 | the probe loop, with its wrap-around, computes the probe function |
| TableOps.SettleSlot | dse/clib/collections/hashmap.c:313-335 | one visit of the pass, in place, and whether it moved the entry |
| TableOps.RelayoutNodes | dse/clib/collections/hashmap.c:313-335 | the pass in place, with its two ways to stop, and the result that says whether it moved anything |
| SimpleSets.ContainsIsMembership | dse/clib/collections/set.c:315-319 | contains answers membership; it gives the circular error exactly for an absent key in a full table |
| SimpleSets.AddRefines | dse/clib/collections/set.c:321-352 | adding, with growth, adds exactly the key, reports whether it was present, and never fails for lack of room |
| SimpleSets.RemoveRefines | dse/clib/collections/set.c:90-103 | removing removes exactly the key, and the set stays healthy if and only if the removal is guarded |
| SimpleSets.RemoveAnswers | dse/clib/collections/set.c:90-103 | true exactly for a member; for any other key false if a slot is free and the circular error if none is, with nothing changed |
| SimpleSets.AddGrows | dse/clib/collections/set.c:326-342 | the table doubles exactly when the key is new and more than a quarter of the slots are taken |
| SimpleSets.RunRefinesSet | dse/clib/collections/set.c:76-103 | over any run of adds and removals every member stays findable if and only if its removals are guarded, and then the run computes the finite set and its size |
| SimpleSets.UnguardedRemovalLosesKey | dse/clib/collections/set.c:90-103 | two keys at the last slot: removing the first makes the second unfindable, in a table of any size from 4 |
| SimpleSets.NeverFull | dse/clib/collections/set.c:326-342 | a guarded run from a table of two or more slots never reaches a full table |
| SimpleSets.UsedIsSize | dse/clib/collections/set.c:105-108 | the length is the number of members |
| SetAlgebra.CombineRefines | dse/clib/collections/set.c:127-210 | union, intersection, difference and symmetric difference into an empty result are those of mathematics; a result that is not empty is refused untouched |
| SetAlgebra.SubsetExact | dse/clib/collections/set.c:212-224 | the subset answer is true exactly for subsets or when the second table is full |
| SetAlgebra.SubsetRightUnlessFull | dse/clib/collections/set.c:212-224 | the answers against a table are right for every set exactly if that table has a free slot |
| SetAlgebra.SubsetOfFullTable | dse/clib/collections/set.c:212-224 | a reachable full table of which {"b"} is wrongly reported as a subset |
| SetAlgebra.CompareExact | dse/clib/collections/set.c:234-251 | the four results of the comparison, each exactly when cardinalities and equality say so |
| SimpleSetStore.SimpleSet.constructor | dse/clib/collections/set.c:40-54 | an initialised set is empty |
| SimpleSetStore.SimpleSet.Add | dse/clib/collections/set.c:78-82 | the object's new state is that of the specification; a healthy set gains exactly the key |
| SimpleSetStore.SimpleSet.Grow | dse/clib/collections/set.c:326-342 | the doubling in place and the pass over the new array |
| SimpleSetStore.SimpleSet.Remove | dse/clib/collections/set.c:90-103 | the new state is that of the specification; healthy exactly if the removal was guarded |
| SimpleSetStore.SimpleSet.AddKeysOf | dse/clib/collections/set.c:127-210 | the loop over another set's array that the four constructors share, also when the result is one of the two sets it looks at |
| SimpleSetStore.SimpleSet.Assign | dse/clib/collections/set.c:127-210 | each constructor leaves the set operation's result, also in an object that is one of its operands |
| SimpleSetStore.SimpleSet.IsSubset | dse/clib/collections/set.c:212-224 | the loop computes the subset test, with its early exit |
| SimpleSetStore.SimpleSet.CompareTo | dse/clib/collections/set.c:234-251 | equal exactly if the elements are |
| HashMaps.GetRefines | dse/clib/collections/hashmap.c:94-100 | get returns the stored pointer or NULL |
| HashMaps.PutRefines | dse/clib/collections/hashmap.c:361-389 | set overwrites or adds exactly one entry, keeps the ownership mark of a replaced one, and counts right unless it replaces a NULL pointer; there is always a free slot, so the full map cannot occur |
| HashMaps.LoadStaysLow | dse/clib/collections/hashmap.c:361-374 | over any guarded run from four slots on, the counter passes a quarter of the slots by at most one |
| HashMaps.PutGrows | dse/clib/collections/hashmap.c:361-374 | the table doubles exactly when a quarter of the slots or more is counted as taken |
| HashMaps.ExpandedHasRoom | dse/clib/collections/hashmap.c:361-374 | after the growth test there is a free slot and the contents are the same |
| HashMaps.RemoveRefines | dse/clib/collections/hashmap.c:102-120 | remove drops exactly the entry, unless its pointer is NULL, and keeps the others findable if and only if it is guarded |
| HashMaps.RunRefinesMap | dse/clib/collections/hashmap.c:84-120 | any run of sets and removals keeps entries findable if and only if removals are guarded, and then computes the finite map; the counter is ahead by one for each set that found a NULL pointer under its key |
| HashMaps.CounterIsExact | dse/clib/collections/hashmap.c:361-389 | from an empty map the counter is the number of entries exactly if no set found a NULL pointer under its key; setting only other pointers is enough |
| HashMaps.ReplaceRefines | dse/clib/util/yaml.c:604-611 | removing a key and setting it again is a map update with no condition on the table |
| HashMaps.SetLastRefinesMap | dse/clib/util/yaml.c:604-611 | any run of such replacements from a healthy map computes the finite map of the last values, every entry findable |
| HashMaps.UnguardedRemovalLosesEntry | dse/clib/collections/hashmap.c:102-120 | two entries at the last slot: removing the first makes the second unfindable, in a map of any size from 5 |
| HashMaps.NullValueCountedTwice | dse/clib/collections/hashmap.c:361-389 | setting one key to NULL twice gives used_nodes 2 and one entry |
| HashMapStore.HashMap.constructor | dse/clib/collections/hashmap.c:45-56 | an initialised map is empty |
| HashMapStore.HashMap.Clear | dse/clib/collections/hashmap.c:68-82 | clearing gives the empty map of the same number of slots |
| HashMapStore.HashMap.Grow | dse/clib/collections/hashmap.c:292-311 | the loop of passes ends, with the table that one pass gives |
| HashMapStore.HashMap.SetHashed | dse/clib/collections/hashmap.c:361-389 | the state and the result of the specification, in place |
| HashMapStore.HashMap.Remove | dse/clib/collections/hashmap.c:102-120 | the state and the result of the specification, in place |
| HashMapStore.HashMap.GetByUint32 | dse/clib/collections/hashmap.h:170-178 | a lookup by number is the lookup of its decimal form |
| HashMapStore.HashMap.SetByHash32 | dse/clib/collections/hashmap.h:192-200 | a value set under 32 bits is stored under their decimal form and the doubled hash |
| Decimals.NumeralOfDecimal | dse/clib/collections/hashmap.h:158-168 | the decimal form consists of digits and denotes the number |
| Decimals.DecimalInjective | dse/clib/collections/hashlist.h:46-60 | two numbers with the same decimal form are equal |
| Decimals.DecimalLength | dse/clib/collections/hashmap.h:158-168 | a decimal form has at most k digits exactly for numbers below 10^k |
| Decimals.ItoaInBuffer | dse/clib/collections/hashmap.h:158-168 | filling the buffer backwards yields the decimal form within ten characters, for every 32-bit number |
| Decimals.ListKeysDiffer | dse/clib/collections/hashlist.h:46-60 | positions up to 2^31 have different list keys |
| Decimals.ListKeysCollide | dse/clib/collections/hashlist.h:46-60 | positions 2^31 and 2^31 + 1 share a key |
| HashLists.ListRefinesSequence | dse/clib/collections/hashlist.h:40-60 | after any appends, across all growths, the list holds the pointers that are not NULL in order; its length is their number if and only if there are at most 2^31 + 1 |
| HashLists.AtRefines | dse/clib/collections/hashlist.h:55-60 | for indices up to 2^31: the element at the position, NULL behind the last |
| HashLists.AtByKey | dse/clib/collections/hashlist.h:55-60 | for any index: the element of the position that has the same key, NULL if there is none |
| HashLists.NtlRefines | dse/clib/collections/hashlist.h:62-83 | the copied array is the objects the sequence leads to, in order, and a zeroed object |
| HashLists.Hash32RoundTrip | dse/clib/collections/hashmap.h:181-218 | a value set under a 32-bit hash is read back under it and seen under no other |
| HashLists.Hash32SeenByString | dse/clib/collections/hashmap.h:158-218 | in any healthy map, a string lookup of the digits sees such a value exactly if the string hash is the doubled hash, and otherwise what it saw before |
| HashMapStore.HashList.Append | dse/clib/collections/hashlist.h:46-53 | append as the specification says; NULL is ignored |
| HashMapStore.HashList.Ntl | dse/clib/collections/hashlist.h:62-83 | the copying loop yields every position's object and a zeroed one, and destroys the list if asked |
| XxhClassic.RoundsConcat | dse/clib/data/xxhash.h:3039-3062 | rounds over a concatenation are rounds over the first part and then over what it left, followed by the second |
| XxhClassic.RestLength | dse/clib/data/xxhash.h:3178-3199 | what is left over is as long as the length mask says and is the end of the input |
| XxhClassic.ConsumeLong | dse/clib/data/xxhash.h:3559-3586 | the do-while loop over whole stripes, in place |
| XxhClassic.OneShot | dse/clib/data/xxhash.h:3676-3696 | the one-shot hash is the hash function of the specification |
| XxhClassic.Buffered.Feed | dse/clib/data/xxhash.h:3749-3791 | after an update the accumulators are the rounds over all input so far and the buffer holds exactly what is left over |
| XxhClassic.State32.Update | dse/clib/data/xxhash.h:3253-3296 | the wrapped total is the total modulo 2^32, and large_len is set exactly when the true total is at least 16 |
| XxhClassic.State32.Digest | dse/clib/data/xxhash.h:3300-3313 | the digest is the hash of everything fed |
| XxhClassic.State64.Digest | dse/clib/data/xxhash.h:3795-3808 | the digest is the hash of everything fed |
| XxhClassic.LengthWraps | dse/clib/data/xxhash.h:3263-3265 | adding to a wrapped total wraps the true total, and below 16 nothing has wrapped |
| XxhClassic.StreamChunks32 | dse/clib/data/xxhash.h:3253-3313 | XXH32 over any chunks is XXH32 of their concatenation |
| XxhClassic.StreamChunks64 | dse/clib/data/xxhash.h:3749-3808 | XXH64 over any chunks, below 2^64 bytes in all, is XXH64 of their concatenation |
| XxhAlgorithms.Xxh32Fits | dse/clib/data/xxhash.h:3022-3029 | XXH32 itself keeps the seed in lane 2 and adds the length modulo 2^32 |
| XxhAlgorithms.Xxh64Fits | dse/clib/data/xxhash.h:3542-3549 | XXH64 itself keeps the seed in lane 2 |
| XxhAlgorithms.StreamXxh32 | dse/clib/data/xxhash.h:2925-3313 | XXH32 with its own constants and steps, over any chunks |
| XxhAlgorithms.StreamXxh64 | dse/clib/data/xxhash.h:3476-3808 | XXH64 with its own constants and steps, over any chunks below 2^64 bytes |
| XxhInjective.Xxh32TellsUnitsApart | dse/clib/data/xxhash.h:2950-3199 | for every seed, inputs of the same length that differ in exactly one aligned word or one byte of the tail have different XXH32 hashes |
| XxhInjective.Round32Injective | dse/clib/data/xxhash.h:2950-2955 | a round loses nothing of the accumulator or of the input |
| XxhInjective.Merge32Injective | dse/clib/data/xxhash.h:3066-3072 | accumulators that differ in exactly one lane have different merges |
| XxhInjective.Avalanche32Injective | dse/clib/data/xxhash.h:3007-3015 | the last mixing step is injective |
| Xxh64Injective.Xxh64TellsTailsApart | dse/clib/data/xxhash.h:3633-3696 | for every seed, inputs of the same length that differ in exactly one unit behind the whole stripes have different XXH64 hashes |
| Xxh64Injective.Xxh64TellsWordsApart | dse/clib/data/xxhash.h:3491-3586 | inputs that differ in exactly one word of a whole stripe have accumulators that differ in that lane and no other |
| Bits.BitOfXor | dse/clib/data/xxhash.h:3007-3015 | a bit of an exclusive or is set exactly if the two bits differ |
| Bits.XorShiftInjective | dse/clib/data/xxhash.h:3007-3015 | x ^ (x >> k) determines x, for every k above 0 |
| Bits.RotationInjective | dse/clib/data/xxhash.h:2950-2955 | a rotation exchanges the two parts of a number and loses nothing |
| XxhPaths.Avalanche32Folds | dse/clib/data/xxhash.h:3007-3015 | the last mixing step of XXH32 bit by bit, with its shifts and factors |
| XxhPaths.Xxh32OfNone | dse/clib/data/xxhash.h:3179-3199 | XXH32 of no input, for every seed |
| XxhPaths.Xxh32OfByte | dse/clib/data/xxhash.h:3090-3097 | XXH32 of one byte: every byte counts, times 0x165667B1, turned by 11 bits |
| XxhPaths.Xxh32OfWord | dse/clib/data/xxhash.h:3098-3103 | XXH32 of one word: times 0xC2B2AE3D, turned by 17 bits, times 0x27D4EB2F |
| XxhPaths.Xxh32OfStripe | dse/clib/data/xxhash.h:3024-3072 | XXH32 of 16 bytes: the start values, the round of each lane, the rotations of the merge, the length |
| XxhPaths.LongPath | dse/clib/data/xxhash.h:3178-3199 | either hash of a stripe and more: the merge of the lanes and the length go into exactly the bytes behind the whole stripes |
| XxhPaths.NextStripe32 | dse/clib/data/xxhash.h:3039-3062 | any further stripe of XXH32: each lane takes its word, the rest follows |
| XxhPaths.MergeOf32 | dse/clib/data/xxhash.h:3066-3072 | the merge adds the lanes turned by 1, 7, 12 and 18 bits |
| XxhPaths.NextUnit32 | dse/clib/data/xxhash.h:3090-3117 | the units of an XXH32 tail, in order from its start, words first |
| Xxh64Paths.Avalanche64Folds | dse/clib/data/xxhash.h:3525-3533 | the last mixing step of XXH64 bit by bit |
| Xxh64Paths.Xxh64OfNone | dse/clib/data/xxhash.h:3677-3696 | XXH64 of no input, for every seed |
| Xxh64Paths.Xxh64OfByte | dse/clib/data/xxhash.h:3650-3654 | XXH64 of one byte |
| Xxh64Paths.Xxh64OfHalf | dse/clib/data/xxhash.h:3644-3649 | XXH64 of four bytes |
| Xxh64Paths.Xxh64OfWord | dse/clib/data/xxhash.h:3637-3643 | XXH64 of eight bytes |
| Xxh64Paths.Xxh64OfStripe | dse/clib/data/xxhash.h:3543-3616 | XXH64 of 32 bytes: the start values, the round of each lane, the rotations and the merging in of each lane, the length |
| Xxh64Paths.NextStripe64 | dse/clib/data/xxhash.h:3559-3586 | any further stripe of XXH64: each lane takes its word, the rest follows |
| Xxh64Paths.MergeOf64 | dse/clib/data/xxhash.h:3594-3616 | the merge adds the turned lanes and merges each in, in order |
| Xxh64Paths.NextUnit64 | dse/clib/data/xxhash.h:3633-3656 | the units of an XXH64 tail, in order from its start: eight bytes, then four, then one |
| Xxh3Laws.LongAccIsFlat | dse/clib/data/xxhash.h:6084-6115 | for every secret and length the accumulators of a long input, by the numbered place of each stripe in the secret, of the scramble and of the last stripe |
| Xxh3Laws.AbsorbIsFlat | dse/clib/data/xxhash.h:6509-6548 | stripe n of a block is keyed 8 * n bytes into the secret, and a scramble with its last 64 bytes follows every block |
| Xxh3Laws.FourStripes | dse/clib/data/xxhash.h:6107-6114 | 241 to 256 bytes with a secret of 192: keys at 0, 8, 16 and, for the last stripe, 121 |
| Xxh3Laws.OneBlockAndAByte | dse/clib/data/xxhash.h:6084-6115 | 1025 bytes with a secret of 192: sixteen stripes, the scramble at 128, the last stripe at 121 |
| Xxh3Laws.LongInputs | dse/clib/data/xxhash.h:6188-6310 | above 240 bytes: which secret each mode uses, and that a seed beside a secret plays no part |
| Xxh3Laws.ShortInputs | dse/clib/data/xxhash.h:6257-6310 | up to 240 bytes: which secret and seed each mode hands to the short-input mixers |
| Xxh3KernelLaws.AccumulateByLane | dse/clib/data/xxhash.h:5869-5907 | each lane takes in its neighbour's input and its own product |
| Xxh3KernelLaws.ProductOfKey | dse/clib/data/xxhash.h:5869-5884 | that product is the whole product of the 32-bit halves of input ^ secret |
| Xxh3KernelLaws.ScrambleByLane | dse/clib/data/xxhash.h:5918-5955 | a lane is folded by 47 bits, xored with its part of the secret and multiplied by 0x9E3779B1 |
| Xxh3KernelLaws.DerivedSecret | dse/clib/data/xxhash.h:5957-6010 | the seed is added to the even lanes of the default secret and subtracted from the odd ones |
| Xxh3Reference.AbsorbConcat | dse/clib/data/xxhash.h:6509-6548 | absorbing stripes is a run: absorbing a concatenation is absorbing its parts in turn |
| Xxh3Reference.RunInBlock | dse/clib/data/xxhash.h:6509-6548 | stripes within one block are one accumulate call, followed by a scramble exactly at the end of the block |
| Xxh3Loops.ConsumeStripes | dse/clib/data/xxhash.h:6509-6548 | the loop over the ends of blocks absorbs exactly the given stripes, from any position in a block |
| Xxh3Loops.HashLong | dse/clib/data/xxhash.h:6084-6115 | the block loop, the last partial block and the last stripe absorb the input as stripe by stripe |
| Xxh3Loops.Plan | dse/clib/data/xxhash.h:6084-6115 | whole blocks and remaining stripes together cover all whole stripes before the last byte |
| Xxh3Streaming.State.ResetWithSeed | dse/clib/data/xxhash.h:6470-6478 | after the reset the secret in use is the one derived from the seed, whether or not it was generated again |
| Xxh3Streaming.State.ResetWithSecret | dse/clib/data/xxhash.h:6459-6466 | success exactly for a secret of at least 136 bytes; after a failure the state must be reset again |
| Xxh3Streaming.State.ResetWithSecretAndSeed | dse/clib/data/xxhash.h:6482-6490 | success exactly for a long enough secret; a failure changes nothing |
| Xxh3Streaming.State.Update | dse/clib/data/xxhash.h:6554-6632 | the invariant: accumulators and stripe counter are the run over the stripes consumed, and the end of the buffer holds the 64 bytes before the buffered ones |
| Xxh3Streaming.State.LastBytes | dse/clib/data/xxhash.h:6652-6686 | the last stripe is the last 64 bytes of everything fed, also when part of it has left the buffer |
| Xxh3Streaming.State.DigestLong | dse/clib/data/xxhash.h:6652-6686 | the accumulators of the digest are those of the one-shot long hash |
| Xxh3Streaming.State.Digest | dse/clib/data/xxhash.h:6689-6702 | the digest is the one-shot hash of everything fed since the reset, in the mode of that reset |
| Xxh3Streaming.OneShot | dse/clib/data/xxhash.h:6256-6310 | the one-shot entry points, with their choice by length, compute the hash of the specification |
| Xxh3Streaming.StreamChunks | dse/clib/data/xxhash.h:6509-6702 | XXH3 over any chunks, in any mode and with either output, is the one-shot hash of their concatenation |
| Xxh3Kernels.MultiplyExact | dse/clib/data/xxhash.h:4569-4583 | high * 2^64 + low is the product, for all operands |
| Xxh3Kernels.CarriesFit | dse/clib/data/xxhash.h:4575-4578 | no sum of the partial products overflows 64 bits, and the halves joined by the bitwise or are the whole |
| Words.OrOfHalves | dse/clib/data/xxhash.h:4578 | joining two halves by the bitwise or is adding them |
| Xxh3Kernels.RoundsAgree | dse/clib/data/xxhash.h:5205-5237 | two scalar rounds that add to the neighbouring lane equal one SSE2 round that swaps and adds |
| Xxh3Kernels.SplitProduct | dse/clib/data/xxhash.h:5241-5268 | the product of the halves, shifted and added, is the 64-bit multiplication by the 32-bit prime |
| Xxh3Kernels.ScrambleRoundsAgree | dse/clib/data/xxhash.h:5917-5936 | two scalar scramble rounds equal one SSE2 scramble round |
| Xxh3Kernels.SecretsAgree | dse/clib/data/xxhash.h:5270-5303 | adding the vector (seed, 0 - seed) derives the same secret as adding and subtracting the seed lane by lane |
| Xxh3Kernels.SecretReadsBack | dse/clib/data/xxhash.h:5995-6008 | reading a lane of a derived secret gives the word written there |
| Xxh3Kernels.VectorRefinesScalar | dse/clib/data/xxhash.h:4926-4942 | the SSE2 form, secret derivation included, gives the same XXH3 hash as the scalar form for every input, mode and seed |
| Xxh3Kernels.AccumulateScalar | dse/clib/data/xxhash.h:5891-5907 | the scalar loop, lane by lane in place |
| Xxh3Kernels.AccumulateSse2 | dse/clib/data/xxhash.h:5205-5237 | the SSE2 loop, in place, leaves what the scalar one does |
| Xxh3Kernels.InitSecretScalar | dse/clib/data/xxhash.h:5949-6010 | the scalar loop that writes the derived secret |
| Xxh3Kernels.InitSecretSse2 | dse/clib/data/xxhash.h:5270-5303 | the SSE2 loop leaves the secret of the scalar one |
| MdfLayout.AllGroupsSize | dse/clib/mdf/mdf.c:81-111 | the size computed for hd_dg_first is the total size of the blocks written for the groups |
| MdfLayout.FixedLinks | dse/clib/mdf/mdf.c:195-270 | the header, file history, metadata, data group and data links lead to their blocks |
| MdfLayout.NextCg | dse/clib/mdf/mdf.c:113-137 | the distance computed ahead of time leads to where the next channel group block comes to lie |
| MdfLayout.ReadOneGroup | dse/clib/mdf/mdf.c:356-383 | the links of one group recover its name, its comment, master channel, signals in order with their byte offsets, and the next group |
| MdfLayout.LinksRecoverGroups | dse/clib/mdf/mdf.c:468-501 | following all links recovers all groups, names and byte offsets if and only if every group has a signal |
| MdfLayout.ChannelsTileTheRecord | dse/clib/mdf/mdf.c:273-335 | in every group that is recovered channel k lies at byte 8 * k of the record, the master channel at 0 |
| MdfLayout.BlocksAligned | dse/clib/mdf/mdf.c:66-78 | every block begins at a multiple of eight |
| MdfLayout.OneSignalFile | dse/clib/mdf/mdf.c:468-501 | every block and link of a file with one group of one signal, as numbers |
| MdfRecords.RecordsComeBack | dse/clib/mdf/mdf.c:58-63 | records are read back exactly if each is as long as the reader is told and its group is the first with its id |
| MdfRecords.RunComesBack | dse/clib/mdf/mdf.c:356-383 | the records of any run are read back if and only if all groups have as many signals as the first and no two share a record id |
| MdfRecords.SecondGroupMisread | dse/clib/mdf/mdf.c:356-383 | one signal in the first group and two in the second: the first sample is not read back |
| MdfWriter.MdfDesc.WriteRecords | dse/clib/mdf/mdf.c:504-523 | the loop writes one record of every group |
| MdfWriter.MdfDesc.CalculateDgFirst | dse/clib/mdf/mdf.c:81-111 | the accumulating loops compute the layout's offset |
| MdfWriter.MdfDesc.CalculateCgNextOffset | dse/clib/mdf/mdf.c:113-137 | the distance to the next channel group block |
| MdfWriter.MdfDesc.WriteChannels | dse/clib/mdf/mdf.c:317-354 | the channel loop writes the layout's channel and text blocks and advances the offset by their size |
| MdfWriter.MdfDesc.WriteGroup | dse/clib/mdf/mdf.c:273-383 | the blocks of one group, and where its channel group block went |
| MdfWriter.MdfDesc.WriteStartBlocks | dse/clib/mdf/mdf.c:468-501 | the file written is the layout, the offset is its size, and the reader recovers the groups, byte offsets included, exactly if each has a signal |
| Ascii85.GroupComesBack | dse/clib/util/ascii85.c:29-64 | four bytes survive encoding into a group and decoding |
| Ascii85.TailStaysBelow | dse/clib/util/ascii85.c:85-138 | the bound behind the padding: 85^k is below 256^k, and a short group raised by 256^k stays within 32 bits |
| Ascii85.TailValue | dse/clib/util/ascii85.c:85-138 | padding with 'u' changes the value of a short group by less than 256^k and not past 2^32 |
| Ascii85.TailComesBack | dse/clib/util/ascii85.c:85-138 | one to three bytes survive the cut group and its padding |
| Ascii85.PaddingFromLength | dse/clib/util/ascii85.c:85-110 | for a text that k letters make grouped, the padding computed from its length and its number of z is k, and what it decodes to fills the buffer |
| Ascii85.ReadsExact | dse/clib/util/ascii85.c:91-129 | for every text: the decoder's reads stay inside its copy if and only if the number of z inside groups is 0 or 4 modulo 5, and how far they go |
| Ascii85.WritesFit | dse/clib/util/ascii85.c:91-133 | for every text: the writes and the correction of the padding stay inside the buffer |
| Ascii85.ReadsPastTheEnd | dse/clib/util/ascii85.c:111-129 | `abz` is read three characters past the terminator |
| Ascii85.ReadsTheTerminator | dse/clib/util/ascii85.c:111-129 | `azzzz` is read up to the terminator |
| Ascii85.ReadsOtherCharacters | dse/clib/util/ascii85.c:111-129 | `~~~~~` is read to its end only |
| Ascii85.RoundTrip | dse/clib/util/ascii85.c:29-138 | every byte string comes back, with its length |
| Ascii85.EncodingInjective | dse/clib/util/ascii85.c:29-64 | different byte strings have different encodings |
| Ascii85Format.ZeroGroup | dse/clib/util/ascii85.c:43-57 | a whole group of zeroes with at least four more bytes behind it is a single z |
| Ascii85Format.LetterGroup | dse/clib/util/ascii85.c:43-57 | any other whole group is five letters that spell its big-endian value to the base 85 |
| Ascii85Format.LastGroup | dse/clib/util/ascii85.c:35-64 | one to three bytes at the end are the first letters, one more than bytes, of their group filled up with zeroes |
| Ascii85Format.EncodedLength | dse/clib/util/ascii85.c:29-64 | the length of the text, from the length of the input and its number of zero groups |
| Ascii85Format.FourBytesOf | dse/clib/util/ascii85.c:116-127 | any five characters stand for the four bytes of the number they spell, modulo 2^32 |
| Ascii85Format.DecodedInFull | dse/clib/util/ascii85.c:93-138 | for every text the result is the bytes of its groups, and zeroes where the buffer is larger |
| Ascii85Loops.Encode | dse/clib/util/ascii85.c:29-64 | the encoding loops, with the 'z' group and the cut of the last group, write the encoding and its terminator |
| Ascii85Loops.PutGroup | dse/clib/util/ascii85.c:46-56 | the inner loop writes the five digits from the right |
| Ascii85Loops.Decode | dse/clib/util/ascii85.c:85-138 | for every text whose reads stay inside the copy, each read an index into it and each write one into the buffer: the decoded bytes and their number |
| Ascii85Loops.DecodeCopy | dse/clib/util/ascii85.c:110-129 | the main loop, over the remaining length, the reading and the writing place |
| Ascii85Loops.PaddedCopy | dse/clib/util/ascii85.c:99-105 | the copy filled up by u and its terminator |
| YamlRebuild.RunValue | dse/clib/util/yaml.c:689-777 | after the events of a value the builder is back at the node's parent, the node holds the value and no older node has changed, if and only if the value is buildable |
| YamlRebuild.RunEntries | dse/clib/util/yaml.c:596-618 | the entries of a mapping, in turn, the last of equal keys winning |
| YamlRebuild.RunItems | dse/clib/util/yaml.c:714-748 | the elements of a sequence, in order, scalars named after themselves |
| YamlRebuild.RunDocument | dse/clib/util/yaml.c:702-712 | one document adds one root without parent to the list and resets both pointers |
| YamlRebuild.RunStream | dse/clib/util/yaml.c:689-777 | a stream of documents is rebuilt if and only if all are buildable; otherwise an assertion fails |
| YamlRebuild.OtherEventIgnored | dse/clib/util/yaml.c:768-773 | an event of another kind changes nothing, wherever it stands |
| YamlRebuild.RunDelivered | dse/clib/util/yaml.c:689-777 | the same for every event sequence that is a stream of documents but for events of other kinds |
| YamlRebuild.RunFile | dse/clib/util/yaml.c:689-777 | the same for the stream as a parser delivers it, with its start and its end |
| YamlRebuild.CrashesExactly | dse/clib/util/yaml.c:700-767 | exactly when an event makes an assertion fail or a NULL pointer be followed |
| YamlRebuild.LastWins | dse/clib/util/yaml.c:606-612 | the value of a key is that of its last entry |
| YamlRebuild.ViewIsLocal | dse/clib/util/yaml.c:596-618 | a tree depends only on its own and later nodes |
| YamlBuilder.Builder.Create | dse/clib/util/yaml.c:596-618 | a new node attached to its parent; in a mapping an older entry of the same name is removed first |
| YamlBuilder.Builder.On | dse/clib/util/yaml.c:700-767 | one event, in place |
| YamlBuilder.Builder.Load | dse/clib/util/yaml.c:693-770 | the event loop |
| Schedule.RunLaw | dse/clib/schedule/schedule.c:126-167 | after any calls, with tasks added at any time, a task of b beats armed at beat a has run (N - a) / b times and its alarm is b - (N - a) % b; an initialisation task has run once, and once more for every 2^32 beats; tick is N modulo 2^32 |
| Schedule.BeatIsBracketed | dse/clib/schedule/schedule.c:155-166 | a beat runs the initialisation tasks if the counter comes round to 0, then the tasks whose time is up, each once and in list order; it is bracketed by marshal_out and marshal_in if and only if the list is empty, the counter is 0 or a task runs |
| Schedule.ItemsHaveTheirTasks | dse/clib/schedule/schedule.c:89-108 | after any run the i-th item has the task and the beats of the i-th task added |
| ScheduleTraces.CallFollows | dse/clib/schedule/schedule.c:126-167 | a call adds marshal_noop, the init tick if it is time for it, and for every beat its planned callbacks |
| ScheduleTraces.RunFollows | dse/clib/schedule/schedule.c:89-167 | the callbacks of any run are those of the timetable, which has no alarms: each task at the multiples of its beats, in list order, each beat bracketed exactly when it must be |
| Schedule.TicksNeedTime | dse/clib/schedule/schedule.c:140-154 | no beat is made up for before the init tick has run |
| Schedule.WholeBeats | dse/clib/schedule/schedule.c:154 | a gap of g whole beats gives g + g / 100 ticks, so g exactly if g is below 100 |
| Schedule.AnyGap | dse/clib/schedule/schedule.c:154 | for any gap the ticks are the whole beats in it exactly if the fraction left over and a hundredth of the gap stay below a beat; a negative gap gives none |
| ScheduleStore.Scheduler.AddItem | dse/clib/schedule/schedule.c:89-108 | the item is appended, its alarm not armed |
| ScheduleStore.Scheduler.Alarming | dse/clib/schedule/schedule.c:212-232 | the loop decides whether an alarm stands at one, with the two early answers |
| ScheduleStore.Scheduler.TickAll | dse/clib/schedule/schedule.c:241-277 | the two loops run the tasks in list order and count every alarm down or reset it |
| ScheduleStore.Scheduler.OnTime | dse/clib/schedule/schedule.c:126-167 | one call, with all its callbacks in order |
| SoaSorting.SortIsStable | dse/clib/collections/vector.h:535-566 | for any total preorder the result is sorted, a permutation, and keeps the order of pairs with equal keys |
| SoaSorting.StableSortIsUnique | dse/clib/collections/vector.h:535-566 | no other sequence of pairs is sorted and stable |
| SoaSorting.RankIsOrdering | dse/clib/collections/vector.h:535-566 | what is asked of a comparison function holds of comparing by any rank |
| SoaSorting.FindAfterSort | dse/clib/collections/vector.h:639-675 | a find after the sort returns an item paired with an equal key before it, and none exactly if there was none |
| SoaSorting.FindFromStart | dse/clib/collections/vector.h:639-675 | a find from a start position, in a sorted vector |
| SoaVectors.EntriesOfOperations | dse/clib/collections/vector.h:297-317 | pushing, deleting and sorting, on the entries alone |
| SoaVectors.ResizeExact | dse/clib/collections/vector.h:85-119 | a resize is refused, with nothing changed, exactly for a hint from 1 to the length; otherwise the entries stay with zeroes behind them, and a hint of 0 leaves nothing |
| SoaVectors.RemovalExact | dse/clib/collections/vector.h:343-353 | the codes of pop, delete and sort, and that a refusal changes nothing |
| SoaVectors.PushGrows | dse/clib/collections/vector.h:297-305 | a push makes room for the first capacity after a release, and for twice the room when none is left |
| SoaVectors.DeleteKeepsOrder | dse/clib/collections/vector.h:497-514 | deleting removes one pair and keeps a sorted vector sorted |
| SoaVectors.PushExact | dse/clib/collections/vector.h:270-317 | a push appends one entry, and the documented one exactly if the vector is full or the slot behind the last entry holds zero where an argument is NULL |
| SoaVectors.PushAfterRemoval | dse/clib/collections/vector.h:345-353 | right after a pop or a deletion the next push keeps the promise exactly if the last entry was zero where the argument is NULL |
| SoaVectors.PushAfterRun | dse/clib/collections/vector.h:85-113 | after any run, a push keeps the promise when the length is at its highest since the storage was allocated, and below that exactly if the slot holds zero where an argument is NULL |
| SoaVectors.HighIsNeeded | dse/clib/collections/vector.h:85-113 | wherever the length is below its highest there is a run that gets there and breaks the promise |
| SoaVectors.StaleEntryComesBack | dse/clib/collections/vector.h:270-317 | make, push an entry, pop, push NULL: the entry is back |
| SoaStore.SoaVector.SortItems | dse/clib/collections/vector.h:535-566 | the two arrays move in lock step; the cells beyond the length are untouched |
| SoaStore.SoaVector.InsertAt | dse/clib/collections/vector.h:549-561 | the inner loop opens the slot the specification names |
| SoaStore.SoaVector.PushEntry | dse/clib/collections/vector.h:297-317 | growth and the new entry in both arrays |
| SoaStore.SoaVector.DeleteEntry | dse/clib/collections/vector.h:497-514 | both arrays close up; the error codes |
| SoaStore.SoaVector.ResizeTo | dse/clib/collections/vector.h:85-113 | new storage with the old entries and zeroes behind them, or none, or a refusal |
| SoaStore.SoaVector.FindEntry | dse/clib/collections/vector.h:639-675 | the item at the position where the search of the index array ended |

## Left out

- Allocation failure, and who frees what: allocation succeeds, stored pointers are numbers with a mark for ownership.
- Floating point: the fullness tests of the hash tables are exact integer comparisons, and schedule time is real.
- Integer widths of sizes: the doubling of a table, `int` lengths in ASCII85 and MDF offsets do not overflow.
- The default FNV hash and the hash function field being replaced in a table that holds entries: any one function is used.
- The uint32 interface of sets, set_to_array, strict subset, map iterators, key lists and statistics: thin loops over the array.
- XXH3 short-input mixers, merges and finalisers, and the default secret: parameters of the streaming theorems; concrete are the XXH3 accumulate and scramble steps, the derivation of a secret from a seed, the multiplication, and all of XXH32 and XXH64.
- Secret generation from a custom seed, and the AVX, NEON, VSX, LSX, LASX and SVE forms.
- Xxh64Injective.Xxh64TellsWordsApart: speaks of the accumulators, not of the hash, because two different accumulators may have the same merge.
- Alignment, prefetching and NULL input with length 0 in xxhash: not visible in the results.
- XxhClassic.StreamChunks64: inputs of 2^64 bytes and more, for which the counter wraps and which no one-shot call can be given; Xxh3Streaming.StreamChunks likewise.
- MDF: the data types, bit counts, times and identifications in the blocks; a record id is any function of the group's name; the record id and data size in the channel group block are handed to the record reader and not read from the block.
- Ascii85Loops.Decode: for the texts that Ascii85.ReadsExact excludes, what lies past the copy, and so the result, is not modelled; characters are unsigned, so on a platform where char is signed those from 128 on have another value.
- libyaml's scanner, aliases, tags and anchors: the event stream is the input, and alias events are ignored by the loop.
- YamlBuilder.Builder.Create: does not run on the hash table and the list themselves: a mapping is a finite map, which HashMaps.SetLastRefinesMap justifies with no condition for this use, and a sequence a sequence, as HashLists.ListRefinesSequence shows up to 2^31 + 1 elements; a node that is replaced stays in the arena instead of being freed.
- Environment interpolation and the search functions of yaml.c: lookups over the built tree.
- Schedule.WholeBeats: over reals, where the source computes with doubles.
- Schedule.RunLaw: the loop count `ticks` does not overflow an `int`, and tasks are not NULL pointers (one would end the list).
- Custom tick handlers, the delay being changed between calls, and freeing a schedule.
- Vectors with one array, which sort with the C library's qsort, and the range and callback functions of vector.h.
- SoaStore.SoaVector.FindEntry: bsearch is any function with the C library's contract.
- File, process, environment, logging and marshalling code, queues, ini and csv files.
