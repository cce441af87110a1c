# Verified model of the Kurmancî language engine

A Dafny model of the query path of the Kurmancî engine, of its binary pack format with the compiler
that writes it and the loader that reads it, and of the staged installation of a release bundle.
`dafny verify dfyconfig.toml` checks everything.

## What is modelled

**Suggestions.** `suggest` walks a flat trie of diacritic-stripped words with an incremental
edit-distance table and scores only the entries the walk returns; a retained reference scores every
entry. `EditDistance` has the weighted distance (in quarter units: 0.25 is 1, the threshold 2.0 is 8)
and its table-filling method; `EditScripts` shows that the recurrence is the least cost over all edit
scripts and derives the bounds from scripts, never from a triangle inequality, which neither distance
satisfies. `SingleEdits` has the exact cost of every single edit, from tables of the letter pairs.
`TrieShape` and `Tries` have the flat trie, its work-stack construction and its three explicit-stack
walks; `FuzzyRows` the shared row buffer and the pruning argument. `QueryIndexes` has the two sorted
index arrays with the packed runs, `Ranking` the comparison, `Suggest` and `CandidateMap` the pipelines
on values, `IndexExactness` and `OutcomeExactness` the exact condition under which they agree, on
candidate maps and on returned lists, `ListOrder` how the returned lists are ordered, and `Engines` the
engine object whose methods run them. `Corruptions` applies the misspellings of the pack evaluation.

**Packs.** `CompiledPack` and `CompiledSections` say what the compiler is to produce and what that
guarantees, `PackCompiler` has the compiler itself. `PackFormat` defines the encoding and what the
loader accepts, `PackLayout` writes both out as a table of fields and a list of conditions; `PackLoader`
has the loader's cursor steps, `Engines` the staged commit, `Lexicon` the compact store with its text
arena and intern tables. `CompileRoundTrip` and `CompiledPredictions` compose compiling, loading and
next-word prediction (`NextWord`). `Merge` produces the lexicon with one entry per form, and
`MergedPack` takes it from there, through the join with corpus frequencies, to a loaded engine.

**Installation.** `InstallProtocol` has the directory swap over stage, target and backup, under an
environment that may fail or stop any operation.

Conventions. Words are sequences of code points; Rust's byte order on strings is the lexicographic
order on them. `normalize` is a parameter `norm`, not assumed idempotent, because the source's is not: it
lower-cases after NFC, and lower-casing can leave text that NFC would still change. UTF-8 and
SHA-256 are a `Codec` of which only the round trip of encoding, its exactness, and the digest's length
are used. `sort_by`, `binary_search` on labels, `partition_point`, `dedup`, `BTreeMap` and `HashMap`
are modelled by what the standard library promises (a stable sort, ascending key order, an arbitrary
enumeration order). Bigram and trigram sections differ only in the number of context words, so one
definition takes it as a parameter; an n-gram key is a sequence of one or two lexicon indices.

## Where code and documentation differ

- `engine/src/index.rs:13-33` argues that the index loses no candidate. The argument needs the query and
  every stored form to be left alone by `normalize`, which nothing checks. `IndexIsExact` gives the exact
  condition for every lexicon and query on the candidate maps, and `PipelinesAgreeExactly` the same one for
  the returned lists. It fails in two ways. A stored form need not be normalized: U+0130 U+0130 is two
  substitution-or-insertion steps from "a", but is indexed as i U+0307 i U+0307. And a normalized query
  need not stay so: "J" U+030C normalizes to "j" U+030C, which stripping normalizes again, to U+01F0; the
  normalized form j y y U+030C is then within 2.0 of the query but three edits away in the index. On a
  lexicon of that one entry the full scan offers the correction and the indexed path returns nothing
  (`UnnormalizedFormIsLost`, `RenormalizedQueryLosesForm`).
- A form that differs from the query by a diacritic alone can be filed as an ordinary correction of cost 3
  when it is not normalized (`UnnormalizedCorrectionIsCheap`). On normalized text every correction costs
  8 to 20 (`NormalCorrectionCosts`).
- `engine/src/distance.rs:1-3` speaks of physically adjacent keys; the code knows the eleven pairs of
  `KEYBOARD_PAIRS`, and other neighbours, such as o and p, cost 1.0. Swapping two letters of a diacritic
  pair costs 0.5, not 0.75, since replacing both is cheaper (`TwoLettersSwapped`).
- `engine/src/engine.rs:1098-1102` takes it that distinct candidates have distinct display words, so that
  the order of the output does not depend on the hash map. The loader does not check this.
  `OneRankingExactly` gives the exact condition, which is weaker: candidates that compare equal are
  equal records; `OneOutcomeByEntries` reads it off the entries. `SharedDisplayIsAmbiguous` is a lexicon of
  two entries where it fails.
- For a form carried by several entries the compiler files n-grams under the last one
  (`data-builder/src/compile.rs:137`) while the engine looks up the first. A query is therefore
  answered exactly when each context form belongs to one entry (`Once`, `Answers`);
  `DuplicateFormLosesRecord` is an input where a compiled record is never returned.
  `MergedPack.MergeCompileLoad` shows that merged lexicons are not affected.
- A pack that compiles need not load: text or lists beyond the store's 32-bit offsets are refused.
  `CompiledPackLoads` states this as an exact condition.

## Model

| member | source | states |
|---|---|---|
| EditDistance.DistanceCell | engine/src/distance.rs:86-104 | each table cell is the best of deletion, insertion, substitution and, when the last two characters are swapped, transposition, over the cells of shorter prefixes |
| EditDistance.FillCell | engine/src/distance.rs:88-102 | one inner-loop step writes the distance of the two prefixes at its cell and changes no other cell |
| EditDistance.WeightedDamerauLevenshtein | engine/src/distance.rs:63-107 | the in-place table computation returns the distance recurrence on the whole strings, empty strings included |
| EditScripts.DistanceIsMinimalCost | engine/src/distance.rs:60-107 | for both cost models the recurrence is attained by some script of match, substitute, insert, delete and adjacent-transpose steps, and is below the cost of every script |
| EditScripts.DistanceLaws | engine/src/distance.rs:63-107 | both distances are symmetric, zero exactly on equal strings, and at least the length difference (in insertion costs) |
| EditScripts.LengthFilterIsImplied | engine/src/engine.rs:1054-1059 | the scorer's separate length filter rejects nothing that the distance test accepts |
| EditScripts.DistanceInContext | engine/src/distance.rs:63-107 | a common prefix and suffix never increase a distance |
| EditScripts.StrippedUnitBound | engine/src/index.rs:13-29 | 0.75 times the unit distance of the stripped strings is at most the weighted distance |
| EditScripts.WithinTwoIsCandidate | engine/src/index.rs:28-33 | weighted distance at most 2.0 implies unit distance at most 2 between the stripped strings |
| SingleEdits.OneLetterReplaced | engine/src/distance.rs:4-58 | replacing one letter anywhere in any word costs 0.25 exactly within the five diacritic pairs, 0.75 exactly within the eleven keyboard pairs, and 1.0 otherwise; 1 in the unit distance |
| SingleEdits.OneLetterAdded | engine/src/distance.rs:63-107 | one letter more or less, anywhere, costs 1.0; 1 in the unit distance |
| SingleEdits.TwoLettersSwapped | engine/src/distance.rs:63-107 | swapping two different adjacent letters, anywhere, costs 0.75, or 0.5 within a diacritic pair; 1 in the unit distance |
| SingleEdits.StrippingCosts | engine/src/distance.rs:9-26 | a word without its diacritics is 0.25 away for each of them |
| SingleEdits.StrippingByPairs | engine/src/normalization.rs:18-30 | stripping maps the five letters with diacritics to their plain ones and keeps every other letter |
| SingleEdits.MisspellingExamples | engine/src/distance.rs:4-107 | five misspellings and their costs |
| FuzzyRows.SwapIsNoLoophole | engine/src/trie.rs:222-226 | the transposition entry never undercuts the minimum of the row above |
| FuzzyRows.SubtreePruned | engine/src/trie.rs:219-227 | once a whole row exceeds the radius, every word extending that path is farther than the radius |
| FuzzyRows.NextCellRight | engine/src/trie.rs:262-270 | a cell computed from the parent's and grandparent's rows is the unit distance of path and query prefix |
| FuzzyRows.FillRow | engine/src/trie.rs:259-273 | one row from the two rows above it, with its minimum |
| FuzzyRows.WriteRow | engine/src/trie.rs:251-273 | the row goes to its slice of the shared buffer, grown when needed, and the rows above still belong to the ancestors of the new path |
| FuzzyRows.PrefixMatchesMembers | engine/src/trie.rs:184-193 | the entries listed under a prefix are exactly the stored ones whose word starts with it |
| TrieShape.NextLettersSorted | engine/src/trie.rs:129-130 | words that share a prefix are grouped by their next letter: sorting the words sorts the letters |
| TrieShape.OnlyFirstEnds | engine/src/trie.rs:124-128 | only the first word of a node's run can end at the node |
| TrieShape.WalkStep | engine/src/trie.rs:167-173 | following a label reaches the node of exactly the words under the longer path, and a missing label means there are none |
| TrieShape.EndsAtNode | engine/src/trie.rs:178-182 | a node is terminal exactly when its path is a stored word |
| TrieShape.ExpandGrows | engine/src/trie.rs:122-152 | one turn of the build's work stack finishes a node, keeps every finished node right, and leaves the waiting nodes' runs in order |
| TrieShape.ChildrenAreCloser | engine/src/trie.rs:122-152 | each turn of the build makes progress, so the work stack empties |
| Tries.GroupByLetter | engine/src/trie.rs:131-139 | the runs of equal letters split the words, with strictly ascending letters |
| Tries.LatestOfSorted | engine/src/trie.rs:72-97 | words stored once each, sorted, represent a map that forgets nothing |
| Tries.Trie.Insert | engine/src/trie.rs:58-60 | the represented map changes at the word only, to the new frequency |
| Tries.Trie.MergeWords | engine/src/trie.rs:72-79 | built words overridden by pending ones in insertion order are the represented map |
| Tries.Trie.BuildChildren | engine/src/trie.rs:118-153 | the work stack terminates and leaves a trie in which every node covers its run, children are contiguous and strictly sorted, and terminals are right |
| Tries.Trie.Build | engine/src/trie.rs:68-109 | the represented map is unchanged, and nothing is pending |
| Tries.Trie.Walk | engine/src/trie.rs:161-175 | the node whose path is the string, or none exactly when no stored word starts with it |
| Tries.Trie.Contains | engine/src/trie.rs:178-182 | membership in the represented map |
| Tries.Trie.MatchesOfView | engine/src/trie.rs:184-193 | the words listed under a prefix are the represented words with that prefix |
| Tries.Trie.FindByPrefix | engine/src/trie.rs:186-193 | exactly the represented map's pairs whose word starts with the prefix, strictly ascending by word |
| Tries.Trie.CollectWords | engine/src/trie.rs:197-213 | the explicit-stack walk lists a node's run in order |
| Tries.Trie.PathOfPopped | engine/src/trie.rs:248-253 | truncating the path to the popped depth and appending the node's label gives the node's path, and the waiting nodes hang below it |
| Tries.Trie.FuzzyStep | engine/src/trie.rs:248-285 | one turn of the pruned search: popped node, rows, results and remaining stack stay consistent |
| Tries.Trie.FuzzyTerminals | engine/src/trie.rs:228-287 | the payloads, in lexicographic order of the words and each once, of exactly the words of the represented map within the radius |
| QueryIndexes.PositionIsFirst | engine/src/lexicon.rs:401-405 | linear scan returns the smallest position with the form, or none exactly when no entry has it |
| QueryIndexes.FindNormalizedIsPosition | engine/src/index.rs:111-125 | binary search over the sorted index returns what linear scan returns, repeated forms included |
| QueryIndexes.BuildIndex | engine/src/index.rs:72-109 | both arrays are the sorted indices, and every stripped form's payload decodes to the run of its entries; fails exactly on 2^32 forms or more, where the source's run loop reads past the truncated array |
| QueryIndexes.PayloadIsRun | engine/src/index.rs:91-100 | the packed start and length of a maximal block hold exactly the form's entries |
| QueryIndexes.WithinMembers | engine/src/index.rs:127-129 | the candidate list is ascending, duplicate-free, and holds exactly the entries whose stripped form is within the radius |
| QueryIndexes.QueryIndex.Candidates | engine/src/index.rs:129-143 | decoding, sorting and deduplicating the fuzzy payloads gives that list |
| Ranking.RankingIsTotal | engine/src/ranking.rs:92-158 | the comparison is a total preorder that ties only on equal display words |
| Ranking.OneRankingExactly | engine/src/engine.rs:1097-1112 | all enumerations of a candidate map sort to one list if and only if candidates that compare equal are equal records |
| Ranking.RankingIgnoresEnumeration | engine/src/engine.rs:1097-1112 | under exactly that condition, every enumeration gives the ranked list |
| Ranking.RankedContents | engine/src/engine.rs:1110-1112 | the ranked list holds exactly the map's candidates, in ranking order |
| Ranking.CompareIsLexicographic | engine/src/ranking.rs:70-158 | the comparison: a better kind (exact, diacritic correction, completion, correction, next word) first; within a kind the lexicographic order of a numeric key (prefix quality or edit cost and diacritic match; Zipf value and document count when used; length of a completion), then of the display words |
| Ranking.RankedListReads | engine/src/ranking.rs:70-158 | a ranked list has better kinds first, within a kind ascends by that whole key, and among equal keys by display word |
| Ranking.BetterIsEarlier | engine/src/engine.rs:1110-1112 | in a list cut anywhere, a candidate that compares less than a listed one is listed before it |
| Ranking.ExactComesFirst | engine/src/ranking.rs:92-104 | the only exact candidate is ranked first, whatever the enumeration |
| Suggest.ScoringIgnoresNonCandidates | engine/src/index.rs:35-37 | scoring an entry outside the index's candidates leaves the candidate map alone |
| IndexExactness.IndexIsExact | engine/src/index.rs:8-37 | for every lexicon, normalization, query and configuration: the indexed scan builds the full scan's map if and only if every entry that the scorer accepts and the index omits is a completion that would not displace the one already there |
| IndexExactness.IndexIsExactForUniqueForms | engine/src/index.rs:8-37 | with unique forms: if and only if the index returns every form within 2.0 that does not start with the query |
| IndexExactness.NormalFormsAreFound | engine/src/index.rs:13-33 | when normalization leaves the query and the forms alone, nothing is missed |
| IndexExactness.IndexedScanIsFullScan | engine/src/engine.rs:895-934 | then, for forms repeated or not, the indexed scan builds the very map the full scan builds |
| OutcomeExactness.PipelinesAgreeExactly | engine/src/index.rs:8-37 | for every lexicon, normalization, query and configuration: the two pipelines can return the same lists, uncut or under every limit, if and only if the normalized query is empty or every entry that the scorer accepts and the index omits is a completion that would not displace the one already there |
| OutcomeExactness.MissedIsSeen | engine/src/engine.rs:840-934 | otherwise no uncut list of the full scan is ever returned by the indexed pipeline, under any limit |
| OutcomeExactness.FullScanIsBelow | engine/src/engine.rs:938-1096 | for every lexicon, normalization and query: each candidate of the indexed scan is one of the full scan, which holds it unchanged or replaced by one that ranks strictly better |
| OutcomeExactness.FarCorrectionIsDropped | engine/src/index.rs:8-37 | a correction within 2.0 whose stripped form is more than two characters longer is offered by every uncut list of the full scan, and no such list is returned by the indexed pipeline |
| OutcomeExactness.UnnormalizedFormIsLost | engine/src/index.rs:82-88 | a form that `normalize` changes: every uncut list of the full scan offers it, and the indexed pipeline returns nothing |
| OutcomeExactness.RenormalizedQueryLosesForm | engine/src/normalization.rs:8-30 | a query that `normalize` changes twice: the same, although every stored form is normalized |
| CandidateMap.SameOutcomes | engine/src/engine.rs:840-934 | where the index misses nothing, or the normalized query is empty, the two pipelines have the same possible outcomes under every limit |
| CandidateMap.OneOutcomeExactly | engine/src/engine.rs:1097-1112 | for every lexicon the unlimited outcome of either pipeline is unique if and only if candidates of its map that compare equal are equal |
| CandidateMap.OneOutcomeByEntries | engine/src/engine.rs:1097-1112 | with unique forms the condition on the entries: no two that the pipeline offers have candidates, by the cases of the closed form, that compare equal and differ |
| CandidateMap.SharedDisplayIsAmbiguous | engine/src/engine.rs:1097-1112 | two entries sharing a display word: two different lists for one query |
| CandidateMap.PipelinesAgree | engine/src/engine.rs:840-934 | on normalized forms whose display words determine them, both pipelines have one and the same possible outcome for every query whose normalization is stable, every limit and every configuration |
| CandidateMap.SmallerLimitIsPrefix | engine/src/engine.rs:1110-1112 | a smaller limit returns a prefix of a larger one's list; the length is the smaller of the limit and the number of candidates |
| CandidateMap.CandidateKeys | engine/src/engine.rs:938-1096 | for every lexicon, normalization and query: the full scan's candidates are the forms that start with the query, strip equal to it or are within 2.0; the indexed scan's are those of them that start with the query or that the index returns |
| CandidateMap.CandidateMapClosedForm | engine/src/engine.rs:938-1096 | with unique forms, for every normalization and query: a form is a candidate of the full scan exactly when it starts with the query, strips equal to it, or is within 2.0, and of the indexed scan when it also starts with the query or is returned by the index; in both its candidate is that of its case |
| CandidateMap.CorrectionCosts | engine/src/engine.rs:1056-1065 | every correction costs its distance in tenths, halves rounded up, which is 3 to 20, and 8 or more when it differs from the query in more than diacritics |
| CandidateMap.NormalCorrectionCosts | engine/src/engine.rs:1056-1065 | on normalized forms and a stable query every correction costs 8 to 20 |
| CandidateMap.UnnormalizedCorrectionIsCheap | engine/src/engine.rs:1044-1065 | a form that `normalize` changes is a correction of cost 3 |
| CandidateMap.KnownQueryComesFirst | engine/src/ranking.rs:92-104 | for every lexicon and normalization, if some form is the normalized query, the first suggestion of either pipeline is exact and shows the display word of an entry with that form |
| CandidateMap.KnownEntryComesFirst | engine/src/ranking.rs:92-104 | with unique forms it is the query's own entry |
| CandidateMap.RelevantFormIsOffered | engine/src/engine.rs:1028-1112 | without a limit every relevant form of any lexicon is offered by the full scan, and by the indexed pipeline when it starts with the query or the index returns it |
| CandidateMap.RelevantIsSuggested | engine/src/engine.rs:1028-1112 | with unique forms it is offered by the full scan with the candidate of its case |
| ListOrder.KindsInOrder | engine/src/ranking.rs:70-108 | for every lexicon, query, limit and configuration, in the lists of both pipelines exact matches come first, then diacritic corrections, completions, and corrections |
| ListOrder.CorrectionsByDistance | engine/src/engine.rs:1056-1065 | for every lexicon, corrections are listed by distance: of two, the earlier belongs to an entry that is not farther from the query |
| ListOrder.BetterEntryComesFirst | engine/src/ranking.rs:92-158 | with unique forms, in every list of either pipeline, cut or not: when an entry is listed, every entry found that is of a better kind, or a correction strictly nearer to the query, is listed before it |
| Corruptions.CorruptedReads | data-builder/src/eval_pack_quality.rs:178-223 | what each corruption is, letter by letter, and when letters cannot be swapped |
| Corruptions.CorruptionApplies | data-builder/src/eval_pack_quality.rs:178-229 | a word of four letters or more carries every corruption except the swap of equal letters and the loss of diacritics it does not have; a shorter one none |
| Corruptions.CorruptionCosts | data-builder/src/eval_pack_quality.rs:181-223 | the exact distance of each corruption from the word |
| Corruptions.CorruptedIsNear | data-builder/src/eval_pack_quality.rs:181-229 | every single-edit corruption is within 1.0 of the word |
| Corruptions.CorruptionIsRecovered | data-builder/src/eval_pack_quality.rs:178-229 | in every lexicon, for every known word over the 31 letters and every corruption of it, the unlimited lists of both pipelines for the corrupted form offer an entry with the word's form |
| Corruptions.OwnEntryIsRecovered | data-builder/src/eval_pack_quality.rs:178-229 | with unique forms it is the word's own entry |
| Lexicon.Intern | engine/src/lexicon.rs:146-159 | the value's id, with every earlier id keeping its value; refused only when the table is full |
| Lexicon.EntryStable | engine/src/lexicon.rs:332-399 | growing the arena and the tables changes no accessor of an existing entry |
| Lexicon.EntriesAppended | engine/src/lexicon.rs:201-274 | a recorded entry reads back exactly, after all earlier ones unchanged |
| Lexicon.LexiconStoreBuilder.PushText | engine/src/lexicon.rs:180-194 | the text is appended and its span reads it back; refused, with the arena unchanged, exactly when it would not fit |
| Lexicon.LexiconStoreBuilder.Push | engine/src/lexicon.rs:196-274 | succeeds exactly while text, lists and category ids fit 32 bits, and then the accessors return the old entries and the pushed one, field for field |
| PackFormat.FromLERoundTrip | engine/src/engine.rs:167-181 | little-endian integers decode below the width's bound and encode back to the same bytes |
| PackFormat.SectionWithinCapacity | engine/src/engine.rs:511-526 | distinct contexts never outnumber the possible keys, so the loader's count check refuses no valid section |
| PackFormat.LoadOfEncode | engine/src/engine.rs:142-696 | the bytes of a well-formed pack are accepted and give it back |
| PackFormat.LoadIsExact | engine/src/engine.rs:142-696 | whatever bytes the loader accepts are, to the last byte, the encoding of the pack it returns: indices below the lexicon size, 1 to 16 or 1 to 12 distinct next words per context, positive counts, probabilities at most 1,000,000, distinct contexts |
| PackLayout.EncodingHasLayout | data-builder/src/compile.rs:124-447 | the bytes of every pack as a table of fields: "KRM1", version 4, language tag, entry count, payload length, digest; entries field by field; contexts with their keys, counts and predictions; all numbers little-endian |
| PackLayout.LoadsExactly | engine/src/engine.rs:208-696 | a pack comes back from its encoding if and only if the stated limits hold: 32-bit counts, 16-bit lengths, distinct contexts of known entries, 1 to 16 or 1 to 12 predictions with distinct known next words, positive counts, probabilities up to 1,000,000 |
| PackLayout.FirstFieldsDecide | engine/src/engine.rs:143-156 | fewer than 12 bytes, other magic bytes and another version are reported as such, in this order |
| PackLayout.OtherLanguageIsRefused | engine/src/engine.rs:161-165 | a pack with another language tag is refused as incompatible, whatever follows |
| PackLayout.ExchangedPayloadIsRefused | engine/src/engine.rs:189-206 | a payload exchanged behind its header is refused, by its length or by its digest |
| PackLoader.ReadStr | engine/src/engine.rs:1177-1191 | a bounds-checked cursor read agrees with the parser on the remaining bytes, errors included |
| PackLoader.ReadEntry | engine/src/engine.rs:222-308 | the same for one lexicon entry |
| PackLoader.ReadSection | engine/src/engine.rs:340-672 | the same for a whole n-gram section, and the index built is the one of the parsed contexts |
| PackLoader.ReadEntries | engine/src/engine.rs:208-338 | store, trie and maximum frequency all stand for the parsed entries |
| PackLoader.MaxFrequencyIsMaximum | engine/src/engine.rs:309-311 | the maximum frequency that the readers maintain is at least every frequency, and is one of them unless it is zero |
| Engines.Engine.constructor | engine/src/engine.rs:62-64 | an empty engine satisfies the engine invariant |
| Engines.Engine.LoadBinaryPack | engine/src/engine.rs:142-696 | accepts exactly what the parser accepts; on an error the whole state is unchanged, on success it is the pack's |
| Engines.Engine.LoadLexicon | engine/src/engine.rs:86-134 | appends the entries and keeps the greatest frequency, or leaves the whole state unchanged exactly when they do not fit; no next-word prediction and no source ever changes |
| Engines.Engine.Contains | engine/src/engine.rs:698-701 | membership of the normalized word among the lexicon's forms |
| Engines.Engine.FindLexiconIndex | engine/src/engine.rs:816-823 | the first entry with the form; none for the empty form |
| Engines.Engine.PredictNextWithPolicy | engine/src/engine.rs:715-748 | the specified single-word prediction over the engine's lexicon and bigram index |
| Engines.Engine.PredictNextWithContext | engine/src/engine.rs:751-814 | the specified two-word prediction with its source |
| Engines.Engine.PrefixStageOf | engine/src/engine.rs:938-983 | every form under the query becomes a candidate resolved to its first entry, whichever lookup is passed in |
| Engines.Engine.ScoreEntry | engine/src/engine.rs:1028-1096 | the specified scoring of one entry |
| Engines.Engine.SuggestReferenceFullScan | engine/src/engine.rs:859-893 | an outcome of the full scan |
| Engines.Engine.SuggestIndexed | engine/src/engine.rs:899-934 | an outcome of the indexed scan |
| Engines.Engine.SuggestWithConfig | engine/src/engine.rs:845-852 | an outcome of the indexed scan; of the full scan, too, whenever the index misses nothing, and, uncut, only then; the one list of the full scan if its candidates that compare equal are equal, too, hence the one list the full scan defines on normalized forms whose display words determine them, for a query whose normalization is stable |
| Engines.FinishSuggestions | engine/src/engine.rs:1103-1112 | some enumeration of the map, sorted and truncated |
| NextWord.AppendingKeepsPredictions | engine/src/engine.rs:86-134 | appending entries changes no next-word prediction and no source |
| NextWord.IndexBelow | engine/src/engine.rs:386-395 | the loader's checks keep every n-gram index inside the lexicon |
| CompiledPack.CanonicalIsSortedSet | data-builder/src/compile.rs:171-203 | regions and sources are encoded strictly ascending, with the same elements |
| CompiledPack.LexiconIndexIsLast | data-builder/src/compile.rs:135-137 | a form is filed under its last entry |
| CompiledPack.SectionKeysAscend | data-builder/src/compile.rs:210-279 | the section's keys are those of the in-lexicon records, each once, ascending by their first difference |
| CompiledPack.SortedGroupMembers | data-builder/src/compile.rs:261-284 | a context's predictions are exactly its in-lexicon records |
| CompiledPack.RecordOrderReads | data-builder/src/compile.rs:280-284 | one record goes before another exactly when its probability is greater, or equal with a greater count, or both equal with a smaller word, or all three are equal |
| CompiledSections.SortedGroupDescends | data-builder/src/compile.rs:279-284 | a context is compiled with its records in strictly descending order of probability, then count, then by word |
| CompiledSections.SectionOfFits | data-builder/src/compile.rs:210-417 | every check the loader makes holds of a compiled section |
| CompiledSections.SectionIgnoresOrder | data-builder/src/compile.rs:210-305 | reordering the records changes neither the section nor whether it compiles |
| CompiledSections.SectionKeepsEveryRecord | data-builder/src/compile.rs:40-49 | a section holds one prediction per in-lexicon record: none lost, none repeated |
| CompileRoundTrip.CompiledPackLoads | data-builder/src/compile.rs:124-447 | a compiled pack loads exactly when text and lists fit 32 bits, and gives back every canonical entry in order and exactly the in-lexicon groups |
| CompileRoundTrip.CompilationIgnoresRecordOrder | data-builder/src/compile.rs:210-417 | neither whether the records compile nor the produced pack depends on the order of the bigram and trigram records |
| CompiledPredictions.ExpectedMembers | data-builder/src/compile.rs:261-284 | the records a context is answered with: those of that context with a known next word, sorted; none when a context form is empty or not unique |
| CompiledPredictions.ExpectedDescends | data-builder/src/compile.rs:279-284 | those records by descending probability, then count, then word; strictly so when no record is repeated |
| CompiledPredictions.KeyMeansContext | engine/src/engine.rs:761-768 | a key the engine looks up belongs to the context's own records, or to none when some form is repeated |
| CompiledPredictions.CompiledPredictions | engine/src/engine.rs:715-823 | trigram records of the two-word context first, else bigram records of the last word, else nothing; first `limit` of them in record order, with the branch as source |
| CompiledPredictions.CompileLoadPredict | data-builder/src/compile.rs:124-447 | the same for the pack obtained by compiling and loading; the predictions have descending probabilities, and among equal ones descending counts |
| CompiledPredictions.UniqueFormsAnswer | engine/src/engine.rs:816-823 | with unique forms every context of known, non-empty words is answered |
| CompiledPredictions.DuplicateFormLosesRecord | data-builder/src/compile.rs:135-137 | with a repeated form a compiled record is never returned: a concrete input |
| PackCompiler.WriteString | data-builder/src/compile.rs:449-456 | appends length and bytes, or fails exactly beyond 65,535 bytes |
| PackCompiler.WriteEntry | data-builder/src/compile.rs:139-207 | appends the canonical entry's encoding, or fails exactly when some field does not fit |
| PackCompiler.GroupRecords | data-builder/src/compile.rs:211-273 | succeeds on valid, duplicate-free records with each in-lexicon record at the end of its group; an error names a fault that some record has |
| PackCompiler.WriteSection | data-builder/src/compile.rs:275-305 | appends the section's encoding in ascending key order and counts its predictions |
| PackCompiler.CompileSection | data-builder/src/compile.rs:210-305 | checks, groups and writes one record list; the count is that of the in-lexicon records |
| PackCompiler.CompileBinaryPackFromRecords | data-builder/src/compile.rs:124-447 | succeeds exactly on the compilable inputs, with the encoding of their pack and truthful statistics; an error names something wrong with the input |
| Merge.MergedFrequencyIsMaximum | data-builder/src/merge.rs:23-26 | a merged entry has the greatest frequency of its form |
| Merge.MergedSourcesAreUnion | data-builder/src/merge.rs:28-40 | its sources and variants are those of all entries of the form |
| Merge.MergedWordIsPreferred | data-builder/src/merge.rs:11-21 | a capitalised first word gives way to a lowercase word of a later entry that is no proper noun; otherwise the first word stays |
| Merge.MergedWordIsEarliest | data-builder/src/merge.rs:11-21 | letter cases being disjoint, that later word is the earliest eligible one |
| Merge.MergedKeepsFirst | data-builder/src/merge.rs:41-43 | every other field is the first entry's |
| Merge.MergeAndDeduplicate | data-builder/src/merge.rs:4-66 | one entry per form, for exactly the forms of the input, each the tidied merge of its form's entries; greater frequencies first, equal ones in strictly ascending order of the forms |
| MergedPack.JoinFrequencies | data-builder/src/corpus/join.rs:113-125 | each entry gets the frequencies recorded for its form, or zero ones; nothing else changes |
| MergedPack.MergeCompileLoad | data-builder/src/main.rs:364-382 | merging, joining, compiling and loading succeed exactly when the joined input compiles and fits the store; then the engine has every source form exactly once, with the fields of its merged entry and its recorded frequencies, its single-word and backoff predictions are what the records say, most probable first, and every context of known non-empty words is answered with all its in-lexicon records |
| InstallProtocol.Bundles.InstallDirectoryWith | data-builder/src/release.rs:174-245 | for any state and moves of the environment, the result is the one the moves determine and the directories are where they lead; from a safe state the invariant holds where the run ends |
| InstallProtocol.RecoverMeans | data-builder/src/release.rs:183-203 | a stale backup is removed or a bundle that only the backup holds is restored, without losing the installed one |
| InstallProtocol.SwapMeans | data-builder/src/release.rs:213-244 | installing, cleaning up and rolling back keep the installed bundle whole |
| InstallProtocol.MovesDecide | data-builder/src/release.rs:174-245 | for every state and all moves of the environment: exactly which moves lead to which result, and where the directories then are |
| InstallProtocol.FailedInstallIsRolledBack | data-builder/src/release.rs:225-233 | with a parked previous bundle, a failing install ends with it back at the target exactly when the rollback rename works; a failed rollback is reported exactly when that rename fails |
| InstallProtocol.InstallKeepsSafe | data-builder/src/release.rs:168-245 | every run keeps the invariant, whatever fails and wherever it stops |
| InstallProtocol.RunsKeepTheBundle | data-builder/src/release.rs:168-245 | after any sequence of runs the most recently installed bundle is whole at the target, or at the backup while the target is absent; a partial backup implies a complete target |
| InstallProtocol.UndisturbedRunInstalls | data-builder/src/release.rs:168-245 | after any history, one undisturbed run installs its bundle and leaves no backup |
| InstallProtocol.TargetCanBeAbsent | data-builder/src/release.rs:171-173 | the swap is not gap-free: a run stopped between its renames leaves the target absent |

## Left out

- Unicode: NFC and lower-casing in `normalize`, UTF-8 decoding, and letter case are parameters; the
  control-character rule inside `normalize` is part of that parameter.
- SHA-256: the digest is any function of bytes with 32-byte results.
- Floating point: all costs are multiples of 0.25, so the model computes in quarter units;
  `(dist * 10.0).round()` is the corresponding integer rounding.
- `calculate_score`, `ranking_reason` and the title-case display adjustment in `finish_suggestions`:
  they decorate the ranked list and do not affect its contents or order.
- Numbers of trie nodes and words are kept in 32 bits by the source (`as u32`, with `NO_WORD` as the
  mark of a non-terminal node); the model uses naturals and an option, so it does not describe a trie of
  more than 2^32 nodes. Word spans count code points instead of bytes.
- Engines.Engine.LoadLexicon: a lexicon that does not fit the store, or has 2^32 entries or more, makes the
  source panic before it changes anything; the model returns false with the state unchanged.
- CandidateMap.CandidateMapClosedForm: asks for unique forms; which forms are candidates is stated for every
  lexicon in `CandidateKeys`, but with repeated forms a later entry may replace an earlier one's candidate.
- MergedPack.MergeCompileLoad: reading the frequency file and the coverage report of the join are not part
  of this model; the frequencies are a map, a repeated record being an error before the join.
- Error texts and line numbers: errors are classes, and of several faults in one compiler input the
  model does not say which is reported first.
- InstallProtocol.Bundles.InstallDirectoryWith: the paths hold a bundle directory, a partially removed
  one, or nothing; other file types, permissions and concurrent installers are not described.
- The reference's and the index's diagnostic entry lists (`reference_accepted_entries`,
  `indexed_candidate_entries`), memory accounting, capacity reservation, `typo_map`, and the `complete`,
  `correct` and `suggest` wrappers: they add only easy members.
- The JSON readers of the compiler, entry validation, audit and evaluation reports, the rest of
  `release.rs`, the C interface, command line and packaging scripts: input, output and plumbing.
