# Agentic chunker: chunk store and placement resolver

This project models the core of `AgenticChunker` (`Advanced/agentic_chunker.py`).
The chunker groups propositions into topical chunks. For each new proposition it
asks a language model which existing chunk fits. It then parses the free-text reply
into a chunk id or "no match", and either appends the proposition to that chunk or
creates a new one.

The model has five modules:

- `Text`: the Python string operations the chunker relies on. These are ASCII
  `upper()`, the slice `s[:n]`, the substring test `in` and `" ".join`. The substring
  test is proved equal, both ways, to a reference definition by position.
- `Placement`: the reply parser at the tail of `_find_relevant_chunk`. It is a pure
  function `Resolve`, and a method `FindRelevantChunk` that runs the same early-return
  loop as the source and is proved equal to `Resolve`.
- `ChunkStore`: the chunk dict as a value. `Store` holds a map from id to record plus
  the dict's insertion order. It defines one function per operation, and lemmas for
  what one addition and a run of additions do to the store.
- `Chunker`: the `AgenticChunker` class. Its `chunks` and `order` fields are updated
  in place. Each method is proved to leave the state that the matching `ChunkStore`
  function gives.
- `Scenarios`: concrete runs on the first two propositions of the module's own
  demonstration, and a reply that mentions two ids.

Every value that comes from outside the program arrives in a `Draw`, one per
`add_proposition` call. It holds the uuid-derived id a new chunk would receive, and the
model's replies to the placement, summary and title prompts.

`_create_new_chunk` does not guard against a colliding id: it overwrites the
existing entry (`Advanced/agentic_chunker.py:98-104`). `CreateChunk` models the
overwrite and `CreateCollidingChunk` states its effect. The invariants of one addition
and of a run are proved for draws whose ids are fresh (`FreshDraws`).

## Model

| member | source | states |
|---|---|---|
| Text.Take | Advanced/agentic_chunker.py:148-149 | `result[:5]` is a prefix of the reply, of length five or the reply's length if it is shorter |
| Text.ContainsIffOccurs | Advanced/agentic_chunker.py:152-154 | the `chunk_id in result` test holds exactly when the id occurs at some position of the reply |
| Text.PrefixContained | Advanced/agentic_chunker.py:144-149 | the whole reply and its five-character prefix both occur in the reply |
| Text.JoinSnoc | Advanced/agentic_chunker.py:168 | joining one more proposition onto a non-empty list adds a single space and that proposition |
| Placement.FirstContained | Advanced/agentic_chunker.py:152-156 | the scan returns a store id that occurs in the reply; it returns none only when no id occurs |
| Placement.Resolve | Advanced/agentic_chunker.py:139-156 | the resolver only ever returns a key of the store |
| Placement.FindRelevantChunk | Advanced/agentic_chunker.py:139-156 | the early-return parse, including its loop over the keys, gives exactly `Resolve` |
| Placement.NoMatchReplyIgnoresStore | Advanced/agentic_chunker.py:140-141 | a reply that upper-cases to NONE, NO CHUNKS, NO MATCH or NO gives no match, whatever the store holds |
| Placement.NoMatchRepliesAnyCase | Advanced/agentic_chunker.py:140 | the sentinel test ignores letter case, and "NONE." and "" are not sentinels |
| Placement.ExactReplyReturned | Advanced/agentic_chunker.py:144-145 | a non-sentinel reply that is an id is returned unchanged |
| Placement.PrefixReplyReturned | Advanced/agentic_chunker.py:148-149 | otherwise, a reply whose first five characters are an id yields those five characters |
| Placement.ResolvedIdOccursInReply | Advanced/agentic_chunker.py:143-154 | a returned id is a store id and occurs in the reply |
| Placement.NoMatchIffNoIdOccurs | Advanced/agentic_chunker.py:143-156 | past the sentinel check, no match comes back if and only if no store id occurs in the reply |
| Placement.SubstringTierPicksFirst | Advanced/agentic_chunker.py:151-154 | in the substring tier the chosen id is the first one, in insertion order, that occurs in the reply |
| ChunkStore.EmptyStore | Advanced/agentic_chunker.py:7 | a new chunker's store is empty and satisfies the store invariant |
| ChunkStore.CreateChunk | Advanced/agentic_chunker.py:93-104 | creating a chunk keeps the keys and the insertion order in step, even when the id collides |
| ChunkStore.AppendToChunk | Advanced/agentic_chunker.py:39-44 | appending keeps the keys and the insertion order in step |
| ChunkStore.Placed | Advanced/agentic_chunker.py:22-33 | the chunk `add_proposition` appends to is a key of the store and is not the empty string |
| ChunkStore.AddOne | Advanced/agentic_chunker.py:18-37 | one addition keeps the keys and the insertion order in step |
| ChunkStore.AddAll | Advanced/agentic_chunker.py:14-16 | a run of additions keeps the keys and the insertion order in step |
| ChunkStore.ChunkTexts | Advanced/agentic_chunker.py:167-168 | the list-of-strings view has one text per chunk |
| ChunkStore.ChunkAtItsIndex | Advanced/agentic_chunker.py:103 | in a valid store a chunk's `chunk_index` is its position in insertion order |
| ChunkStore.CreateFreshChunk | Advanced/agentic_chunker.py:93-104 | a fresh id adds exactly one entry, at the end of the order, with propositions `[p]` and index the previous count; every other chunk is unchanged and the invariant holds |
| ChunkStore.CreateCollidingChunk | Advanced/agentic_chunker.py:98-104 | a colliding id overwrites the old chunk: the size and order stay the same, the old propositions are lost and the invariant breaks |
| ChunkStore.AppendKeepsOthers | Advanced/agentic_chunker.py:39-44 | appending sets the chunk's propositions to the old ones plus `p`; title and summary take the replies only when regeneration is on; id, index, keys, order and every other chunk stay unchanged |
| ChunkStore.EmptyStoreCreates | Advanced/agentic_chunker.py:22-26 | on an empty store the proposition creates a chunk, whatever the placement reply would have been |
| ChunkStore.AddOneKeepsValid | Advanced/agentic_chunker.py:18-37 | one addition with a fresh new id keeps the invariant; the keys grow by at most the target, the order only grows, and old indices stay |
| ChunkStore.AddOneRoutes | Advanced/agentic_chunker.py:28-37 | one addition with a fresh new id puts `p` at the end of exactly one chunk, the target, and no other chunk's propositions change |
| ChunkStore.AddOneFreezesMetadata | Advanced/agentic_chunker.py:42-44 | with regeneration off, one addition with a fresh new id changes no existing title or summary |
| ChunkStore.AddOneCount | Advanced/agentic_chunker.py:30-44 | one addition with a fresh new id adds exactly `p` to the multiset of stored propositions |
| ChunkStore.ChunkTextsAfterAppend | Advanced/agentic_chunker.py:39-40 | appending extends the target chunk's text, at its index, by a space and `p`; every other text stays the same |
| ChunkStore.ChunkTextsAfterCreate | Advanced/agentic_chunker.py:98-104 | creating under a fresh id adds the text `p` at the end of the list view |
| ChunkStore.ChunkTextsAfterAdd | Advanced/agentic_chunker.py:28-37 | after one addition with a fresh new id the list view either gains " p" in the target's text or gains a new last text `p` |
| ChunkStore.AddAllKeepsValid | Advanced/agentic_chunker.py:14-16 | over a run with fresh ids the invariant holds, so indices are 0..k-1 in store order; the old order is a prefix; the keys are the old ones plus the targets; old indices stay |
| ChunkStore.AddAllRoutes | Advanced/agentic_chunker.py:14-16 | after a run with fresh ids, every chunk holds its old propositions followed by exactly the propositions routed to it, in arrival order |
| ChunkStore.AddAllCount | Advanced/agentic_chunker.py:14-16 | a run with fresh ids adds exactly the input propositions to the store's multiset of propositions |
| ChunkStore.AddAllLength | Advanced/agentic_chunker.py:14-16 | a run with fresh ids raises the number of stored propositions by the number of inputs |
| ChunkStore.AddAllFreezesMetadata | Advanced/agentic_chunker.py:42-44 | with regeneration off, no existing chunk's title or summary changes over a run with fresh ids |
| ChunkStore.OutlineInStoreOrder | Advanced/agentic_chunker.py:158-162 | the outline is the blocks of the chunks in store order: those before position k, then k's block, then those after |
| ChunkStore.OutlineNamesEveryChunk | Advanced/agentic_chunker.py:158-162 | every chunk's id appears in the outline as a `Chunk ID:` line |
| Chunker.AgenticChunker.constructor | Advanced/agentic_chunker.py:6-9 | a new chunker has an empty store and regeneration on |
| Chunker.AgenticChunker.AddPropositions | Advanced/agentic_chunker.py:14-16 | the loop leaves the store `AddAll` gives and keeps the regeneration flag |
| Chunker.AgenticChunker.AddProposition | Advanced/agentic_chunker.py:18-37 | the create-or-append decision leaves the store `AddOne` gives |
| Chunker.AgenticChunker.AddPropositionToChunk | Advanced/agentic_chunker.py:39-44 | the in-place append and metadata refresh leave the store `AppendToChunk` gives |
| Chunker.AgenticChunker.CreateNewChunk | Advanced/agentic_chunker.py:93-104 | the insertion, or overwrite on collision, leaves the store `CreateChunk` gives |
| Chunker.AgenticChunker.GetChunkOutline | Advanced/agentic_chunker.py:158-162 | the accumulation loop returns `Outline` of the current store and changes nothing, so two calls give the same text |
| Chunker.AgenticChunker.GetChunks | Advanced/agentic_chunker.py:164-168 | 'dict', also the default, gives the records by id with the ids in insertion order; 'list_of_strings' gives one text per chunk in store order, its propositions joined by single spaces; any other kind gives nothing |
| Scenarios.RelatedPropositionsShareOneChunk | Advanced/agentic_chunker.py:190-198 | when the model names the first chunk, both demonstration propositions share one chunk, in order, under the refreshed title |
| Scenarios.UnrelatedPropositionsGetTwoChunks | Advanced/agentic_chunker.py:190-198 | when the model answers NONE, the two propositions get chunks 0 and 1, one text each |
| Scenarios.EarlierChunkWinsSubstringTier | Advanced/agentic_chunker.py:151-154 | a reply that mentions two ids resolves to the one created first, not the one mentioned first |

## Left out

- The language-model calls and their prompts (`Advanced/agentic_chunker.py:12`, `:46-91`, `:110-134`) are not modelled. The placement, summary and title replies are fields of `Draw`. The reply is taken as already stripped.
- `uuid.uuid4()` (`:94`) is not modelled; the truncated id is `Draw.newId`.
- `Placement.Resolve`: `str.upper()` is modelled for ASCII letters only. Python also upper-cases other scripts and some characters that expand, for example "ß" to "SS".
- `get_chunk_outline` is not called in the placement path (`:110`). The outline only feeds the prompt, and the reply that comes back is a parameter. `Chunker.AgenticChunker.GetChunkOutline` and the outline lemmas model it on its own.
- `Chunker.AgenticChunker.AddPropositionToChunk`: Python raises `KeyError` for an id that is not a key. The model requires the id to be a key instead, which every caller in the source guarantees.
- `Chunker.AgenticChunker.GetChunks`: the 'dict' view returns the map and its key order by value. The source returns the live dict, so a caller's later change to it would change the chunker's state. That aliasing is not modelled.
- The one-addition lemmas (`AddOneKeepsValid`, `AddOneRoutes`, `AddOneFreezesMetadata`, `AddOneCount`, `ChunkTextsAfterAdd`) and the run lemmas (`AddAllKeepsValid`, `AddAllRoutes`, `AddAllCount`, `AddAllLength`, `AddAllFreezesMetadata`) are proved only when the new id is not already a key. With a colliding id the source replaces the old chunk, so its propositions are lost and its text becomes `p`. `CreateCollidingChunk` states exactly what happens then.
- The following are console output only and are not modelled: the `print` logging, the `print_logging` flag (`:10`, `:19-36`, `:106-107`, `:136-137`), `pretty_print_chunks` and `pretty_print_chunk_outline` (`:170-184`).
- The `__main__` demonstration (`:187-201`) is not modelled as a program. Its first two propositions appear in `Scenarios`.
- Failures of the language-model calls are not modelled. The source has no handling for them.
