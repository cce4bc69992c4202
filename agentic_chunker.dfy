/**
 * The `AgenticChunker` object: its chunk dict is updated in place by the
 * methods below, each proved to leave the store in the state the matching
 * function of module ChunkStore gives.
 */
module Chunker {
  import opened Wrappers
  import opened Placement
  import opened ChunkStore
  import Text

  /**
   * What `get_chunks` returns: the dict itself (its records by id, with the ids in
   * the dict's insertion order), the list of joined texts, or nothing.
   */
  datatype ChunksView = Keyed(chunks: map<string, Chunk>, order: seq<string>) | Texts(texts: seq<string>) | NoView

  class AgenticChunker {
    /** `self.chunks`: the records by id ... */
    var chunks: map<string, Chunk>
    /** ... and the dict's insertion order of those ids. */
    var order: seq<string>
    /** `self.generate_new_metadata_ind`. */
    var generateNewMetadata: bool

    function Snapshot(): Store
      reads this
    {
      Store(chunks, order)
    }

    /**
     * The dict-shape invariant only: `order` lists the keys of `chunks`, each once.
     * It is deliberately weaker than `Store.Valid()`, because a colliding new id
     * (which the source does not guard against) breaks the index invariant.
     */
    ghost predicate Consistent()
      reads this
    {
      Snapshot().Consistent()
    }

    constructor ()
      ensures Consistent() && Snapshot() == EmptyStore() && generateNewMetadata
    {
      chunks := map[];
      order := [];
      generateNewMetadata := true;
    }

    /** `add_propositions`: add each proposition in turn, the i-th with the i-th draw. */
    method AddPropositions(ps: seq<string>, ds: seq<Draw>)
      requires Consistent() && |ds| == |ps|
      modifies this
      ensures Consistent() && generateNewMetadata == old(generateNewMetadata)
      ensures Snapshot() == AddAll(old(Snapshot()), ps, ds, generateNewMetadata)
    {
      var i := 0;
      while i < |ps|
        invariant 0 <= i <= |ps|
        invariant Consistent() && generateNewMetadata == old(generateNewMetadata)
        invariant AddAll(Snapshot(), ps[i..], ds[i..], generateNewMetadata)
                  == AddAll(old(Snapshot()), ps, ds, generateNewMetadata)
      {
        AddProposition(ps[i], ds[i]);
        assert ps[i..][1..] == ps[i + 1..] && ds[i..][1..] == ds[i + 1..];
        i := i + 1;
      }
    }

    /**
     * `add_proposition`: an empty store creates a chunk without consulting the
     * resolver; otherwise the resolver's answer, when it is a non-empty id,
     * receives the proposition, and anything else creates a new chunk.
     */
    method AddProposition(p: string, d: Draw)
      requires Consistent()
      modifies this
      ensures Consistent() && generateNewMetadata == old(generateNewMetadata)
      ensures Snapshot() == AddOne(old(Snapshot()), p, d, generateNewMetadata)
    {
      if |chunks| == 0 {
        CreateNewChunk(p, d.newId, d.summaryReply, d.titleReply);
        return;
      }
      var chunkId := FindRelevantChunk(d.placementReply, order);
      if chunkId.Some? && chunkId.value != "" {
        AddPropositionToChunk(chunkId.value, p, d.summaryReply, d.titleReply);
      } else {
        CreateNewChunk(p, d.newId, d.summaryReply, d.titleReply);
      }
    }

    /**
     * `add_proposition_to_chunk`: append to the chunk's propositions, then, when
     * regeneration is on, store the model's new summary and then its new title.
     */
    method AddPropositionToChunk(id: string, p: string, summaryReply: string, titleReply: string)
      requires Consistent() && id in chunks
      modifies this
      ensures Consistent() && generateNewMetadata == old(generateNewMetadata)
      ensures Snapshot() == AppendToChunk(old(Snapshot()), id, p, generateNewMetadata, summaryReply, titleReply)
    {
      var c := chunks[id];
      c := c.(propositions := c.propositions + [p]);
      if generateNewMetadata {
        c := c.(summary := summaryReply);
        c := c.(title := titleReply);
      }
      chunks := chunks[id := c];
    }

    /**
     * `_create_new_chunk`: store a one-proposition chunk under `newId` with index
     * the current number of chunks; an existing `newId` is overwritten in place.
     */
    method CreateNewChunk(p: string, newId: string, summaryReply: string, titleReply: string)
      requires Consistent()
      modifies this
      ensures Consistent() && generateNewMetadata == old(generateNewMetadata)
      ensures Snapshot() == CreateChunk(old(Snapshot()), newId, p, summaryReply, titleReply)
    {
      var record := Chunk(newId, [p], titleReply, summaryReply, |chunks|);
      if newId !in chunks {
        order := order + [newId];
      }
      chunks := chunks[newId := record];
    }

    /** `get_chunk_outline`: the blocks of all chunks, accumulated in store order. */
    method GetChunkOutline() returns (outline: string)
      requires Consistent()
      ensures outline == Outline(Snapshot())
    {
      outline := "";
      var i := 0;
      while i < |order|
        invariant 0 <= i <= |order|
        invariant outline == Gather(chunks, order[..i], OutlineBlock)
      {
        outline := outline + OutlineBlock(chunks[order[i]]);
        assert order[..i + 1][..i] == order[..i];
        i := i + 1;
      }
      assert order[..|order|] == order;
    }

    /**
     * `get_chunks`: 'dict' gives the records by id, 'list_of_strings' one text
     * per chunk in store order, any other kind nothing.
     */
    function GetChunks(getType: string := "dict"): (v: ChunksView)
      reads this
      requires Consistent()
      ensures getType == "dict" ==> v == Keyed(chunks, order)
      ensures getType == "list_of_strings" ==>
                && v.Texts? && |v.texts| == |chunks|
                && forall i :: 0 <= i < |order| ==> v.texts[i] == Text.Join(" ", chunks[order[i]].propositions)
      ensures getType != "dict" && getType != "list_of_strings" ==> v == NoView
    {
      if getType == "dict" then Keyed(chunks, order)
      else if getType == "list_of_strings" then Texts(ChunkTexts(Snapshot()))
      else NoView
    }
  }
}
