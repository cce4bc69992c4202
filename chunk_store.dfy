/**
 * The chunk store as a value: `self.chunks`, an insertion-ordered dict from chunk
 * id to chunk record, is a map plus the sequence of its keys in insertion order.
 * The functions here give the state after each of the chunker's operations;
 * the class in module Chunker is proved against them, and the lemmas state the
 * invariants a run of additions keeps.
 *
 * Everything that comes from outside the program (the uuid-derived id and the
 * language model's replies) arrives in a `Draw`, one per added proposition.
 */
module ChunkStore {
  import opened Wrappers
  import opened Text
  import opened Placement

  /** One record of `self.chunks`. */
  datatype Chunk = Chunk(
    chunkId: string,
    propositions: seq<string>,
    title: string,
    summary: string,
    chunkIndex: nat)

  /**
   * The outside values one `add_proposition` call may consume: the id a new chunk
   * would get, the model's reply to the placement prompt, and its replies to the
   * summary and title prompts (for a new chunk, or for the refresh after an append).
   */
  datatype Draw = Draw(newId: string, placementReply: string, summaryReply: string, titleReply: string)

  datatype Store = Store(chunks: map<string, Chunk>, order: seq<string>) {

    /** `order` lists the keys of `chunks`, each once: the dict's own iteration order. */
    ghost predicate Consistent()
    {
      && |chunks| == |order|
      && (forall i, j :: 0 <= i < j < |order| ==> order[i] != order[j])
      && (forall id :: id in chunks <==> id in order)
    }

    /**
     * The chunker's invariant: each record carries its own key, is non-empty, and
     * its `chunk_index` is its position in creation order (so indices are 0..k-1).
     */
    ghost predicate Valid()
    {
      && Consistent()
      && forall i :: 0 <= i < |order| ==>
           && chunks[order[i]].chunkId == order[i]
           && chunks[order[i]].chunkIndex == i
           && chunks[order[i]].propositions != []
    }
  }

  /** The store of a freshly constructed chunker. */
  function EmptyStore(): (s: Store)
    ensures s.Valid() && |s.chunks| == 0
  {
    Store(map[], [])
  }

  /**
   * `_create_new_chunk`: the record is built with `chunk_index = len(self.chunks)`
   * and then stored under `id`; an id already present is overwritten in place.
   */
  function CreateChunk(s: Store, id: string, p: string, summary: string, title: string): (r: Store)
    requires s.Consistent()
    ensures r.Consistent()
  {
    Store(s.chunks[id := Chunk(id, [p], title, summary, |s.chunks|)],
          if id in s.chunks then s.order else s.order + [id])
  }

  /**
   * `add_proposition_to_chunk`: append `p`; when metadata regeneration is on,
   * replace the summary and then the title by the model's replies.
   */
  function AppendToChunk(s: Store, id: string, p: string, regenerate: bool, summary: string, title: string): (r: Store)
    requires s.Consistent() && id in s.chunks
    ensures r.Consistent()
  {
    var c := s.chunks[id].(propositions := s.chunks[id].propositions + [p]);
    var c' := if regenerate then c.(summary := summary, title := title) else c;
    Store(s.chunks[id := c'], s.order)
  }

  /**
   * The existing chunk `add_proposition` appends to, or None for "create a new
   * chunk": an empty store skips the resolver, and an empty-string id counts as
   * no match (Python's `if chunk_id:`).
   */
  function Placed(s: Store, d: Draw): (r: Option<string>)
    requires s.Consistent()
    ensures r.Some? ==> r.value in s.chunks && r.value != ""
  {
    if |s.chunks| == 0 then None
    else match Resolve(d.placementReply, s.order)
      case Some(id) => if id != "" then Some(id) else None
      case None => None
  }

  /** `add_proposition`. */
  function AddOne(s: Store, p: string, d: Draw, regenerate: bool): (r: Store)
    requires s.Consistent()
    ensures r.Consistent()
  {
    match Placed(s, d)
    case Some(id) => AppendToChunk(s, id, p, regenerate, d.summaryReply, d.titleReply)
    case None => CreateChunk(s, d.newId, p, d.summaryReply, d.titleReply)
  }

  /** `add_propositions`: the propositions in order, each with its own draw. */
  function AddAll(s: Store, ps: seq<string>, ds: seq<Draw>, regenerate: bool): (r: Store)
    requires s.Consistent() && |ds| == |ps|
    ensures r.Consistent()
    decreases |ps|
  {
    if ps == [] then s
    else AddAll(AddOne(s, ps[0], ds[0], regenerate), ps[1..], ds[1..], regenerate)
  }

  /** The chunk a proposition lands in. */
  function Target(s: Store, d: Draw): string
    requires s.Consistent()
  {
    match Placed(s, d)
    case Some(id) => id
    case None => d.newId
  }

  /** The chunk each proposition of a run lands in, in order. */
  ghost function Targets(s: Store, ps: seq<string>, ds: seq<Draw>, regenerate: bool): (ts: seq<string>)
    requires s.Consistent() && |ds| == |ps|
    ensures |ts| == |ps|
    decreases |ps|
  {
    if ps == [] then []
    else [Target(s, ds[0])] + Targets(AddOne(s, ps[0], ds[0], regenerate), ps[1..], ds[1..], regenerate)
  }

  /** The propositions of chunk `id`, or none when there is no such chunk. */
  ghost function PropositionsAt(s: Store, id: string): seq<string>
  {
    if id in s.chunks then s.chunks[id].propositions else []
  }

  /** The members of `ps` whose target is `id`, in their order. */
  ghost function Routed(ps: seq<string>, ts: seq<string>, id: string): seq<string>
    requires |ts| == |ps|
  {
    if ps == [] then []
    else (if ts[0] == id then [ps[0]] else []) + Routed(ps[1..], ts[1..], id)
  }

  /** Every draw brings an id that is not yet a key and that no other draw brings. */
  ghost predicate FreshDraws(s: Store, ds: seq<Draw>)
  {
    && (forall i :: 0 <= i < |ds| ==> ds[i].newId !in s.chunks)
    && (forall i, j :: 0 <= i < j < |ds| ==> ds[i].newId != ds[j].newId)
  }

  // ---------------------------------------------------------------------------
  // Views

  /** The concatenation, in the order of `ids`, of `f` applied to each chunk. */
  function Gather<T>(cs: map<string, Chunk>, ids: seq<string>, f: Chunk -> seq<T>): seq<T>
    requires forall id :: id in ids ==> id in cs
  {
    if ids == [] then []
    else Gather(cs, ids[..|ids| - 1], f) + f(cs[ids[|ids| - 1]])
  }

  /** The line that names a chunk in the outline. */
  function IdLine(id: string): string
  {
    "Chunk ID: " + id + "\n"
  }

  /** One block of `get_chunk_outline`. */
  function OutlineBlock(c: Chunk): string
  {
    IdLine(c.chunkId) + ("Chunk Name: " + c.title + "\n" + "Chunk Summary: " + c.summary + "\n\n")
  }

  /** `get_chunk_outline`: one block per chunk, in store order. */
  function Outline(s: Store): string
    requires s.Consistent()
  {
    Gather(s.chunks, s.order, OutlineBlock)
  }

  function PropositionsOf(c: Chunk): seq<string>
  {
    c.propositions
  }

  /** All propositions held by the store, chunk after chunk in store order. */
  ghost function AllPropositions(s: Store): seq<string>
    requires s.Consistent()
  {
    Gather(s.chunks, s.order, PropositionsOf)
  }

  /** `get_chunks('list_of_strings')`: per chunk, its propositions joined by single spaces. */
  function ChunkTexts(s: Store): (r: seq<string>)
    requires s.Consistent()
    ensures |r| == |s.order|
  {
    seq(|s.order|, i requires 0 <= i < |s.order| => Join(" ", s.chunks[s.order[i]].propositions))
  }

  // ---------------------------------------------------------------------------
  // Lemmas about Gather

  lemma {:induction false} GatherSplit<T>(cs: map<string, Chunk>, a: seq<string>, b: seq<string>, f: Chunk -> seq<T>)
    requires forall id :: id in a + b ==> id in cs
    ensures Gather(cs, a + b, f) == Gather(cs, a, f) + Gather(cs, b, f)
    decreases |b|
  {
    if b == [] {
      assert a + b == a;
    } else {
      var n := |b| - 1;
      assert (a + b)[..|a + b| - 1] == a + b[..n];
      GatherSplit(cs, a, b[..n], f);
    }
  }

  lemma {:induction false} GatherAgree<T>(cs: map<string, Chunk>, cs': map<string, Chunk>, ids: seq<string>, f: Chunk -> seq<T>)
    requires forall id :: id in ids ==> id in cs && id in cs' && cs[id] == cs'[id]
    ensures Gather(cs, ids, f) == Gather(cs', ids, f)
    decreases |ids|
  {
    if ids != [] {
      GatherAgree(cs, cs', ids[..|ids| - 1], f);
    }
  }

  /** Appending `p` to the chunk at one (unique) key adds exactly `p` to the flattened store. */
  lemma {:induction false} GatherAppendOne(cs: map<string, Chunk>, ids: seq<string>, t: string, c': Chunk, p: string)
    requires forall id :: id in ids ==> id in cs
    requires forall i, j :: 0 <= i < j < |ids| ==> ids[i] != ids[j]
    requires t in ids && c'.propositions == cs[t].propositions + [p]
    ensures multiset(Gather(cs[t := c'], ids, PropositionsOf)) == multiset(Gather(cs, ids, PropositionsOf)) + multiset{p}
    decreases |ids|
  {
    var n := |ids| - 1;
    var init := ids[..n];
    if ids[n] == t {
      assert forall i :: 0 <= i < n ==> init[i] == ids[i] != ids[n];
      GatherAgree(cs, cs[t := c'], init, PropositionsOf);
    } else {
      assert t in init by {
        var i :| 0 <= i < |ids| && ids[i] == t;
        assert i < n && init[i] == t;
      }
      GatherAppendOne(cs, init, t, c', p);
    }
  }

  // ---------------------------------------------------------------------------
  // Creating and appending

  /**
   * Creating a chunk under a fresh id adds exactly one entry, at the end of the
   * store order, holding just `p`, with index the previous number of chunks;
   * every other chunk is unchanged and the invariant is kept.
   */
  lemma CreateFreshChunk(s: Store, id: string, p: string, summary: string, title: string)
    requires s.Valid() && id !in s.chunks
    ensures var r := CreateChunk(s, id, p, summary, title);
      && r.Valid()
      && r.order == s.order + [id]
      && |r.chunks| == |s.chunks| + 1
      && r.chunks[id] == Chunk(id, [p], title, summary, |s.chunks|)
      && (forall k :: k in s.chunks ==> k in r.chunks && r.chunks[k] == s.chunks[k])
  {
    var r := CreateChunk(s, id, p, summary, title);
    assert id !in s.order;
    forall i | 0 <= i < |r.order|
      ensures r.chunks[r.order[i]].chunkId == r.order[i]
      ensures r.chunks[r.order[i]].chunkIndex == i
      ensures r.chunks[r.order[i]].propositions != []
    {
      if i < |s.order| {
        assert r.order[i] == s.order[i] != id;
      }
    }
  }

  /**
   * A colliding id silently overwrites the earlier chunk: the store keeps its size
   * and order, the old propositions are gone, and the new record's index is the
   * store size, which is not its position, so the invariant is lost.
   */
  lemma CreateCollidingChunk(s: Store, id: string, p: string, summary: string, title: string)
    requires s.Valid() && id in s.chunks
    ensures var r := CreateChunk(s, id, p, summary, title);
      && r.order == s.order
      && |r.chunks| == |s.chunks|
      && r.chunks[id].propositions == [p]
      && !r.Valid()
  {
    var r := CreateChunk(s, id, p, summary, title);
    var i :| 0 <= i < |s.order| && s.order[i] == id;
    assert r.chunks[r.order[i]].chunkIndex == |s.order| != i;
  }

  /**
   * Appending to chunk `id` sets its propositions to the old ones followed by `p`,
   * keeps its id and index, takes the model's replies as summary and title only
   * when regeneration is on, and leaves every other chunk and the order unchanged.
   */
  lemma AppendKeepsOthers(s: Store, id: string, p: string, regenerate: bool, summary: string, title: string)
    requires s.Valid() && id in s.chunks
    ensures var r := AppendToChunk(s, id, p, regenerate, summary, title);
      && r.Valid()
      && r.order == s.order
      && r.chunks.Keys == s.chunks.Keys
      && r.chunks[id].propositions == s.chunks[id].propositions + [p]
      && r.chunks[id].chunkId == s.chunks[id].chunkId
      && r.chunks[id].chunkIndex == s.chunks[id].chunkIndex
      && r.chunks[id].summary == (if regenerate then summary else s.chunks[id].summary)
      && r.chunks[id].title == (if regenerate then title else s.chunks[id].title)
      && (forall k :: k in s.chunks && k != id ==> r.chunks[k] == s.chunks[k])
  {
  }

  // ---------------------------------------------------------------------------
  // One call of add_proposition

  /** An empty store always creates, whatever the placement reply would have been. */
  lemma EmptyStoreCreates(s: Store, p: string, d: Draw, regenerate: bool)
    requires s.Consistent() && |s.chunks| == 0
    ensures forall reply :: AddOne(s, p, d.(placementReply := reply), regenerate) == CreateChunk(s, d.newId, p, d.summaryReply, d.titleReply)
  {
  }

  /**
   * One `add_proposition` with a fresh id keeps the invariant: the keys grow by
   * at most the target (an existing chunk, or a new one under the drawn id), the
   * order only grows, and existing chunks keep their indices.
   */
  lemma AddOneKeepsValid(s: Store, p: string, d: Draw, regenerate: bool)
    requires s.Valid() && d.newId !in s.chunks
    ensures var r := AddOne(s, p, d, regenerate); var t := Target(s, d);
      && r.Valid()
      && (forall id :: id in r.chunks <==> id in s.chunks || id == t)
      && (t !in s.chunks ==> t == d.newId)
      && s.order <= r.order
      && (forall id :: id in s.chunks ==> r.chunks[id].chunkIndex == s.chunks[id].chunkIndex)
  {
    match Placed(s, d)
    case Some(t) =>
      AppendKeepsOthers(s, t, p, regenerate, d.summaryReply, d.titleReply);
    case None =>
      CreateFreshChunk(s, d.newId, p, d.summaryReply, d.titleReply);
  }

  /**
   * One `add_proposition` with a fresh id puts `p` at the end of exactly one
   * chunk, the target, and changes no other chunk's propositions.
   */
  lemma AddOneRoutes(s: Store, p: string, d: Draw, regenerate: bool)
    requires s.Valid() && d.newId !in s.chunks
    ensures var r := AddOne(s, p, d, regenerate); var t := Target(s, d);
      forall id :: PropositionsAt(r, id) == PropositionsAt(s, id) + (if id == t then [p] else [])
  {
    match Placed(s, d)
    case Some(t) =>
      AppendKeepsOthers(s, t, p, regenerate, d.summaryReply, d.titleReply);
    case None =>
      CreateFreshChunk(s, d.newId, p, d.summaryReply, d.titleReply);
  }

  /** Without regeneration one `add_proposition` changes no existing title or summary. */
  lemma AddOneFreezesMetadata(s: Store, p: string, d: Draw)
    requires s.Valid() && d.newId !in s.chunks
    ensures var r := AddOne(s, p, d, false);
      forall id :: id in s.chunks ==>
        id in r.chunks && r.chunks[id].title == s.chunks[id].title && r.chunks[id].summary == s.chunks[id].summary
  {
    match Placed(s, d)
    case Some(t) =>
      AppendKeepsOthers(s, t, p, false, d.summaryReply, d.titleReply);
    case None =>
      CreateFreshChunk(s, d.newId, p, d.summaryReply, d.titleReply);
  }

  /** One `add_proposition` with a fresh id adds exactly `p` to the store's propositions. */
  lemma AddOneCount(s: Store, p: string, d: Draw, regenerate: bool)
    requires s.Valid() && d.newId !in s.chunks
    ensures multiset(AllPropositions(AddOne(s, p, d, regenerate))) == multiset(AllPropositions(s)) + multiset{p}
  {
    var r := AddOne(s, p, d, regenerate);
    match Placed(s, d)
    case Some(t) =>
      GatherAppendOne(s.chunks, s.order, t, r.chunks[t], p);
    case None =>
      CreateFreshChunk(s, d.newId, p, d.summaryReply, d.titleReply);
      assert r.order[..|r.order| - 1] == s.order;
      GatherAgree(s.chunks, r.chunks, s.order, PropositionsOf);
  }

  /** In a valid store a chunk's recorded index is its position in the order. */
  lemma ChunkAtItsIndex(s: Store, t: string)
    requires s.Valid() && t in s.chunks
    ensures s.chunks[t].chunkIndex < |s.order| && s.order[s.chunks[t].chunkIndex] == t
  {
    var i :| 0 <= i < |s.order| && s.order[i] == t;
  }

  /** After appending `p` to chunk `t`, text j changes only when it is `t`'s, gaining " " and `p`. */
  lemma ChunkTextAfterAppendAt(s: Store, t: string, p: string, regenerate: bool, summary: string, title: string, j: nat)
    requires s.Valid() && t in s.chunks && j < |s.order|
    ensures var r := AppendToChunk(s, t, p, regenerate, summary, title);
      ChunkTexts(r)[j] == if s.order[j] == t then ChunkTexts(s)[j] + " " + p else ChunkTexts(s)[j]
  {
    if s.order[j] == t {
      JoinSnoc(" ", s.chunks[t].propositions, p);
    }
  }

  /** Appending to the chunk at index k extends text k by " " and `p`; the other texts stay. */
  lemma ChunkTextsAfterAppend(s: Store, t: string, p: string, regenerate: bool, summary: string, title: string)
    requires s.Valid() && t in s.chunks
    ensures var k := s.chunks[t].chunkIndex;
      && k < |ChunkTexts(s)|
      && ChunkTexts(AppendToChunk(s, t, p, regenerate, summary, title)) == ChunkTexts(s)[k := ChunkTexts(s)[k] + " " + p]
  {
    var k := s.chunks[t].chunkIndex;
    ChunkAtItsIndex(s, t);
    var r := AppendToChunk(s, t, p, regenerate, summary, title);
    var want := ChunkTexts(s)[k := ChunkTexts(s)[k] + " " + p];
    forall j | 0 <= j < |s.order|
      ensures ChunkTexts(r)[j] == want[j]
    {
      ChunkTextAfterAppendAt(s, t, p, regenerate, summary, title, j);
      assert s.order[j] == t <==> j == k;
    }
  }

  /** Creating a chunk under a fresh id adds the text `p` at the end. */
  lemma ChunkTextsAfterCreate(s: Store, id: string, p: string, summary: string, title: string)
    requires s.Valid() && id !in s.chunks
    ensures ChunkTexts(CreateChunk(s, id, p, summary, title)) == ChunkTexts(s) + [p]
  {
    var r := CreateChunk(s, id, p, summary, title);
    assert id !in s.order;
    forall j | 0 <= j < |s.order|
      ensures ChunkTexts(r)[j] == ChunkTexts(s)[j]
    {
      assert r.order[j] == s.order[j] != id;
    }
  }

  /**
   * The flattened view after one addition: the text of the target chunk, found
   * at that chunk's index, gains " " and `p`, or a new text `p` is added at the end.
   */
  lemma ChunkTextsAfterAdd(s: Store, p: string, d: Draw, regenerate: bool)
    requires s.Valid() && d.newId !in s.chunks
    ensures var r := AddOne(s, p, d, regenerate); var t := Target(s, d);
      && (t in s.chunks ==>
            var k := s.chunks[t].chunkIndex;
            k < |ChunkTexts(s)| && ChunkTexts(r) == ChunkTexts(s)[k := ChunkTexts(s)[k] + " " + p])
      && (t !in s.chunks ==> ChunkTexts(r) == ChunkTexts(s) + [p])
  {
    match Placed(s, d)
    case Some(t) =>
      ChunkTextsAfterAppend(s, t, p, regenerate, d.summaryReply, d.titleReply);
    case None =>
      ChunkTextsAfterCreate(s, d.newId, p, d.summaryReply, d.titleReply);
  }

  // ---------------------------------------------------------------------------
  // A run of add_propositions

  lemma FreshAfterStep(s: Store, p: string, ds: seq<Draw>, regenerate: bool)
    requires s.Valid() && |ds| > 0 && FreshDraws(s, ds)
    ensures AddOne(s, p, ds[0], regenerate).Valid()
    ensures FreshDraws(AddOne(s, p, ds[0], regenerate), ds[1..])
  {
    AddOneKeepsValid(s, p, ds[0], regenerate);
  }

  /**
   * Over a run with fresh ids the invariant holds at the end (so chunk indices
   * are 0..k-1 in store order), the old order is a prefix of the new one, every
   * proposition's target is a chunk, and each old chunk keeps its index.
   */
  lemma {:induction false} AddAllKeepsValid(s: Store, ps: seq<string>, ds: seq<Draw>, regenerate: bool)
    requires s.Valid() && |ds| == |ps| && FreshDraws(s, ds)
    ensures var r := AddAll(s, ps, ds, regenerate); var ts := Targets(s, ps, ds, regenerate);
      && r.Valid()
      && s.order <= r.order
      && (forall id :: id in r.chunks <==> id in s.chunks || id in ts)
      && (forall id :: id in s.chunks ==> r.chunks[id].chunkIndex == s.chunks[id].chunkIndex)
    decreases |ps|
  {
    if ps != [] {
      var s1 := AddOne(s, ps[0], ds[0], regenerate);
      AddOneKeepsValid(s, ps[0], ds[0], regenerate);
      FreshAfterStep(s, ps[0], ds, regenerate);
      AddAllKeepsValid(s1, ps[1..], ds[1..], regenerate);
    }
  }

  /**
   * `r` holds, for every id, the propositions `s` held there followed by exactly
   * the members of `ps` whose target in `ts` is that id, in their order.
   */
  ghost predicate ExtendsByRouting(s: Store, r: Store, ps: seq<string>, ts: seq<string>)
    requires |ts| == |ps|
  {
    forall id :: PropositionsAt(r, id) == PropositionsAt(s, id) + Routed(ps, ts, id)
  }

  /**
   * Every proposition lands in exactly one chunk, and order is kept within a
   * chunk: afterwards each chunk holds its old propositions followed by exactly
   * the propositions routed to it, in arrival order.
   */
  lemma {:induction false} AddAllRoutes(s: Store, ps: seq<string>, ds: seq<Draw>, regenerate: bool)
    requires s.Valid() && |ds| == |ps| && FreshDraws(s, ds)
    ensures ExtendsByRouting(s, AddAll(s, ps, ds, regenerate), ps, Targets(s, ps, ds, regenerate))
    decreases |ps|
  {
    if ps != [] {
      var s1 := AddOne(s, ps[0], ds[0], regenerate);
      AddOneRoutes(s, ps[0], ds[0], regenerate);
      FreshAfterStep(s, ps[0], ds, regenerate);
      AddAllRoutes(s1, ps[1..], ds[1..], regenerate);
      var ts := Targets(s, ps, ds, regenerate);
      assert ts[0] == Target(s, ds[0]) && ts[1..] == Targets(s1, ps[1..], ds[1..], regenerate);
      RoutedCombine(s, s1, AddAll(s, ps, ds, regenerate), ps, ts);
    }
  }

  lemma RoutedCombine(s: Store, s1: Store, r: Store, ps: seq<string>, ts: seq<string>)
    requires |ts| == |ps| > 0
    requires forall id :: PropositionsAt(s1, id) == PropositionsAt(s, id) + (if id == ts[0] then [ps[0]] else [])
    requires ExtendsByRouting(s1, r, ps[1..], ts[1..])
    ensures ExtendsByRouting(s, r, ps, ts)
  {
    forall id
      ensures PropositionsAt(r, id) == PropositionsAt(s, id) + Routed(ps, ts, id)
    {
      RoutedStepAt(s, s1, r, ps, ts, id);
    }
  }

  lemma RoutedStepAt(s: Store, s1: Store, r: Store, ps: seq<string>, ts: seq<string>, id: string)
    requires |ts| == |ps| > 0
    requires PropositionsAt(s1, id) == PropositionsAt(s, id) + (if ts[0] == id then [ps[0]] else [])
    requires PropositionsAt(r, id) == PropositionsAt(s1, id) + Routed(ps[1..], ts[1..], id)
    ensures PropositionsAt(r, id) == PropositionsAt(s, id) + Routed(ps, ts, id)
  {
  }

  /** A run adds to the store exactly the propositions of the input, each once. */
  lemma {:induction false} AddAllCount(s: Store, ps: seq<string>, ds: seq<Draw>, regenerate: bool)
    requires s.Valid() && |ds| == |ps| && FreshDraws(s, ds)
    ensures multiset(AllPropositions(AddAll(s, ps, ds, regenerate))) == multiset(AllPropositions(s)) + multiset(ps)
    decreases |ps|
  {
    if ps != [] {
      var s1 := AddOne(s, ps[0], ds[0], regenerate);
      AddOneCount(s, ps[0], ds[0], regenerate);
      FreshAfterStep(s, ps[0], ds, regenerate);
      AddAllCount(s1, ps[1..], ds[1..], regenerate);
      MultisetStep(multiset(AllPropositions(s)), multiset(AllPropositions(s1)),
                   multiset(AllPropositions(AddAll(s, ps, ds, regenerate))), ps);
    }
  }

  lemma MultisetStep(before: multiset<string>, step: multiset<string>, after: multiset<string>, ps: seq<string>)
    requires |ps| > 0 && step == before + multiset{ps[0]} && after == step + multiset(ps[1..])
    ensures after == before + multiset(ps)
  {
    assert ps == [ps[0]] + ps[1..];
  }

  /** So each `add_propositions` raises the number of stored propositions by the number added. */
  lemma AddAllLength(s: Store, ps: seq<string>, ds: seq<Draw>, regenerate: bool)
    requires s.Valid() && |ds| == |ps| && FreshDraws(s, ds)
    ensures |AllPropositions(AddAll(s, ps, ds, regenerate))| == |AllPropositions(s)| + |ps|
  {
    AddAllCount(s, ps, ds, regenerate);
    var all := AllPropositions(AddAll(s, ps, ds, regenerate));
    assert |multiset(all)| == |all|;
    assert |multiset(AllPropositions(s))| == |AllPropositions(s)|;
  }

  /** With regeneration off, no existing chunk's title or summary ever changes. */
  lemma {:induction false} AddAllFreezesMetadata(s: Store, ps: seq<string>, ds: seq<Draw>)
    requires s.Valid() && |ds| == |ps| && FreshDraws(s, ds)
    ensures var r := AddAll(s, ps, ds, false);
      forall id :: id in s.chunks ==>
        id in r.chunks && r.chunks[id].title == s.chunks[id].title && r.chunks[id].summary == s.chunks[id].summary
    decreases |ps|
  {
    if ps != [] {
      var s1 := AddOne(s, ps[0], ds[0], false);
      AddOneFreezesMetadata(s, ps[0], ds[0]);
      FreshAfterStep(s, ps[0], ds, false);
      AddAllFreezesMetadata(s1, ps[1..], ds[1..]);
    }
  }

  // ---------------------------------------------------------------------------
  // The outline

  /**
   * The outline is the blocks of the chunks in store order: the blocks of the
   * chunks before position k, then chunk k's block, then those after it.
   */
  lemma OutlineInStoreOrder(s: Store, k: nat)
    requires s.Consistent() && k < |s.order|
    ensures Outline(s) == Gather(s.chunks, s.order[..k], OutlineBlock) + OutlineBlock(s.chunks[s.order[k]])
                          + Gather(s.chunks, s.order[k + 1..], OutlineBlock)
  {
    assert s.order == s.order[..k] + [s.order[k]] + s.order[k + 1..];
    GatherSplit(s.chunks, s.order[..k] + [s.order[k]], s.order[k + 1..], OutlineBlock);
    GatherSplit(s.chunks, s.order[..k], [s.order[k]], OutlineBlock);
    assert Gather(s.chunks, [s.order[k]], OutlineBlock) == OutlineBlock(s.chunks[s.order[k]]);
  }

  /** Every chunk's id appears in the outline as a `Chunk ID:` line. */
  lemma OutlineNamesEveryChunk(s: Store, id: string)
    requires s.Valid() && id in s.chunks
    ensures Occurs(Outline(s), IdLine(id))
  {
    var k :| 0 <= k < |s.order| && s.order[k] == id;
    OutlineInStoreOrder(s, k);
    var before := Gather(s.chunks, s.order[..k], OutlineBlock);
    var after := Gather(s.chunks, s.order[k + 1..], OutlineBlock);
    OccursInside(before, OutlineBlock(s.chunks[id]), after, IdLine(id));
  }
}
