/**
 * The placement resolver: the defensive parse, in `_find_relevant_chunk`, of the
 * language model's free-text reply into either the id of an existing chunk or
 * "no match". The reply is taken as already stripped of surrounding whitespace;
 * `ids` are the store's chunk ids in insertion order.
 */
module Placement {
  import opened Wrappers
  import opened Text

  /** `id_truncate_limit`: the length of a chunk id. */
  const IdTruncateLimit: nat := 5

  /** Replies that, upper-cased, mean "no chunk matches". */
  const NoMatchReplies: seq<string> := ["NONE", "NO CHUNKS", "NO MATCH", "NO"]

  predicate IsNoMatchReply(reply: string)
  {
    Upper(reply) in NoMatchReplies
  }

  /** The first id, in store order, that occurs inside the reply. */
  function FirstContained(ids: seq<string>, reply: string): (r: Option<string>)
    ensures r.Some? ==> r.value in ids && Contains(reply, r.value)
    ensures r.None? ==> forall i :: 0 <= i < |ids| ==> !Contains(reply, ids[i])
  {
    if ids == [] then None
    else if Contains(reply, ids[0]) then Some(ids[0])
    else FirstContained(ids[1..], reply)
  }

  /** The four tiers in order: sentinel, exact id, 5-character prefix, substring. */
  function Resolve(reply: string, ids: seq<string>): (r: Option<string>)
    ensures r.Some? ==> r.value in ids
  {
    if IsNoMatchReply(reply) then None
    else if reply in ids then Some(reply)
    else if Take(reply, IdTruncateLimit) in ids then Some(Take(reply, IdTruncateLimit))
    else FirstContained(ids, reply)
  }

  /** The parse as the source runs it, with its early-return scan over the ids. */
  method FindRelevantChunk(reply: string, ids: seq<string>) returns (r: Option<string>)
    ensures r == Resolve(reply, ids)
  {
    if IsNoMatchReply(reply) {
      return None;
    }
    if reply in ids {
      return Some(reply);
    }
    var head := Take(reply, IdTruncateLimit);
    if head in ids {
      return Some(head);
    }
    var i := 0;
    while i < |ids|
      invariant 0 <= i <= |ids|
      invariant FirstContained(ids[i..], reply) == FirstContained(ids, reply)
    {
      if Contains(reply, ids[i]) {
        return Some(ids[i]);
      }
      assert ids[i..][1..] == ids[i + 1..];
      i := i + 1;
    }
    return None;
  }

  /** A sentinel reply means "no match", whatever ids the store holds. */
  lemma NoMatchReplyIgnoresStore(reply: string)
    requires IsNoMatchReply(reply)
    ensures forall ids :: Resolve(reply, ids) == None
  {
  }

  /** The sentinel test ignores letter case. */
  lemma NoMatchRepliesAnyCase()
    ensures IsNoMatchReply("none") && IsNoMatchReply("None") && IsNoMatchReply("No Match")
    ensures IsNoMatchReply("no chunks") && IsNoMatchReply("no")
    ensures !IsNoMatchReply("NONE.") && !IsNoMatchReply("")
  {
    assert Upper("none") == "NONE";
    assert Upper("None") == "NONE";
    assert Upper("No Match") == "NO MATCH";
    assert Upper("no chunks") == "NO CHUNKS";
    assert Upper("no") == "NO";
  }

  /** A non-sentinel reply that is an id comes back unchanged. */
  lemma ExactReplyReturned(reply: string, ids: seq<string>)
    requires !IsNoMatchReply(reply) && reply in ids
    ensures Resolve(reply, ids) == Some(reply)
  {
  }

  /** Otherwise a reply whose first five characters are an id yields those five characters. */
  lemma PrefixReplyReturned(reply: string, ids: seq<string>)
    requires !IsNoMatchReply(reply) && reply !in ids
    requires Take(reply, IdTruncateLimit) in ids
    ensures Resolve(reply, ids) == Some(reply[..IdTruncateLimit])
  {
  }

  /** The resolver never guesses: a returned id is a store id that occurs in the reply. */
  lemma ResolvedIdOccursInReply(reply: string, ids: seq<string>)
    ensures Resolve(reply, ids).Some? ==>
              Resolve(reply, ids).value in ids && Occurs(reply, Resolve(reply, ids).value)
  {
    var r := Resolve(reply, ids);
    if r.Some? {
      if r.value == reply || r.value == Take(reply, IdTruncateLimit) {
        PrefixContained(reply, r.value);
      } else {
        ContainsIffOccurs(reply, r.value);
      }
    }
  }

  /** Past the sentinel check, "no match" comes back exactly when no id occurs in the reply. */
  lemma NoMatchIffNoIdOccurs(reply: string, ids: seq<string>)
    requires !IsNoMatchReply(reply)
    ensures Resolve(reply, ids) == None <==> forall i :: 0 <= i < |ids| ==> !Occurs(reply, ids[i])
  {
    forall i | 0 <= i < |ids| {
      ContainsIffOccurs(reply, ids[i]);
    }
    PrefixContained(reply, reply);
    PrefixContained(reply, Take(reply, IdTruncateLimit));
  }

  lemma {:induction false} FirstContainedAt(ids: seq<string>, reply: string, i: nat)
    requires i < |ids| && Contains(reply, ids[i])
    requires forall j :: 0 <= j < i ==> !Contains(reply, ids[j])
    ensures FirstContained(ids, reply) == Some(ids[i])
  {
    if i > 0 {
      assert !Contains(reply, ids[0]);
      FirstContainedAt(ids[1..], reply, i - 1);
    }
  }

  /**
   * In the substring tier the chosen id is the first one, in insertion order,
   * that occurs in the reply.
   */
  lemma SubstringTierPicksFirst(reply: string, ids: seq<string>, i: nat)
    requires !IsNoMatchReply(reply) && reply !in ids && Take(reply, IdTruncateLimit) !in ids
    requires i < |ids| && Occurs(reply, ids[i])
    requires forall j :: 0 <= j < i ==> !Occurs(reply, ids[j])
    ensures Resolve(reply, ids) == Some(ids[i])
  {
    forall j | 0 <= j <= i {
      ContainsIffOccurs(reply, ids[j]);
    }
    FirstContainedAt(ids, reply, i);
  }
}
