/**
 * Concrete runs of the chunker on the two opening propositions of the module's
 * demonstration, and a reply that wraps an id in a sentence.
 */
module Scenarios {
  import opened Wrappers
  import opened Text
  import opened Placement
  import opened ChunkStore

  const October: string := "The month is October."
  const Year: string := "The year is 2023."

  const First: Draw := Draw("d41a2", "", "Dates.", "Dates")
  const Second: Draw := Draw("9f0c1", "d41a2", "Dates and years.", "Dates & Time")

  /** The model names the first chunk for the second proposition: one chunk holds both, in order. */
  lemma RelatedPropositionsShareOneChunk()
    ensures var r := AddAll(EmptyStore(), [October, Year], [First, Second], true);
      && r.order == ["d41a2"]
      && r.chunks["d41a2"].propositions == [October, Year]
      && r.chunks["d41a2"].title == "Dates & Time"
      && ChunkTexts(r) == ["The month is October. The year is 2023."]
  {
    var s1 := AddOne(EmptyStore(), October, First, true);
    FirstChunkCreated();
    AddAllTwo(EmptyStore(), October, Year, First, Second, true);
    SecondJoinsFirst(s1);
    OneChunkText(AddOne(s1, Year, Second, true));
  }

  /** The text of the single dates chunk is its two propositions joined by a space. */
  lemma OneChunkText(r: Store)
    requires r == Store(map["d41a2" := Chunk("d41a2", [October, Year], "Dates & Time", "Dates and years.", 0)], ["d41a2"])
    ensures ChunkTexts(r) == ["The month is October. The year is 2023."]
  {
    assert ChunkTexts(r) == [Join(" ", [October, Year])];
    assert Join(" ", [October, Year]) == October + " " + Year;
    assert October + " " + Year == "The month is October. The year is 2023.";
  }

  /** On an empty store the first proposition opens chunk 0 under the drawn id. */
  lemma FirstChunkCreated()
    ensures AddOne(EmptyStore(), October, First, true)
            == Store(map["d41a2" := Chunk("d41a2", [October], "Dates", "Dates.", 0)], ["d41a2"])
  {
  }

  /** The reply "d41a2" is an exact id: the proposition joins that chunk and its metadata is regenerated. */
  lemma SecondJoinsFirst(s1: Store)
    requires s1 == Store(map["d41a2" := Chunk("d41a2", [October], "Dates", "Dates.", 0)], ["d41a2"])
    ensures AddOne(s1, Year, Second, true)
            == Store(map["d41a2" := Chunk("d41a2", [October, Year], "Dates & Time", "Dates and years.", 0)], ["d41a2"])
  {
    assert !IsNoMatchReply("d41a2") by {
      assert |Upper("d41a2")| == 5;
    }
    assert Resolve("d41a2", s1.order) == Some("d41a2");
    assert |s1.chunks| == 1;
    assert Placed(s1, Second) == Some("d41a2");
    assert [October] + [Year] == [October, Year];
  }

  /** The model answers "NONE": two chunks, one proposition each, with indices 0 and 1. */
  lemma UnrelatedPropositionsGetTwoChunks()
    ensures var r := AddAll(EmptyStore(), [October, Year],
                            [Draw("d41a2", "", "Dates.", "Dates"), Draw("9f0c1", "NONE", "Years.", "Years")],
                            false);
      && r.order == ["d41a2", "9f0c1"]
      && r.chunks["d41a2"].chunkIndex == 0 && r.chunks["9f0c1"].chunkIndex == 1
      && ChunkTexts(r) == [October, Year]
  {
    var d1, d2 := Draw("d41a2", "", "Dates.", "Dates"), Draw("9f0c1", "NONE", "Years.", "Years");
    var s1 := AddOne(EmptyStore(), October, d1, false);
    assert IsNoMatchReply("NONE") by {
      assert Upper("NONE") == "NONE";
    }
    AddAllTwo(EmptyStore(), October, Year, d1, d2, false);
  }

  /** A run of two additions is the second addition after the first. */
  lemma AddAllTwo(s: Store, p1: string, p2: string, d1: Draw, d2: Draw, regenerate: bool)
    requires s.Consistent()
    ensures AddAll(s, [p1, p2], [d1, d2], regenerate) == AddOne(AddOne(s, p1, d1, regenerate), p2, d2, regenerate)
  {
    var s1 := AddOne(s, p1, d1, regenerate);
    assert [p1, p2][1..] == [p2] && [d1, d2][1..] == [d2];
    assert AddAll(s1, [p2], [d2], regenerate) == AddAll(AddOne(s1, p2, d2, regenerate), [], [], regenerate);
  }

  /**
   * Two ids occur in the reply: the substring tier takes the one created first,
   * not the one the reply mentions first.
   */
  lemma EarlierChunkWinsSubstringTier()
    ensures Resolve("Either 77b1e or d41a2.", ["d41a2", "77b1e"]) == Some("d41a2")
  {
    var reply := "Either 77b1e or d41a2.";
    assert !IsNoMatchReply(reply) by {
      assert |Upper(reply)| == 22;
    }
    assert Take(reply, IdTruncateLimit) == "Eithe";
    assert reply == "Either 77b1e or " + "d41a2" + ".";
    OccursInside("Either 77b1e or ", "d41a2", ".", "d41a2");
    SubstringTierPicksFirst(reply, ["d41a2", "77b1e"], 0);
  }
}
