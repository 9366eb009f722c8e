/**
  The SRT serialiser of src/video_transcription/srt_generator.py. Both
  generators write into a document string instead of a file; all times are
  non-negative whole milliseconds.
 */
module Srt {
  import opened Wrappers
  import opened Text
  import opened Timestamp
  import opened Words

  /** A transcription segment; `words` is present only when the recogniser
      was asked for word timestamps (the `'words' in segment` test). */
  datatype Segment = Segment(start: nat, end: nat, text: string, words: Option<seq<Word>>)

  /** One numbered entry of the subtitle document. */
  datatype Block = Block(index: nat, start: nat, end: nat, text: string)

  function TimingLine(start: nat, end: nat): (r: string)
  {
    Format(start) + " --> " + Format(end)
  }

  /** The three fields written for one entry, each followed by a newline. */
  function Entry(index: nat, start: nat, end: nat, text: string): (r: string)
  {
    Digits(index) + "\n" + TimingLine(start, end) + "\n" + text + "\n"
  }

  /** What the writing loop has produced after its first k iterations: each
      entry, then a blank line unless it was the last entry. */
  function Emitted(bs: seq<Block>, k: nat): string
    requires k <= |bs|
  {
    if k == 0 then []
    else
      var b := bs[k - 1];
      Emitted(bs, k - 1) + Entry(b.index, b.start, b.end, b.text) + (if k < |bs| then "\n" else "")
  }

  /** The whole document the writing loop produces. */
  function Document(bs: seq<Block>): (r: string)
    ensures r == Unlines(Lines(bs))
  {
    if bs == [] then Emitted(bs, 0)
    else
      EmittedLines(bs, |bs|);
      assert bs[..|bs|] == bs;
      Emitted(bs, |bs|)
  }

  // ---------------------------------------------------------------------
  // The wire format, stated field by field.

  /** Fields joined with a newline after every field. */
  function Unlines(ls: seq<string>): string
  {
    if ls == [] then [] else Unlines(ls[..|ls| - 1]) + ls[|ls| - 1] + "\n"
  }

  /** The three fields of one entry: number, timing line, text. */
  function BlockLines(b: Block): seq<string>
  {
    [Digits(b.index), TimingLine(b.start, b.end), b.text]
  }

  /** The fields of a document: each entry's fields, with one empty
      separator field between neighbouring entries. */
  function Lines(bs: seq<Block>): (r: seq<string>)
    ensures |r| == if bs == [] then 0 else 4 * |bs| - 1
  {
    if bs == [] then []
    else if |bs| == 1 then BlockLines(bs[0])
    else Lines(bs[..|bs| - 1]) + [""] + BlockLines(bs[|bs| - 1])
  }

  /** Entry k occupies fields 4k .. 4k + 2, and field 4k + 3 is the empty
      separator when another entry follows. */
  lemma {:induction false} LinesOfEntry(bs: seq<Block>, k: nat)
    requires k < |bs|
    ensures |Lines(bs)| == 4 * |bs| - 1
    ensures Lines(bs)[4 * k] == Digits(bs[k].index)
    ensures Lines(bs)[4 * k + 1] == TimingLine(bs[k].start, bs[k].end)
    ensures Lines(bs)[4 * k + 2] == bs[k].text
    ensures k < |bs| - 1 ==> Lines(bs)[4 * k + 3] == ""
    decreases |bs|
  {
    if |bs| > 1 {
      if k < |bs| - 1 {
        EntryInFront(bs, k);
      } else {
        EntryLast(bs);
      }
    }
  }

  lemma {:induction false} EntryInFront(bs: seq<Block>, k: nat)
    requires k < |bs| - 1
    ensures Lines(bs)[4 * k] == Digits(bs[k].index)
    ensures Lines(bs)[4 * k + 1] == TimingLine(bs[k].start, bs[k].end)
    ensures Lines(bs)[4 * k + 2] == bs[k].text
    ensures Lines(bs)[4 * k + 3] == ""
    decreases |bs|, 0
  {
    var init := bs[..|bs| - 1];
    LinesOfEntry(init, k);
    assert init[k] == bs[k];
    var front := Lines(init);
    var all := Lines(bs);
    assert all == front + [""] + BlockLines(bs[|bs| - 1]);
    PickFront(front, BlockLines(bs[|bs| - 1]), 4 * k);
    PickFront(front, BlockLines(bs[|bs| - 1]), 4 * k + 1);
    PickFront(front, BlockLines(bs[|bs| - 1]), 4 * k + 2);
    if k < |bs| - 2 {
      PickFront(front, BlockLines(bs[|bs| - 1]), 4 * k + 3);
    }
  }

  lemma EntryLast(bs: seq<Block>)
    requires |bs| > 1
    ensures Lines(bs)[4 * |bs| - 4] == Digits(bs[|bs| - 1].index)
    ensures Lines(bs)[4 * |bs| - 3] == TimingLine(bs[|bs| - 1].start, bs[|bs| - 1].end)
    ensures Lines(bs)[4 * |bs| - 2] == bs[|bs| - 1].text
    ensures Lines(bs)[4 * |bs| - 5] == ""
  {
    var front, back := Lines(bs[..|bs| - 1]), BlockLines(bs[|bs| - 1]);
    assert Lines(bs) == front + [""] + back;
    PickBack(front, back, 0);
    PickBack(front, back, 1);
    PickBack(front, back, 2);
  }

  lemma PickFront(front: seq<string>, back: seq<string>, j: nat)
    requires j < |front|
    ensures (front + [""] + back)[j] == front[j]
  {
  }

  lemma PickBack(front: seq<string>, back: seq<string>, j: nat)
    requires j < |back|
    ensures (front + [""] + back)[|front| + 1 + j] == back[j]
    ensures (front + [""] + back)[|front|] == ""
  {
  }

  /** Where each field sits: entry k occupies fields 4k .. 4k + 2, field
      4k + 3 is the empty separator when another entry follows, and nothing follows the
      last entry's text. */
  lemma LinesAt(bs: seq<Block>)
    ensures |Lines(bs)| == if bs == [] then 0 else 4 * |bs| - 1
    ensures forall k :: 0 <= k < |bs| ==>
      Lines(bs)[4 * k] == Digits(bs[k].index)
      && Lines(bs)[4 * k + 1] == TimingLine(bs[k].start, bs[k].end)
      && Lines(bs)[4 * k + 2] == bs[k].text
    ensures forall k :: 0 <= k < |bs| - 1 ==> Lines(bs)[4 * k + 3] == ""
  {
    forall k | 0 <= k < |bs|
      ensures Lines(bs)[4 * k] == Digits(bs[k].index)
      ensures Lines(bs)[4 * k + 1] == TimingLine(bs[k].start, bs[k].end)
      ensures Lines(bs)[4 * k + 2] == bs[k].text
      ensures k < |bs| - 1 ==> Lines(bs)[4 * k + 3] == ""
    {
      LinesOfEntry(bs, k);
    }
  }

  lemma {:induction false} UnlinesAppend(a: seq<string>, b: seq<string>)
    ensures Unlines(a + b) == Unlines(a) + Unlines(b)
    decreases |b|
  {
    if b == [] {
      assert a + b == a;
    } else {
      var b' := b[..|b| - 1];
      assert (a + b)[..|a + b| - 1] == a + b';
      UnlinesAppend(a, b');
    }
  }

  lemma UnlinesBlock(b: Block)
    ensures Unlines(BlockLines(b)) == Entry(b.index, b.start, b.end, b.text)
    ensures Unlines([""] + BlockLines(b)) == "\n" + Entry(b.index, b.start, b.end, b.text)
  {
    var ls := BlockLines(b);
    assert ls[..0] == [];
    assert ls[..1][..0] == [] && ls[..2][..1] == ls[..1] && ls[..3] == ls;
    assert Unlines(ls[..1]) == ls[0] + "\n";
    assert Unlines(ls[..2]) == ls[0] + "\n" + ls[1] + "\n";
    assert Unlines(ls) == ls[0] + "\n" + ls[1] + "\n" + ls[2] + "\n";
    assert Unlines([""]) == "\n" by {
      assert [""][..0] == [];
    }
    UnlinesAppend([""], ls);
  }

  /** After k entries, the loop has written the first k entries' fields, and
      the empty separator if more entries follow. */
  lemma {:induction false} EmittedLines(bs: seq<Block>, k: nat)
    requires 0 < k <= |bs|
    ensures Emitted(bs, k) == Unlines(Lines(bs[..k])) + (if k < |bs| then "\n" else "")
    decreases k
  {
    var sep: string := if k < |bs| then "\n" else "";
    EmittedStep(bs, k - 1);
    if k == 1 {
      LinesOfFirst(bs);
      assert Emitted(bs, 0) == [];
    } else {
      EmittedLines(bs, k - 1);
      LinesOfPrefix(bs, k);
      Chain(Emitted(bs, k), Emitted(bs, k - 1), Unlines(Lines(bs[..k - 1])),
            Entry(bs[k - 1].index, bs[k - 1].start, bs[k - 1].end, bs[k - 1].text), sep, Unlines(Lines(bs[..k])));
    }
  }

  lemma Chain(now: string, before: string, u: string, r: string, sep: string, lines: string)
    requires now == before + r + sep && before == u + "\n" && lines == u + ("\n" + r)
    ensures now == lines + sep
  {
  }

  lemma LinesOfFirst(bs: seq<Block>)
    requires bs != []
    ensures Unlines(Lines(bs[..1])) == Entry(bs[0].index, bs[0].start, bs[0].end, bs[0].text)
  {
    assert bs[..1] == [bs[0]];
    UnlinesBlock(bs[0]);
  }

  lemma LinesOfPrefix(bs: seq<Block>, k: nat)
    requires 1 < k <= |bs|
    ensures Unlines(Lines(bs[..k])) == Unlines(Lines(bs[..k - 1])) + ("\n" + Entry(bs[k - 1].index, bs[k - 1].start, bs[k - 1].end, bs[k - 1].text))
  {
    var init := bs[..k - 1];
    assert bs[..k][..k - 1] == init;
    assert Lines(bs[..k]) == Lines(init) + ([""] + BlockLines(bs[k - 1]));
    UnlinesAppend(Lines(init), [""] + BlockLines(bs[k - 1]));
    UnlinesBlock(bs[k - 1]);
  }

  // ---------------------------------------------------------------------
  // Segment mode.

  /** The entries segment mode writes: one per segment, numbered from 1. */
  function SegmentBlocks(segments: seq<Segment>): (bs: seq<Block>)
    ensures |bs| == |segments|
    ensures forall k :: 0 <= k < |segments| ==>
      bs[k].index == k + 1 && bs[k].start == segments[k].start && bs[k].end == segments[k].end
      && bs[k].text == Strip(segments[k].text)
  {
    seq(|segments|, k requires 0 <= k < |segments| =>
      Block(k + 1, segments[k].start, segments[k].end, Strip(segments[k].text)))
  }


  /** `SRTGenerator.generate`, writing into the returned string. */
  method Generate(segments: seq<Segment>) returns (doc: string)
    ensures doc == Document(SegmentBlocks(segments))
  {
    ghost var bs := SegmentBlocks(segments);
    doc := "";
    for i := 0 to |segments|
      invariant doc == Emitted(bs, i)
    {
      ghost var before := doc;
      var segment := segments[i];
      doc := WriteEntry(doc, i + 1, segment.start, segment.end, Strip(segment.text));
      ghost var entry := doc;
      if i + 1 < |segments| {
        doc := doc + "\n";
      }
      WriteStep(bs, i, before, entry, doc);
    }
  }

  /** Writes one entry: its number, its timing line and its text, each on
      a line of its own. */
  method WriteEntry(doc: string, index: nat, start: nat, end: nat, text: string)
    returns (out: string)
    ensures out == doc + Entry(index, start, end, text)
  {
    out := doc + Digits(index) + "\n";
    var startTime := Format(start);
    var endTime := Format(end);
    out := out + startTime + " --> " + endTime + "\n";
    out := out + text + "\n";
    RenderPieces(doc, index, start, end, text);
  }

  /** One more iteration of a writing loop: the entry, then its separator. */
  lemma WriteStep(bs: seq<Block>, k: nat, before: string, entry: string, after: string)
    requires k < |bs|
    requires before == Emitted(bs, k)
    requires entry == before + Entry(bs[k].index, bs[k].start, bs[k].end, bs[k].text)
    requires after == if k + 1 < |bs| then entry + "\n" else entry
    ensures after == Emitted(bs, k + 1)
  {
    EmittedStep(bs, k);
  }

  lemma EmittedStep(bs: seq<Block>, k: nat)
    requires k < |bs|
    ensures Emitted(bs, k + 1) == Emitted(bs, k) + Entry(bs[k].index, bs[k].start, bs[k].end, bs[k].text) + (if k + 1 < |bs| then "\n" else "")
  {
  }

  /** Writing the entry's fields one after the other appends the entry. */
  lemma RenderPieces(before: string, index: nat, start: nat, end: nat, text: string)
    ensures before + Digits(index) + "\n" + Format(start) + " --> " + Format(end) + "\n"
            + text + "\n" == before + Entry(index, start, end, text)
  {
    Regroup(before, Digits(index), Format(start), Format(end), text);
  }

  lemma Regroup(u: string, d: string, s: string, e: string, t: string)
    ensures u + d + "\n" + s + " --> " + e + "\n" + t + "\n"
            == u + (d + "\n" + (s + " --> " + e) + "\n" + t + "\n")
  {
  }

  /** The four fields of segment k's entry in segment mode. */
  lemma SegmentEntryLines(segments: seq<Segment>, k: nat)
    requires k < |segments|
    ensures |Lines(SegmentBlocks(segments))| == 4 * |segments| - 1
    ensures Lines(SegmentBlocks(segments))[4 * k] == Digits(k + 1)
    ensures Lines(SegmentBlocks(segments))[4 * k + 1] == TimingLine(segments[k].start, segments[k].end)
    ensures Lines(SegmentBlocks(segments))[4 * k + 2] == Strip(segments[k].text)
    ensures k < |segments| - 1 ==> Lines(SegmentBlocks(segments))[4 * k + 3] == ""
  {
    var b := SegmentBlocks(segments)[k];
    assert b.index == k + 1 && b.start == segments[k].start && b.end == segments[k].end
      && b.text == Strip(segments[k].text);
    LinesOfEntry(SegmentBlocks(segments), k);
  }

  /** Segment mode, field by field: segment k (from 0) becomes entry k + 1,
      whose timing line is the segment's own times and whose text is the
      segment text stripped; entries are separated by one blank line, none
      follows the last, and no segments give an empty document. */
  lemma SegmentModeLayout(segments: seq<Segment>)
    ensures Document(SegmentBlocks(segments)) == Unlines(Lines(SegmentBlocks(segments)))
    ensures |Lines(SegmentBlocks(segments))| == if segments == [] then 0 else 4 * |segments| - 1
    ensures forall k :: 0 <= k < |segments| ==>
      Lines(SegmentBlocks(segments))[4 * k] == Digits(k + 1)
      && Lines(SegmentBlocks(segments))[4 * k + 1] == TimingLine(segments[k].start, segments[k].end)
      && Lines(SegmentBlocks(segments))[4 * k + 2] == Strip(segments[k].text)
    ensures forall k :: 0 <= k < |segments| - 1 ==> Lines(SegmentBlocks(segments))[4 * k + 3] == ""
  {
    forall k | 0 <= k < |segments|
      ensures Lines(SegmentBlocks(segments))[4 * k] == Digits(k + 1)
      ensures Lines(SegmentBlocks(segments))[4 * k + 1] == TimingLine(segments[k].start, segments[k].end)
      ensures Lines(SegmentBlocks(segments))[4 * k + 2] == Strip(segments[k].text)
      ensures k < |segments| - 1 ==> Lines(SegmentBlocks(segments))[4 * k + 3] == ""
    {
      SegmentEntryLines(segments, k);
    }
  }

  // ---------------------------------------------------------------------
  // Word mode.

  /** The limit `generate_with_word_timestamps` uses when none is given. */
  const DefaultMaxChars: int := 42

  /** The word timestamps of a segment; none when it has no `words`. */
  function WordsOf(s: Segment): seq<Word>
  {
    match s.words
    case None => []
    case Some(ws) => ws
  }

  /** The word timestamps of all segments, segment after segment. */
  function AllWords(segments: seq<Segment>): seq<Word>
    decreases |segments|
  {
    if segments == [] then []
    else AllWords(segments[..|segments| - 1]) + WordsOf(segments[|segments| - 1])
  }

  /** Collecting is compositional: the words of two runs of segments are
      those of the first run followed by those of the second. */
  lemma {:induction false} AllWordsAppend(a: seq<Segment>, b: seq<Segment>)
    ensures AllWords(a + b) == AllWords(a) + AllWords(b)
    decreases |b|
  {
    if b == [] {
      assert a + b == a;
    } else {
      var b' := b[..|b| - 1];
      assert (a + b)[..|a + b| - 1] == a + b';
      AllWordsAppend(a, b');
    }
  }


  /** There are no words to group exactly when no segment carries any. */
  lemma {:induction false} AllWordsEmptyIff(segments: seq<Segment>)
    ensures AllWords(segments) == [] <==> forall k :: 0 <= k < |segments| ==> WordsOf(segments[k]) == []
    decreases |segments|
  {
    if segments != [] {
      var init := segments[..|segments| - 1];
      AllWordsEmptyIff(init);
      assert forall k :: 0 <= k < |init| ==> init[k] == segments[k];
    }
  }

  /** The word-collection loop of `generate_with_word_timestamps`. */
  method CollectWords(segments: seq<Segment>) returns (all: seq<Word>)
    ensures all == AllWords(segments)
  {
    all := [];
    for i := 0 to |segments|
      invariant all == AllWords(segments[..i])
    {
      assert segments[..i + 1][..i] == segments[..i];
      match segments[i].words {
        case Some(ws) =>
          all := all + ws;
        case None =>
      }
    }
    assert segments[..|segments|] == segments;
  }

  /** The entries of word mode: chunk k (from 0) becomes entry k + 1 with
      the chunk's times and text. */
  function ChunkBlocks(cs: seq<Chunk>): (bs: seq<Block>)
    ensures |bs| == |cs|
    ensures forall k :: 0 <= k < |cs| ==>
      bs[k].index == k + 1 && bs[k].start == cs[k].start && bs[k].end == cs[k].end
      && bs[k].text == cs[k].text
  {
    seq(|cs|, k requires 0 <= k < |cs| => Block(k + 1, cs[k].start, cs[k].end, cs[k].text))
  }


  /** The writing loop of `generate_with_word_timestamps`. */
  method WriteChunks(chunks: seq<Chunk>) returns (doc: string)
    ensures doc == Document(ChunkBlocks(chunks))
  {
    ghost var bs := ChunkBlocks(chunks);
    doc := "";
    for i := 0 to |chunks|
      invariant doc == Emitted(bs, i)
    {
      ghost var before := doc;
      var chunk := chunks[i];
      doc := WriteEntry(doc, i + 1, chunk.start, chunk.end, chunk.text);
      ghost var entry := doc;
      if i + 1 < |chunks| {
        doc := doc + "\n";
      }
      WriteStep(bs, i, before, entry, doc);
    }
  }

  /** `SRTGenerator.generate_with_word_timestamps`: without any word
      timestamps it writes what `Generate` writes; otherwise one entry per
      chunk of the greedy grouping of all words under `maxChars`. */
  method GenerateWithWordTimestamps(segments: seq<Segment>, maxChars: int := DefaultMaxChars) returns (doc: string)
    ensures AllWords(segments) == [] ==> doc == Document(SegmentBlocks(segments))
    ensures AllWords(segments) != [] ==>
      doc == Document(ChunkBlocks(Chunks(Greedy(Trim(AllWords(segments)), maxChars))))
  {
    var all := CollectWords(segments);
    if all == [] {
      doc := Generate(segments);
      return;
    }
    var chunks := GroupWords(all, maxChars);
    doc := WriteChunks(chunks);
  }

  /** The four fields of chunk k's entry among the fields `ls` of the
      entries of `cs`, where chunk k covers the words of `ts` from offset
      `o` on: its number, the timing line from its first word's start to
      its last word's end, and its words joined by single spaces, then the
      empty separator unless it is the last. */
  ghost predicate ChunkEntryFields(ts: seq<Word>, o: nat, cs: seq<Chunk>, ls: seq<string>, k: nat)
  {
    k < |cs| && cs[k].words != [] && o + |cs[k].words| <= |ts|
    && |ls| == 4 * |cs| - 1
    && ls[4 * k] == Digits(k + 1)
    && ls[4 * k + 1] == TimingLine(ts[o].start, ts[o + |cs[k].words| - 1].end)
    && ls[4 * k + 2] == Join(" ", cs[k].words)
    && (k < |cs| - 1 ==> ls[4 * k + 3] == "")
  }

  /** A chunk that spans its words has those four fields. */
  lemma SpanEntryFields(ts: seq<Word>, o: nat, cs: seq<Chunk>, k: nat)
    requires k < |cs| && Spans(ts, o, cs[k])
    ensures ChunkEntryFields(ts, o, cs, Lines(ChunkBlocks(cs)), k)
  {
    LinesOfEntry(ChunkBlocks(cs), k);
  }

  /** Word mode, field by field: chunk k of the greedy chunking of `ts`
      occupies fields 4k .. 4k + 3 as `ChunkEntryFields` describes. */
  lemma WordEntryLines(ts: seq<Word>, max: int, k: nat)
    requires k < |Greedy(ts, max)|
    ensures ChunkEntryFields(ts, Offset(ts, max, k), Chunks(Greedy(ts, max)),
                             Lines(ChunkBlocks(Chunks(Greedy(ts, max)))), k)
  {
    ChunkSpan(ts, max, k);
    SpanEntryFields(ts, Offset(ts, max, k), Chunks(Greedy(ts, max)), k);
  }
}
