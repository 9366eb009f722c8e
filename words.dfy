/**
  Word-timestamp chunking of src/video_transcription/srt_generator.py
  (`generate_with_word_timestamps`): the flattened words are packed, in
  order, into subtitle chunks by a greedy left-to-right scan over a running
  length of `len(word.strip()) + 1` per word.
 */
module Words {
  import opened Wrappers
  import opened Text

  /** A recognised word with its own timing, in whole milliseconds. */
  datatype Word = Word(start: nat, end: nat, word: string)

  /** A finished chunk: its trimmed words, the first word's start, the last
      word's end and the words joined by single spaces. */
  datatype Chunk = Chunk(words: seq<string>, start: nat, end: nat, text: string)

  /** Every word with its text stripped, as the scan sees it
      (`word['word'].strip()`), keeping its timing. */
  function Trim(ws: seq<Word>): (r: seq<Word>)
    ensures |r| == |ws|
    ensures forall i :: 0 <= i < |ws| ==>
      r[i].start == ws[i].start && r[i].end == ws[i].end && r[i].word == Strip(ws[i].word)
    decreases |ws|
  {
    if ws == [] then []
    else
      var w := ws[|ws| - 1];
      Trim(ws[..|ws| - 1]) + [Word(w.start, w.end, Strip(w.word))]
  }

  /** What a stripped word adds to the running length: its text and a space. */
  function Cost(w: Word): nat
  {
    |w.word| + 1
  }

  /** The running length of a run of stripped words. */
  function Load(p: seq<Word>): int
    decreases |p|
  {
    if p == [] then 0 else Load(p[..|p| - 1]) + Cost(p[|p| - 1])
  }

  /** The texts of a run of words. */
  function Texts(p: seq<Word>): (r: seq<string>)
    ensures |r| == |p| && forall i :: 0 <= i < |p| ==> r[i] == p[i].word
    decreases |p|
  {
    if p == [] then [] else Texts(p[..|p| - 1]) + [p[|p| - 1].word]
  }

  /** The parts one after the other. */
  function Flatten<T>(parts: seq<seq<T>>): seq<T>
    decreases |parts|
  {
    if parts == [] then [] else Flatten(parts[..|parts| - 1]) + parts[|parts| - 1]
  }

  /** The chunk a non-empty run of stripped words becomes. */
  function MakeChunk(p: seq<Word>): (c: Chunk)
    requires p != []
  {
    Chunk(Texts(p), p[0].start, p[|p| - 1].end, Join(" ", Texts(p)))
  }

  function Chunks(parts: seq<seq<Word>>): (cs: seq<Chunk>)
    requires forall k :: 0 <= k < |parts| ==> parts[k] != []
    ensures |cs| == |parts| && forall k {:trigger cs[k]} :: 0 <= k < |parts| ==> cs[k] == MakeChunk(parts[k])
    decreases |parts|
  {
    if parts == [] then [] else Chunks(parts[..|parts| - 1]) + [MakeChunk(parts[|parts| - 1])]
  }

  /** `parts` is what the greedy scan makes of `ws` under limit `max`: the
      parts cover `ws` in order, none is empty, each either is a single word
      or has running length at most `max`, and each part but the first was
      opened because its first word did not fit into the part before. */
  predicate GreedyPartition(ws: seq<Word>, max: int, parts: seq<seq<Word>>)
  {
    Flatten(parts) == ws && NonEmptyParts(parts) && Fits(max, parts) && Maximal(max, parts)
  }

  predicate NonEmptyParts(parts: seq<seq<Word>>)
  {
    forall k :: 0 <= k < |parts| ==> parts[k] != []
  }

  /** Every part is a single word or within the limit. */
  predicate Fits(max: int, parts: seq<seq<Word>>)
  {
    forall k :: 0 <= k < |parts| ==> |parts[k]| == 1 || Load(parts[k]) <= max
  }

  /** No part could have taken the first word of the part after it. */
  predicate Maximal(max: int, parts: seq<seq<Word>>)
  {
    forall k :: 0 < k < |parts| ==> parts[k] != [] && Load(parts[k - 1]) + Cost(parts[k][0]) > max
  }

  /** How far the first chunk reaches, having taken `n` words of load `load`. */
  function Extend(ws: seq<Word>, max: int, n: nat, load: int): (r: nat)
    requires 1 <= n <= |ws|
    ensures n <= r <= |ws|
    decreases |ws| - n
  {
    if n < |ws| && load + Cost(ws[n]) <= max then Extend(ws, max, n + 1, load + Cost(ws[n])) else n
  }

  /** The number of words of the first chunk: the first word always, then
      words as long as they fit. */
  function FirstChunkLength(ws: seq<Word>, max: int): (n: nat)
    requires ws != []
    ensures 1 <= n <= |ws|
  {
    Extend(ws, max, 1, Cost(ws[0]))
  }

  /** The greedy partition, chunk by chunk from the front. */
  function Greedy(ws: seq<Word>, max: int): (parts: seq<seq<Word>>)
    ensures forall k :: 0 <= k < |parts| ==> parts[k] != []
    decreases |ws|
  {
    if ws == [] then []
    else
      var n := FirstChunkLength(ws, max);
      [ws[..n]] + Greedy(ws[n..], max)
  }

  // ---------------------------------------------------------------------
  // Properties of the running length

  lemma LoadStep(ws: seq<Word>, n: nat)
    requires n < |ws|
    ensures Load(ws[..n + 1]) == Load(ws[..n]) + Cost(ws[n])
  {
    assert ws[..n + 1][..n] == ws[..n];
  }

  lemma LoadSnoc(p: seq<Word>, w: Word)
    ensures Load(p + [w]) == Load(p) + Cost(w)
  {
    assert (p + [w])[..|p|] == p;
  }

  /** The running length only grows along a prefix. */
  lemma {:induction false} LoadMono(ws: seq<Word>, m: nat, n: nat)
    requires m <= n <= |ws|
    ensures Load(ws[..m]) <= Load(ws[..n])
    decreases n
  {
    if m < n {
      LoadMono(ws, m, n - 1);
      LoadStep(ws, n - 1);
    }
  }

  /** A run's length is at least the cost of any one of its words. */
  lemma {:induction false} LoadAtLeast(p: seq<Word>, i: nat)
    requires i < |p|
    ensures Load(p) >= Cost(p[i])
    decreases |p|
  {
    var init := p[..|p| - 1];
    if i < |p| - 1 {
      assert init[i] == p[i];
      LoadAtLeast(init, i);
    }
    LoadNonNegative(init);
  }

  lemma {:induction false} LoadNonNegative(p: seq<Word>)
    ensures Load(p) >= 0
    decreases |p|
  {
    if p != [] {
      LoadNonNegative(p[..|p| - 1]);
    }
  }

  /** The running length is the texts' lengths plus one per word. */
  lemma {:induction false} LoadTexts(p: seq<Word>)
    ensures Load(p) == TotalLength(Texts(p)) + |p|
    decreases |p|
  {
    if p != [] {
      var init := p[..|p| - 1];
      LoadTexts(init);
      TotalLengthSnoc(Texts(init), p[|p| - 1].word);
    }
  }

  // ---------------------------------------------------------------------
  // Flattening

  lemma FlattenSnoc<T>(parts: seq<seq<T>>, p: seq<T>)
    ensures Flatten(parts + [p]) == Flatten(parts) + p
  {
    assert (parts + [p])[..|parts|] == parts;
  }

  lemma {:induction false} FlattenAppend<T>(a: seq<seq<T>>, b: seq<seq<T>>)
    ensures Flatten(a + b) == Flatten(a) + Flatten(b)
    decreases |b|
  {
    if b == [] {
      assert a + b == a;
    } else {
      var init := b[..|b| - 1];
      assert a + b == (a + init) + [b[|b| - 1]];
      FlattenSnoc(a + init, b[|b| - 1]);
      FlattenAppend(a, init);
      FlattenSnoc(init, b[|b| - 1]);
    }
  }

  lemma FlattenCons<T>(p: seq<T>, parts: seq<seq<T>>)
    ensures Flatten([p] + parts) == p + Flatten(parts)
  {
    FlattenAppend([p], parts);
    assert [p] == [] + [p];
    FlattenSnoc([], p);
  }

  /** Part k sits in the flattened sequence right after the parts before it. */
  lemma FlattenSlice<T>(parts: seq<seq<T>>, k: nat)
    requires k < |parts|
    ensures var o := |Flatten(parts[..k])|; var p := parts[k];
      o + |p| <= |Flatten(parts)|
      && (forall j :: 0 <= j < |p| ==> p[j] == Flatten(parts)[o + j])
      && (p != [] ==> p[|p| - 1] == Flatten(parts)[o + |p| - 1])
  {
    FlattenSplit(parts, k);
    Middle(Flatten(parts[..k]), parts[k], Flatten(parts[k + 1..]), Flatten(parts));
  }

  lemma FlattenSplit<T>(parts: seq<seq<T>>, k: nat)
    requires k < |parts|
    ensures Flatten(parts) == Flatten(parts[..k]) + parts[k] + Flatten(parts[k + 1..])
  {
    var pre, mid, post := parts[..k], parts[k], parts[k + 1..];
    SplitAt(parts, k);
    FlattenAppend(pre + [mid], post);
    FlattenSnoc(pre, mid);
  }

  /** A sequence is what comes before position `k`, the element there and
      what comes after. */
  lemma SplitAt<T>(s: seq<T>, k: nat)
    requires k < |s|
    ensures s == (s[..k] + [s[k]]) + s[k + 1..]
  {
    assert s[..k + 1] == s[..k] + [s[k]];
  }

  /** The elements of the middle piece of a concatenation, by position. */
  lemma Middle<T>(a: seq<T>, p: seq<T>, b: seq<T>, s: seq<T>)
    requires s == a + p + b
    ensures |a| + |p| <= |s|
    ensures forall j :: 0 <= j < |p| ==> p[j] == s[|a| + j]
    ensures p != [] ==> p[|p| - 1] == s[|a| + |p| - 1]
  {
  }

  /** All the words of a list of chunks, in order. */
  function ChunkWords(cs: seq<Chunk>): seq<string>
    decreases |cs|
  {
    if cs == [] then [] else ChunkWords(cs[..|cs| - 1]) + cs[|cs| - 1].words
  }

  /** The chunks' words, one chunk after the other, are the words of the parts. */
  lemma {:induction false} ChunkWordsOfChunks(parts: seq<seq<Word>>)
    requires NonEmptyParts(parts)
    ensures ChunkWords(Chunks(parts)) == Texts(Flatten(parts))
    decreases |parts|
  {
    if parts != [] {
      var init := parts[..|parts| - 1];
      var last := parts[|parts| - 1];
      var cs := Chunks(parts);
      assert cs[..|cs| - 1] == Chunks(init);
      ChunkWordsOfChunks(init);
      TextsAppend(Flatten(init), last);
    }
  }

  lemma TextsAppend(a: seq<Word>, b: seq<Word>)
    ensures Texts(a + b) == Texts(a) + Texts(b)
  {
  }

  // ---------------------------------------------------------------------
  // The greedy partition is unique, and Greedy computes it

  /** What the first chunk's length satisfies. */
  lemma {:induction false} ExtendSpec(ws: seq<Word>, max: int, n: nat)
    requires 1 <= n <= |ws|
    requires n > 1 ==> Load(ws[..n]) <= max
    ensures var r := Extend(ws, max, n, Load(ws[..n]));
      (r > 1 ==> Load(ws[..r]) <= max) && (r < |ws| ==> Load(ws[..r]) + Cost(ws[r]) > max)
    decreases |ws| - n
  {
    if n < |ws| {
      LoadStep(ws, n);
      if Load(ws[..n]) + Cost(ws[n]) <= max {
        ExtendSpec(ws, max, n + 1);
      }
    }
  }

  lemma FirstChunkSpec(ws: seq<Word>, max: int)
    requires ws != []
    ensures var n := FirstChunkLength(ws, max);
      (n > 1 ==> Load(ws[..n]) <= max) && (n < |ws| ==> Load(ws[..n]) + Cost(ws[n]) > max)
  {
    LoadStep(ws, 0);
    assert Load(ws[..0]) == 0;
    ExtendSpec(ws, max, 1);
  }

  /** Only one length qualifies as the first chunk's. */
  lemma FirstChunkUnique(ws: seq<Word>, max: int, n: nat)
    requires 1 <= n <= |ws|
    requires n > 1 ==> Load(ws[..n]) <= max
    requires n < |ws| ==> Load(ws[..n]) + Cost(ws[n]) > max
    ensures n == FirstChunkLength(ws, max)
  {
    var r := FirstChunkLength(ws, max);
    FirstChunkSpec(ws, max);
    if n < r {
      LoadStep(ws, n);
      LoadMono(ws, n + 1, r);
    } else if r < n {
      LoadStep(ws, r);
      LoadMono(ws, r + 1, n);
    }
  }

  /** Greedy meets the description of the scan. */
  lemma {:induction false} GreedyIsGreedyPartition(ws: seq<Word>, max: int)
    ensures GreedyPartition(ws, max, Greedy(ws, max))
    decreases |ws|
  {
    if ws != [] {
      var n := FirstChunkLength(ws, max);
      var rest := Greedy(ws[n..], max);
      GreedyIsGreedyPartition(ws[n..], max);
      FirstChunkSpec(ws, max);
      if n < |ws| {
        var m := FirstChunkLength(ws[n..], max);
        assert rest[0] == ws[n..][..m];
        assert rest[0][0] == ws[n];
      }
      ConsPartition(ws[..n], ws[n..], max, rest);
      assert ws[..n] + ws[n..] == ws;
    }
  }

  /** A first part that fits, put in front of a greedy partition of the
      words after it whose first word would not have fitted, gives a greedy
      partition of all the words. */
  lemma ConsPartition(p: seq<Word>, tail: seq<Word>, max: int, rest: seq<seq<Word>>)
    requires p != [] && (|p| == 1 || Load(p) <= max)
    requires GreedyPartition(tail, max, rest)
    requires rest != [] ==> Load(p) + Cost(rest[0][0]) > max
    ensures GreedyPartition(p + tail, max, [p] + rest)
  {
    var parts := [p] + rest;
    FlattenCons(p, rest);
    forall k | 0 < k < |parts|
      ensures parts[k] != [] && Load(parts[k - 1]) + Cost(parts[k][0]) > max
    {
      assert parts[k] == rest[k - 1];
      if k > 1 {
        assert parts[k - 1] == rest[k - 2];
      }
    }
    forall k | 0 <= k < |parts|
      ensures parts[k] != [] && (|parts[k]| == 1 || Load(parts[k]) <= max)
    {
      if k > 0 {
        assert parts[k] == rest[k - 1];
      }
    }
  }

  /** The description of the scan admits no partition but Greedy's. */
  lemma {:induction false} GreedyPartitionIsGreedy(ws: seq<Word>, max: int, parts: seq<seq<Word>>)
    requires GreedyPartition(ws, max, parts)
    ensures parts == Greedy(ws, max)
    decreases |ws|
  {
    if parts != [] {
      var p := parts[0];
      var tail := parts[1..];
      assert parts == [p] + tail;
      FlattenCons(p, tail);
      var n := |p|;
      assert ws[..n] == p && ws[n..] == Flatten(tail);
      if n < |ws| {
        assert tail != [];
        FlattenCons(tail[0], tail[1..]);
        assert tail == [tail[0]] + tail[1..];
        assert tail[0][0] == ws[n];
      }
      FirstChunkUnique(ws, max, n);
      TailPartition(ws, max, parts);
      GreedyPartitionIsGreedy(ws[n..], max, tail);
    }
  }

  lemma TailPartition(ws: seq<Word>, max: int, parts: seq<seq<Word>>)
    requires GreedyPartition(ws, max, parts) && parts != []
    ensures |parts[0]| <= |ws| && GreedyPartition(ws[|parts[0]|..], max, parts[1..])
  {
    var tail := parts[1..];
    assert parts == [parts[0]] + tail;
    FlattenCons(parts[0], tail);
    assert ws[|parts[0]|..] == Flatten(tail);
    forall k | 0 < k < |tail|
      ensures tail[k] != [] && Load(tail[k - 1]) + Cost(tail[k][0]) > max
    {
      assert tail[k] == parts[k + 1] && tail[k - 1] == parts[k];
    }
  }

  /** The scan's result is exactly the greedy partition. */
  lemma GreedyPartitionIff(ws: seq<Word>, max: int, parts: seq<seq<Word>>)
    ensures GreedyPartition(ws, max, parts) <==> parts == Greedy(ws, max)
  {
    if GreedyPartition(ws, max, parts) {
      GreedyPartitionIsGreedy(ws, max, parts);
    } else {
      GreedyIsGreedyPartition(ws, max);
    }
  }

  /** Three five-character words as the recogniser reports them, with a
      leading space: under a limit of 10 the first two share a chunk (their
      running length is exactly 10) and the third starts a new one. */
  lemma GroupingExample()
    ensures var ws := [Word(0, 400, " aaaa"), Word(400, 900, " bbbb"), Word(900, 1500, " cccc")];
      Chunks(Greedy(Trim(ws), 10))
      == [Chunk(["aaaa", "bbbb"], 0, 900, "aaaa bbbb"), Chunk(["cccc"], 900, 1500, "cccc")]
  {
    var ws := [Word(0, 400, " aaaa"), Word(400, 900, " bbbb"), Word(900, 1500, " cccc")];
    TrimExample(ws);
    GreedyExample(Trim(ws));
  }

  lemma TrimExample(ws: seq<Word>)
    requires ws == [Word(0, 400, " aaaa"), Word(400, 900, " bbbb"), Word(900, 1500, " cccc")]
    ensures var ts := Trim(ws);
      |ts| == 3
      && ts[0].start == 0 && ts[0].end == 400 && ts[0].word == "aaaa"
      && ts[1].start == 400 && ts[1].end == 900 && ts[1].word == "bbbb"
      && ts[2].start == 900 && ts[2].end == 1500 && ts[2].word == "cccc"
  {
    StripExamples();
  }

  lemma StripExamples()
    ensures Strip(" aaaa") == "aaaa" && Strip(" bbbb") == "bbbb" && Strip(" cccc") == "cccc"
  {
    StripOneSpace(" aaaa");
    StripOneSpace(" bbbb");
    StripOneSpace(" cccc");
    assert " aaaa"[1..] == "aaaa" && " bbbb"[1..] == "bbbb" && " cccc"[1..] == "cccc";
  }

  lemma StripOneSpace(w: string)
    requires |w| > 1 && w[0] == ' ' && !IsSpace(w[1]) && !IsSpace(w[|w| - 1])
    ensures Strip(w) == w[1..]
  {
    assert TrimStart(w[1..]) == w[1..];
  }

  lemma GreedyExample(ts: seq<Word>)
    requires |ts| == 3
    requires ts[0].start == 0 && ts[0].end == 400 && ts[0].word == "aaaa"
    requires ts[1].start == 400 && ts[1].end == 900 && ts[1].word == "bbbb"
    requires ts[2].start == 900 && ts[2].end == 1500 && ts[2].word == "cccc"
    ensures Chunks(Greedy(ts, 10))
      == [Chunk(["aaaa", "bbbb"], 0, 900, "aaaa bbbb"), Chunk(["cccc"], 900, 1500, "cccc")]
  {
    assert Cost(ts[0]) == 5 && Cost(ts[1]) == 5 && Cost(ts[2]) == 5;
    assert Extend(ts, 10, 2, 10) == 2;
    assert FirstChunkLength(ts, 10) == 2;
    var rest := ts[2..];
    assert FirstChunkLength(rest, 10) == 1;
    assert rest[..1] == rest && rest[1..] == [];
    assert Greedy(rest, 10) == [rest];
    var parts := [ts[..2], rest];
    assert Greedy(ts, 10) == parts;
    assert Texts(ts[..2]) == ["aaaa", "bbbb"];
    assert Texts(rest) == ["cccc"];
    assert ["aaaa", "bbbb"][1..] == ["bbbb"];
    assert Join(" ", ["aaaa", "bbbb"]) == "aaaa bbbb";
    assert MakeChunk(parts[0]) == Chunk(["aaaa", "bbbb"], 0, 900, "aaaa bbbb");
    assert MakeChunk(parts[1]) == Chunk(["cccc"], 900, 1500, "cccc");
    assert Chunks(parts) == [MakeChunk(parts[0]), MakeChunk(parts[1])];
  }

  /** A word too long for the limit forms a chunk of its own. */
  lemma OverlongWordAlone(ws: seq<Word>, max: int, parts: seq<seq<Word>>, k: nat, i: nat)
    requires GreedyPartition(ws, max, parts)
    requires k < |parts| && i < |parts[k]| && Cost(parts[k][i]) > max
    ensures |parts[k]| == 1
  {
    LoadAtLeast(parts[k], i);
  }

  /** A chunk's text is one character shorter than its running length: the
      words' lengths plus one space between each two. */
  lemma TextLength(p: seq<Word>)
    requires p != []
    ensures |MakeChunk(p).text| + 1 == Load(p)
  {
    JoinLength(" ", Texts(p));
    LoadTexts(p);
  }

  /** Where chunk `k` of the greedy scan of `ts` begins in `ts`. */
  ghost function Offset(ts: seq<Word>, max: int, k: nat): nat
    requires k <= |Greedy(ts, max)|
  {
    |Flatten(Greedy(ts, max)[..k])|
  }

  /** No word is dropped, split or reordered: the chunks' words, one chunk
      after the other, are the stripped input words. */
  lemma WordsKept(ws: seq<Word>, max: int)
    ensures var cw := ChunkWords(Chunks(Greedy(Trim(ws), max)));
      |cw| == |ws| && forall i :: 0 <= i < |ws| ==> cw[i] == Strip(ws[i].word)
  {
    var parts := Greedy(Trim(ws), max);
    GreedyIsGreedyPartition(Trim(ws), max);
    ChunkWordsOfChunks(parts);
  }

  /** The parts of the greedy scan cover its input in order, none empty. */
  lemma GreedyCovers(ts: seq<Word>, max: int)
    ensures Flatten(Greedy(ts, max)) == ts && NonEmptyParts(Greedy(ts, max))
  {
    GreedyIsGreedyPartition(ts, max);
  }

  /** Chunk `c` holds the consecutive words of `ts` from offset `o` on:
      their texts, the first one's start, the last one's end, and their
      texts joined by single spaces. */
  ghost predicate Spans(ts: seq<Word>, o: nat, c: Chunk)
  {
    c.words != [] && o + |c.words| <= |ts|
    && (forall j :: 0 <= j < |c.words| ==> c.words[j] == ts[o + j].word)
    && c.start == ts[o].start && c.end == ts[o + |c.words| - 1].end
    && c.text == Join(" ", c.words)
  }

  /** Chunk k of the greedy scan of `ts` spans the words of `ts` from its
      offset on. */
  lemma ChunkSpan(ts: seq<Word>, max: int, k: nat)
    requires k < |Greedy(ts, max)|
    ensures Spans(ts, Offset(ts, max, k), Chunks(Greedy(ts, max))[k])
  {
    var c, o, s := Chunks(Greedy(ts, max))[k], Offset(ts, max, k), Flatten(Greedy(ts, max));
    GreedyCoversPointwise(ts, max);
    PartSpan(Greedy(ts, max), k, o, c, s);
    forall j | 0 <= j < |c.words|
      ensures c.words[j] == ts[o + j].word
    {
      assert s[o + j] == ts[o + j];
    }
    assert s[o + |c.words| - 1] == ts[o + |c.words| - 1];
  }

  /** `Flatten(Greedy(ts, max)) == ts`, position by position. */
  lemma GreedyCoversPointwise(ts: seq<Word>, max: int)
    ensures |Flatten(Greedy(ts, max))| == |ts|
    ensures forall i :: 0 <= i < |ts| ==> Flatten(Greedy(ts, max))[i] == ts[i]
  {
    GreedyCovers(ts, max);
  }

  /** The same for any list `parts` of non-empty parts: chunk `c` of part `k`
      spans the flattened parts `s` from offset `o`, the number of words in
      the parts before part `k`. */
  lemma PartSpan(parts: seq<seq<Word>>, k: nat, o: nat, c: Chunk, s: seq<Word>)
    requires NonEmptyParts(parts) && k < |parts|
    requires o == |Flatten(parts[..k])| && c == Chunks(parts)[k] && s == Flatten(parts)
    ensures Spans(s, o, c)
  {
    FlattenSlice(parts, k);
    assert c == MakeChunk(parts[k]);
    RunChunk(s, parts[k], o);
  }

  /** The chunk of a run `p` of `ts` that starts at offset `o`. */
  lemma RunChunk(ts: seq<Word>, p: seq<Word>, o: nat)
    requires p != [] && o + |p| <= |ts|
    requires forall j :: 0 <= j < |p| ==> p[j] == ts[o + j]
    requires p[|p| - 1] == ts[o + |p| - 1]
    ensures Spans(ts, o, MakeChunk(p))
  {
    assert p[0] == ts[o + 0];
  }

  /** A chunk of several words fits the limit, counting one character more
      than its text; and the first word of each chunk after the first would
      have pushed the chunk before it past the limit. */
  lemma ChunkLimits(ws: seq<Word>, max: int, k: nat)
    requires k < |Greedy(Trim(ws), max)|
    ensures var cs := Chunks(Greedy(Trim(ws), max));
      (|cs[k].words| == 1 || |cs[k].text| + 1 <= max)
      && (k > 0 ==> cs[k].words != [] && |cs[k - 1].text| + 1 + |cs[k].words[0]| + 1 > max)
  {
    var parts := Greedy(Trim(ws), max);
    GreedyIsGreedyPartition(Trim(ws), max);
    TextLength(parts[k]);
    if k > 0 {
      TextLength(parts[k - 1]);
    }
  }

  // ---------------------------------------------------------------------
  // The scan

  /** One more word fits into the open chunk. */
  lemma GrowOpen(pre: seq<Word>, w: Word, max: int, closed: seq<seq<Word>>, open: seq<Word>)
    requires GreedyPartition(pre, max, closed + [open]) && open != []
    requires Load(open) + Cost(w) <= max
    ensures GreedyPartition(pre + [w], max, closed + [open + [w]])
  {
    FlattenGrow(closed, open, w);
    LoadSnoc(open, w);
    GrowOpenFits(max, closed, open, w);
    GrowOpenMaximal(max, closed, open, w);
  }

  lemma FlattenGrow<T>(closed: seq<seq<T>>, open: seq<T>, w: T)
    ensures Flatten(closed + [open + [w]]) == Flatten(closed + [open]) + [w]
  {
    FlattenSnoc(closed, open);
    FlattenSnoc(closed, open + [w]);
    assert Flatten(closed) + (open + [w]) == (Flatten(closed) + open) + [w];
  }

  lemma GrowOpenFits(max: int, closed: seq<seq<Word>>, open: seq<Word>, w: Word)
    requires NonEmptyParts(closed + [open]) && Fits(max, closed + [open])
    requires Load(open + [w]) <= max
    ensures NonEmptyParts(closed + [open + [w]]) && Fits(max, closed + [open + [w]])
  {
    var before := closed + [open];
    var after := closed + [open + [w]];
    forall k | 0 <= k < |after|
      ensures after[k] != [] && (|after[k]| == 1 || Load(after[k]) <= max)
    {
      if k < |closed| {
        assert after[k] == before[k];
      }
    }
  }

  lemma GrowOpenMaximal(max: int, closed: seq<seq<Word>>, open: seq<Word>, w: Word)
    requires Maximal(max, closed + [open]) && open != []
    ensures Maximal(max, closed + [open + [w]])
  {
    var before := closed + [open];
    var after := closed + [open + [w]];
    forall k | 0 < k < |after|
      ensures after[k] != [] && Load(after[k - 1]) + Cost(after[k][0]) > max
    {
      assert after[k - 1] == before[k - 1];
      if k < |closed| {
        assert after[k] == before[k];
      } else {
        assert before[k] == open && after[k][0] == open[0];
      }
    }
  }

  /** The next word does not fit: the open chunk closes and the word opens
      the next one. */
  lemma CloseOpen(pre: seq<Word>, w: Word, max: int, closed: seq<seq<Word>>, open: seq<Word>)
    requires GreedyPartition(pre, max, closed + [open]) && open != []
    requires Load(open) + Cost(w) > max
    ensures GreedyPartition(pre + [w], max, closed + [open] + [[w]])
  {
    FlattenSnoc(closed + [open], [w]);
    CloseOpenParts(max, closed + [open], w);
  }

  lemma CloseOpenParts(max: int, before: seq<seq<Word>>, w: Word)
    requires before != [] && NonEmptyParts(before) && Fits(max, before) && Maximal(max, before)
    requires Load(before[|before| - 1]) + Cost(w) > max
    ensures NonEmptyParts(before + [[w]]) && Fits(max, before + [[w]]) && Maximal(max, before + [[w]])
  {
    var after := before + [[w]];
    forall k | 0 <= k < |after|
      ensures after[k] != [] && (|after[k]| == 1 || Load(after[k]) <= max)
    {
      if k < |before| {
        assert after[k] == before[k];
      }
    }
    forall k | 0 < k < |after|
      ensures after[k] != [] && Load(after[k - 1]) + Cost(after[k][0]) > max
    {
      if k < |before| {
        assert after[k - 1] == before[k - 1] && after[k] == before[k];
      }
    }
  }

  lemma FirstWord(w: Word, max: int)
    ensures GreedyPartition([w], max, [[w]])
  {
    FlattenSnoc([], [w]);
  }

  lemma ChunksSnoc(parts: seq<seq<Word>>, p: seq<Word>)
    requires NonEmptyParts(parts) && p != []
    ensures NonEmptyParts(parts + [p]) && Chunks(parts + [p]) == Chunks(parts) + [MakeChunk(p)]
  {
    assert (parts + [p])[..|parts|] == parts;
  }

  /** The state of the scan after the first `i` stripped words: the closed
      chunks and the open one form a greedy partition of those words, and
      the loop's variables mirror them. */
  ghost predicate Scan(ts: seq<Word>, i: nat, max: int, closed: seq<seq<Word>>, open: seq<Word>,
                       chunks: seq<Chunk>, curWords: seq<string>, curStart: Option<nat>,
                       curEnd: Option<nat>, curLength: int)
  {
    Partitioned(ts, i, max, closed, open)
    && Mirrors(closed, open, chunks, curWords, curStart, curEnd, curLength)
  }

  /** Nothing is open only before the first word; from then on the closed
      chunks and the open one are the greedy partition of the words so far. */
  ghost predicate Partitioned(ts: seq<Word>, i: nat, max: int, closed: seq<seq<Word>>, open: seq<Word>)
  {
    i <= |ts| && NonEmptyParts(closed)
    && (open == [] <==> i == 0)
    && (open == [] ==> closed == [])
    && (open != [] ==> GreedyPartition(ts[..i], max, closed + [open]))
  }

  /** The chunk list holds the closed chunks, and the open chunk's words,
      start, end and running length are those of `open`. */
  ghost predicate Mirrors(closed: seq<seq<Word>>, open: seq<Word>, chunks: seq<Chunk>,
                          curWords: seq<string>, curStart: Option<nat>, curEnd: Option<nat>,
                          curLength: int)
    requires NonEmptyParts(closed)
  {
    chunks == Chunks(closed)
    && curWords == Texts(open) && curLength == Load(open)
    && (open == [] ==> curStart == None)
    && (open != [] ==> curStart == Some(open[0].start) && curEnd == Some(open[|open| - 1].end))
  }

  lemma ScanStart(ts: seq<Word>, max: int)
    ensures Scan(ts, 0, max, [], [], [], [], None, None, 0)
  {
  }

  /** The word does not fit: the open chunk is closed and the word opens a new one. */
  lemma ScanClose(ts: seq<Word>, i: nat, max: int, closed: seq<seq<Word>>, open: seq<Word>,
                  chunks: seq<Chunk>, curWords: seq<string>, curStart: Option<nat>,
                  curEnd: Option<nat>, curLength: int)
    requires Scan(ts, i, max, closed, open, chunks, curWords, curStart, curEnd, curLength)
    requires i < |ts| && curLength + Cost(ts[i]) > max && curWords != []
    ensures curStart.Some? && curEnd.Some?
    ensures Scan(ts, i + 1, max, closed + [open], [ts[i]],
                 chunks + [Chunk(curWords, curStart.value, curEnd.value, Join(" ", curWords))],
                 [ts[i].word], Some(ts[i].start), Some(ts[i].end), Cost(ts[i]))
  {
    PartitionedClose(ts, i, max, closed, open);
    MirrorsClose(closed, open, chunks, curWords, curStart, curEnd, curLength, ts[i]);
  }

  lemma PartitionedClose(ts: seq<Word>, i: nat, max: int, closed: seq<seq<Word>>, open: seq<Word>)
    requires Partitioned(ts, i, max, closed, open)
    requires i < |ts| && open != [] && Load(open) + Cost(ts[i]) > max
    ensures Partitioned(ts, i + 1, max, closed + [open], [ts[i]])
  {
    assert ts[..i + 1] == ts[..i] + [ts[i]];
    CloseOpen(ts[..i], ts[i], max, closed, open);
  }

  lemma MirrorsClose(closed: seq<seq<Word>>, open: seq<Word>, chunks: seq<Chunk>,
                     curWords: seq<string>, curStart: Option<nat>, curEnd: Option<nat>,
                     curLength: int, t: Word)
    requires NonEmptyParts(closed)
    requires Mirrors(closed, open, chunks, curWords, curStart, curEnd, curLength) && curWords != []
    ensures open != [] && curStart.Some? && curEnd.Some? && NonEmptyParts(closed + [open])
    ensures Mirrors(closed + [open], [t],
                    chunks + [Chunk(curWords, curStart.value, curEnd.value, Join(" ", curWords))],
                    [t.word], Some(t.start), Some(t.end), Cost(t))
  {
    ChunksSnoc(closed, open);
    assert Texts([t]) == [t.word];
    assert Load([t]) == Cost(t);
  }

  /** The word fits, or the open chunk is still empty: the word joins it. */
  lemma ScanAdd(ts: seq<Word>, i: nat, max: int, closed: seq<seq<Word>>, open: seq<Word>,
                chunks: seq<Chunk>, curWords: seq<string>, curStart: Option<nat>,
                curEnd: Option<nat>, curLength: int)
    requires Scan(ts, i, max, closed, open, chunks, curWords, curStart, curEnd, curLength)
    requires i < |ts| && !(curLength + Cost(ts[i]) > max && curWords != [])
    ensures Scan(ts, i + 1, max, closed, open + [ts[i]], chunks, curWords + [ts[i].word],
                 if curStart == None then Some(ts[i].start) else curStart, Some(ts[i].end),
                 curLength + Cost(ts[i]))
  {
    var t := ts[i];
    assert ts[..i + 1] == ts[..i] + [t];
    if open == [] {
      FirstWord(t, max);
      assert ts[..1] == [t];
    } else {
      GrowOpen(ts[..i], t, max, closed, open);
    }
    LoadSnoc(open, t);
    assert (open + [t])[..|open|] == open;
  }

  /** After the last word, closing a non-empty open chunk gives Greedy's chunks. */
  lemma ScanFinish(ts: seq<Word>, max: int, closed: seq<seq<Word>>, open: seq<Word>,
                   chunks: seq<Chunk>, curWords: seq<string>, curStart: Option<nat>,
                   curEnd: Option<nat>, curLength: int)
    requires Scan(ts, |ts|, max, closed, open, chunks, curWords, curStart, curEnd, curLength)
    ensures curWords != [] ==> curStart.Some? && curEnd.Some?
    ensures curWords != [] ==>
      chunks + [Chunk(curWords, curStart.value, curEnd.value, Join(" ", curWords))]
      == Chunks(Greedy(ts, max))
    ensures curWords == [] ==> chunks == Chunks(Greedy(ts, max))
  {
    assert ts[..|ts|] == ts;
    if open != [] {
      ChunksSnoc(closed, open);
      GreedyPartitionIsGreedy(ts, max, closed + [open]);
    }
  }

  /** Groups `ws` into chunks as the source's loop does: each word is
      stripped, and it is added to the open chunk unless the chunk already
      holds words and the running length plus the word's cost would exceed
      `max`, in which case the open chunk is closed first. */
  method GroupWords(ws: seq<Word>, max: int) returns (chunks: seq<Chunk>)
    ensures chunks == Chunks(Greedy(Trim(ws), max))
  {
    ghost var ts := Trim(ws);
    chunks := [];
    var curWords: seq<string> := [];
    var curStart: Option<nat> := None;
    var curEnd: Option<nat> := None;
    var curLength: int := 0;
    ghost var closed: seq<seq<Word>> := [];
    ghost var open: seq<Word> := [];
    ScanStart(ts, max);
    for i := 0 to |ws|
      invariant Scan(ts, i, max, closed, open, chunks, curWords, curStart, curEnd, curLength)
    {
      var w := ws[i];
      var wordText := Strip(w.word);
      var wordLength := |wordText| + 1;
      assert ts[i] == Word(w.start, w.end, wordText) && wordLength == Cost(ts[i]);
      if curLength + wordLength > max && curWords != [] {
        ScanClose(ts, i, max, closed, open, chunks, curWords, curStart, curEnd, curLength);
        chunks := chunks + [Chunk(curWords, curStart.value, curEnd.value, Join(" ", curWords))];
        closed := closed + [open];
        open := [ts[i]];
        curWords := [wordText];
        curStart := Some(w.start);
        curEnd := Some(w.end);
        curLength := wordLength;
      } else {
        ScanAdd(ts, i, max, closed, open, chunks, curWords, curStart, curEnd, curLength);
        open := open + [ts[i]];
        curWords := curWords + [wordText];
        if curStart == None {
          curStart := Some(w.start);
        }
        curEnd := Some(w.end);
        curLength := curLength + wordLength;
      }
    }
    ScanFinish(ts, max, closed, open, chunks, curWords, curStart, curEnd, curLength);
    if curWords != [] {
      chunks := chunks + [Chunk(curWords, curStart.value, curEnd.value, Join(" ", curWords))];
    }
  }
}
