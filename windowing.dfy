/** Overlapping windows over the word buffer: `store_chunk` and `final_flush`
    of the transcript event handler, on values. */
module Windowing {
  import opened Text

  /** Words taken from the buffer per window (`chunk_size`). */
  const ChunkSize: nat := 200
  /** Words carried from one window into the next (`overlap_size`). */
  const OverlapSize: nat := 70

  /** One submitted window: the words carried over from the previous window,
      then the words taken from the buffer. */
  datatype Window = Window(carry: seq<string>, taken: seq<string>)

  function Words(w: Window): seq<string> {
    w.carry + w.taken
  }

  /** The string handed to the store: the window's words joined by single
      spaces. */
  function TextOf(w: Window): string {
    Join(Words(w))
  }

  /** The chunker's state: the buffered words (`current_words`), the tail of
      the previous window (`previous_chunk_end`) and the log of every window
      submitted so far. */
  datatype Chunker = Chunker(buffer: seq<string>, prevEnd: seq<string>, log: seq<Window>)

  const Empty := Chunker([], [], [])

  function Max(a: int, b: int): int {
    if a < b then b else a
  }

  /** `prev[max(0, len(prev) - overlap_size):]`: at most the last
      `OverlapSize` words of `prev`. */
  function Carry(prev: seq<string>): (r: seq<string>)
    ensures |r| == if |prev| < OverlapSize then |prev| else OverlapSize
    ensures prev == prev[..|prev| - |r|] + r
  {
    prev[Max(0, |prev| - OverlapSize)..]
  }

  /** Python's `ws[-n:]` for a positive `n`: the last `n` words, or all of
      them when there are fewer. */
  function LastWords(ws: seq<string>, n: nat): (r: seq<string>)
    requires n > 0
    ensures |r| == if |ws| < n then |ws| else n
    ensures ws == ws[..|ws| - |r|] + r
  {
    if |ws| <= n then ws else ws[|ws| - n..]
  }

  /** `store_chunk`: with fewer than `ChunkSize` buffered words nothing
      happens; otherwise the carry and the first `ChunkSize` buffered words
      form a window that is submitted, its last `OverlapSize` words become the
      new carry source, and the buffer loses exactly those `ChunkSize` words. */
  function Store(c: Chunker): (r: Chunker)
    ensures |c.buffer| < ChunkSize ==> r == c
    ensures |c.buffer| >= ChunkSize ==>
              && |r.log| == |c.log| + 1
              && r.log[..|c.log|] == c.log
              && |r.log[|c.log|].taken| == ChunkSize
              && r.log[|c.log|].taken + r.buffer == c.buffer
              && r.log[|c.log|].carry == Carry(c.prevEnd)
              && r.prevEnd == c.buffer[ChunkSize - OverlapSize..ChunkSize]
  {
    if |c.buffer| < ChunkSize then c
    else
      var w := Window(Carry(c.prevEnd), c.buffer[..ChunkSize]);
      Chunker(c.buffer[ChunkSize..], LastWords(Words(w), OverlapSize), c.log + [w])
  }

  /** `final_flush`: when words remain, one last window of the carry and the
      whole remaining buffer, without truncation, is submitted; the buffer and
      the carry are left as they were. */
  function Flush(c: Chunker): (r: Chunker)
    ensures r.buffer == c.buffer && r.prevEnd == c.prevEnd
    ensures c.buffer == [] ==> r.log == c.log
    ensures c.buffer != [] ==>
              && |r.log| == |c.log| + 1
              && r.log[..|c.log|] == c.log
              && r.log[|c.log|] == Window(Carry(c.prevEnd), c.buffer)
  {
    if c.buffer == [] then c
    else c.(log := c.log + [Window(Carry(c.prevEnd), c.buffer)])
  }

  /** The buffer words of every window of `log`, in order: what the windows
      took out of the buffer, without the repeated carry. */
  function Consumed(log: seq<Window>): seq<string> {
    if log == [] then [] else Consumed(log[..|log| - 1]) + log[|log| - 1].taken
  }

  /** What every state reachable from `Empty` by `Store` looks like: every
      window holds `ChunkSize` buffer words, the first carries nothing, each
      later one carries the last `OverlapSize` words of its predecessor, the
      carry source is the tail of the last window, and everything is made of
      words. */
  ghost predicate Chained(log: seq<Window>, i: nat)
    requires i < |log|
  {
    && |log[i].taken| == ChunkSize
    && log[i].carry == (if i == 0 then [] else LastWords(Words(log[i - 1]), OverlapSize))
    && AllWords(Words(log[i]))
  }

  ghost predicate Overlapping(c: Chunker) {
    && (c.log == [] ==> c.prevEnd == [])
    && (c.log != [] ==> c.prevEnd == LastWords(Words(c.log[|c.log| - 1]), OverlapSize))
    && (forall i :: 0 <= i < |c.log| ==> Chained(c.log, i))
    && AllWords(c.buffer)
  }

  lemma {:induction false} ConsumedSnoc(log: seq<Window>, w: Window)
    ensures Consumed(log + [w]) == Consumed(log) + w.taken
  {
    assert (log + [w])[..|log|] == log;
  }

  lemma AllWordsSlice(ws: seq<string>, i: nat, j: nat)
    requires AllWords(ws) && i <= j <= |ws|
    ensures AllWords(ws[i..j])
  {
    forall k | 0 <= k < j - i ensures IsWord(ws[i..j][k]) {
      assert ws[i..j][k] == ws[i + k];
    }
  }

  lemma AllWordsAppend(a: seq<string>, b: seq<string>)
    requires AllWords(a) && AllWords(b)
    ensures AllWords(a + b)
  {
    forall k | 0 <= k < |a + b| ensures IsWord((a + b)[k]) {
      if k < |a| { assert (a + b)[k] == a[k]; } else { assert (a + b)[k] == b[k - |a|]; }
    }
  }

  /** A window that takes `ChunkSize` words and carries the tail of the last
      window extends a chained log. */
  lemma ChainedSnoc(log: seq<Window>, w: Window)
    requires forall i :: 0 <= i < |log| ==> Chained(log, i)
    requires |w.taken| == ChunkSize && AllWords(Words(w))
    requires w.carry == if log == [] then [] else LastWords(Words(log[|log| - 1]), OverlapSize)
    ensures forall i :: 0 <= i < |log + [w]| ==> Chained(log + [w], i)
  {
    var n := |log|;
    forall i | 0 <= i < n + 1 ensures Chained(log + [w], i) {
      if i < n {
        assert Chained(log, i);
        assert (log + [w])[i] == log[i];
        if i > 0 { assert (log + [w])[i - 1] == log[i - 1]; }
      } else {
        assert (log + [w])[i] == w;
        if i > 0 { assert (log + [w])[i - 1] == log[n - 1]; }
      }
    }
  }

  /** The window `Store` builds is made of words. */
  lemma NextWindowWords(c: Chunker)
    requires Overlapping(c) && |c.buffer| >= ChunkSize
    ensures AllWords(Words(Window(Carry(c.prevEnd), c.buffer[..ChunkSize])))
  {
    CarryIsPrevEnd(c);
    assert AllWords(c.prevEnd) by {
      var n := |c.log|;
      if n > 0 {
        var p := Words(c.log[n - 1]);
        assert Chained(c.log, n - 1);
        assert c.prevEnd == p[|p| - |c.prevEnd|..];
        AllWordsSlice(p, |p| - |c.prevEnd|, |p|);
      }
    }
    AllWordsSlice(c.buffer, 0, ChunkSize);
    AllWordsAppend(c.prevEnd, c.buffer[..ChunkSize]);
  }

  /** `Store` keeps the overlap structure. */
  lemma StorePreserves(c: Chunker)
    requires Overlapping(c)
    ensures Overlapping(Store(c))
  {
    if |c.buffer| >= ChunkSize {
      var w := Window(Carry(c.prevEnd), c.buffer[..ChunkSize]);
      assert Store(c) == Chunker(c.buffer[ChunkSize..], LastWords(Words(w), OverlapSize), c.log + [w]);
      CarryIsPrevEnd(c);
      NextWindowWords(c);
      ChainedSnoc(c.log, w);
      AllWordsSlice(c.buffer, ChunkSize, |c.buffer|);
    }
  }

  /** Appending words to the buffer keeps the overlap structure. */
  lemma AppendPreserves(c: Chunker, words: seq<string>)
    requires Overlapping(c) && AllWords(words)
    ensures Overlapping(c.(buffer := c.buffer + words))
  {
    AllWordsAppend(c.buffer, words);
  }

  /** Window sizes: the first window has `ChunkSize` words, every later one
      `OverlapSize + ChunkSize` (200, then 270). */
  lemma WindowSizes(c: Chunker)
    requires Overlapping(c)
    ensures forall i :: 0 <= i < |c.log| ==>
              |Words(c.log[i])| == if i == 0 then ChunkSize else OverlapSize + ChunkSize
  {
    forall i | 0 <= i < |c.log|
      ensures |Words(c.log[i])| == if i == 0 then ChunkSize else OverlapSize + ChunkSize
    {
      assert Chained(c.log, i);
      if i > 0 {
        assert Chained(c.log, i - 1);
      }
    }
  }

  /** The carry is always exactly the previous window's last `OverlapSize`
      words: empty before the first window, `OverlapSize` words after it, so
      the `max(0, ...)` slice never cuts anything. */
  lemma CarryIsPrevEnd(c: Chunker)
    requires Overlapping(c)
    ensures Carry(c.prevEnd) == c.prevEnd
    ensures |c.prevEnd| == if c.log == [] then 0 else OverlapSize
  {
    if c.log != [] {
      assert Chained(c.log, |c.log| - 1);
    }
  }

  /** Each submitted string gives back exactly its window's words. */
  lemma SubmittedWords(c: Chunker, i: nat)
    requires Overlapping(c) && i < |c.log|
    ensures Text.Split(TextOf(c.log[i])) == Words(c.log[i])
  {
    assert Chained(c.log, i);
    SplitJoin(Words(c.log[i]));
  }

  /** Nothing is lost or duplicated by a store: the words the windows took,
      followed by the buffer, are unchanged. */
  lemma StoreConserves(c: Chunker)
    ensures Consumed(Store(c).log) + Store(c).buffer == Consumed(c.log) + c.buffer
  {
    if |c.buffer| >= ChunkSize {
      var r := Store(c);
      assert r.log == c.log + [r.log[|c.log|]];
      ConsumedSnoc(c.log, r.log[|c.log|]);
    }
  }

  /** The final flush submits the whole buffer: afterwards the windows'
      buffer words account for everything that was buffered. */
  lemma FlushConserves(c: Chunker)
    ensures Consumed(Flush(c).log) == Consumed(c.log) + c.buffer
  {
    if c.buffer != [] {
      ConsumedSnoc(c.log, Window(Carry(c.prevEnd), c.buffer));
    }
  }

  /** Two `Store` calls on 500 buffered words and no earlier window emit a
      200-word and a 270-word window and leave 100 words, below the
      threshold; a flush then submits the 70 carried and the 100 remaining
      words. */
  lemma FiveHundredWords(c: Chunker)
    requires c.prevEnd == [] && c.log == [] && |c.buffer| == 500
    ensures var c2 := Store(Store(c));
            && |c2.log| == 2
            && |Words(c2.log[0])| == 200 && |Words(c2.log[1])| == 270
            && c2.log[1].carry == c.buffer[130..200]
            && |c2.buffer| == 100 && Store(c2) == c2
            && |Words(Flush(c2).log[2])| == 170
  {
    var c1 := Store(c);
    assert c1.prevEnd == c.buffer[130..200];
    var c2 := Store(c1);
    assert c1.buffer == c.buffer[200..];
  }
}
