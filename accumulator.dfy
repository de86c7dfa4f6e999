/** Delta deduplication of incoming transcript alternatives
    (`handle_transcript_event`), on values: what one alternative does to the
    word buffer, the last accepted transcript and the text shown to pollers. */
module Accumulator {
  import opened Text
  import opened Windowing

  /** The state one alternative touches: the chunker (`current_words`,
      `previous_chunk_end`, submitted windows), `last_transcript`, and the
      module-level `current_transcription` that pollers read. */
  datatype Acc = Acc(chunker: Chunker, last: string, shown: string)

  /** The state of a freshly created handler; `shown` belongs to the server
      and may hold anything. */
  predicate Initial(s: Acc) {
    s.chunker == Empty && s.last == ""
  }

  /** The text an alternative contributes: the part after the last accepted
      transcript, stripped, when it extends it; otherwise the whole
      alternative, as it is. */
  function NewText(last: string, alt: string): (t: string)
    ensures StartsWith(alt, last) ==> Split(t) == Split(alt[|last|..])
    ensures !StartsWith(alt, last) ==> t == alt
  {
    if StartsWith(alt, last) then
      SplitStrip(alt[|last|..]);
      Strip(alt[|last|..])
    else alt
  }

  function NewWords(last: string, alt: string): seq<string> {
    Split(NewText(last, alt))
  }

  /** The handler's take on one alternative before any store: append its new
      words; when there are any, remember the alternative as the last
      accepted transcript and overwrite the shown text with its new text. */
  function Absorb(s: Acc, alt: string): Acc {
    var t := NewText(s.last, alt);
    var words := Split(t);
    if words == [] then s
    else Acc(s.chunker.(buffer := s.chunker.buffer + words), alt, t)
  }

  /** One alternative: absorb it, then store at most one window. */
  function Step(s: Acc, alt: string): (r: Acc)
    ensures |r.chunker.log| <= |s.chunker.log| + 1
    ensures |r.chunker.log| == |s.chunker.log| + 1
            <==> |s.chunker.buffer| + |NewWords(s.last, alt)| >= ChunkSize
    ensures r.last == Absorb(s, alt).last && r.shown == Absorb(s, alt).shown
  {
    var a := Absorb(s, alt);
    if |a.chunker.buffer| >= ChunkSize then a.(chunker := Store(a.chunker)) else a
  }

  /** The alternatives of a sequence of events, processed in order. */
  function Run(s: Acc, alts: seq<string>): Acc
    decreases |alts|
  {
    if alts == [] then s else Step(Run(s, alts[..|alts| - 1]), alts[|alts| - 1])
  }

  /** Every word appended to the buffer while running `alts` from `s`. */
  function Fed(s: Acc, alts: seq<string>): seq<string>
    decreases |alts|
  {
    if alts == [] then []
    else Fed(s, alts[..|alts| - 1]) + NewWords(Run(s, alts[..|alts| - 1]).last, alts[|alts| - 1])
  }

  lemma {:induction false} RunSnoc(s: Acc, alts: seq<string>, alt: string)
    ensures Run(s, alts + [alt]) == Step(Run(s, alts), alt)
    ensures Fed(s, alts + [alt]) == Fed(s, alts) + NewWords(Run(s, alts).last, alt)
  {
    assert (alts + [alt])[..|alts|] == alts;
  }

  /** Prefix extension: when the alternative extends the last accepted
      transcript, exactly the words of the part after it are appended; the
      windows are untouched; and the shown text becomes that part, stripped,
      replacing whatever was shown before. */
  lemma AbsorbExtension(s: Acc, alt: string)
    requires StartsWith(alt, s.last)
    ensures var r := Absorb(s, alt);
            var suffix := alt[|s.last|..];
            && r.chunker.buffer == s.chunker.buffer + Split(suffix)
            && r.chunker.prevEnd == s.chunker.prevEnd && r.chunker.log == s.chunker.log
            && (Split(suffix) == [] ==> r == s)
            && (Split(suffix) != [] ==> r.last == alt && r.shown == Strip(suffix))
  {
  }

  /** The shared prefix is never re-added: when the alternative extends the
      last accepted transcript at a word boundary, the words already taken
      from that transcript followed by the appended ones are exactly the words
      of the alternative. */
  lemma {:induction false} PrefixNotReAdded(s: Acc, alt: string)
    requires StartsWith(alt, s.last)
    requires var n := |s.last|;
             n == 0 || n == |alt| || IsSpace(alt[n - 1]) || IsSpace(alt[n])
    ensures var added := Absorb(s, alt).chunker.buffer[|s.chunker.buffer|..];
            Split(s.last) + added == Split(alt)
  {
    var n := |s.last|;
    assert alt == s.last + alt[n..];
    SplitAppend(s.last, alt[n..]);
    AbsorbExtension(s, alt);
  }

  /** Without the word-boundary condition the prefix rule cuts a word that was
      still being recognised: when the alternative continues the last
      transcript's final word with more characters, those characters are
      appended as a word of their own (after "hello wor", the alternative
      "hello world" appends "ld"). */
  lemma FragmentedWord(s: Acc, tail: string)
    requires s.last != [] && !IsSpace(s.last[|s.last| - 1]) && IsWord(tail)
    ensures Absorb(s, s.last + tail).chunker.buffer == s.chunker.buffer + [tail]
    ensures Absorb(s, s.last + tail).shown == tail
  {
    var alt := s.last + tail;
    assert StartsWith(alt, s.last) && alt[|s.last|..] == tail by {
      assert alt[..|s.last|] == s.last;
    }
    StripWord(tail);
    SplitWord(tail);
    AbsorbExtension(s, alt);
  }

  /** Reset: when the alternative does not extend the last accepted
      transcript, all its words are appended in order after the buffer, and
      the shown text becomes the whole alternative. */
  lemma AbsorbReset(s: Acc, alt: string)
    requires !StartsWith(alt, s.last)
    ensures var r := Absorb(s, alt);
            && r.chunker.buffer == s.chunker.buffer + Split(alt)
            && r.chunker.prevEnd == s.chunker.prevEnd && r.chunker.log == s.chunker.log
            && (Split(alt) == [] ==> r == s)
            && (Split(alt) != [] ==> r.last == alt && r.shown == alt)
  {
  }

  /** Absorbing keeps the windows' structure, and the buffer stays made of
      words. */
  lemma AbsorbPreserves(s: Acc, alt: string)
    requires Overlapping(s.chunker)
    ensures Overlapping(Absorb(s, alt).chunker)
  {
    var words := NewWords(s.last, alt);
    SplitWords(NewText(s.last, alt));
    if words != [] {
      AppendPreserves(s.chunker, words);
    }
  }

  /** Starting from a fresh handler, every reachable chunker has the overlap
      structure: window sizes 200 then 270, each carrying the previous
      window's last 70 words. */
  lemma {:induction false} RunOverlapping(s: Acc, alts: seq<string>)
    requires Overlapping(s.chunker)
    ensures Overlapping(Run(s, alts).chunker)
    decreases |alts|
  {
    if alts != [] {
      var p := Run(s, alts[..|alts| - 1]);
      RunOverlapping(s, alts[..|alts| - 1]);
      AbsorbPreserves(p, alts[|alts| - 1]);
      StorePreserves(Absorb(p, alts[|alts| - 1]).chunker);
    }
  }

  /** Windows are never rewritten: every run keeps the windows already in
      the log and can only add to them. */
  lemma {:induction false} RunKeepsLog(s: Acc, alts: seq<string>)
    ensures |s.chunker.log| <= |Run(s, alts).chunker.log|
    ensures Run(s, alts).chunker.log[..|s.chunker.log|] == s.chunker.log
    decreases |alts|
  {
    if alts == [] {
      assert Run(s, alts).chunker.log[..|s.chunker.log|] == s.chunker.log;
    } else {
      var init := alts[..|alts| - 1];
      var p := Run(s, init);
      var r := Run(s, alts);
      var n := |s.chunker.log|;
      RunKeepsLog(s, init);
      assert r == Step(p, alts[|alts| - 1]);
      var m := |p.chunker.log|;
      assert |r.chunker.log| >= m && r.chunker.log[..m] == p.chunker.log;
      assert r.chunker.log[..n] == r.chunker.log[..m][..n];
    }
  }

  /** One alternative loses and duplicates nothing: the windows' buffer
      words followed by the buffer grow by exactly the new words. */
  lemma StepConserves(p: Acc, alt: string)
    ensures var r := Step(p, alt);
            Consumed(r.chunker.log) + r.chunker.buffer
              == Consumed(p.chunker.log) + p.chunker.buffer + NewWords(p.last, alt)
  {
    var a := Absorb(p, alt).chunker;
    var words := NewWords(p.last, alt);
    assert a.log == p.chunker.log && a.buffer == p.chunker.buffer + words by {
      if words == [] { assert p.chunker.buffer + words == p.chunker.buffer; }
    }
    assert Step(p, alt).chunker == if |a.buffer| >= ChunkSize then Store(a) else a;
    StoreConserves(a);
  }

  /** Conservation: the buffer words of the windows submitted while running,
      followed by the buffer, are what was there before followed by every
      word appended, in order. */
  lemma {:induction false} RunConserves(s: Acc, alts: seq<string>)
    ensures var r := Run(s, alts);
            Consumed(r.chunker.log) + r.chunker.buffer
              == Consumed(s.chunker.log) + s.chunker.buffer + Fed(s, alts)
    decreases |alts|
  {
    var before := Consumed(s.chunker.log) + s.chunker.buffer;
    if alts == [] {
      assert before + Fed(s, alts) == before;
    } else {
      var init := alts[..|alts| - 1];
      var alt := alts[|alts| - 1];
      var p := Run(s, init);
      var r := Run(s, alts);
      var words := NewWords(p.last, alt);
      assert r == Step(p, alt);
      assert Fed(s, alts) == Fed(s, init) + words;
      RunConserves(s, init);
      StepConserves(p, alt);
      Regroup(before, Fed(s, init), words,
              Consumed(p.chunker.log) + p.chunker.buffer,
              Consumed(r.chunker.log) + r.chunker.buffer);
    }
  }

  lemma Regroup(before: seq<string>, fed: seq<string>, words: seq<string>, mid: seq<string>, after: seq<string>)
    requires mid == before + fed && after == mid + words
    ensures after == before + (fed + words)
  {
  }

  /** Nothing is lost: after a session that starts from a fresh handler, the
      final flush makes the windows' buffer words exactly every word ever
      appended, and the flushed window carries the last window's tail. */
  lemma {:induction false} SessionLosesNothing(s: Acc, alts: seq<string>)
    requires Initial(s)
    ensures var c := Run(s, alts).chunker;
            && Consumed(Flush(c).log) == Fed(s, alts)
            && (forall i :: 0 <= i < |c.log| ==>
                  |Words(c.log[i])| == if i == 0 then ChunkSize else OverlapSize + ChunkSize)
            && (c.buffer != [] && c.log != [] ==>
                  Flush(c).log[|c.log|].carry == LastWords(Words(c.log[|c.log| - 1]), OverlapSize))
  {
    var c := Run(s, alts).chunker;
    RunOverlapping(s, alts);
    RunConserves(s, alts);
    FlushConserves(c);
    WindowSizes(c);
    CarryIsPrevEnd(c);
  }

  /** While fewer than `ChunkSize` words are buffered, a step is just the
      absorption: no window is stored. */
  lemma StepBelowThreshold(s: Acc, alt: string)
    requires |Absorb(s, alt).chunker.buffer| < ChunkSize
    ensures Step(s, alt) == Absorb(s, alt)
  {
  }

  /** A fresh handler given a single word ("hello") takes it and shows it. */
  lemma FirstWord(s: Acc, a: string)
    requires Initial(s) && Split(a) == [a]
    ensures Step(s, a) == Acc(Chunker([a], [], []), a, a)
  {
    assert NewWords("", a) == [a] && NewText("", a) == a by {
      SplitWords(a);
      assert IsWord([a][0]);
      FirstText(a);
    }
    StepBelowThreshold(s, a);
    assert s.chunker.buffer + [a] == [a];
  }

  /** Below the threshold, an alternative that extends the last accepted
      transcript by a space and one word ("hello" then "hello world")
      appends that word once and shows it alone, without the space. */
  lemma NextWord(ws: seq<string>, last: string, shown: string, w: string)
    requires Split(w) == [w] && |ws| + 1 < ChunkSize
    ensures Step(Acc(Chunker(ws, [], []), last, shown), last + " " + w)
            == Acc(Chunker(ws + [w], [], []), last + " " + w, w)
  {
    assert NewWords(last, last + " " + w) == [w] && NewText(last, last + " " + w) == w by {
      SplitWords(w);
      assert IsWord([w][0]);
      NextText(last, w);
    }
    StepBelowThreshold(Acc(Chunker(ws, [], []), last, shown), last + " " + w);
  }

  /** A single word given to a fresh handler is all of its new text. */
  lemma FirstText(a: string)
    requires IsWord(a)
    ensures NewWords("", a) == [a] && NewText("", a) == a
  {
    assert NewText("", a) == a by {
      assert StartsWith(a, "");
      assert a[0..] == a;
      StripWord(a);
    }
    SplitWord(a);
  }

  /** An alternative that extends `last` by a space and one word contributes
      exactly that word, stripped of the space. */
  lemma NextText(last: string, w: string)
    requires IsWord(w)
    ensures NewWords(last, last + " " + w) == [w] && NewText(last, last + " " + w) == w
  {
    var alt := last + " " + w;
    assert StartsWith(alt, last) && alt[|last|..] == " " + w by {
      assert alt[..|last|] == last;
    }
    assert Strip(" " + w) == w by {
      assert (" " + w)[1..] == w;
      assert LeadingSpace(" " + w) == 1 by {
        assert LeadingSpace(w) == 0;
      }
      StripWord(w);
    }
    SplitWord(w);
  }
}
