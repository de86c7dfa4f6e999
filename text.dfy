/** The few string operations of Python's `str` the transcript logic relies on:
    `split()` and `strip()` with no argument, `startswith`, and `" ".join`.
    Strings are sequences of Unicode scalar values. */
module Text {

  /** The characters Python's argument-less `split()` and `strip()` treat as
      whitespace. */
  predicate IsSpace(c: char) {
    || c == ' '
    || ('\t' <= c <= '\r')
    || ('\U{1c}' <= c <= '\U{1f}')
    || c == '\U{85}' || c == '\U{a0}' || c == '\U{1680}'
    || ('\U{2000}' <= c <= '\U{200a}')
    || c == '\U{2028}' || c == '\U{2029}' || c == '\U{202f}'
    || c == '\U{205f}' || c == '\U{3000}'
  }

  predicate AllSpace(s: string) {
    forall i :: 0 <= i < |s| ==> IsSpace(s[i])
  }

  /** A word as `split()` produces it: non-empty and free of whitespace. */
  predicate IsWord(w: string) {
    |w| > 0 && forall i :: 0 <= i < |w| ==> !IsSpace(w[i])
  }

  predicate AllWords(ws: seq<string>) {
    forall i :: 0 <= i < |ws| ==> IsWord(ws[i])
  }

  /** `s.startswith(prefix)`; every string starts with the empty string. */
  predicate StartsWith(s: string, prefix: string) {
    |prefix| <= |s| && s[..|prefix|] == prefix
  }

  /** Length of the run of non-whitespace characters that opens `s`. */
  function WordLen(s: string): (n: nat)
    ensures n <= |s|
    ensures forall i :: 0 <= i < n ==> !IsSpace(s[i])
    ensures n < |s| ==> IsSpace(s[n])
  {
    if s == [] || IsSpace(s[0]) then 0 else 1 + WordLen(s[1..])
  }

  /** `s.split()`: the maximal whitespace-free runs of `s`, in order. */
  function Split(s: string): seq<string>
    decreases |s|
  {
    if s == [] then []
    else if IsSpace(s[0]) then Split(s[1..])
    else
      var n := WordLen(s);
      [s[..n]] + Split(s[n..])
  }

  /** Every element `split()` returns is a word, and it returns nothing
      exactly for an all-whitespace string. */
  lemma {:induction false} SplitWords(s: string)
    ensures AllWords(Split(s))
    ensures Split(s) == [] <==> AllSpace(s)
    decreases |s|
  {
    if s != [] {
      if IsSpace(s[0]) {
        SplitWords(s[1..]);
        assert AllSpace(s[1..]) ==> AllSpace(s) by {
          if AllSpace(s[1..]) {
            forall i | 0 <= i < |s| ensures IsSpace(s[i]) {
              if i > 0 { assert s[i] == s[1..][i - 1]; }
            }
          }
        }
      } else {
        var n := WordLen(s);
        SplitWords(s[n..]);
        assert IsWord(s[..n]);
      }
    }
  }

  /** `" ".join(ws)`. */
  function Join(ws: seq<string>): string {
    if |ws| == 0 then ""
    else if |ws| == 1 then ws[0]
    else ws[0] + " " + Join(ws[1..])
  }

  /** Number of whitespace characters that open `s`. */
  function LeadingSpace(s: string): (n: nat)
    ensures n <= |s|
    ensures forall i :: 0 <= i < n ==> IsSpace(s[i])
    ensures n < |s| ==> !IsSpace(s[n])
  {
    if s == [] || !IsSpace(s[0]) then 0 else 1 + LeadingSpace(s[1..])
  }

  /** Length of `s` once its trailing whitespace is dropped. */
  function TrimmedLength(s: string): (n: nat)
    ensures n <= |s|
    ensures forall i :: n <= i < |s| ==> IsSpace(s[i])
    ensures n > 0 ==> !IsSpace(s[n - 1])
  {
    if s == [] || !IsSpace(s[|s| - 1]) then |s| else TrimmedLength(s[..|s| - 1])
  }

  /** `s.lstrip()`. */
  function LStrip(s: string): string {
    s[LeadingSpace(s)..]
  }

  /** `s.rstrip()`. */
  function RStrip(s: string): string {
    s[..TrimmedLength(s)]
  }

  /** `s.strip()`: `s` without its leading and trailing whitespace. */
  function Strip(s: string): string {
    RStrip(LStrip(s))
  }

  /** `strip()` neither starts nor ends with whitespace. */
  lemma StripEnds(s: string)
    ensures var r := Strip(s);
            r == [] || (!IsSpace(r[0]) && !IsSpace(r[|r| - 1]))
  {
    var i := LeadingSpace(s);
    var l := LStrip(s);
    var n := TrimmedLength(l);
    if n > 0 {
      assert Strip(s)[0] == l[0] == s[i];
      assert Strip(s)[n - 1] == l[n - 1];
    }
  }

  /** `strip()` gives the slice of `s` that starts after the leading
      whitespace, and whatever it cut off either side is whitespace. */
  lemma StripSlice(s: string)
    ensures var i := LeadingSpace(s);
            var r := Strip(s);
            && i + |r| <= |s| && r == s[i..i + |r|]
            && AllSpace(s[..i]) && AllSpace(s[i + |r|..])
  {
    var i := LeadingSpace(s);
    var l := LStrip(s);
    var n := TrimmedLength(l);
    assert Strip(s) == s[i..i + n];
    forall k | i + n <= k < |s| ensures IsSpace(s[k]) {
      assert s[k] == l[k - i];
    }
  }

  lemma {:induction false} WordLenAppend(a: string, b: string)
    requires WordLen(a) < |a| || b == [] || IsSpace(b[0])
    ensures WordLen(a + b) == WordLen(a)
    decreases |a|
  {
    if a == [] {
      assert a + b == b;
    } else if !IsSpace(a[0]) {
      assert (a + b)[1..] == a[1..] + b;
      WordLenAppend(a[1..], b);
    }
  }

  /** Splitting distributes over concatenation when the two parts meet at
      whitespace (or one of them is empty): no word straddles the seam. */
  lemma {:induction false} SplitAppend(a: string, b: string)
    requires a == [] || b == [] || IsSpace(a[|a| - 1]) || IsSpace(b[0])
    ensures Split(a + b) == Split(a) + Split(b)
    decreases |a|, 1
  {
    if a == [] {
      assert a + b == b;
    } else if IsSpace(a[0]) {
      SplitAppendSpace(a, b);
    } else {
      SplitAppendWord(a, b);
    }
  }

  /** `SplitAppend` when `a` opens with whitespace. */
  lemma {:induction false} SplitAppendSpace(a: string, b: string)
    requires a != [] && IsSpace(a[0])
    requires b == [] || IsSpace(a[|a| - 1]) || IsSpace(b[0])
    ensures Split(a + b) == Split(a) + Split(b)
    decreases |a|, 0
  {
    assert Split(a + b) == Split(a[1..] + b) by {
      assert (a + b)[0] == a[0];
      assert (a + b)[1..] == a[1..] + b;
    }
    SplitAppend(a[1..], b);
  }

  /** `SplitAppend` when `a` opens with a word. */
  lemma {:induction false} SplitAppendWord(a: string, b: string)
    requires a != [] && !IsSpace(a[0])
    requires b == [] || IsSpace(a[|a| - 1]) || IsSpace(b[0])
    ensures Split(a + b) == Split(a) + Split(b)
    decreases |a|, 0
  {
    var n := WordLen(a);
    assert Split(a + b) == [a[..n]] + Split(a[n..] + b) by {
      assert n < |a| || b == [] || IsSpace(b[0]) by {
        if n == |a| { assert !IsSpace(a[|a| - 1]); }
      }
      WordLenAppend(a, b);
      assert (a + b)[0] == a[0];
      assert (a + b)[..n] == a[..n];
      assert (a + b)[n..] == a[n..] + b;
    }
    assert a[n..] == [] || IsSpace(a[n..][|a[n..]| - 1]) || b == [] || IsSpace(b[0]);
    SplitAppend(a[n..], b);
  }

  lemma {:induction false} SplitWord(w: string)
    requires IsWord(w)
    ensures Split(w) == [w]
  {
    assert WordLen(w) == |w|;
    assert w[..|w|] == w;
  }

  lemma StripWord(w: string)
    requires IsWord(w)
    ensures Strip(w) == w
  {
    assert LeadingSpace(w) == 0 && TrimmedLength(w) == |w|;
    assert w[0..] == w;
    assert w[..|w|] == w;
  }

  /** Round trip: splitting the space-join of words gives the words back. */
  lemma {:induction false} SplitJoin(ws: seq<string>)
    requires AllWords(ws)
    ensures Split(Join(ws)) == ws
  {
    if |ws| == 1 {
      SplitWord(ws[0]);
    } else if |ws| > 1 {
      var rest := Join(ws[1..]);
      assert Join(ws) == ws[0] + (" " + rest);
      SplitAppend(ws[0], " " + rest);
      SplitWord(ws[0]);
      assert (" " + rest)[1..] == rest;
      SplitJoin(ws[1..]);
    }
  }

  /** Leading whitespace never changes the words `split()` finds. */
  lemma {:induction false} SplitLStrip(s: string)
    ensures Split(LStrip(s)) == Split(s)
  {
    var k := LeadingSpace(s);
    assert s == s[..k] + s[k..];
    if k > 0 {
      assert IsSpace(s[..k][k - 1]);
    }
    SplitWords(s[..k]);
    SplitAppend(s[..k], s[k..]);
  }

  /** Trailing whitespace never changes the words `split()` finds. */
  lemma {:induction false} SplitRStrip(s: string)
    ensures Split(RStrip(s)) == Split(s)
  {
    var n := TrimmedLength(s);
    assert s == s[..n] + s[n..];
    if n < |s| {
      assert IsSpace(s[n..][0]);
    }
    SplitWords(s[n..]);
    SplitAppend(s[..n], s[n..]);
  }

  /** Stripping first never changes the words `split()` finds. */
  lemma {:induction false} SplitStrip(s: string)
    ensures Split(Strip(s)) == Split(s)
  {
    SplitLStrip(s);
    SplitRStrip(LStrip(s));
  }
}
