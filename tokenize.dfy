/**
 * `split(line, ch)`: the words of a line, that is the maximal runs of
 * characters other than `ch`, from left to right.  The command loop splits
 * input lines on ' ' and the change-directory command splits paths on '/'.
 */
module Tokenize {

  predicate Free(s: string, ch: char)
  {
    forall k :: 0 <= k < |s| ==> s[k] != ch
  }

  /** The longest prefix of `s` that does not contain `ch`. */
  function Word(s: string, ch: char): (w: string)
    ensures |w| <= |s| && w == s[..|w|]
    ensures Free(w, ch)
    ensures |w| == |s| || s[|w|] == ch
    ensures s != [] && s[0] != ch ==> |w| > 0
  {
    if s == [] || s[0] == ch then [] else [s[0]] + Word(s[1..], ch)
  }

  /** The words of `s`: skip separators, take a word, repeat. */
  function SplitSpec(s: string, ch: char): seq<string>
    decreases |s|
  {
    if s == [] then []
    else if s[0] == ch then SplitSpec(s[1..], ch)
    else
      var w := Word(s, ch);
      [w] + SplitSpec(s[|w|..], ch)
  }

  lemma WordIs(s: string, ch: char, n: nat)
    requires n <= |s| && Free(s[..n], ch) && (n == |s| || s[n] == ch)
    ensures Word(s, ch) == s[..n]
  {
  }

  lemma SkipSeparator(line: string, ch: char, l: nat)
    requires l < |line| && line[l] == ch
    ensures SplitSpec(line[l..], ch) == SplitSpec(line[l + 1..], ch)
  {
    assert line[l..][1..] == line[l + 1..];
  }

  lemma TakeWord(line: string, ch: char, l: nat, r: nat)
    requires l < r <= |line| && Free(line[l..r], ch) && (r == |line| || line[r] == ch)
    ensures SplitSpec(line[l..], ch) == [line[l..r]] + SplitSpec(line[r..], ch)
  {
    assert line[l..][..r - l] == line[l..r];
    WordIs(line[l..], ch, r - l);
    assert line[l..][r - l..] == line[r..];
  }

  method Split(line: string, ch: char) returns (ret: seq<string>)
    ensures ret == SplitSpec(line, ch)
  {
    ret := [];
    var l := 0;
    while true
      invariant 0 <= l <= |line|
      invariant ret + SplitSpec(line[l..], ch) == SplitSpec(line, ch)
      decreases |line| - l
    {
      ghost var start := l;
      while l < |line| && line[l] == ch
        invariant start <= l <= |line|
        invariant ret + SplitSpec(line[l..], ch) == SplitSpec(line, ch)
      {
        SkipSeparator(line, ch, l);
        l := l + 1;
      }
      if l == |line| {
        break;
      }
      var r := l;
      while r < |line| && line[r] != ch
        invariant l <= r <= |line|
        invariant forall k :: l <= k < r ==> line[k] != ch
      {
        r := r + 1;
      }
      assert Free(line[l..r], ch);
      TakeWord(line, ch, l, r);
      assert ret + [line[l..r]] + SplitSpec(line[r..], ch) == ret + ([line[l..r]] + SplitSpec(line[r..], ch));
      ret := ret + [line[l..r]];
      l := r;
    }
    assert line[|line|..] == [];
  }

  // ---------------------------------------------------------------------
  // What the words are

  /** Every word is non-empty and free of the separator. */
  lemma {:induction false} SplitWords(s: string, ch: char)
    ensures forall i :: 0 <= i < |SplitSpec(s, ch)| ==>
              SplitSpec(s, ch)[i] != [] && Free(SplitSpec(s, ch)[i], ch)
    decreases |s|
  {
    if s != [] {
      if s[0] == ch {
        SplitWords(s[1..], ch);
      } else {
        SplitWords(s[|Word(s, ch)|..], ch);
      }
    }
  }

  /** `s` with every `ch` taken out. */
  function Strip(s: string, ch: char): string
  {
    if s == [] then [] else (if s[0] == ch then [] else [s[0]]) + Strip(s[1..], ch)
  }

  function Concat(ws: seq<string>): string
  {
    if ws == [] then [] else ws[0] + Concat(ws[1..])
  }

  lemma {:induction false} StripAppend(a: string, b: string, ch: char)
    ensures Strip(a + b, ch) == Strip(a, ch) + Strip(b, ch)
  {
    if a != [] {
      var h := if a[0] == ch then [] else [a[0]];
      assert (a + b)[0] == a[0];
      assert (a + b)[1..] == a[1..] + b;
      StripAppend(a[1..], b, ch);
      assert Strip(a + b, ch) == h + (Strip(a[1..], ch) + Strip(b, ch));
      assert Strip(a, ch) == h + Strip(a[1..], ch);
      assert h + (Strip(a[1..], ch) + Strip(b, ch)) == (h + Strip(a[1..], ch)) + Strip(b, ch);
    } else {
      assert a + b == b;
    }
  }

  lemma {:induction false} StripFree(a: string, ch: char)
    requires Free(a, ch)
    ensures Strip(a, ch) == a
  {
    if a != [] {
      StripFree(a[1..], ch);
    }
  }

  /** The words hold every non-separator character of `s`, in order. */
  lemma {:induction false} SplitKeepsCharacters(s: string, ch: char)
    ensures Concat(SplitSpec(s, ch)) == Strip(s, ch)
    decreases |s|
  {
    if s != [] {
      if s[0] == ch {
        SplitKeepsCharacters(s[1..], ch);
      } else {
        var w := Word(s, ch);
        var rest := s[|w|..];
        SplitKeepsCharacters(rest, ch);
        assert s == w + rest;
        StripAppend(w, rest, ch);
        StripFree(w, ch);
        assert ([w] + SplitSpec(rest, ch))[1..] == SplitSpec(rest, ch);
      }
    }
  }

  /** A line splits into no words exactly when it holds only separators
      (the empty line included). */
  lemma {:induction false} SplitEmpty(s: string, ch: char)
    ensures SplitSpec(s, ch) == [] <==> forall k :: 0 <= k < |s| ==> s[k] == ch
    decreases |s|
  {
    if s != [] && s[0] == ch {
      SplitEmpty(s[1..], ch);
      assert forall k :: 1 <= k < |s| ==> s[k] == s[1..][k - 1];
    }
  }

  /** The words joined with single separators. */
  function Join(ws: seq<string>, ch: char): string
  {
    if ws == [] then []
    else if |ws| == 1 then ws[0]
    else ws[0] + [ch] + Join(ws[1..], ch)
  }

  /** Splitting undoes joining non-empty, separator-free words. */
  lemma {:induction false} SplitJoin(ws: seq<string>, ch: char)
    requires forall i :: 0 <= i < |ws| ==> ws[i] != [] && Free(ws[i], ch)
    ensures SplitSpec(Join(ws, ch), ch) == ws
  {
    if ws != [] {
      var w := ws[0];
      if |ws| == 1 {
        assert w[..|w|] == w;
        WordIs(w, ch, |w|);
        assert w[|w|..] == [];
        assert ws == [w];
      } else {
        var rest := Join(ws[1..], ch);
        var s := w + [ch] + rest;
        assert s[..|w|] == w && s[|w|] == ch;
        WordIs(s, ch, |w|);
        assert s[|w|..] == [ch] + rest;
        assert ([ch] + rest)[1..] == rest;
        SplitJoin(ws[1..], ch);
      }
    }
  }

  /** A leading separator changes nothing. */
  lemma LeadingSeparator(s: string, ch: char)
    ensures SplitSpec([ch] + s, ch) == SplitSpec(s, ch)
  {
    assert ([ch] + s)[1..] == s;
  }
}
