/** The `\w+` tokenisation behind `re.sub(r'\w+', f, chunk)`: a chunk is cut
    into maximal runs of word characters (the matches handed to `f`) and
    maximal runs of other characters (copied through). */
module Tokens {

  /** `\w` restricted to ASCII: letters, digits and the underscore. */
  predicate IsWordChar(c: char) {
    ('a' <= c <= 'z') || ('A' <= c <= 'Z') || ('0' <= c <= '9') || c == '_'
  }

  /** A token: a non-empty string of word characters. */
  predicate IsToken(w: string) {
    |w| > 0 && forall k :: 0 <= k < |w| ==> IsWordChar(w[k])
  }

  /** A run: non-empty, every character of the same kind as the first. */
  predicate IsRun(r: string) {
    |r| > 0 && forall k :: 0 <= k < |r| ==> IsWordChar(r[k]) == IsWordChar(r[0])
  }

  /** A run of word characters, i.e. a match of `\w+`. */
  predicate IsWordRun(r: string) {
    |r| > 0 && IsWordChar(r[0])
  }

  /** A cut into maximal runs: every piece is a run and neighbours differ in kind. */
  ghost predicate WellFormed(runs: seq<string>) {
    (forall i :: 0 <= i < |runs| ==> IsRun(runs[i]))
    && (forall i :: 0 <= i < |runs| - 1 ==> IsWordChar(runs[i][0]) != IsWordChar(runs[i + 1][0]))
  }

  function Concat(runs: seq<string>): string {
    if runs == [] then [] else runs[0] + Concat(runs[1..])
  }

  /** The length of the longest prefix of `s` whose characters are of the kind of `s[0]`. */
  function RunLength(s: string): (n: nat)
    requires |s| > 0
    ensures 1 <= n <= |s|
    ensures forall k :: 0 <= k < n ==> IsWordChar(s[k]) == IsWordChar(s[0])
    ensures n < |s| ==> IsWordChar(s[n]) != IsWordChar(s[0])
  {
    if |s| == 1 || IsWordChar(s[1]) != IsWordChar(s[0]) then 1 else 1 + RunLength(s[1..])
  }

  /** The runs of `s`, left to right: the word runs are the successive matches
      of `\w+`, the other runs the text between them. */
  function Tokenize(s: string): seq<string>
    decreases |s|
  {
    if s == [] then []
    else
      var n := RunLength(s);
      [s[..n]] + Tokenize(s[n..])
  }

  /** A run in front of a cut into maximal runs, of the other kind than the
      cut's first run, is again a cut into maximal runs. */
  lemma {:induction false} WellFormedCons(r: string, rest: seq<string>)
    requires IsRun(r) && WellFormed(rest)
    requires rest != [] ==> IsWordChar(rest[0][0]) != IsWordChar(r[0])
    ensures WellFormed([r] + rest)
  {
    var runs := [r] + rest;
    forall i | 0 <= i < |runs|
      ensures IsRun(runs[i])
    {
      if i > 0 {
        assert runs[i] == rest[i - 1];
      }
    }
    forall i | 0 <= i < |runs| - 1
      ensures IsWordChar(runs[i][0]) != IsWordChar(runs[i + 1][0])
    {
      if i > 0 {
        assert runs[i] == rest[i - 1] && runs[i + 1] == rest[i];
      }
    }
  }

  lemma {:induction false} ConcatHead(runs: seq<string>)
    requires runs != [] && |runs[0]| > 0
    ensures Concat(runs) != [] && Concat(runs)[0] == runs[0][0]
  {
  }

  lemma {:induction false} ConcatCons(r: string, rest: seq<string>)
    ensures Concat([r] + rest) == r + Concat(rest)
  {
    assert ([r] + rest)[1..] == rest;
  }

  lemma {:induction false} ConcatAppend(runs: seq<string>, r: string)
    ensures Concat(runs + [r]) == Concat(runs) + r
  {
    if runs == [] {
      assert [r][1..] == [];
    } else {
      ConcatAppend(runs[1..], r);
      assert (runs + [r])[1..] == runs[1..] + [r];
    }
  }

  /** The first run that `RunLength` measures is a run, and what follows it
      starts with the other kind of character. */
  lemma {:induction false} RunPrefix(s: string)
    requires |s| > 0
    ensures IsRun(s[..RunLength(s)])
    ensures RunLength(s) < |s| ==> IsWordChar(s[RunLength(s)]) != IsWordChar(s[0])
  {
    var r := s[..RunLength(s)];
    forall k | 0 <= k < |r|
      ensures IsWordChar(r[k]) == IsWordChar(r[0])
    {
      assert r[k] == s[k];
    }
  }

  /** Putting a run in front of a cut of `t` that starts with the other kind of
      character gives a cut of `r + t`. */
  lemma {:induction false} CutCons(r: string, rest: seq<string>, t: string)
    requires IsRun(r) && WellFormed(rest) && Concat(rest) == t
    requires t != [] ==> IsWordChar(t[0]) != IsWordChar(r[0])
    ensures WellFormed([r] + rest) && Concat([r] + rest) == r + t
  {
    ConcatCons(r, rest);
    if rest != [] {
      assert IsRun(rest[0]);
      ConcatHead(rest);
    }
    WellFormedCons(r, rest);
  }

  /** The first run of `s` in front of a cut of the rest into maximal runs
      is a cut of `s` into maximal runs. */
  lemma {:induction false} CutFirstRun(s: string, rest: seq<string>)
    requires |s| > 0
    requires WellFormed(rest) && Concat(rest) == s[RunLength(s)..]
    ensures WellFormed([s[..RunLength(s)]] + rest) && Concat([s[..RunLength(s)]] + rest) == s
  {
    var n := RunLength(s);
    RunPrefix(s);
    CutCons(s[..n], rest, s[n..]);
    assert s == s[..n] + s[n..];
  }

  /** Tokenisation cuts `s` into maximal runs whose concatenation is `s`. */
  lemma {:induction false} TokenizeSpec(s: string)
    ensures WellFormed(Tokenize(s))
    ensures Concat(Tokenize(s)) == s
    decreases |s|
  {
    if s != [] {
      var n := RunLength(s);
      TokenizeSpec(s[n..]);
      CutFirstRun(s, Tokenize(s[n..]));
    }
  }

  /** Tokenisation is the only cut into maximal runs: cutting the
      concatenation of a well-formed cut gives that cut back. */
  lemma {:induction false} TokenizeConcat(runs: seq<string>)
    requires WellFormed(runs)
    ensures Tokenize(Concat(runs)) == runs
  {
    if runs != [] {
      var s := Concat(runs);
      var r0 := runs[0];
      var t := Concat(runs[1..]);
      assert WellFormed(runs[1..]);
      TokenizeConcat(runs[1..]);
      if runs[1..] != [] {
        assert t[0] == runs[1][0];
      }
      assert s[..|r0|] == r0 && s[|r0|..] == t;
      assert forall k :: 0 <= k < |r0| ==> IsWordChar(s[k]) == IsWordChar(s[0]);
      assert |r0| < |s| ==> IsWordChar(s[|r0|]) != IsWordChar(s[0]);
      assert RunLength(s) == |r0|;
    }
  }

  /** `out` replaces each word run of `runs` by an anagram of it and keeps every
      other run: what both substitutions of the codec do to a chunk. */
  predicate Reshaped(runs: seq<string>, out: seq<string>) {
    |out| == |runs|
    && forall i :: 0 <= i < |runs| ==>
         if IsWordRun(runs[i]) then multiset(out[i]) == multiset(runs[i]) else out[i] == runs[i]
  }

  /** An anagram of a token is a token. */
  lemma {:induction false} AnagramOfToken(w: string, x: string)
    requires IsToken(w) && multiset(x) == multiset(w)
    ensures IsToken(x)
  {
    assert |x| == |multiset(x)| == |w|;
    forall k | 0 <= k < |x|
      ensures IsWordChar(x[k])
    {
      assert x[k] in multiset(x);
      assert x[k] in w;
    }
  }

  lemma {:induction false} ReshapedPositions(runs: seq<string>, out: seq<string>)
    requires WellFormed(runs) && Reshaped(runs, out)
    ensures |Concat(out)| == |Concat(runs)|
    ensures multiset(Concat(out)) == multiset(Concat(runs))
    ensures forall k :: 0 <= k < |Concat(runs)| ==>
              IsWordChar(Concat(out)[k]) == IsWordChar(Concat(runs)[k])
    ensures forall k :: 0 <= k < |Concat(runs)| && !IsWordChar(Concat(runs)[k]) ==>
              Concat(out)[k] == Concat(runs)[k]
  {
    if runs != [] {
      var r0, o0 := runs[0], out[0];
      assert WellFormed(runs[1..]);
      assert Reshaped(runs[1..], out[1..]) by {
        forall i | 0 <= i < |runs[1..]|
          ensures if IsWordRun(runs[1..][i]) then multiset(out[1..][i]) == multiset(runs[1..][i])
                  else out[1..][i] == runs[1..][i]
        {
          assert runs[1..][i] == runs[i + 1] && out[1..][i] == out[i + 1];
        }
      }
      ReshapedPositions(runs[1..], out[1..]);
      assert IsRun(r0);
      if IsWordRun(r0) {
        AnagramOfToken(r0, o0);
      }
      assert |o0| == |multiset(o0)| == |r0|;
      var s, t := Concat(runs), Concat(out);
      forall k | 0 <= k < |s|
        ensures IsWordChar(t[k]) == IsWordChar(s[k])
        ensures !IsWordChar(s[k]) ==> t[k] == s[k]
      {
        if k < |r0| {
          assert s[k] == r0[k] && t[k] == o0[k];
        } else {
          assert s[k] == Concat(runs[1..])[k - |r0|] && t[k] == Concat(out[1..])[k - |r0|];
        }
      }
    }
  }

  /** Replacing word runs by anagrams gives a cut into maximal runs again. */
  lemma {:induction false} ReshapedWellFormed(runs: seq<string>, out: seq<string>)
    requires WellFormed(runs) && Reshaped(runs, out)
    ensures WellFormed(out)
    ensures Tokenize(Concat(out)) == out
  {
    forall i | 0 <= i < |out|
      ensures IsRun(out[i]) && IsWordChar(out[i][0]) == IsWordChar(runs[i][0])
    {
      assert IsRun(runs[i]);
      if IsWordRun(runs[i]) {
        AnagramOfToken(runs[i], out[i]);
      }
    }
    TokenizeConcat(out);
  }

  /** Replacing word runs by anagrams keeps the shape of a chunk: the result
      cuts back into the new runs, has the old length and characters, and every
      non-word character stays at its index. */
  lemma {:induction false} ReshapedShape(runs: seq<string>, out: seq<string>)
    requires WellFormed(runs) && Reshaped(runs, out)
    ensures WellFormed(out)
    ensures Tokenize(Concat(out)) == out
    ensures |Concat(out)| == |Concat(runs)|
    ensures multiset(Concat(out)) == multiset(Concat(runs))
    ensures forall k :: 0 <= k < |Concat(runs)| ==>
              IsWordChar(Concat(out)[k]) == IsWordChar(Concat(runs)[k])
    ensures forall k :: 0 <= k < |Concat(runs)| && !IsWordChar(Concat(runs)[k]) ==>
              Concat(out)[k] == Concat(runs)[k]
  {
    ReshapedWellFormed(runs, out);
    ReshapedPositions(runs, out);
  }
}
