/** What decoding an encoded text gives back: the text itself when no two
    different tokens of it are anagrams of each other, and a text with
    anagram tokens swapped otherwise. */
module RoundTrip {
  import opened PyStr
  import opened Tokens
  import opened Weird

  // ---------------------------------------------------------------------------
  // Reading the wrapper back

  /** Where the pieces of a wrapped text lie: the first boundary, the body,
      the second boundary at `q`, and the keys part. */
  lemma {:induction false} WrappedLayout(body: string, ks: string)
    ensures var s, q := Boundary + body + Boundary + ks, 13 + |body|;
            && |s| == q + 13 + |ks| && s[..13] == Boundary && s[13..q] == body
            && s[q..q + 13] == Boundary && s[q + 13..] == ks
  {
    var s, q := Boundary + body + Boundary + ks, 13 + |body|;
    var t := Boundary + ks;
    assert s == (Boundary + body) + t;
    assert s[..q] == Boundary + body && s[q..] == t;
    assert s[..13] == (Boundary + body)[..13] && s[13..q] == (Boundary + body)[13..];
    assert s[q..q + 13] == t[..13] && s[q + 13..] == t[13..];
  }

  /** A string that starts with a boundary has its first opener at index 1. */
  lemma {:induction false} FirstOpenerAt(s: string)
    requires 13 <= |s| && s[..13] == Boundary
    ensures FindFirst(s, Opener, 0) == Some(1)
  {
    assert OccursAt(s, Opener, 1) by {
      forall k | 0 <= k < 12
        ensures s[1 + k] == Opener[k]
      {
        assert s[1 + k] == s[..13][1 + k] == Boundary[1 + k];
      }
    }
    assert !OccursAt(s, Opener, 0) by {
      assert s[0 + 0] == s[..13][0] == '\n' != Opener[0];
    }
  }

  /** `FindLast` stops at an occurrence when none lies beyond it. */
  lemma {:induction false} FindLastAt(s: string, pat: string, from: nat, hi: int, q: nat)
    requires from <= q <= hi && OccursAt(s, pat, q)
    requires forall j: nat :: q < j <= hi ==> !OccursAt(s, pat, j)
    ensures FindLast(s, pat, from, hi) == Some(q)
    decreases hi - q
  {
    if q < hi {
      FindLastAt(s, pat, from, hi - 1, q);
    }
  }

  /** No closer starts after a boundary at `q` that is followed by a part
      without newlines which does not start with `-`. */
  lemma {:induction false} NoCloserAfter(s: string, q: nat, j: nat)
    requires q + 13 <= |s| && s[q..q + 13] == Boundary
    requires '\n' !in s[q + 13..] && (q + 13 == |s| || s[q + 13] != '-')
    requires q < j <= |s| - 12
    ensures !OccursAt(s, Closer, j)
  {
    assert Closer[0] == '\n' && Closer[1] == '-';
    if j < q + 12 {
      assert s[j + 0] == s[q..q + 13][j - q] == Boundary[j - q] != Closer[0];
    } else if j == q + 12 {
      assert s[j + 1] != Closer[1];
    } else {
      assert s[j + 0] == s[q + 13..][j - q - 13] != Closer[0];
    }
  }

  /** The last closer is the one that starts the second boundary. */
  lemma {:induction false} LastCloserAt(s: string, q: nat)
    requires 13 <= q && q + 13 <= |s| && s[q..q + 13] == Boundary
    requires '\n' !in s[q + 13..] && (q + 13 == |s| || s[q + 13] != '-')
    ensures FindLast(s, Closer, 13, |s| - 12) == Some(q)
  {
    assert OccursAt(s, Closer, q) by {
      forall k | 0 <= k < 12
        ensures s[q + k] == Closer[k]
      {
        assert s[q + k] == s[q..q + 13][k] == Boundary[k];
      }
    }
    forall j: nat | q < j <= |s| - 12
      ensures !OccursAt(s, Closer, j)
    {
      NoCloserAfter(s, q, j);
    }
    FindLastAt(s, Closer, 13, |s| - 12, q);
  }

  /** `_get_text` reads the groups off the first opener and the last closer after it. */
  lemma {:induction false} GetTextFrom(s: string, q: nat)
    requires 13 <= q <= |s| - 12
    requires FindFirst(s, Opener, 0) == Some(1)
    requires FindLast(s, Closer, 13, |s| - 12) == Some(q)
    ensures GetText(s) == Some((s[13..q], s[q + 12..]))
  {
    BoundaryParts();
  }

  /** `_get_text` on a string laid out as a wrapped text. */
  lemma {:induction false} GetTextOfLayout(s: string, q: nat, body: string, ks: string)
    requires '\n' !in ks && (ks == [] || ks[0] != '-')
    requires q == 13 + |body| && |s| == q + 13 + |ks| && s[..13] == Boundary && s[13..q] == body
    requires s[q..q + 13] == Boundary && s[q + 13..] == ks
    ensures GetText(s) == Some((body, "\n" + ks))
  {
    assert FindFirst(s, Opener, 0) == Some(1) by {
      FirstOpenerAt(s);
    }
    assert FindLast(s, Closer, 13, |s| - 12) == Some(q) by {
      LastCloserAt(s, q);
    }
    GetTextFrom(s, q);
    assert s[q + 12..] == "\n" + ks by {
      assert s[q + 12] == s[q..q + 13][12] == '\n';
      assert s[q + 12..] == [s[q + 12]] + s[q + 13..];
    }
  }

  /** `_get_text` on a wrapped text: the body comes back whatever it holds,
      and the keys part comes back with the newline of the second boundary in
      front, as long as that part has no newline and does not start with `-`. */
  lemma {:induction false} GetTextOfWrapped(body: string, ks: string)
    requires '\n' !in ks && (ks == [] || ks[0] != '-')
    ensures GetText(Boundary + body + Boundary + ks) == Some((body, "\n" + ks))
  {
    WrappedLayout(body, ks);
    GetTextOfLayout(Boundary + body + Boundary + ks, 13 + |body|, body, ks);
  }

  lemma {:induction false} TokenHasNoSpace(w: string)
    requires IsToken(w)
    ensures ' ' !in w && '\n' !in w
    ensures !IsSpace(w[0]) && !IsSpace(w[|w| - 1])
  {
  }

  lemma {:induction false} KeychainOfNothing()
    ensures Keychain("\n") == [""]
  {
    SplitWithoutSep("\n", ' ');
    StripPadding("\n", "", "");
    assert "\n" + "" + "" == "\n";
  }

  /** The pieces `keys.split(' ')` gives for the keys part of a wrapped text. */
  lemma {:induction false} SplitKeys(keys: seq<string>)
    requires keys != [] && forall i :: 0 <= i < |keys| ==> IsToken(keys[i])
    ensures Split("\n" + Join(keys, ' '), ' ') == [['\n'] + keys[0]] + keys[1..]
  {
    var parts := [['\n'] + keys[0]] + keys[1..];
    JoinPrefix(['\n'], keys, ' ');
    forall i | 0 <= i < |parts|
      ensures ' ' !in parts[i]
    {
      TokenHasNoSpace(keys[i]);
    }
    SplitJoin(parts, ' ');
  }

  /** A token is its own `strip()`. */
  lemma {:induction false} StripToken(w: string)
    requires IsToken(w)
    ensures Strip(w) == w
  {
    TokenHasNoSpace(w);
    StripPadding([], w, []);
    assert [] + w + [] == w;
  }

  /** The newline in front of the first key is stripped away. */
  lemma {:induction false} StripNewlineToken(w: string)
    requires IsToken(w)
    ensures Strip(['\n'] + w) == w
  {
    TokenHasNoSpace(w);
    StripPadding(['\n'], w, []);
    assert ['\n'] + w + [] == ['\n'] + w;
  }

  lemma {:induction false} StripAllAt(parts: seq<string>, i: nat)
    requires i < |parts|
    ensures StripAll(parts)[i] == Strip(parts[i])
  {
    if i > 0 {
      StripAllAt(parts[1..], i - 1);
      assert parts[1..][i - 1] == parts[i];
    }
  }

  lemma {:induction false} StripAllTokens(keys: seq<string>)
    requires forall i :: 0 <= i < |keys| ==> IsToken(keys[i])
    ensures StripAll(keys) == keys
  {
    forall i | 0 <= i < |keys|
      ensures StripAll(keys)[i] == keys[i]
    {
      StripAllAt(keys, i);
      StripToken(keys[i]);
    }
  }

  lemma {:induction false} StripAllKeys(keys: seq<string>)
    requires keys != [] && forall i :: 0 <= i < |keys| ==> IsToken(keys[i])
    ensures StripAll([['\n'] + keys[0]] + keys[1..]) == keys
  {
    var parts := [['\n'] + keys[0]] + keys[1..];
    StripNewlineToken(keys[0]);
    StripAllTokens(keys[1..]);
    assert parts[1..] == keys[1..];
    assert StripAll(parts) == [Strip(parts[0])] + StripAll(keys[1..]);
  }

  lemma {:induction false} KeychainOfKeys(keys: seq<string>)
    requires keys != [] && forall i :: 0 <= i < |keys| ==> IsToken(keys[i])
    ensures Keychain("\n" + Join(keys, ' ')) == keys
  {
    SplitKeys(keys);
    StripAllKeys(keys);
  }

  /** The keychain `decode_text` rebuilds from the keys part of a wrapped
      text is the keychain that was written, or `[""]` when it was empty. */
  lemma {:induction false} KeychainOfJoin(keys: seq<string>)
    requires forall i :: 0 <= i < |keys| ==> IsToken(keys[i])
    ensures Keychain("\n" + Join(keys, ' ')) == if keys == [] then [""] else keys
  {
    if keys == [] {
      KeychainOfNothing();
    } else {
      KeychainOfKeys(keys);
    }
  }

  // ---------------------------------------------------------------------------
  // What encoding puts in the keychain and in the body

  /** Every keychain entry that encoding a chunk adds is one of its tokens
      that the shuffle changes. */
  lemma {:induction false} OriginalsAreTokens(runs: seq<string>)
    requires WellFormed(runs)
    ensures forall x :: x in Originals(runs) ==> IsToken(x) && !Fixed(x) && x in runs
  {
    if runs != [] {
      assert WellFormed(runs[1..]);
      OriginalsAreTokens(runs[1..]);
      assert IsRun(runs[0]);
    }
  }

  /** Every keychain entry that encoding a text adds is one of its tokens
      that the shuffle changes. */
  lemma {:induction false} OriginalsOfAreWords(chunks: seq<string>)
    ensures forall x :: x in OriginalsOf(chunks) ==> IsToken(x) && !Fixed(x) && x in Words(chunks)
  {
    if chunks != [] {
      OriginalsOfAreWords(chunks[1..]);
      TokenizeSpec(chunks[0]);
      OriginalsAreTokens(Tokenize(chunks[0]));
    }
  }

  /** Encoding a chunk keeps its length and its kind of character at every
      index, and every character that is not a word character. */
  lemma {:induction false} EncodedChunkChars(c: string, e: string)
    requires EncodedChunk(c, e)
    ensures |e| == |c|
    ensures forall k :: 0 <= k < |c| ==> IsWordChar(e[k]) == IsWordChar(c[k])
    ensures forall k :: 0 <= k < |c| && !IsWordChar(c[k]) ==> e[k] == c[k]
  {
    TokenizeSpec(c);
    TokenizeSpec(e);
    EncodedRunsReshaped(Tokenize(c), Tokenize(e));
    ReshapedShape(Tokenize(c), Tokenize(e));
  }

  /** A chunk without spaces stays without spaces. */
  lemma {:induction false} EncodedChunkNoSpace(c: string, e: string)
    requires EncodedChunk(c, e) && ' ' !in c
    ensures ' ' !in e
  {
    EncodedChunkChars(c, e);
    forall k | 0 <= k < |e|
      ensures e[k] != ' '
    {
      assert c[k] != ' ';
    }
  }

  lemma {:induction false} ConcatEnds(runs: seq<string>)
    requires runs != [] && forall i :: 0 <= i < |runs| ==> |runs[i]| > 0
    ensures |Concat(runs)| > 0 && Concat(runs)[0] == runs[0][0]
    ensures var c, r := Concat(runs), runs[|runs| - 1]; c[|c| - 1] == r[|r| - 1]
  {
    var n := |runs|;
    ConcatAppend(runs[..n - 1], runs[n - 1]);
    assert runs[..n - 1] + [runs[n - 1]] == runs;
  }

  /** An encoded run is non-empty and keeps its first and its last character. */
  lemma {:induction false} EncodedRunEnds(r: string, o: string)
    requires IsRun(r)
    requires if IsWordRun(r) then ShuffleOutcome(r, o) else o == r
    ensures |o| > 0 && o[0] == r[0] && o[|o| - 1] == r[|r| - 1]
  {
    if IsWordRun(r) {
      ShuffleOutcomeIsAnagram(r, o);
    }
  }

  lemma {:induction false} RunsKeepEnds(runs: seq<string>, out: seq<string>)
    requires runs != [] && WellFormed(runs) && EncodedRuns(runs, out)
    ensures |Concat(out)| > 0 && Concat(out)[0] == Concat(runs)[0]
    ensures var c, e := Concat(runs), Concat(out); e[|e| - 1] == c[|c| - 1]
  {
    var n := |runs|;
    forall i | 0 <= i < n
      ensures |runs[i]| > 0 && |out[i]| > 0
    {
      assert IsRun(runs[i]);
      EncodedRunEnds(runs[i], out[i]);
    }
    EncodedRunEnds(runs[0], out[0]);
    EncodedRunEnds(runs[n - 1], out[n - 1]);
    ConcatEnds(runs);
    ConcatEnds(out);
  }

  /** Encoding a non-empty chunk keeps its first and its last character. */
  lemma {:induction false} EncodedKeepsEnds(c: string, e: string)
    requires EncodedChunk(c, e) && |c| > 0
    ensures |e| == |c| && e[0] == c[0] && e[|e| - 1] == c[|c| - 1]
  {
    EncodedChunkChars(c, e);
    TokenizeSpec(c);
    TokenizeSpec(e);
    RunsKeepEnds(Tokenize(c), Tokenize(e));
  }

  lemma {:induction false} OriginalsNonEmpty(runs: seq<string>)
    requires Originals(runs) != []
    ensures exists j :: 0 <= j < |runs| && IsWordRun(runs[j]) && !Fixed(runs[j])
  {
    if !(IsWordRun(runs[0]) && !Fixed(runs[0])) {
      OriginalsNonEmpty(runs[1..]);
      var j :| 0 <= j < |runs[1..]| && IsWordRun(runs[1..][j]) && !Fixed(runs[1..][j]);
      assert runs[1..][j] == runs[j + 1];
    }
  }

  lemma {:induction false} OriginalsOfNonEmpty(chunks: seq<string>)
    requires OriginalsOf(chunks) != []
    ensures exists i :: 0 <= i < |chunks| && Originals(Tokenize(chunks[i])) != []
  {
    if Originals(Tokenize(chunks[0])) == [] {
      OriginalsOfNonEmpty(chunks[1..]);
      var i :| 0 <= i < |chunks[1..]| && Originals(Tokenize(chunks[1..][i])) != [];
      assert chunks[1..][i] == chunks[i + 1];
    }
  }

  /** The encoded body differs from the text as soon as the text has a token
      the shuffle changes, i.e. as soon as the keychain is not empty. */
  lemma {:induction false} EncodingChanges(text: string, enc: seq<string>)
    requires EncodedChunks(Split(text, ' '), enc)
    requires OriginalsOf(Split(text, ' ')) != []
    ensures Join(enc, ' ') != text
  {
    var chunks := Split(text, ' ');
    OriginalsOfNonEmpty(chunks);
    var i :| 0 <= i < |chunks| && Originals(Tokenize(chunks[i])) != [];
    var runs := Tokenize(chunks[i]);
    OriginalsNonEmpty(runs);
    var j :| 0 <= j < |runs| && IsWordRun(runs[j]) && !Fixed(runs[j]);
    assert EncodedChunk(chunks[i], enc[i]);
    assert Tokenize(enc[i])[j] != runs[j];
    assert enc[i] != chunks[i];
    forall k | 0 <= k < |enc|
      ensures ' ' !in enc[k]
    {
      assert EncodedChunk(chunks[k], enc[k]);
      EncodedChunkNoSpace(chunks[k], enc[k]);
    }
    SplitJoin(enc, ' ');
  }

  // ---------------------------------------------------------------------------
  // Decoding undoes encoding

  /** No two different words are made of the same characters. */
  ghost predicate AnagramFree(words: set<string>) {
    forall a, b :: a in words && b in words && multiset(a) == multiset(b) ==> a == b
  }

  /** Every keychain entry is empty or a word of `words` that the shuffle changes. */
  ghost predicate KeysWithin(keys: seq<string>, words: set<string>) {
    forall k :: k in keys ==> k == [] || (k in words && !Fixed(k))
  }

  lemma {:induction false} KeysWithinSub(keys: seq<string>, keys': seq<string>, words: set<string>)
    requires KeysWithin(keys, words) && multiset(keys') <= multiset(keys)
    ensures KeysWithin(keys', words)
  {
    forall k | k in keys'
      ensures k in keys
    {
      assert k in multiset(keys');
    }
  }

  /** `_deshuffle_inside` on the shuffle of a token `o` gives `o` back, and
      pops `o` from the keychain exactly when encoding pushed it. */
  lemma {:induction false} UnshuffleInverts(keys: seq<string>, o: string, e: string, words: set<string>)
    requires IsWordRun(o) && ShuffleOutcome(o, e) && o in words
    requires AnagramFree(words) && KeysWithin(keys, words)
    requires !Fixed(o) ==> o in keys
    ensures NextStep(keys, e).word == o
    ensures multiset(NextStep(keys, e).keys) + multiset(Originals([o])) == multiset(keys)
  {
    ShuffleOutcomeIsAnagram(o, e);
    assert IsWordRun(e);
    var u := Unshuffle(keys, e);
    assert NextStep(keys, e) == u;
    assert o[0] in multiset(o);
    assert Originals([o]) == (if !Fixed(o) then [o] else []) + Originals([]);
    if Fixed(o) {
      forall j | 0 <= j < |keys|
        ensures !Same(keys[j], e)
      {
        var k := keys[j];
        assert k in keys;
        if k != [] {
          assert k != o;
        }
      }
    } else {
      var j :| 0 <= j < |keys| && keys[j] == o;
      assert Same(keys[j], e);
      assert u.word in keys;
    }
  }

  lemma {:induction false} EncodedRunsTail(runs: seq<string>, out: seq<string>)
    requires EncodedRuns(runs, out) && runs != []
    ensures EncodedRuns(runs[1..], out[1..])
  {
    forall i | 0 <= i < |runs[1..]|
      ensures if IsWordRun(runs[1..][i]) then ShuffleOutcome(runs[1..][i], out[1..][i])
              else out[1..][i] == runs[1..][i]
    {
      assert runs[1..][i] == runs[i + 1] && out[1..][i] == out[i + 1];
    }
  }

  /** One run of an encoded chunk decodes back to the run it came from. */
  lemma {:induction false} NextStepInverts(keys: seq<string>, o: string, e: string, words: set<string>)
    requires if IsWordRun(o) then ShuffleOutcome(o, e) && o in words else e == o
    requires AnagramFree(words) && KeysWithin(keys, words)
    requires multiset(Originals([o])) <= multiset(keys)
    ensures NextStep(keys, e).word == o
    ensures multiset(NextStep(keys, e).keys) + multiset(Originals([o])) == multiset(keys)
  {
    assert Originals([o]) == (if IsWordRun(o) && !Fixed(o) then [o] else []) + Originals([]);
    if IsWordRun(o) {
      assert !Fixed(o) ==> o in multiset(keys);
      UnshuffleInverts(keys, o, e, words);
    } else {
      assert !IsWordRun(e);
    }
  }

  lemma {:induction false} MultisetCancel(a: multiset<string>, b: multiset<string>, k: multiset<string>, k': multiset<string>)
    requires a + b <= k && k' + a == k
    ensures b <= k'
  {
    forall x
      ensures b[x] <= k'[x]
    {
      assert (a + b)[x] <= k[x];
    }
  }

  lemma {:induction false} MultisetShift(a: multiset<string>, b: multiset<string>, k: multiset<string>, k': multiset<string>,
                      d: multiset<string>)
    requires k' + a == k && d + b == k'
    ensures d + (a + b) == k
  {
  }

  /** The first step of `decode_word` on an encoded chunk gives back its first
      run, and leaves what the rest of the chunk needs. */
  lemma {:induction false} FirstRunInverts(keys: seq<string>, runs: seq<string>, out: seq<string>,
                                           words: set<string>)
    requires EncodedRuns(runs, out) && runs != []
    requires forall i :: 0 <= i < |runs| && IsWordRun(runs[i]) ==> runs[i] in words
    requires AnagramFree(words) && KeysWithin(keys, words)
    requires multiset(Originals(runs)) <= multiset(keys)
    ensures var s, rest := NextStep(keys, out[0]), runs[1..];
            && s.word == runs[0]
            && multiset(s.keys) + multiset(Originals([runs[0]])) == multiset(keys)
            && multiset(Originals([runs[0]])) + multiset(Originals(rest)) == multiset(Originals(runs))
            && EncodedRuns(rest, out[1..])
            && (forall i :: 0 <= i < |rest| && IsWordRun(rest[i]) ==> rest[i] in words)
            && KeysWithin(s.keys, words)
            && multiset(Originals(rest)) <= multiset(s.keys)
  {
    var o, e, rest := runs[0], out[0], runs[1..];
    var s := NextStep(keys, e);
    var a, b := multiset(Originals([o])), multiset(Originals(rest));
    assert a + b == multiset(Originals(runs)) by {
      OriginalsAppend([o], rest);
      assert [o] + rest == runs;
    }
    assert s.word == o && multiset(s.keys) + a == multiset(keys) by {
      NextStepInverts(keys, o, e, words);
    }
    MultisetCancel(a, b, multiset(keys), multiset(s.keys));
    KeysWithinSub(keys, s.keys, words);
    EncodedRunsTail(runs, out);
    forall i | 0 <= i < |rest| && IsWordRun(rest[i])
      ensures rest[i] in words
    {
      assert rest[i] == runs[i + 1];
    }
  }

  /** `decode_word` undoes `encode_word` on a chunk cut into `runs`: every
      token comes back, and exactly the entries encoding added leave the
      keychain. */
  lemma {:induction false} UnshuffleRunsInverts(keys: seq<string>, runs: seq<string>, out: seq<string>,
                                               words: set<string>)
    requires EncodedRuns(runs, out)
    requires forall i :: 0 <= i < |runs| && IsWordRun(runs[i]) ==> runs[i] in words
    requires AnagramFree(words) && KeysWithin(keys, words)
    requires multiset(Originals(runs)) <= multiset(keys)
    ensures UnshuffleRuns(keys, out).out == runs
    ensures multiset(UnshuffleRuns(keys, out).keys) + multiset(Originals(runs)) == multiset(keys)
    decreases |runs|
  {
    if runs != [] {
      var s := NextStep(keys, out[0]);
      var d := UnshuffleRuns(s.keys, out[1..]);
      var a, b := multiset(Originals([runs[0]])), multiset(Originals(runs[1..]));
      assert UnshuffleRuns(keys, out) == Decoded([s.word] + d.out, d.keys);
      assert && s.word == runs[0] && d.out == runs[1..]
             && multiset(s.keys) + a == multiset(keys) && multiset(d.keys) + b == multiset(s.keys)
             && a + b == multiset(Originals(runs)) by {
        FirstRunInverts(keys, runs, out, words);
        UnshuffleRunsInverts(s.keys, runs[1..], out[1..], words);
      }
      assert runs == [runs[0]] + runs[1..];
      MultisetShift(a, b, multiset(keys), multiset(s.keys), multiset(d.keys));
    }
  }

  lemma {:induction false} EncodedChunksTail(chunks: seq<string>, enc: seq<string>)
    requires EncodedChunks(chunks, enc) && chunks != []
    ensures EncodedChunk(chunks[0], enc[0]) && EncodedChunks(chunks[1..], enc[1..])
  {
    forall i | 0 <= i < |chunks[1..]|
      ensures EncodedChunk(chunks[1..][i], enc[1..][i])
    {
      assert chunks[1..][i] == chunks[i + 1] && enc[1..][i] == enc[i + 1];
    }
  }

  lemma {:induction false} WordsHead(chunks: seq<string>, words: set<string>)
    requires chunks != [] && Words(chunks) <= words
    ensures var runs := Tokenize(chunks[0]);
            forall i :: 0 <= i < |runs| && IsWordRun(runs[i]) ==> runs[i] in words
    ensures Words(chunks[1..]) <= words
    ensures OriginalsOf(chunks) == Originals(Tokenize(chunks[0])) + OriginalsOf(chunks[1..])
  {
    var runs := Tokenize(chunks[0]);
    forall i | 0 <= i < |runs| && IsWordRun(runs[i])
      ensures runs[i] in words
    {
      assert runs[i] in Words(chunks);
    }
  }

  /** The first encoded chunk decodes back to the first chunk, and leaves a
      keychain that still holds the entries of the other chunks. */
  lemma {:induction false} FirstChunkInverts(keys: seq<string>, chunks: seq<string>, enc: seq<string>, words: set<string>)
    requires chunks != [] && EncodedChunks(chunks, enc)
    requires Words(chunks) <= words && AnagramFree(words) && KeysWithin(keys, words)
    requires multiset(OriginalsOf(chunks)) <= multiset(keys)
    ensures var r := UnshuffleRuns(keys, Tokenize(enc[0]));
            Concat(r.out) == chunks[0]
            && KeysWithin(r.keys, words) && multiset(OriginalsOf(chunks[1..])) <= multiset(r.keys)
    ensures EncodedChunks(chunks[1..], enc[1..]) && Words(chunks[1..]) <= words
  {
    var c, rest := chunks[0], chunks[1..];
    var runs, out := Tokenize(c), Tokenize(enc[0]);
    TokenizeSpec(c);
    EncodedChunksTail(chunks, enc);
    WordsHead(chunks, words);
    var a, b := multiset(Originals(runs)), multiset(OriginalsOf(rest));
    assert a + b <= multiset(keys);
    UnshuffleRunsInverts(keys, runs, out, words);
    var r := UnshuffleRuns(keys, out);
    MultisetCancel(a, b, multiset(keys), multiset(r.keys));
    KeysWithinSub(keys, r.keys, words);
  }

  /** `decode_word` on every encoded chunk in turn gives every chunk back. */
  lemma {:induction false} UnshuffleChunksInverts(keys: seq<string>, chunks: seq<string>, enc: seq<string>,
                                                 words: set<string>)
    requires EncodedChunks(chunks, enc)
    requires Words(chunks) <= words && AnagramFree(words) && KeysWithin(keys, words)
    requires multiset(OriginalsOf(chunks)) <= multiset(keys)
    ensures UnshuffleChunks(keys, enc).out == chunks
    decreases |chunks|
  {
    if chunks == [] {
      assert enc == [];
    } else {
      FirstChunkInverts(keys, chunks, enc, words);
      var r := UnshuffleRuns(keys, Tokenize(enc[0]));
      UnshuffleChunksInverts(r.keys, chunks[1..], enc[1..], words);
      assert UnshuffleChunks(keys, enc).out == [Concat(r.out)] + UnshuffleChunks(r.keys, enc[1..]).out;
      assert [chunks[0]] + chunks[1..] == chunks;
    }
  }

  /** The sorted originals of a text are tokens of that text, so the
      keychain part of the output holds only word characters and spaces. */
  lemma {:induction false} SortedOriginals(chunks: seq<string>, sorted: seq<string>)
    requires sorted == Sort(OriginalsOf(chunks))
    ensures forall i :: 0 <= i < |sorted| ==>
              IsToken(sorted[i]) && !Fixed(sorted[i]) && sorted[i] in Words(chunks)
    ensures '\n' !in Join(sorted, ' ')
    ensures Join(sorted, ' ') == [] || Join(sorted, ' ')[0] != '-'
  {
    var originals := OriginalsOf(chunks);
    OriginalsOfAreWords(chunks);
    forall i | 0 <= i < |sorted|
      ensures IsToken(sorted[i]) && !Fixed(sorted[i]) && sorted[i] in Words(chunks)
    {
      assert sorted[i] in multiset(sorted);
      assert sorted[i] in originals;
    }
    var ks := Join(sorted, ' ');
    forall k | 0 <= k < |ks|
      ensures ks[k] == ' ' || IsWordChar(ks[k])
    {
      JoinChars(sorted, ' ', k);
    }
    if ks != [] {
      assert ks[0] == ' ' || IsWordChar(ks[0]);
    }
  }

  /** The output of `encode_text` parses back into its body and a keychain
      that holds every original token the unshuffling needs. */
  lemma {:induction false} WrappedKeys(chunks: seq<string>, body: string)
    ensures var sorted := Sort(OriginalsOf(chunks));
            var ks := "\n" + Join(sorted, ' ');
            && GetText(Wrap(body, sorted)) == Some((body, ks))
            && KeysWithin(Keychain(ks), Words(chunks))
            && multiset(OriginalsOf(chunks)) <= multiset(Keychain(ks))
  {
    var sorted := Sort(OriginalsOf(chunks));
    SortedOriginals(chunks, sorted);
    GetTextOfWrapped(body, Join(sorted, ' '));
    KeychainOfJoin(sorted);
    if sorted == [] {
      assert multiset(OriginalsOf(chunks)) == multiset{};
    }
  }

  /** Encoded chunks hold no space, so splitting their join gives them back. */
  lemma {:induction false} EncodedBodySplits(text: string, enc: seq<string>)
    requires EncodedChunks(Split(text, ' '), enc)
    ensures Split(Join(enc, ' '), ' ') == enc
  {
    var chunks := Split(text, ' ');
    forall i | 0 <= i < |enc|
      ensures ' ' !in enc[i]
    {
      assert EncodedChunk(chunks[i], enc[i]);
      EncodedChunkNoSpace(chunks[i], enc[i]);
    }
    SplitJoin(enc, ' ');
  }

  /** `decode_text(encode_text(text)) == text`, whatever the shuffles, as
      long as no two different tokens of the text are anagrams. */
  lemma {:induction false} RoundTrip(text: string, enc: seq<string>)
    requires EncodedChunks(Split(text, ' '), enc)
    requires AnagramFree(Words(Split(text, ' ')))
    ensures Decoding(Wrap(Join(enc, ' '), Sort(OriginalsOf(Split(text, ' '))))) == Ok(text)
  {
    var chunks := Split(text, ' ');
    var sorted := Sort(OriginalsOf(chunks));
    var body := Join(enc, ' ');
    var ks := "\n" + Join(sorted, ' ');
    WrappedKeys(chunks, body);
    EncodedBodySplits(text, enc);
    UnshuffleChunksInverts(Keychain(ks), chunks, enc, Words(chunks));
    DecodingOf(Wrap(body, sorted), body, ks);
  }

  /** The test of the repository: decoding what was just encoded. */
  method DecodeAfterEncode(text: string) returns (back: Result<string>)
    requires AnagramFree(Words(Split(text, ' ')))
    ensures back == Ok(text)
  {
    var wrapped := EncodeText(text);
    back := DecodeText(wrapped);
    ghost var enc :| EncodedChunks(Split(text, ' '), enc)
                     && wrapped == Wrap(Join(enc, ' '), Sort(OriginalsOf(Split(text, ' '))));
    RoundTrip(text, enc);
  }

  // ---------------------------------------------------------------------------
  // Anagram tokens: the round trip fails

  lemma {:induction false} SingleToken(w: string)
    requires IsToken(w)
    ensures Tokenize(w) == [w]
  {
    assert IsRun(w);
    assert WellFormed([w]);
    assert [w][1..] == [];
    assert Concat([w]) == w + Concat([]);
    assert Concat([]) == [];
    assert w + [] == w;
    TokenizeConcat([w]);
  }

  /** Two characters rearranged: the same order, or swapped. */
  lemma {:induction false} PairLetters(x1: char, x2: char, y1: char, y2: char)
    requires multiset([x1, x2]) == multiset([y1, y2])
    ensures (x1 == y1 && x2 == y2) || (x1 == y2 && x2 == y1)
  {
    assert multiset([x1, x2]) == multiset{x1} + multiset{x2};
    assert multiset([y1, y2]) == multiset{y1} + multiset{y2};
    assert x1 in multiset([y1, y2]);
    assert y1 in multiset([x1, x2]);
  }

  lemma {:induction false} InteriorOfFour(x: string)
    requires |x| == 4
    ensures multiset(Interior(x)) == multiset([x[1], x[2]])
  {
    assert Interior(x) == [x[1], x[2]];
  }

  /** The only shuffle of a four-character word: its two interior characters swapped. */
  function Swapped(y: string): string
    requires |y| == 4
  {
    [y[0], y[2], y[1], y[3]]
  }

  /** The interior of a four-letter token has exactly one other arrangement. */
  lemma {:induction false} OnlyShuffle(w: string, e: string)
    requires |w| == 4 && w[1] != w[2] && ShuffleOutcome(w, e)
    ensures e == Swapped(w)
  {
    assert !Fixed(w);
    InteriorOfFour(e);
    InteriorOfFour(w);
    PairLetters(e[1], e[2], w[1], w[2]);
    assert e == [e[0], e[1], e[2], e[3]] && w == [w[0], w[1], w[2], w[3]];
  }

  lemma {:induction false} EncodedSingle(w: string, e: string)
    requires IsToken(w) && |w| == 4 && w[1] != w[2] && EncodedChunk(w, e)
    ensures e == Swapped(w)
  {
    SingleToken(w);
    var out := Tokenize(e);
    TokenizeSpec(e);
    assert |out| == 1;
    assert e == Concat(out) == out[0] + Concat([]);
    OnlyShuffle(w, out[0]);
  }

  lemma {:induction false} SplitTwo(a: string, b: string)
    requires IsToken(a) && IsToken(b)
    ensures Split(a + " " + b, ' ') == [a, b]
    ensures Join([a, b], ' ') == a + " " + b
  {
    TokenHasNoSpace(a);
    TokenHasNoSpace(b);
    assert [a, b][1..] == [b];
    assert Join([a, b], ' ') == a + " " + Join([b], ' ');
    SplitJoin([a, b], ' ');
  }

  /** `a` and `b` are four-character tokens, each the only shuffle of the other. */
  ghost predicate SwappedPair(a: string, b: string) {
    IsToken(a) && |a| == 4 && a[1] != a[2] && b == Swapped(a)
  }

  lemma {:induction false} SwappedToken(a: string, b: string)
    requires SwappedPair(a, b)
    ensures IsToken(b)
  {
  }

  lemma {:induction false} SwappedAnagram(a: string, b: string)
    requires SwappedPair(a, b)
    ensures a != b && multiset(a) == multiset(b)
  {
    assert a == [a[0]] + [a[1]] + [a[2]] + [a[3]];
    assert b == [a[0]] + [a[2]] + [a[1]] + [a[3]];
    assert a[1] != b[1];
  }

  lemma {:induction false} SwappedNotFixed(a: string, b: string)
    requires SwappedPair(a, b)
    ensures !Fixed(a) && !Fixed(b)
  {
    assert a[2] != a[1] && b[2] != b[1];
  }

  lemma {:induction false} SwappedSymmetric(a: string, b: string)
    requires SwappedPair(a, b)
    ensures SwappedPair(b, a)
  {
    SwappedToken(a, b);
    assert a == [a[0], a[1], a[2], a[3]];
  }

  lemma {:induction false} SwappedPairFacts(a: string, b: string)
    requires SwappedPair(a, b)
    ensures IsToken(b) && SwappedPair(b, a)
    ensures a != b && multiset(a) == multiset(b)
    ensures !Fixed(a) && !Fixed(b)
  {
    SwappedToken(a, b);
    SwappedAnagram(a, b);
    SwappedNotFixed(a, b);
    SwappedSymmetric(a, b);
  }

  /** The text "a b" can only encode to "b a". */
  lemma {:induction false} EncodedPair(a: string, b: string, enc: seq<string>)
    requires SwappedPair(a, b)
    requires EncodedChunks([a, b], enc)
    ensures enc == [b, a]
  {
    assert |enc| == 2 && EncodedChunk([a, b][0], enc[0]) && EncodedChunk([a, b][1], enc[1]);
    assert enc[0] == b by {
      EncodedSingle(a, enc[0]);
    }
    assert enc[1] == a by {
      SwappedPairFacts(a, b);
      EncodedSingle(b, enc[1]);
    }
    assert enc == [enc[0], enc[1]];
  }

  lemma {:induction false} OriginalsOfToken(w: string)
    requires IsToken(w) && !Fixed(w)
    ensures Originals(Tokenize(w)) == [w]
  {
    SingleToken(w);
    assert [w][1..] == [];
    assert Originals([w]) == [w] + Originals([]);
  }

  lemma {:induction false} OriginalsOfPair(a: string, b: string)
    requires IsToken(a) && !Fixed(a) && IsToken(b) && !Fixed(b)
    ensures OriginalsOf([a, b]) == [a, b]
  {
    OriginalsOfToken(a);
    OriginalsOfToken(b);
    assert [a, b][1..] == [b] && [b][1..] == [];
    assert OriginalsOf([b]) == [b] + OriginalsOf([]);
    assert OriginalsOf([a, b]) == [a] + OriginalsOf([b]);
  }

  lemma {:induction false} SortPair(a: string, b: string)
    requires !LexLe(a, b)
    ensures Sort([a, b]) == [b, a]
  {
    assert [a, b][1..] == [b] && [b][1..] == [];
    assert Sort([b]) == Insert(b, Sort([])) == [b];
    assert Insert(a, [b]) == [b] + Insert(a, []);
    assert Sort([a, b]) == Insert(a, Sort([b]));
  }

  /** Encoding "a b" puts both tokens in the keychain, in sorted order. */
  lemma {:induction false} KeychainOfPair(a: string, b: string)
    requires SwappedPair(a, b) && !LexLe(a, b)
    ensures Sort(OriginalsOf([a, b])) == [b, a]
  {
    SwappedPairFacts(a, b);
    OriginalsOfPair(a, b);
    SortPair(a, b);
  }

  lemma {:induction false} UnshuffleRunOfToken(keys: seq<string>, w: string)
    requires IsToken(w) && keys != [] && Same(keys[0], w)
    ensures UnshuffleRuns(keys, [w]) == Decoded([keys[0]], keys[1..])
  {
    assert FirstAnagram(keys, w) == 0;
    assert keys[..0] + keys[1..] == keys[1..];
    assert NextStep(keys, w) == Step(keys[0], keys[1..]);
    assert [w][1..] == [];
    assert UnshuffleRuns(keys[1..], []) == Decoded([], keys[1..]);
  }

  lemma {:induction false} UnshuffleOfToken(keys: seq<string>, w: string)
    requires IsToken(w) && keys != [] && Same(keys[0], w)
    ensures UnshuffleChunks(keys, [w]) == Decoded([keys[0]], keys[1..])
  {
    SingleToken(w);
    UnshuffleRunOfToken(keys, w);
    var r := UnshuffleRuns(keys, Tokenize(w));
    assert Concat([keys[0]]) == keys[0] + Concat([]);
    assert Concat(r.out) == keys[0];
    assert [w][0] == w && [w][1..] == [];
    var d := UnshuffleChunks(keys[1..], []);
    assert d == Decoded([], keys[1..]);
    assert [keys[0]] + d.out == [keys[0]];
    assert UnshuffleChunks(keys, [w]) == Decoded([Concat(r.out)] + d.out, d.keys);
  }

  /** Two tokens decoded with themselves, in order, as the keychain come
      back as they are. */
  lemma {:induction false} UnshuffleOwnKeys(x: string, y: string)
    requires IsToken(x) && IsToken(y)
    ensures UnshuffleChunks([x, y], [x, y]).out == [x, y]
  {
    var r := UnshuffleRuns([x, y], Tokenize(x));
    assert r.out == [x] && r.keys == [y] by {
      SingleToken(x);
      UnshuffleRunOfToken([x, y], x);
      assert [x, y][1..] == [y];
    }
    assert Concat(r.out) == x by {
      assert Concat([x]) == x + Concat([]);
    }
    var d := UnshuffleChunks([y], [y]);
    assert d.out == [y] by {
      UnshuffleOfToken([y], y);
    }
    assert [x, y][0] == x && [x, y][1..] == [y];
    assert UnshuffleChunks([x, y], [x, y]) == Decoded([Concat(r.out)] + d.out, d.keys);
  }

  /** The text "x y" wrapped with the keychain "x y" decodes to itself. */
  lemma {:induction false} DecodingOwnKeys(x: string, y: string)
    requires IsToken(x) && IsToken(y)
    ensures Decoding(Wrap(x + " " + y, [x, y])) == Ok(x + " " + y)
  {
    var ks := x + " " + y;
    SplitTwo(x, y);
    assert '\n' !in ks && ks[0] != '-' by {
      TokenHasNoSpace(x);
      TokenHasNoSpace(y);
      assert ks[0] == x[0];
    }
    GetTextOfWrapped(ks, ks);
    KeychainOfJoin([x, y]);
    UnshuffleOwnKeys(x, y);
    DecodingOf(Wrap(ks, [x, y]), ks, "\n" + ks);
  }

  lemma {:induction false} DecodingOfPair(a: string, b: string)
    requires SwappedPair(a, b)
    ensures Decoding(Wrap(b + " " + a, [b, a])) == Ok(b + " " + a)
  {
    SwappedPairFacts(a, b);
    DecodingOwnKeys(b, a);
  }

  /** The text "a b" encodes to "b a" with keychain "b a", which decodes to
      "b a": the two tokens change places. */
  lemma {:induction false} PairSwaps(a: string, b: string, enc: seq<string>)
    requires SwappedPair(a, b) && !LexLe(a, b)
    requires EncodedChunks(Split(a + " " + b, ' '), enc)
    ensures !AnagramFree(Words(Split(a + " " + b, ' ')))
    ensures Decoding(Wrap(Join(enc, ' '), Sort(OriginalsOf(Split(a + " " + b, ' '))))) == Ok(b + " " + a)
  {
    SwappedPairFacts(a, b);
    SplitTwo(a, b);
    EncodedPair(a, b, enc);
    SplitTwo(b, a);
    KeychainOfPair(a, b);
    DecodingOfPair(a, b);
    PairNotFree(a, b);
  }

  /** "acbd" and "abcd" are such a pair, and "abcd" sorts first. */
  lemma {:induction false} AcbdAbcd()
    ensures SwappedPair("acbd", "abcd") && !LexLe("acbd", "abcd")
  {
    assert !LexLe("cbd", "bcd");
  }

  /** Encoding then decoding "a b" gives "b a", whatever the random choices. */
  method PairSwapsBack(a: string, b: string) returns (back: Result<string>)
    requires SwappedPair(a, b) && !LexLe(a, b)
    ensures back == Ok(b + " " + a)
  {
    var wrapped := EncodeText(a + " " + b);
    back := DecodeText(wrapped);
    ghost var enc :| EncodedChunks(Split(a + " " + b, ' '), enc)
                     && wrapped == Wrap(Join(enc, ' '), Sort(OriginalsOf(Split(a + " " + b, ' '))));
    PairSwaps(a, b, enc);
  }

  /** Encoding then decoding "acbd abcd", whatever the random choices, gives
      "abcd acbd". */
  method AnagramsSwapExample() returns (back: Result<string>)
    ensures back == Ok("abcd acbd") && back != Ok("acbd abcd")
  {
    AcbdAbcd();
    back := PairSwapsBack("acbd", "abcd");
    assert "abcd" + " " + "acbd" == "abcd acbd";
    assert ("abcd acbd")[1] != ("acbd abcd")[1];
  }

  /** Sorting two strings already in order keeps them in order. */
  lemma {:induction false} SortPairInOrder(a: string, b: string)
    requires LexLe(a, b)
    ensures Sort([a, b]) == [a, b]
  {
    assert [a, b][1..] == [b] && [b][1..] == [];
    assert Sort([b]) == Insert(b, Sort([])) == [b];
    assert Insert(a, [b]) == [a] + [b];
    assert Sort([a, b]) == Insert(a, Sort([b]));
  }

  /** With keychain "x y", the body "y x" decodes to "x y" when `x` and `y`
      are anagrams: each token takes the first key made of its characters. */
  lemma {:induction false} UnshuffleCrossed(x: string, y: string)
    requires IsToken(x) && IsToken(y) && multiset(x) == multiset(y)
    ensures UnshuffleChunks([x, y], [y, x]).out == [x, y]
  {
    var r := UnshuffleRuns([x, y], Tokenize(y));
    assert r.out == [x] && r.keys == [y] by {
      SingleToken(y);
      UnshuffleRunOfToken([x, y], y);
      assert [x, y][1..] == [y];
    }
    assert Concat(r.out) == x by {
      assert Concat([x]) == x + Concat([]);
    }
    var d := UnshuffleChunks([y], [x]);
    assert d.out == [y] by {
      UnshuffleOfToken([y], x);
    }
    assert [y, x][0] == y && [y, x][1..] == [x];
    assert UnshuffleChunks([x, y], [y, x]) == Decoded([Concat(r.out)] + d.out, d.keys);
  }

  /** The body "y x" wrapped with the keychain "x y" decodes to "x y". */
  lemma {:induction false} DecodingCrossed(x: string, y: string)
    requires IsToken(x) && IsToken(y) && multiset(x) == multiset(y)
    ensures Decoding(Wrap(y + " " + x, [x, y])) == Ok(x + " " + y)
  {
    var body, ks := y + " " + x, x + " " + y;
    SplitTwo(y, x);
    SplitTwo(x, y);
    assert '\n' !in ks && ks[0] != '-' by {
      TokenHasNoSpace(x);
      TokenHasNoSpace(y);
      assert ks[0] == x[0];
    }
    GetTextOfWrapped(body, ks);
    KeychainOfJoin([x, y]);
    UnshuffleCrossed(x, y);
    DecodingOf(Wrap(body, [x, y]), body, "\n" + ks);
  }

  /** The text "a b" of such a pair holds two different anagrams. */
  lemma {:induction false} PairNotFree(a: string, b: string)
    requires SwappedPair(a, b)
    ensures !AnagramFree(Words(Split(a + " " + b, ' ')))
  {
    SwappedPairFacts(a, b);
    SplitTwo(a, b);
    var chunks := [a, b];
    assert a in Words(chunks) && b in Words(chunks) by {
      SingleToken(a);
      SingleToken(b);
      assert a in Tokenize(chunks[0]) && IsWordRun(a);
      assert chunks[1..] == [b];
      assert b in Tokenize(chunks[1..][0]) && IsWordRun(b);
    }
    AnagramsNotFree(Words(chunks), a, b);
  }

  /** When the first token of such a pair sorts first, the two tokens trade
      places twice and "a b" comes back, although it is not anagram-free:
      anagram-freedom is enough for the round trip, not needed. */
  lemma {:induction false} PairComesBack(a: string, b: string, enc: seq<string>)
    requires SwappedPair(a, b) && LexLe(a, b)
    requires EncodedChunks(Split(a + " " + b, ' '), enc)
    ensures !AnagramFree(Words(Split(a + " " + b, ' ')))
    ensures Decoding(Wrap(Join(enc, ' '), Sort(OriginalsOf(Split(a + " " + b, ' '))))) == Ok(a + " " + b)
  {
    PairNotFree(a, b);
    SwappedPairFacts(a, b);
    SplitTwo(a, b);
    EncodedPair(a, b, enc);
    SplitTwo(b, a);
    OriginalsOfPair(a, b);
    SortPairInOrder(a, b);
    DecodingCrossed(a, b);
  }

  /** "abcd" and "acbd" are such a pair, and "abcd" sorts first. */
  lemma {:induction false} AbcdAcbd()
    ensures SwappedPair("abcd", "acbd") && LexLe("abcd", "acbd")
  {
    assert LexLe("bcd", "cbd");
  }

  /** Encoding then decoding "a b" gives "a b", whatever the random choices. */
  method PairKeptBack(a: string, b: string) returns (back: Result<string>)
    requires SwappedPair(a, b) && LexLe(a, b)
    ensures back == Ok(a + " " + b)
  {
    var wrapped := EncodeText(a + " " + b);
    back := DecodeText(wrapped);
    ghost var enc :| EncodedChunks(Split(a + " " + b, ' '), enc)
                     && wrapped == Wrap(Join(enc, ' '), Sort(OriginalsOf(Split(a + " " + b, ' '))));
    PairComesBack(a, b, enc);
  }

  /** Encoding then decoding "abcd acbd", whatever the random choices, gives
      "abcd acbd" back. */
  method AnagramsKeptExample() returns (back: Result<string>)
    ensures back == Ok("abcd acbd")
  {
    AbcdAcbd();
    back := PairKeptBack("abcd", "acbd");
    assert "abcd" + " " + "acbd" == "abcd acbd";
  }

  // ---------------------------------------------------------------------------
  // A fixed token taken by an anagram key: the round trip fails

  /** A token the shuffle keeps can only encode to itself. */
  lemma {:induction false} EncodedFixed(w: string, e: string)
    requires IsToken(w) && Fixed(w) && EncodedChunk(w, e)
    ensures e == w
  {
    SingleToken(w);
    var out := Tokenize(e);
    TokenizeSpec(e);
    assert |out| == 1 && ShuffleOutcome(w, out[0]);
    assert e == Concat(out) == out[0] + Concat([]);
  }

  /** A token the shuffle keeps adds nothing to the keychain. */
  lemma {:induction false} OriginalsOfFixed(w: string)
    requires IsToken(w) && Fixed(w)
    ensures Originals(Tokenize(w)) == []
  {
    SingleToken(w);
    assert [w][1..] == [];
    assert Originals([w]) == [] + Originals([]);
  }

  /** `x` is a token the shuffle keeps and `y` a four-character token it
      changes, made of the same characters: `x` is in the text but not in
      the keychain, and `y` is in the keychain. */
  ghost predicate CapturedPair(x: string, y: string) {
    IsToken(x) && Fixed(x) && IsToken(y) && |y| == 4 && y[1] != y[2]
    && multiset(x) == multiset(y)
  }

  /** The text "x y" encodes to "x y'" (`y'` the swap of `y`) with keychain "y". */
  lemma {:induction false} EncodedCaptured(x: string, y: string, enc: seq<string>)
    requires CapturedPair(x, y)
    requires EncodedChunks([x, y], enc)
    ensures enc == [x, Swapped(y)]
    ensures Sort(OriginalsOf([x, y])) == [y]
  {
    assert |enc| == 2 && EncodedChunk([x, y][0], enc[0]) && EncodedChunk([x, y][1], enc[1]);
    assert enc[0] == x by {
      EncodedFixed(x, enc[0]);
    }
    assert enc[1] == Swapped(y) by {
      EncodedSingle(y, enc[1]);
    }
    assert enc == [enc[0], enc[1]];
    assert y[1] != y[2];
    OriginalsOfFixed(x);
    OriginalsOfToken(y);
    assert [x, y][1..] == [y] && [y][1..] == [];
    assert OriginalsOf([y]) == [y] + OriginalsOf([]);
    assert OriginalsOf([x, y]) == [] + OriginalsOf([y]);
    assert Sort([y]) == Insert(y, Sort([])) == [y];
  }

  /** A token with an empty keychain stays as it is. */
  lemma {:induction false} UnshuffleWithoutKeys(w: string)
    requires IsToken(w)
    ensures UnshuffleChunks([], [w]).out == [w]
  {
    var r := UnshuffleRuns([], Tokenize(w));
    assert r.out == [w] by {
      SingleToken(w);
      assert FirstAnagram([], w) == 0;
      assert NextStep([], w) == Step(w, []);
      assert [w][1..] == [];
      assert UnshuffleRuns([], []) == Decoded([], []);
    }
    assert Concat(r.out) == w by {
      assert Concat([w]) == w + Concat([]);
    }
    var d := UnshuffleChunks(r.keys, []);
    assert d.out == [];
    assert [w][0] == w && [w][1..] == [];
    assert UnshuffleChunks([], [w]) == Decoded([Concat(r.out)] + d.out, d.keys);
  }

  /** With keychain "y", the body "x z" decodes to "y z": the first token
      made of the characters of `y` takes the key. */
  lemma {:induction false} UnshuffleCaptured(x: string, y: string, z: string)
    requires IsToken(x) && IsToken(z) && multiset(x) == multiset(y)
    ensures UnshuffleChunks([y], [x, z]).out == [y, z]
  {
    var r := UnshuffleRuns([y], Tokenize(x));
    assert r.out == [y] && r.keys == [] by {
      SingleToken(x);
      UnshuffleRunOfToken([y], x);
      assert [y][1..] == [];
    }
    assert Concat(r.out) == y by {
      assert Concat([y]) == y + Concat([]);
    }
    var d := UnshuffleChunks([], [z]);
    assert d.out == [z] by {
      UnshuffleWithoutKeys(z);
    }
    assert [x, z][0] == x && [x, z][1..] == [z];
    assert UnshuffleChunks([y], [x, z]) == Decoded([Concat(r.out)] + d.out, d.keys);
  }

  /** The body "x z" wrapped with the keychain "y" decodes to "y z". */
  lemma {:induction false} DecodingCaptured(x: string, y: string, z: string)
    requires IsToken(x) && IsToken(y) && IsToken(z) && multiset(x) == multiset(y)
    ensures Decoding(Wrap(x + " " + z, [y])) == Ok(y + " " + z)
  {
    var body := x + " " + z;
    SplitTwo(x, z);
    SplitTwo(y, z);
    assert '\n' !in y && y[0] != '-' by {
      TokenHasNoSpace(y);
    }
    assert Join([y], ' ') == y;
    GetTextOfWrapped(body, y);
    KeychainOfJoin([y]);
    UnshuffleCaptured(x, y, z);
    DecodingOf(Wrap(body, [y]), body, "\n" + y);
  }

  lemma {:induction false} AnagramsNotFree(words: set<string>, a: string, b: string)
    requires a in words && b in words && a != b && multiset(a) == multiset(b)
    ensures !AnagramFree(words)
  {
  }

  /** Only `y` is shuffled, yet "x y" is not anagram-free. */
  lemma {:induction false} CapturedNotFree(x: string, y: string)
    requires CapturedPair(x, y)
    ensures !AnagramFree(Words(Split(x + " " + y, ' ')))
  {
    var chunks := [x, y];
    SplitTwo(x, y);
    assert x in Words(chunks) && y in Words(chunks) by {
      SingleToken(x);
      SingleToken(y);
      assert x in Tokenize(chunks[0]) && IsWordRun(x);
      assert chunks[1..] == [y];
      assert y in Tokenize(chunks[1..][0]) && IsWordRun(y);
    }
    assert x != y by {
      assert !Fixed(y);
    }
    AnagramsNotFree(Words(chunks), x, y);
  }

  /** The swap of a token is a token. */
  lemma {:induction false} SwappedIsToken(y: string)
    requires IsToken(y) && |y| == 4
    ensures IsToken(Swapped(y))
  {
    assert forall k :: 0 <= k < 4 ==> Swapped(y)[k] in y;
  }

  /** Every encoding of "x y" decodes to "y y'": the key of `y` goes to `x`. */
  lemma {:induction false} FixedTokenCaptured(x: string, y: string, enc: seq<string>)
    requires CapturedPair(x, y)
    requires EncodedChunks(Split(x + " " + y, ' '), enc)
    ensures enc == [x, Swapped(y)]
    ensures Decoding(Wrap(Join(enc, ' '), Sort(OriginalsOf(Split(x + " " + y, ' '))))) == Ok(y + " " + Swapped(y))
  {
    SplitTwo(x, y);
    EncodedCaptured(x, y, enc);
    SwappedIsToken(y);
    SplitTwo(x, Swapped(y));
    DecodingCaptured(x, y, Swapped(y));
  }

  /** "aaab" (kept) and "abaa" (shuffled to "aaba") are such a pair. */
  lemma {:induction false} AaabAbaa()
    ensures CapturedPair("aaab", "abaa") && Swapped("abaa") == "aaba"
  {
    AaabAbaaLetters();
    assert IsToken("aaab") && IsToken("abaa") && Fixed("aaab");
  }

  lemma {:induction false} AaabAbaaLetters()
    ensures multiset("aaab") == multiset("abaa")
  {
    assert "aaab" == ['a', 'a'] + ['a', 'b'] && "abaa" == ['a', 'b'] + ['a', 'a'];
  }

  /** Encoding then decoding "x y" gives "y y'", whatever the random choices. */
  method CapturedBack(x: string, y: string) returns (back: Result<string>)
    requires CapturedPair(x, y)
    ensures back == Ok(y + " " + Swapped(y))
  {
    var wrapped := EncodeText(x + " " + y);
    back := DecodeText(wrapped);
    ghost var enc :| EncodedChunks(Split(x + " " + y, ' '), enc)
                     && wrapped == Wrap(Join(enc, ' '), Sort(OriginalsOf(Split(x + " " + y, ' '))));
    FixedTokenCaptured(x, y, enc);
  }

  /** Encoding then decoding "aaab abaa", whatever the random choices, gives
      "abaa aaba". */
  method FixedCapturedExample() returns (back: Result<string>)
    ensures back == Ok("abaa aaba") && back != Ok("aaab abaa")
  {
    AaabAbaa();
    back := CapturedBack("aaab", "abaa");
    assert "abaa" + " " + "aaba" == "abaa aaba";
    assert ("abaa aaba")[1] != ("aaab abaa")[1];
  }
}
