/** The WeirdText codec: every word longer than three characters gets the
    inside of it shuffled; the original words travel in a keychain after the
    shuffled text, inside a `---weird---` wrapper, and decoding puts each of
    them back where a token is made of the same characters. */
module Weird {
  import opened PyStr
  import opened Tokens

  datatype Option<T> = None | Some(value: T)

  /** `WeirdTextDecodingException('Input is not formatted correctly')`. */
  datatype DecodingError = NotFormattedCorrectly

  datatype Result<T> = Ok(value: T) | Err(error: DecodingError)

  // ---------------------------------------------------------------------------
  // same(word_1, word_2)

  /** `Counter(list(w))`: for each character of `w`, how often it occurs;
      a character that does not occur has no entry. */
  function Counter(w: string): map<char, nat> {
    if w == [] then map[]
    else
      var m := Counter(w[..|w| - 1]);
      var c := w[|w| - 1];
      m[c := if c in m then m[c] + 1 else 1]
  }

  /** The counter holds exactly the characters of `w`, each with its count. */
  lemma {:induction false} CounterCounts(w: string)
    ensures forall c :: c in Counter(w) <==> c in multiset(w)
    ensures forall c :: c in Counter(w) ==> Counter(w)[c] == multiset(w)[c]
  {
    if w != [] {
      CounterCounts(w[..|w| - 1]);
      assert w == w[..|w| - 1] + [w[|w| - 1]];
    }
  }

  /** Equal counters are equal multisets. */
  lemma {:induction false} CounterEqual(a: string, b: string)
    ensures Counter(a) == Counter(b) <==> multiset(a) == multiset(b)
  {
    CounterCounts(a);
    CounterCounts(b);
    var ca, cb := Counter(a), Counter(b);
    if ca == cb {
      forall c ensures multiset(a)[c] == multiset(b)[c] {
        if c !in ca {
          assert c !in multiset(a) && c !in multiset(b);
        }
      }
    }
    if multiset(a) == multiset(b) {
      assert forall c :: c in ca <==> c in cb;
      assert forall c :: c in ca ==> ca[c] == cb[c];
    }
  }

  /** `same`: do the two words have equal character counts? Exactly when
      they are anagrams of each other. */
  function Same(a: string, b: string): (r: bool)
    ensures r <==> multiset(a) == multiset(b)
  {
    CounterEqual(a, b);
    Counter(a) == Counter(b)
  }

  // ---------------------------------------------------------------------------
  // What a shuffle may produce

  /** All characters but the first and the last. */
  function Interior(w: string): string
    requires |w| >= 2
  {
    w[1..|w| - 1]
  }

  /** The tokens `_shuffle_inside` returns untouched: at most three characters,
      or an interior made of one repeated character. */
  predicate Fixed(w: string) {
    |w| <= 3 || forall i :: 1 <= i < |w| - 1 ==> w[i] == w[1]
  }

  /** `e` is a shuffle of `w` that the retry loop accepts: the same ends, a
      permutation of the interior, and a word different from `w`. */
  predicate ProperShuffle(w: string, e: string) {
    |w| >= 2 && |e| == |w| && e[0] == w[0] && e[|e| - 1] == w[|w| - 1]
    && multiset(Interior(e)) == multiset(Interior(w)) && e != w
  }

  /** A possible result of `_shuffle_inside` on the token `w`. */
  predicate ShuffleOutcome(w: string, e: string) {
    if Fixed(w) then e == w else ProperShuffle(w, e)
  }

  /** A possible result of `re.sub(r'\w+', self._shuffle_inside, ...)` on a
      chunk cut into `runs`: each token replaced by a shuffle outcome, the rest kept. */
  predicate EncodedRuns(runs: seq<string>, out: seq<string>) {
    |out| == |runs|
    && forall i :: 0 <= i < |runs| ==>
         if IsWordRun(runs[i]) then ShuffleOutcome(runs[i], out[i]) else out[i] == runs[i]
  }

  /** A possible result of `encode_word` on the chunk `c`. */
  predicate EncodedChunk(c: string, e: string) {
    EncodedRuns(Tokenize(c), Tokenize(e))
  }

  /** A possible result of `encode_word` on each chunk. */
  predicate EncodedChunks(chunks: seq<string>, out: seq<string>) {
    |out| == |chunks|
    && forall i :: 0 <= i < |chunks| ==> EncodedChunk(chunks[i], out[i])
  }

  /** The keychain entries that encoding `runs` adds: its non-fixed tokens, in order. */
  function Originals(runs: seq<string>): seq<string> {
    if runs == [] then []
    else (if IsWordRun(runs[0]) && !Fixed(runs[0]) then [runs[0]] else []) + Originals(runs[1..])
  }

  /** The keychain entries that encoding every chunk adds. */
  function OriginalsOf(chunks: seq<string>): seq<string> {
    if chunks == [] then [] else Originals(Tokenize(chunks[0])) + OriginalsOf(chunks[1..])
  }

  /** The tokens of all chunks. */
  function Words(chunks: seq<string>): set<string> {
    if chunks == [] then {}
    else (set r | r in Tokenize(chunks[0]) && IsWordRun(r)) + Words(chunks[1..])
  }

  lemma {:induction false} ShuffleOutcomeIsAnagram(w: string, e: string)
    requires ShuffleOutcome(w, e)
    ensures multiset(e) == multiset(w)
    ensures |w| > 0 ==> |e| == |w| && e[0] == w[0] && e[|e| - 1] == w[|w| - 1]
  {
    if !Fixed(w) {
      assert w == [w[0]] + Interior(w) + [w[|w| - 1]];
      assert e == [e[0]] + Interior(e) + [e[|e| - 1]];
    }
  }

  /** Encoding keeps the shape of a chunk (tokens become anagrams, the rest stays). */
  lemma {:induction false} EncodedRunsReshaped(runs: seq<string>, out: seq<string>)
    requires EncodedRuns(runs, out)
    ensures Reshaped(runs, out)
  {
    forall i | 0 <= i < |runs| && IsWordRun(runs[i])
      ensures multiset(out[i]) == multiset(runs[i])
    {
      ShuffleOutcomeIsAnagram(runs[i], out[i]);
    }
  }

  lemma {:induction false} OriginalsAppend(a: seq<string>, b: seq<string>)
    ensures Originals(a + b) == Originals(a) + Originals(b)
  {
    if a != [] {
      OriginalsAppend(a[1..], b);
      assert (a + b)[1..] == a[1..] + b;
    } else {
      assert a + b == b;
    }
  }

  lemma {:induction false} OriginalsOfAppend(a: seq<string>, b: seq<string>)
    ensures OriginalsOf(a + b) == OriginalsOf(a) + OriginalsOf(b)
  {
    if a != [] {
      OriginalsOfAppend(a[1..], b);
      assert (a + b)[1..] == a[1..] + b;
    } else {
      assert a + b == b;
    }
  }

  lemma {:induction false} OriginalsOfSnoc(chunks: seq<string>, c: string)
    ensures OriginalsOf(chunks + [c]) == OriginalsOf(chunks) + Originals(Tokenize(c))
  {
    OriginalsOfAppend(chunks, [c]);
    assert OriginalsOf([c]) == Originals(Tokenize(c)) + OriginalsOf([]);
  }

  lemma {:induction false} EncodedChunksSnoc(chunks: seq<string>, out: seq<string>, c: string, e: string)
    requires EncodedChunks(chunks, out)
    requires EncodedChunk(c, e)
    ensures EncodedChunks(chunks + [c], out + [e])
  {
  }

  /** `len(set(inside)) == 1` is the test for an interior of one repeated character. */
  lemma {:induction false} InteriorLetters(w: string)
    requires |w| > 3
    ensures |set c | c in Interior(w)| == 1 <==> Fixed(w)
  {
    var inside := Interior(w);
    var letters := set c | c in inside;
    assert inside[0] in letters;
    if Fixed(w) {
      forall c | c in letters ensures c == inside[0] {
        var i :| 0 <= i < |inside| && inside[i] == c;
        assert inside[i] == w[i + 1];
      }
      assert letters == {inside[0]};
    }
    if |letters| == 1 {
      var rest := letters - {inside[0]};
      assert |rest| == 0;
      forall i | 1 <= i < |w| - 1 ensures w[i] == w[1] {
        assert inside[i - 1] in letters;
        assert inside[i - 1] !in rest;
      }
    }
  }

  /** Swapping two characters keeps the multiset of characters. */
  lemma {:induction false} SwapKeepsLetters(s: string, a: nat, b: nat)
    requires a < |s| && b < |s|
    ensures multiset(s[a := s[b]][b := s[a]]) == multiset(s)
  {
    var t := s[a := s[b]];
    assert multiset(t) == multiset(s) - multiset{s[a]} + multiset{s[b]};
    assert t[b] == (if a == b then s[b] else s[b]);
  }

  /** A non-fixed token has a shuffle the retry loop accepts: swap the first
      interior character with one that differs from it. */
  lemma {:induction false} ShuffleExists(w: string)
    requires !Fixed(w)
    ensures exists permuted :: multiset(permuted) == multiset(Interior(w))
                               && [w[0]] + permuted + [w[|w| - 1]] != w
  {
    var inside := Interior(w);
    var j :| 1 <= j < |w| - 1 && w[j] != w[1];
    var k := j - 1;
    assert inside[k] == w[j] && inside[0] == w[1];
    var permuted := inside[0 := inside[k]][k := inside[0]];
    SwapKeepsLetters(inside, 0, k);
    var e := [w[0]] + permuted + [w[|w| - 1]];
    assert e[1] == permuted[0] != w[1];
  }

  // ---------------------------------------------------------------------------
  // What decoding does, as functions

  /** The index of the first keychain entry that is an anagram of `w`, or
      `|keys|` when there is none. */
  function FirstAnagram(keys: seq<string>, w: string): (i: nat)
    ensures i <= |keys|
    ensures i < |keys| ==> Same(keys[i], w)
    ensures forall j :: 0 <= j < i ==> !Same(keys[j], w)
  {
    if keys == [] then 0
    else if Same(keys[0], w) then 0
    else 1 + FirstAnagram(keys[1..], w)
  }

  /** A decoded token and the keychain left over. */
  datatype Step = Step(word: string, keys: seq<string>)

  /** `_deshuffle_inside` on the token `w` with keychain `keys`. */
  function Unshuffle(keys: seq<string>, w: string): (r: Step)
    ensures Same(r.word, w)
    ensures (forall j :: 0 <= j < |keys| ==> !Same(keys[j], w)) ==> r == Step(w, keys)
    ensures (exists j :: 0 <= j < |keys| && Same(keys[j], w)) ==>
              r.word in keys && multiset(r.keys) + multiset{r.word} == multiset(keys)
  {
    var i := FirstAnagram(keys, w);
    if i < |keys| then
      assert keys == keys[..i] + [keys[i]] + keys[i + 1..];
      Step(keys[i], keys[..i] + keys[i + 1..])
    else Step(w, keys)
  }

  /** Decoded pieces and the keychain left over. */
  datatype Decoded = Decoded(out: seq<string>, keys: seq<string>)

  /** What `re.sub` does with one run while decoding. */
  function NextStep(keys: seq<string>, run: string): Step {
    if IsWordRun(run) then Unshuffle(keys, run) else Step(run, keys)
  }

  /** `re.sub(r'\w+', self._deshuffle_inside, ...)` on a chunk cut into `runs`. */
  function UnshuffleRuns(keys: seq<string>, runs: seq<string>): (d: Decoded)
    ensures Reshaped(runs, d.out)
    decreases |runs|
  {
    if runs == [] then Decoded([], keys)
    else
      var s := NextStep(keys, runs[0]);
      var d := UnshuffleRuns(s.keys, runs[1..]);
      Decoded([s.word] + d.out, d.keys)
  }

  lemma {:induction false} UnshuffleRunsAt(keys: seq<string>, runs: seq<string>, i: nat)
    requires i < |runs|
    ensures var s := NextStep(keys, runs[i]);
            var d := UnshuffleRuns(s.keys, runs[i + 1..]);
            UnshuffleRuns(keys, runs[i..]) == Decoded([s.word] + d.out, d.keys)
  {
    assert runs[i..][1..] == runs[i + 1..];
  }

  /** Overwriting entry `i` extends the prefix before `i` and leaves the suffix after it. */
  lemma {:induction false} UpdateAt<T>(s: seq<T>, i: nat, x: T)
    requires i < |s|
    ensures s[i := x][..i + 1] == s[..i] + [x]
    ensures s[i := x][i + 1..] == s[i + 1..]
  {
  }

  lemma {:induction false} AppendAssoc<T>(a: seq<T>, x: T, b: seq<T>)
    ensures a + [x] + b == a + ([x] + b)
  {
  }

  /** One turn of the loop of `encode_word`: shuffling run `i` extends the
      encoded runs and the keychain by that run. */
  lemma {:induction false} EncodeWordStep(runs: seq<string>, i: nat, out: seq<string>, piece: string,
                       base: seq<string>, keys0: seq<string>, keys1: seq<string>)
    requires i < |runs| && EncodedRuns(runs[..i], out)
    requires keys0 == base + Originals(runs[..i])
    requires if IsWordRun(runs[i]) then ShuffleOutcome(runs[i], piece) else piece == runs[i]
    requires keys1 == keys0 + (if IsWordRun(runs[i]) && !Fixed(runs[i]) then [runs[i]] else [])
    ensures EncodedRuns(runs[..i + 1], out + [piece])
    ensures keys1 == base + Originals(runs[..i + 1])
  {
    assert runs[..i + 1] == runs[..i] + [runs[i]];
    OriginalsAppend(runs[..i], [runs[i]]);
    assert Originals([runs[i]]) == (if IsWordRun(runs[i]) && !Fixed(runs[i]) then [runs[i]] else []) + Originals([]);
  }

  /** Joining the encoded runs of a chunk gives an encoding of the chunk. */
  lemma {:induction false} EncodeWordEnd(word: string, out: seq<string>)
    requires EncodedRuns(Tokenize(word), out)
    ensures EncodedChunk(word, Concat(out))
    ensures |Concat(out)| == |word|
    ensures forall k :: 0 <= k < |word| && !IsWordChar(word[k]) ==> Concat(out)[k] == word[k]
  {
    TokenizeSpec(word);
    EncodedRunsReshaped(Tokenize(word), out);
    ReshapedShape(Tokenize(word), out);
  }

  /** One turn of the loop of `decode_word`: decoding run `i` extends the
      decoded prefix by one run. */
  lemma {:induction false} DecodeWordStep(keys0: seq<string>, keys1: seq<string>, runs: seq<string>, i: nat,
                       out: seq<string>, piece: string, all: Decoded)
    requires i < |runs|
    requires var d := UnshuffleRuns(keys0, runs[i..]); out + d.out == all.out && d.keys == all.keys
    requires Step(piece, keys1) == NextStep(keys0, runs[i])
    ensures var d := UnshuffleRuns(keys1, runs[i + 1..]); (out + [piece]) + d.out == all.out && d.keys == all.keys
  {
    UnshuffleRunsAt(keys0, runs, i);
    AppendAssoc(out, piece, UnshuffleRuns(keys1, runs[i + 1..]).out);
  }

  lemma {:induction false} DecodeWordEnd(keys: seq<string>, runs: seq<string>, out: seq<string>, all: Decoded)
    requires var d := UnshuffleRuns(keys, runs[|runs|..]); out + d.out == all.out && d.keys == all.keys
    ensures out == all.out && keys == all.keys
  {
    assert runs[|runs|..] == [];
    assert UnshuffleRuns(keys, []) == Decoded([], keys);
    assert out + [] == out;
  }

  /** `decode_word` on every chunk in turn, threading one keychain. */
  function UnshuffleChunks(keys: seq<string>, chunks: seq<string>): (d: Decoded)
    ensures |d.out| == |chunks|
    decreases |chunks|
  {
    if chunks == [] then Decoded([], keys)
    else
      var r := UnshuffleRuns(keys, Tokenize(chunks[0]));
      var d := UnshuffleChunks(r.keys, chunks[1..]);
      Decoded([Concat(r.out)] + d.out, d.keys)
  }

  /** Decoding keeps the shape of every chunk: its tokens become anagrams of
      themselves and everything else stays. */
  lemma {:induction false} UnshuffleChunksReshaped(keys: seq<string>, chunks: seq<string>, i: nat)
    requires i < |chunks|
    ensures Reshaped(Tokenize(chunks[i]), Tokenize(UnshuffleChunks(keys, chunks).out[i]))
    decreases i
  {
    var r := UnshuffleRuns(keys, Tokenize(chunks[0]));
    var d := UnshuffleChunks(r.keys, chunks[1..]);
    assert UnshuffleChunks(keys, chunks).out == [Concat(r.out)] + d.out;
    if i == 0 {
      TokenizeSpec(chunks[0]);
      ReshapedWellFormed(Tokenize(chunks[0]), r.out);
    } else {
      UnshuffleChunksReshaped(r.keys, chunks[1..], i - 1);
      assert chunks[1..][i - 1] == chunks[i];
      assert UnshuffleChunks(keys, chunks).out[i] == d.out[i - 1];
    }
  }

  lemma {:induction false} UnshuffleChunksAt(keys: seq<string>, chunks: seq<string>, i: nat)
    requires i < |chunks|
    ensures var r := UnshuffleRuns(keys, Tokenize(chunks[i]));
            var d := UnshuffleChunks(r.keys, chunks[i + 1..]);
            UnshuffleChunks(keys, chunks[i..]) == Decoded([Concat(r.out)] + d.out, d.keys)
  {
    assert chunks[i..][1..] == chunks[i + 1..];
  }

  /** One turn of the loop of `decode_text`: decoding chunk `i` extends the
      decoded prefix by one chunk. */
  lemma {:induction false} UnshuffleChunksStep(keys0: seq<string>, keys1: seq<string>, chunks: seq<string>, i: nat,
                            done: seq<string>, d: string, all: seq<string>)
    requires i < |chunks|
    requires done + UnshuffleChunks(keys0, chunks[i..]).out == all
    requires var r := UnshuffleRuns(keys0, Tokenize(chunks[i])); d == Concat(r.out) && keys1 == r.keys
    ensures (done + [d]) + UnshuffleChunks(keys1, chunks[i + 1..]).out == all
  {
    UnshuffleChunksAt(keys0, chunks, i);
    AppendAssoc(done, d, UnshuffleChunks(keys1, chunks[i + 1..]).out);
  }

  /** `[key.strip() for key in parts]`. */
  function StripAll(parts: seq<string>): (r: seq<string>)
    ensures |r| == |parts|
  {
    if parts == [] then [] else [Strip(parts[0])] + StripAll(parts[1..])
  }

  /** `[key.strip() for key in keys.split(' ')]`. */
  function Keychain(keys: string): seq<string> {
    StripAll(Split(keys, ' '))
  }

  // ---------------------------------------------------------------------------
  // The wrapper

  const Boundary: string := "\n---weird---\n"

  /** The pattern `---weird---\n(.*)\n---weird---(.*)` is `Opener (.*) Closer (.*)`:
      the boundary without its first character, then without its last. */
  const Opener: string := "---weird---\n"
  const Closer: string := "\n---weird---"

  lemma {:induction false} BoundaryParts()
    ensures |Boundary| == 13 && |Opener| == 12 && |Closer| == 12
    ensures Opener == Boundary[1..] && Closer == Boundary[..|Boundary| - 1]
  {
  }

  /** The f-string of `encode_text`. */
  function Wrap(body: string, keychain: seq<string>): string {
    Boundary + body + Boundary + Join(keychain, ' ')
  }

  /** `pat` occurs in `s` starting at index `i`: it fits, and agrees
      character by character. */
  predicate OccursAt(s: string, pat: string, i: nat) {
    i + |pat| <= |s| && forall k :: 0 <= k < |pat| ==> s[i + k] == pat[k]
  }

  /** The pattern matches `s` with group 1 from `p + |Opener|` to `q`. */
  ghost predicate PatternAt(s: string, p: nat, q: nat) {
    OccursAt(s, Opener, p) && OccursAt(s, Closer, q) && p + |Opener| <= q
  }

  /** The match `re.search` reports: the leftmost start, and from it the
      longest group 1 (greedy `.*` under DOTALL). */
  ghost predicate SearchMatch(s: string, p: nat, q: nat) {
    PatternAt(s, p, q)
    && forall p': nat, q': nat :: PatternAt(s, p', q') ==> p < p' || (p == p' && q' <= q)
  }

  /** The first occurrence of `pat` in `s` starting at `from` or later. */
  function FindFirst(s: string, pat: string, from: nat): (r: Option<nat>)
    ensures r.Some? ==> from <= r.value
    decreases |s| - from
  {
    if from + |pat| > |s| then None
    else if OccursAt(s, pat, from) then Some(from)
    else FindFirst(s, pat, from + 1)
  }

  /** `FindFirst` finds an occurrence, and none comes before it. */
  lemma {:induction false} FindFirstSpec(s: string, pat: string, from: nat)
    ensures var r := FindFirst(s, pat, from);
            (r.Some? ==> OccursAt(s, pat, r.value))
            && forall j: nat :: from <= j && (r.None? || j < r.value) ==> !OccursAt(s, pat, j)
    decreases |s| - from
  {
    if from + |pat| <= |s| && !OccursAt(s, pat, from) {
      FindFirstSpec(s, pat, from + 1);
    }
  }

  /** The last occurrence of `pat` in `s` starting in `from..hi`. */
  function FindLast(s: string, pat: string, from: nat, hi: int): (r: Option<nat>)
    ensures r.Some? ==> from <= r.value <= hi
    decreases hi - from
  {
    if hi < from then None
    else if OccursAt(s, pat, hi) then Some(hi)
    else FindLast(s, pat, from, hi - 1)
  }

  /** `FindLast` finds an occurrence, and none comes after it up to `hi`. */
  lemma {:induction false} FindLastSpec(s: string, pat: string, from: nat, hi: int)
    ensures var r := FindLast(s, pat, from, hi);
            (r.Some? ==> OccursAt(s, pat, r.value))
            && forall j: nat :: from <= j <= hi && (r.None? || r.value < j) ==> !OccursAt(s, pat, j)
    decreases hi - from
  {
    if from <= hi && !OccursAt(s, pat, hi) {
      FindLastSpec(s, pat, from, hi - 1);
    }
  }

  /** `_get_text`: the shuffled body and the keys part of a wrapped text, or
      nothing when the pattern does not match. */
  function GetText(s: string): Option<(string, string)> {
    match FindFirst(s, Opener, 0)
    case None => None
    case Some(p) =>
      match FindLast(s, Closer, p + |Opener|, |s| - |Closer|)
      case None => None
      case Some(q) => Some((s[p + |Opener|..q], s[q + |Closer|..]))
  }

  lemma {:induction false} NoOpener(s: string)
    requires FindFirst(s, Opener, 0).None?
    ensures !exists p: nat, q: nat :: PatternAt(s, p, q)
  {
    FindFirstSpec(s, Opener, 0);
  }

  /** What `FindFirst` reports: an occurrence, and none before it. */
  lemma {:induction false} FirstFound(s: string, pat: string, from: nat, p: nat)
    requires FindFirst(s, pat, from) == Some(p)
    ensures OccursAt(s, pat, p)
    ensures forall j: nat :: from <= j < p ==> !OccursAt(s, pat, j)
  {
    FindFirstSpec(s, pat, from);
  }

  /** What `FindLast` reports when it finds nothing: no occurrence in range. */
  lemma {:induction false} LastNone(s: string, pat: string, from: nat, hi: int)
    requires FindLast(s, pat, from, hi).None?
    ensures forall j: nat :: from <= j <= hi ==> !OccursAt(s, pat, j)
  {
    FindLastSpec(s, pat, from, hi);
  }

  lemma {:induction false} OccursWithin(s: string, pat: string, i: nat)
    ensures OccursAt(s, pat, i) ==> i + |pat| <= |s|
  {
  }

  /** With no `op` in `from..p` and no `cl` from `p + |op|` on, no `op` from
      `from` on is followed by a `cl`. */
  lemma {:induction false} NoLaterPair(s: string, op: string, cl: string, from: nat, p: nat)
    requires forall j: nat :: from <= j < p ==> !OccursAt(s, op, j)
    requires forall j: nat :: p + |op| <= j <= |s| - |cl| ==> !OccursAt(s, cl, j)
    ensures forall p': nat, q': nat :: from <= p' ==> !(OccursAt(s, op, p') && OccursAt(s, cl, q') && p' + |op| <= q')
  {
    forall p': nat, q': nat | from <= p'
      ensures !(OccursAt(s, op, p') && OccursAt(s, cl, q') && p' + |op| <= q')
    {
      OccursWithin(s, cl, q');
    }
  }

  lemma {:induction false} NoPairFrom(s: string, op: string, cl: string, from: nat, p: nat)
    requires FindFirst(s, op, from) == Some(p)
    requires FindLast(s, cl, p + |op|, |s| - |cl|).None?
    ensures forall p': nat, q': nat :: from <= p' ==> !(OccursAt(s, op, p') && OccursAt(s, cl, q') && p' + |op| <= q')
  {
    FirstFound(s, op, from, p);
    LastNone(s, cl, p + |op|, |s| - |cl|);
    NoLaterPair(s, op, cl, from, p);
  }

  lemma {:induction false} NoCloser(s: string, p: nat)
    requires FindFirst(s, Opener, 0) == Some(p)
    requires FindLast(s, Closer, p + |Opener|, |s| - |Closer|).None?
    ensures !exists p': nat, q': nat :: PatternAt(s, p', q')
  {
    NoPairFrom(s, Opener, Closer, 0, p);
  }

  /** What `FindLast` reports when it finds `q`: an occurrence, and none after it. */
  lemma {:induction false} LastFound(s: string, pat: string, from: nat, hi: int, q: nat)
    requires FindLast(s, pat, from, hi) == Some(q)
    ensures OccursAt(s, pat, q)
    ensures forall j: nat :: q < j <= hi ==> !OccursAt(s, pat, j)
  {
    FindLastSpec(s, pat, from, hi);
  }

  /** The first `op` at `p` and the last `cl` after it at `q` give the match
      with the leftmost start and, from it, the longest middle. */
  lemma {:induction false} FirstLastPair(s: string, op: string, cl: string, from: nat, p: nat, q: nat)
    requires p + |op| <= q
    requires forall j: nat :: from <= j < p ==> !OccursAt(s, op, j)
    requires forall j: nat :: q < j <= |s| - |cl| ==> !OccursAt(s, cl, j)
    ensures forall p': nat, q': nat :: from <= p' && OccursAt(s, op, p') && OccursAt(s, cl, q') && p' + |op| <= q'
              ==> p < p' || (p == p' && q' <= q)
  {
    forall p': nat, q': nat | from <= p' && OccursAt(s, op, p') && OccursAt(s, cl, q') && p' + |op| <= q'
      ensures p < p' || (p == p' && q' <= q)
    {
      OccursWithin(s, cl, q');
    }
  }

  lemma {:induction false} PairFrom(s: string, op: string, cl: string, from: nat, p: nat, q: nat)
    requires FindFirst(s, op, from) == Some(p)
    requires FindLast(s, cl, p + |op|, |s| - |cl|) == Some(q)
    ensures OccursAt(s, op, p) && OccursAt(s, cl, q) && p + |op| <= q
    ensures forall p': nat, q': nat :: from <= p' && OccursAt(s, op, p') && OccursAt(s, cl, q') && p' + |op| <= q'
              ==> p < p' || (p == p' && q' <= q)
  {
    FirstFound(s, op, from, p);
    LastFound(s, cl, p + |op|, |s| - |cl|, q);
    FirstLastPair(s, op, cl, from, p, q);
  }

  lemma {:induction false} OpenerAndCloser(s: string, p: nat, q: nat)
    requires FindFirst(s, Opener, 0) == Some(p)
    requires FindLast(s, Closer, p + |Opener|, |s| - |Closer|) == Some(q)
    ensures SearchMatch(s, p, q)
  {
    PairFrom(s, Opener, Closer, 0, p, q);
  }

  /** When `_get_text` finds the parts, they are the groups of the match
      `re.search` reports. */
  lemma {:induction false} GetTextFound(s: string)
    requires GetText(s).Some?
    ensures exists p: nat, q: nat :: SearchMatch(s, p, q)
              && GetText(s).value == (s[p + |Opener|..q], s[q + |Closer|..])
  {
    var p := FindFirst(s, Opener, 0).value;
    var q := FindLast(s, Closer, p + |Opener|, |s| - |Closer|).value;
    OpenerAndCloser(s, p, q);
    assert GetText(s).value == (s[p + |Opener|..q], s[q + |Closer|..]);
  }

  /** When `_get_text` fails, the pattern matches nowhere. */
  lemma {:induction false} GetTextMissing(s: string)
    requires GetText(s).None?
    ensures !exists p: nat, q: nat :: PatternAt(s, p, q)
  {
    match FindFirst(s, Opener, 0)
    case None =>
      NoOpener(s);
    case Some(p) =>
      NoCloser(s, p);
  }

  /** `_get_text` succeeds exactly when the pattern matches somewhere, and
      then returns the groups of the match `re.search` finds. */
  lemma {:induction false} GetTextSearch(s: string)
    ensures GetText(s).Some? <==> exists p: nat, q: nat :: PatternAt(s, p, q)
    ensures GetText(s).Some? ==> exists p: nat, q: nat :: SearchMatch(s, p, q)
                                   && GetText(s).value == (s[p + |Opener|..q], s[q + |Closer|..])
  {
    if GetText(s).Some? {
      GetTextFound(s);
      var p: nat, q: nat :| SearchMatch(s, p, q)
        && GetText(s).value == (s[p + |Opener|..q], s[q + |Closer|..]);
      assert PatternAt(s, p, q);
    } else {
      GetTextMissing(s);
    }
  }

  /** `decode_text` as a function: the decoded text, or the decoding error. */
  function Decoding(text: string): Result<string> {
    match GetText(text)
    case None => Err(NotFormattedCorrectly)
    case Some(parts) =>
      Ok(Join(UnshuffleChunks(Keychain(parts.1), Split(parts.0, ' ')).out, ' '))
  }

  /** `decode_text` raises its exception exactly when the wrapper pattern
      matches nowhere in the text. */
  lemma {:induction false} DecodingFails(text: string)
    ensures Decoding(text).Err? <==> !exists p: nat, q: nat :: PatternAt(text, p, q)
  {
    GetTextSearch(text);
  }

  lemma {:induction false} DecodingOf(text: string, body: string, keys: string)
    requires GetText(text) == Some((body, keys))
    ensures Decoding(text) == Ok(Join(UnshuffleChunks(Keychain(keys), Split(body, ' ')).out, ' '))
  {
  }

  // ---------------------------------------------------------------------------
  // The codec object

  class WeirdText {
    /** The keychain: originals of the tokens shuffled so far while encoding,
        the entries not yet matched while decoding. */
    var encodedWords: seq<string>

    constructor()
      ensures encodedWords == []
    {
      encodedWords := [];
    }

    /** `_shuffle_inside`: the random shuffle repeated until the word changes
        is the choice of any interior permutation that changes it. */
    method ShuffleInside(word: string) returns (shuffled: string)
      modifies this
      ensures Fixed(word) ==> shuffled == word && encodedWords == old(encodedWords)
      ensures !Fixed(word) ==> ProperShuffle(word, shuffled)
                               && encodedWords == old(encodedWords) + [word]
    {
      if |word| <= 3 {
        return word;
      }
      var inside := word[1..|word| - 1];
      InteriorLetters(word);
      if |set c | c in inside| == 1 {
        return word;
      }
      ShuffleExists(word);
      var permuted :| multiset(permuted) == multiset(inside)
                      && [word[0]] + permuted + [word[|word| - 1]] != word;
      shuffled := [word[0]] + permuted + [word[|word| - 1]];
      assert |permuted| == |multiset(permuted)| == |inside|;
      assert Interior(shuffled) == permuted;
      encodedWords := encodedWords + [word];
    }

    /** `_deshuffle_inside`: hand back, and pop, the first keychain entry made
        of the same characters as the token; keep the token when none is. */
    method DeshuffleInside(word: string) returns (decoded: string)
      modifies this
      ensures var keys, i := old(encodedWords), FirstAnagram(old(encodedWords), word);
              if i < |keys| then decoded == keys[i] && encodedWords == keys[..i] + keys[i + 1..]
              else decoded == word && encodedWords == keys
    {
      for i := 0 to |encodedWords|
        invariant encodedWords == old(encodedWords)
        invariant forall j :: 0 <= j < i ==> !Same(encodedWords[j], word)
      {
        if Same(encodedWords[i], word) {
          decoded := encodedWords[i];
          encodedWords := encodedWords[..i] + encodedWords[i + 1..];
          return;
        }
      }
      decoded := word;
    }

    /** `encode_word`: shuffle every token of the chunk, left to right. */
    method EncodeWord(word: string) returns (encoded: string)
      modifies this
      ensures EncodedChunk(word, encoded)
      ensures encodedWords == old(encodedWords) + Originals(Tokenize(word))
      ensures |encoded| == |word|
      ensures forall k :: 0 <= k < |word| && !IsWordChar(word[k]) ==> encoded[k] == word[k]
    {
      var runs := Tokenize(word);
      TokenizeSpec(word);
      ghost var out: seq<string> := [];
      encoded := [];
      for i := 0 to |runs|
        invariant EncodedRuns(runs[..i], out)
        invariant encoded == Concat(out)
        invariant encodedWords == old(encodedWords) + Originals(runs[..i])
      {
        ghost var keys0 := encodedWords;
        var piece := runs[i];
        if IsWordRun(piece) {
          piece := ShuffleInside(piece);
        }
        EncodeWordStep(runs, i, out, piece, old(encodedWords), keys0, encodedWords);
        ConcatAppend(out, piece);
        out := out + [piece];
        encoded := encoded + piece;
      }
      assert runs[..|runs|] == runs;
      EncodeWordEnd(word, out);
    }

    /** `decode_word`: put back the keychain entry of every token of the chunk, left to right. */
    method DecodeWord(word: string) returns (decoded: string)
      modifies this
      ensures var d := UnshuffleRuns(old(encodedWords), Tokenize(word));
              decoded == Concat(d.out) && encodedWords == d.keys
      ensures Reshaped(Tokenize(word), Tokenize(decoded))
      ensures |decoded| == |word|
      ensures forall k :: 0 <= k < |word| && !IsWordChar(word[k]) ==> decoded[k] == word[k]
    {
      var runs := Tokenize(word);
      TokenizeSpec(word);
      ghost var all := UnshuffleRuns(encodedWords, runs);
      ghost var out: seq<string> := [];
      decoded := [];
      for i := 0 to |runs|
        invariant var d := UnshuffleRuns(encodedWords, runs[i..]);
                  out + d.out == all.out && d.keys == all.keys
        invariant decoded == Concat(out)
      {
        ghost var keys0 := encodedWords;
        var piece := runs[i];
        if IsWordRun(piece) {
          piece := DeshuffleInside(piece);
        }
        assert Step(piece, encodedWords) == NextStep(keys0, runs[i]);
        DecodeWordStep(keys0, encodedWords, runs, i, out, piece, all);
        ConcatAppend(out, piece);
        out := out + [piece];
        decoded := decoded + piece;
      }
      DecodeWordEnd(encodedWords, runs, out, all);
      ReshapedShape(runs, all.out);
    }
  }

  // ---------------------------------------------------------------------------
  // The two entry points

  /** One turn of the loop of `encode_text`: encoding chunk `i` in place
      extends the encoded prefix and the keychain by that chunk. */
  lemma {:induction false} EncodeTextStep(chunks: seq<string>, words: seq<string>, i: nat, e: string)
    requires |words| == |chunks| && i < |words| && words[i..] == chunks[i..]
    requires EncodedChunks(chunks[..i], words[..i])
    requires EncodedChunk(chunks[i], e)
    ensures words[i := e][i + 1..] == chunks[i + 1..]
    ensures EncodedChunks(chunks[..i + 1], words[i := e][..i + 1])
    ensures OriginalsOf(chunks[..i + 1]) == OriginalsOf(chunks[..i]) + Originals(Tokenize(chunks[i]))
  {
    EncodedChunksSnoc(chunks[..i], words[..i], chunks[i], e);
    OriginalsOfSnoc(chunks[..i], chunks[i]);
    assert chunks[..i + 1] == chunks[..i] + [chunks[i]];
    UpdateAt(words, i, e);
    assert words[i + 1..] == words[i..][1..];
  }

  /** `encode_text`: encode every space-separated chunk with one keychain and
      wrap the result with the sorted keychain. */
  method EncodeText(text: string) returns (wrapped: string)
    ensures exists enc :: EncodedChunks(Split(text, ' '), enc)
                          && wrapped == Wrap(Join(enc, ' '), Sort(OriginalsOf(Split(text, ' '))))
  {
    var encoder := new WeirdText();
    var words := Split(text, ' ');
    ghost var chunks := words;
    for i := 0 to |words|
      invariant |words| == |chunks| && words[i..] == chunks[i..]
      invariant EncodedChunks(chunks[..i], words[..i])
      invariant encoder.encodedWords == OriginalsOf(chunks[..i])
    {
      assert words[i] == chunks[i];
      var e := encoder.EncodeWord(words[i]);
      EncodeTextStep(chunks, words, i, e);
      words := words[i := e];
    }
    assert chunks[..|words|] == chunks && words[..|words|] == words;
    wrapped := Wrap(Join(words, ' '), Sort(encoder.encodedWords));
  }

  /** One turn of the loop of `decode_text`: decoding chunk `i` in place
      extends the decoded prefix by one chunk. */
  lemma {:induction false} DecodeTextStep(keys0: seq<string>, keys1: seq<string>, chunks: seq<string>, words: seq<string>,
                       i: nat, d: string, all: seq<string>)
    requires |words| == |chunks| && i < |words| && words[i..] == chunks[i..]
    requires words[..i] + UnshuffleChunks(keys0, chunks[i..]).out == all
    requires var r := UnshuffleRuns(keys0, Tokenize(chunks[i])); d == Concat(r.out) && keys1 == r.keys
    ensures words[i := d][i + 1..] == chunks[i + 1..]
    ensures words[i := d][..i + 1] + UnshuffleChunks(keys1, chunks[i + 1..]).out == all
  {
    UnshuffleChunksStep(keys0, keys1, chunks, i, words[..i], d, all);
    UpdateAt(words, i, d);
    assert words[i + 1..] == words[i..][1..];
  }

  lemma {:induction false} DecodeTextEnd(keys: seq<string>, chunks: seq<string>, words: seq<string>, all: seq<string>)
    requires |words| == |chunks|
    requires words[..|words|] + UnshuffleChunks(keys, chunks[|words|..]).out == all
    ensures words == all
  {
    assert chunks[|words|..] == [];
    assert UnshuffleChunks(keys, []).out == [];
    assert words == words[..|words|];
  }

  /** `decode_text`: parse the wrapper, rebuild the keychain and decode every
      space-separated chunk with it. */
  method DecodeText(text: string) returns (decoded: Result<string>)
    ensures decoded == Decoding(text)
  {
    var decoder := new WeirdText();
    var parsed := GetText(text);
    if parsed.None? {
      return Err(NotFormattedCorrectly);
    }
    var encoded, keys := parsed.value.0, parsed.value.1;
    decoder.encodedWords := Keychain(keys);
    var words := Split(encoded, ' ');
    ghost var chunks := words;
    ghost var all := UnshuffleChunks(decoder.encodedWords, chunks);
    for i := 0 to |words|
      invariant |words| == |chunks| && words[i..] == chunks[i..]
      invariant words[..i] + UnshuffleChunks(decoder.encodedWords, chunks[i..]).out == all.out
    {
      ghost var keys0 := decoder.encodedWords;
      assert words[i] == chunks[i];
      var d := decoder.DecodeWord(words[i]);
      DecodeTextStep(keys0, decoder.encodedWords, chunks, words, i, d, all.out);
      words := words[i := d];
    }
    DecodeTextEnd(decoder.encodedWords, chunks, words, all.out);
    decoded := Ok(Join(words, ' '));
    DecodingOf(text, encoded, keys);
  }
}
