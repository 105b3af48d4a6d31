/** The part of Python's `str.split`, `str.join`, `str.strip` and `sorted`
    that the codec relies on, over strings as sequences of characters. */
module PyStr {

  /** The characters `str.strip()` removes: Python's ASCII whitespace. */
  predicate IsSpace(c: char) {
    c == ' ' || c == '\t' || c == '\n' || c == '\r' || c == '\U{000B}' || c == '\U{000C}'
    || ('\U{001C}' <= c <= '\U{001F}')
  }

  /** `sep.join(parts)`: the parts with one `sep` between neighbours. */
  function Join(parts: seq<string>, sep: char): string
  {
    if parts == [] then []
    else if |parts| == 1 then parts[0]
    else parts[0] + [sep] + Join(parts[1..], sep)
  }

  /** `s.split(sep)`: the pieces of `s` between occurrences of `sep`, empty
      pieces included; there is always at least one piece. */
  function Split(s: string, sep: char): (parts: seq<string>)
    ensures |parts| >= 1
    ensures forall i :: 0 <= i < |parts| ==> sep !in parts[i]
    ensures Join(parts, sep) == s
  {
    if s == [] then [[]]
    else
      var rest := Split(s[1..], sep);
      if s[0] == sep then
        assert s == [sep] + s[1..];
        [[]] + rest
      else
        assert s == [s[0]] + s[1..];
        [[s[0]] + rest[0]] + rest[1..]
  }

  lemma {:induction false} SplitWithoutSep(a: string, sep: char)
    requires sep !in a
    ensures Split(a, sep) == [a]
  {
    if a != [] {
      SplitWithoutSep(a[1..], sep);
    }
  }

  lemma {:induction false} SplitAtSep(a: string, b: string, sep: char)
    requires sep !in a
    ensures Split(a + [sep] + b, sep) == [a] + Split(b, sep)
  {
    if a == [] {
      assert a + [sep] + b == [sep] + b;
      assert (a + [sep] + b)[1..] == b;
    } else {
      var s := a + [sep] + b;
      assert s[0] == a[0] && s[1..] == a[1..] + [sep] + b;
      var rest := Split(s[1..], sep);
      assert rest[0] == a[1..] && rest[1..] == Split(b, sep) by {
        SplitAtSep(a[1..], b, sep);
      }
      assert [a[0]] + a[1..] == a;
    }
  }

  /** Splitting undoes joining, as long as no part holds the separator. */
  lemma {:induction false} SplitJoin(parts: seq<string>, sep: char)
    requires |parts| >= 1
    requires forall i :: 0 <= i < |parts| ==> sep !in parts[i]
    ensures Split(Join(parts, sep), sep) == parts
  {
    if |parts| == 1 {
      SplitWithoutSep(parts[0], sep);
    } else {
      SplitJoin(parts[1..], sep);
      SplitAtSep(parts[0], Join(parts[1..], sep), sep);
    }
  }

  /** Putting `pre` in front of the first part puts it in front of the join. */
  lemma {:induction false} JoinPrefix(pre: string, parts: seq<string>, sep: char)
    requires parts != []
    ensures Join([pre + parts[0]] + parts[1..], sep) == pre + Join(parts, sep)
  {
    var moved := [pre + parts[0]] + parts[1..];
    assert moved[0] == pre + parts[0] && moved[1..] == parts[1..];
    if |parts| > 1 {
      assert Join(moved, sep) == (pre + parts[0]) + [sep] + Join(parts[1..], sep);
      assert Join(parts, sep) == parts[0] + [sep] + Join(parts[1..], sep);
    }
  }

  /** Every character of a join is a character of some part or the separator. */
  lemma {:induction false} JoinChars(parts: seq<string>, sep: char, k: nat)
    requires k < |Join(parts, sep)|
    ensures Join(parts, sep)[k] == sep || exists i :: 0 <= i < |parts| && Join(parts, sep)[k] in parts[i]
  {
    if |parts| > 1 {
      var j := Join(parts, sep);
      if k < |parts[0]| {
        assert j[k] == parts[0][k];
      } else if k > |parts[0]| {
        var k' := k - |parts[0]| - 1;
        JoinChars(parts[1..], sep, k');
        assert j[k] == Join(parts[1..], sep)[k'];
        if j[k] != sep {
          var i :| 0 <= i < |parts[1..]| && j[k] in parts[1..][i];
          assert parts[1..][i] == parts[i + 1];
        }
      }
    }
  }

  /** `s.lstrip()`: drops the leading whitespace, and nothing else. */
  function TrimStart(s: string): (t: string)
    ensures |t| <= |s| && t == s[|s| - |t|..]
    ensures forall k :: 0 <= k < |s| - |t| ==> IsSpace(s[k])
    ensures t == [] || !IsSpace(t[0])
  {
    if s != [] && IsSpace(s[0]) then TrimStart(s[1..]) else s
  }

  /** `s.rstrip()`: drops the trailing whitespace, and nothing else. */
  function TrimEnd(s: string): (t: string)
    ensures |t| <= |s| && t == s[..|t|]
    ensures forall k :: |t| <= k < |s| ==> IsSpace(s[k])
    ensures t == [] || !IsSpace(t[|t| - 1])
  {
    if s != [] && IsSpace(s[|s| - 1]) then TrimEnd(s[..|s| - 1]) else s
  }

  /** `s.strip()`. */
  function Strip(s: string): (t: string)
    ensures |t| <= |s|
    ensures t == [] || (!IsSpace(t[0]) && !IsSpace(t[|t| - 1]))
  {
    var u := TrimStart(s);
    var t := TrimEnd(u);
    assert t != [] ==> t[0] == u[0];
    t
  }

  predicate AllSpace(s: string) {
    forall k :: 0 <= k < |s| ==> IsSpace(s[k])
  }

  /** `lstrip` removes exactly a whitespace prefix in front of a part that
      does not start with whitespace. */
  lemma {:induction false} TrimStartPadding(pre: string, rest: string)
    requires AllSpace(pre) && (rest == [] || !IsSpace(rest[0]))
    ensures TrimStart(pre + rest) == rest
  {
    var s := pre + rest;
    var t := TrimStart(s);
    if rest != [] {
      assert s[|pre|] == rest[0];
    }
    assert s[|pre|..] == rest;
  }

  /** `rstrip` removes exactly a whitespace suffix behind a part that does
      not end with whitespace. */
  lemma {:induction false} TrimEndPadding(rest: string, post: string)
    requires AllSpace(post) && (rest == [] || !IsSpace(rest[|rest| - 1]))
    ensures TrimEnd(rest + post) == rest
  {
    var s := rest + post;
    var t := TrimEnd(s);
    if rest != [] {
      assert s[|rest| - 1] == rest[|rest| - 1];
    }
    assert s[..|rest|] == rest;
  }

  /** Stripping removes exactly a whitespace prefix and suffix around a core
      that neither starts nor ends with whitespace. */
  lemma {:induction false} StripPadding(pre: string, core: string, post: string)
    requires AllSpace(pre) && AllSpace(post)
    requires core == [] || (!IsSpace(core[0]) && !IsSpace(core[|core| - 1]))
    ensures Strip(pre + core + post) == core
  {
    if core == [] {
      assert pre + core + post == pre + post;
      TrimStartPadding(pre + post, []);
      assert pre + post + [] == pre + post;
    } else {
      assert pre + core + post == pre + (core + post);
      TrimStartPadding(pre, core + post);
      TrimEndPadding(core, post);
    }
  }

  /** Python's ordering of strings: code point by code point, a proper prefix
      first. */
  predicate LexLe(a: string, b: string) {
    a == [] || (b != [] && (a[0] < b[0] || (a[0] == b[0] && LexLe(a[1..], b[1..]))))
  }

  lemma {:induction false} LexLeTotal(a: string, b: string)
    ensures LexLe(a, b) || LexLe(b, a)
  {
    if a != [] && b != [] && a[0] == b[0] {
      LexLeTotal(a[1..], b[1..]);
    }
  }

  ghost predicate Sorted(s: seq<string>) {
    forall i :: 0 <= i < |s| - 1 ==> LexLe(s[i], s[i + 1])
  }

  function Insert(x: string, s: seq<string>): (r: seq<string>)
    requires Sorted(s)
    ensures Sorted(r)
    ensures multiset(r) == multiset(s) + multiset{x}
    ensures |r| == |s| + 1 && (r[0] == x || (s != [] && r[0] == s[0]))
  {
    if s == [] then [x]
    else if LexLe(x, s[0]) then [x] + s
    else
      LexLeTotal(x, s[0]);
      var r := [s[0]] + Insert(x, s[1..]);
      assert s == [s[0]] + s[1..];
      r
  }

  /** `sorted(s)`: the elements of `s`, in Python's string order. */
  function Sort(s: seq<string>): (r: seq<string>)
    ensures Sorted(r)
    ensures multiset(r) == multiset(s)
  {
    if s == [] then []
    else
      assert s == [s[0]] + s[1..];
      Insert(s[0], Sort(s[1..]))
  }
}
