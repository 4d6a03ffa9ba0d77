/**
 The Python string operations the network-info parsers are built from, on `string`
 (a sequence of code points):
 - `s.split()`        — Words: maximal runs of non-whitespace, empty tokens dropped;
 - `s.split(sep)`     — Split: the pieces between separators, empty pieces kept;
 - `sep.join(parts)`  — Join, the inverse of Split, used only by the round-trip
                         lemmas (the parsers never call it);
 - `s.strip()`        — Strip: whitespace removed at both ends;
 - `s.startswith(p)`  — StartsWith.
 Whitespace is what `str.isspace()` accepts, the set both `split()` and `strip()` use.
 */
module PyStrings {

  /** One code point that `str.isspace()` accepts. */
  predicate IsSpace(c: char)
  {
    var n := c as int;
    (9 <= n <= 13) || (28 <= n <= 32) || n == 0x85 || n == 0xA0 || n == 0x1680
    || (0x2000 <= n <= 0x200A) || n == 0x2028 || n == 0x2029 || n == 0x202F
    || n == 0x205F || n == 0x3000
  }

  predicate AllSpace(s: string)
  {
    forall j :: 0 <= j < |s| ==> IsSpace(s[j])
  }

  predicate NoSpace(s: string)
  {
    forall j :: 0 <= j < |s| ==> !IsSpace(s[j])
  }

  /** A token that `split()` can produce: non-empty and free of whitespace. */
  predicate IsWord(w: string)
  {
    w != [] && NoSpace(w)
  }

  predicate StartsWith(s: string, prefix: string)
  {
    |prefix| <= |s| && s[..|prefix|] == prefix
  }

  predicate EndsWith(s: string, suffix: string)
  {
    |suffix| <= |s| && s[|s| - |suffix|..] == suffix
  }

  // ---------------------------------------------------------------------------
  // s.split(sep) and sep.join(parts) for a one-character separator

  /** Index of the first `c` in `s`, or |s| when `s` has none. */
  function Find(s: string, c: char): (i: nat)
    ensures i <= |s|
    ensures forall j :: 0 <= j < i ==> s[j] != c
    ensures i < |s| ==> s[i] == c
  {
    if s == [] || s[0] == c then 0 else 1 + Find(s[1..], c)
  }

  /** The three properties above pin the index down. */
  lemma FindUnique(s: string, c: char, i: nat)
    requires i <= |s|
    requires forall j :: 0 <= j < i ==> s[j] != c
    requires i < |s| ==> s[i] == c
    ensures Find(s, c) == i
  {
  }

  /** `s.split(sep)`: always at least one piece, none containing `sep`. */
  function Split(s: string, sep: char): (parts: seq<string>)
    ensures |parts| >= 1
    ensures parts[0] == s[..Find(s, sep)]
    ensures forall k :: 0 <= k < |parts| ==> sep !in parts[k]
    decreases |s|
  {
    var i := Find(s, sep);
    assert sep !in s[..i] by {
      forall j | 0 <= j < i ensures s[..i][j] != sep { }
    }
    if i == |s| then [s] else [s[..i]] + Split(s[i + 1..], sep)
  }

  /** `sep.join(parts)`. */
  function Join(parts: seq<string>, sep: char): string
  {
    if parts == [] then []
    else if |parts| == 1 then parts[0]
    else parts[0] + [sep] + Join(parts[1..], sep)
  }

  /** Joining the pieces of a split gives back the original string. */
  lemma {:induction false} JoinSplit(s: string, sep: char)
    ensures Join(Split(s, sep), sep) == s
    decreases |s|
  {
    var i := Find(s, sep);
    if i < |s| {
      var head, tail := s[..i], s[i + 1..];
      var rest := Split(tail, sep);
      assert Split(s, sep) == [head] + rest;
      JoinSplit(tail, sep);
      JoinCons(head, rest, sep);
      Reassemble(s, i);
    }
  }

  /** A string is the text before index i, the character at i, and the text after it. */
  lemma Reassemble(s: string, i: nat)
    requires i < |s|
    ensures s[..i] + [s[i]] + s[i + 1..] == s
  {
  }

  /** Joining a piece in front of at least one more adds the piece and a separator. */
  lemma JoinCons(p: string, rest: seq<string>, sep: char)
    requires rest != []
    ensures Join([p] + rest, sep) == p + [sep] + Join(rest, sep)
  {
    assert ([p] + rest)[1..] == rest;
  }

  /** Splitting a join of separator-free pieces gives back the pieces. */
  lemma {:induction false} SplitJoin(parts: seq<string>, sep: char)
    requires |parts| >= 1
    requires forall k :: 0 <= k < |parts| ==> sep !in parts[k]
    ensures Split(Join(parts, sep), sep) == parts
    decreases |parts|, 1
  {
    if |parts| == 1 {
      SplitOfPiece(parts[0], sep);
    } else {
      SplitJoinCons(parts, sep);
    }
  }

  /** A piece without the separator splits into itself. */
  lemma SplitOfPiece(p: string, sep: char)
    requires sep !in p
    ensures Split(p, sep) == [p]
  {
    forall j | 0 <= j < |p| ensures p[j] != sep {
      assert p[j] in p;
    }
    FindUnique(p, sep, |p|);
  }

  /** SplitJoin for two or more pieces: the first piece ends at the first separator. */
  lemma {:induction false} SplitJoinCons(parts: seq<string>, sep: char)
    requires |parts| >= 2
    requires forall k :: 0 <= k < |parts| ==> sep !in parts[k]
    ensures Split(Join(parts, sep), sep) == parts
    decreases |parts|, 0
  {
    var p := parts[0];
    var rest := Join(parts[1..], sep);
    var s := p + [sep] + rest;
    assert sep !in p;
    assert parts == [p] + parts[1..];
    JoinCons(p, parts[1..], sep);
    forall j | 0 <= j < |p| ensures s[j] != sep {
      assert s[j] == p[j] && p[j] in p;
    }
    FindUnique(s, sep, |p|);
    assert s[..|p|] == p;
    assert s[|p| + 1..] == rest;
    SplitJoin(parts[1..], sep);
    assert Split(s, sep) == [s[..|p|]] + Split(s[|p| + 1..], sep);
  }

  /** The first separator of `a + [sep] + b` is the first of `a`, or the one added. */
  lemma FindAppend(a: string, b: string, sep: char)
    ensures Find(a + [sep] + b, sep) == Find(a, sep)
  {
    var s := a + [sep] + b;
    var i := Find(a, sep);
    forall j | 0 <= j < i ensures s[j] != sep {
      assert s[j] == a[j];
    }
    assert i < |a| ==> s[i] == a[i];
    FindUnique(s, sep, i);
  }

  /** A separator in the middle splits into the pieces of each side. */
  lemma {:induction false} SplitAppend(a: string, b: string, sep: char)
    ensures Split(a + [sep] + b, sep) == Split(a, sep) + Split(b, sep)
    decreases |a|, 1
  {
    if Find(a, sep) < |a| {
      SplitAppendInner(a, b, sep);
    } else {
      var s := a + [sep] + b;
      FindAppend(a, b, sep);
      assert s[..|a|] == a;
      assert s[|a| + 1..] == b;
    }
  }

  /** SplitAppend when `a` has a separator of its own: its first piece comes first. */
  lemma {:induction false} SplitAppendInner(a: string, b: string, sep: char)
    requires Find(a, sep) < |a|
    ensures Split(a + [sep] + b, sep) == Split(a, sep) + Split(b, sep)
    decreases |a|, 0
  {
    var s := a + [sep] + b;
    var i := Find(a, sep);
    FindAppend(a, b, sep);
    assert s[..i] == a[..i];
    assert s[i + 1..] == a[i + 1..] + [sep] + b;
    SplitAppend(a[i + 1..], b, sep);
    assert Split(a, sep) == [a[..i]] + Split(a[i + 1..], sep);
    assert Split(s, sep) == [s[..i]] + Split(s[i + 1..], sep);
    ConcatAssoc([a[..i]], Split(a[i + 1..], sep), Split(b, sep));
  }

  // ---------------------------------------------------------------------------
  // s.strip()

  function TrimStart(s: string): string
  {
    if s != [] && IsSpace(s[0]) then TrimStart(s[1..]) else s
  }

  function TrimEnd(s: string): string
  {
    if s != [] && IsSpace(s[|s| - 1]) then TrimEnd(s[..|s| - 1]) else s
  }

  /** `s.strip()`. Its properties are stated by StripSpec, kept apart so that the
      parsers that call it do not carry them. */
  function Strip(s: string): string
  {
    TrimEnd(TrimStart(s))
  }

  /** TrimStart drops exactly the leading whitespace. */
  lemma {:induction false} TrimStartSpec(s: string)
    ensures var r := TrimStart(s);
            |r| <= |s| && r == s[|s| - |r|..] && AllSpace(s[..|s| - |r|]) && (r == [] || !IsSpace(r[0]))
  {
    if s != [] && IsSpace(s[0]) {
      TrimStartSpec(s[1..]);
      var r := TrimStart(s);
      assert s[..|s| - |r|] == [s[0]] + s[1..][..|s| - 1 - |r|];
    }
  }

  /** TrimEnd drops exactly the trailing whitespace. */
  lemma {:induction false} TrimEndSpec(s: string)
    ensures var r := TrimEnd(s);
            |r| <= |s| && r == s[..|r|] && AllSpace(s[|r|..]) && (r == [] || !IsSpace(r[|r| - 1]))
  {
    if s != [] && IsSpace(s[|s| - 1]) {
      var t := s[..|s| - 1];
      TrimEndSpec(t);
      var r := TrimEnd(s);
      assert s[|r|..] == t[|r|..] + [s[|s| - 1]];
    }
  }

  /** `s.strip()` is the slice of `s` between a run of leading and a run of trailing
      whitespace, and neither of its ends is whitespace. */
  lemma StripSpec(s: string)
    ensures var r := Strip(s);
            && (r == [] || (!IsSpace(r[0]) && !IsSpace(r[|r| - 1])))
            && exists i :: 0 <= i <= |s| - |r| && AllSpace(s[..i]) && s[i..i + |r|] == r
                           && AllSpace(s[i + |r|..])
  {
    var t := TrimStart(s);
    var r := TrimEnd(t);
    TrimStartSpec(s);
    TrimEndSpec(t);
    var i := |s| - |t|;
    assert s[i..] == t && t[..|r|] == r && s[i + |r|..] == t[|r|..];
    assert s[i..i + |r|] == r;
  }

  // ---------------------------------------------------------------------------
  // s.split() and " ".join(words)

  /** Length of the leading run of non-whitespace. */
  function TokenLen(s: string): (n: nat)
    ensures n <= |s|
    ensures forall j :: 0 <= j < n ==> !IsSpace(s[j])
    ensures n < |s| ==> IsSpace(s[n])
  {
    if s == [] || IsSpace(s[0]) then 0 else 1 + TokenLen(s[1..])
  }

  /** The properties above pin the length down. */
  lemma TokenLenUnique(s: string, n: nat)
    requires n <= |s|
    requires forall j :: 0 <= j < n ==> !IsSpace(s[j])
    requires n < |s| ==> IsSpace(s[n])
    ensures TokenLen(s) == n
  {
  }

  /** `s.split()`: the maximal whitespace-free runs of `s`, in order. That each run
      is a word is stated by WordsAreWords, kept apart so that the lemmas about
      Words do not carry it. */
  function Words(s: string): seq<string>
    decreases |s|
  {
    if s == [] then []
    else if IsSpace(s[0]) then Words(s[1..])
    else
      var n := TokenLen(s);
      [s[..n]] + Words(s[n..])
  }

  /** Every token `split()` returns is non-empty and free of whitespace. */
  lemma {:induction false} WordsAreWords(s: string)
    ensures forall k :: 0 <= k < |Words(s)| ==> IsWord(Words(s)[k])
    decreases |s|
  {
    if s == [] {
    } else if IsSpace(s[0]) {
      WordsAreWords(s[1..]);
    } else {
      var n := TokenLen(s);
      var ws := Words(s);
      var rest := Words(s[n..]);
      WordsAreWords(s[n..]);
      assert ws == [s[..n]] + rest;
      forall k | 0 <= k < |ws| ensures IsWord(ws[k]) {
        if k == 0 {
          assert n > 0 && ws[0] == s[..n];
          forall j | 0 <= j < n ensures !IsSpace(s[..n][j]) {
            assert s[..n][j] == s[j];
          }
        } else {
          assert ws[k] == rest[k - 1];
        }
      }
    }
  }

  /** A single word splits into itself. */
  lemma WordsOfWord(w: string)
    requires IsWord(w)
    ensures Words(w) == [w]
  {
    TokenLenUnique(w, |w|);
    assert w[..|w|] == w && w[|w|..] == [];
  }

  /** A cut at whitespace does not lengthen the first token. */
  lemma TokenLenAppend(a: string, b: string)
    requires a != []
    requires b == [] || IsSpace(a[|a| - 1]) || IsSpace(b[0])
    ensures TokenLen(a + b) == TokenLen(a)
  {
    var s := a + b;
    var n := TokenLen(a);
    forall j | 0 <= j < n ensures !IsSpace(s[j]) {
      assert s[j] == a[j];
    }
    assert n < |a| ==> s[n] == a[n];
    assert n == |a| && b != [] ==> s[n] == b[0];
    TokenLenUnique(s, n);
  }

  /** `split()` of a string starting with whitespace skips that character. */
  lemma WordsSkipSpace(s: string)
    requires s != [] && IsSpace(s[0])
    ensures Words(s) == Words(s[1..])
  {
  }

  /** `split()` of a string starting with a token takes that token first. */
  lemma WordsTakeToken(s: string, n: nat)
    requires s != [] && !IsSpace(s[0]) && n == TokenLen(s)
    ensures Words(s) == [s[..n]] + Words(s[n..])
  {
  }

  /** Splitting distributes over a concatenation cut at whitespace. */
  lemma {:induction false} WordsAppend(a: string, b: string)
    requires a == [] || b == [] || IsSpace(a[|a| - 1]) || IsSpace(b[0])
    ensures Words(a + b) == Words(a) + Words(b)
    decreases |a|, 1
  {
    if a == [] {
      assert a + b == b;
    } else if IsSpace(a[0]) {
      WordsAppendSpace(a, b);
    } else {
      WordsAppendToken(a, b);
    }
  }

  /** WordsAppend when `a` starts with whitespace: both sides skip it. */
  lemma {:induction false} WordsAppendSpace(a: string, b: string)
    requires a != [] && IsSpace(a[0])
    requires b == [] || IsSpace(a[|a| - 1]) || IsSpace(b[0])
    ensures Words(a + b) == Words(a) + Words(b)
    decreases |a|, 0
  {
    var s := a + b;
    var a' := a[1..];
    assert s[0] == a[0];
    assert s[1..] == a' + b;
    assert a' == [] || a'[|a'| - 1] == a[|a| - 1];
    WordsAppend(a', b);
    WordsSkipSpace(a);
    WordsSkipSpace(s);
  }

  /** Cutting `a + b` inside `a`. */
  lemma SliceAppend(a: string, b: string, n: nat)
    requires n <= |a|
    ensures (a + b)[..n] == a[..n] && (a + b)[n..] == a[n..] + b
  {
  }

  /** WordsAppend when `a` starts with a token: the cut keeps it whole. */
  lemma {:induction false} WordsAppendToken(a: string, b: string)
    requires a != [] && !IsSpace(a[0])
    requires b == [] || IsSpace(a[|a| - 1]) || IsSpace(b[0])
    ensures Words(a + b) == Words(a) + Words(b)
    decreases |a|, 0
  {
    var n := TokenLen(a);
    var a' := a[n..];
    TokenLenAppend(a, b);
    SliceAppend(a, b, n);
    assert (a + b)[0] == a[0];
    assert a' == [] || a'[|a'| - 1] == a[|a| - 1];
    WordsAppend(a', b);
    WordsTakeToken(a, n);
    WordsTakeToken(a + b, n);
    ConcatAssoc([a[..n]], Words(a'), Words(b));
  }

  lemma ConcatAssoc<T>(x: seq<T>, y: seq<T>, z: seq<T>)
    ensures x + (y + z) == (x + y) + z
  {
  }

  /** `" ".join(words).split()` gives back the words. */
  lemma {:induction false} WordsJoin(ws: seq<string>)
    requires forall k :: 0 <= k < |ws| ==> IsWord(ws[k])
    ensures Words(Join(ws, ' ')) == ws
  {
    if ws == [] {
    } else if |ws| == 1 {
      WordsOfWord(ws[0]);
    } else {
      var rest := Join(ws[1..], ' ');
      assert Join(ws, ' ') == ws[0] + ([' '] + rest);
      WordsAppend(ws[0], [' '] + rest);
      WordsAppend([' '], rest);
      WordsOfWord(ws[0]);
      assert Words([' ']) == [];
      WordsJoin(ws[1..]);
    }
  }
}
