/**
 The string helpers the backend borrows from Python's `str`: whitespace
 splitting (`str.split()`), stripping (`str.strip()`), joining
 (`sep.join(parts)`), splitting on a separator (`str.split(",")`), lower-casing
 and the decimal rendering of integers (`str(n)`, `"%d"`).

 Strings are sequences of Unicode scalar values, as Python's `str` is, so
 lengths and slices agree with Python's.
 */
module Text {

  /** Python's notion of whitespace (`str.isspace` on one character), which is
      what `str.split()` and `str.strip()` without an argument break and trim on. */
  predicate IsSpace(c: char) {
    || c == ' '
    || ('\t' <= c <= '\r')              // \t \n \v \f \r
    || ('\U{1c}' <= c <= '\U{1f}')      // file, group, record and unit separators
    || c == '\U{85}' || c == '\U{a0}' || c == '\U{1680}'
    || ('\U{2000}' <= c <= '\U{200a}')
    || c == '\U{2028}' || c == '\U{2029}' || c == '\U{202f}' || c == '\U{205f}'
    || c == '\U{3000}'
  }

  predicate AllSpace(s: string) {
    forall i :: 0 <= i < |s| ==> IsSpace(s[i])
  }

  predicate NoSpace(s: string) {
    forall i :: 0 <= i < |s| ==> !IsSpace(s[i])
  }

  /** One token of `str.split()`: a non-empty run of non-whitespace. */
  predicate IsWord(w: string) {
    w != [] && NoSpace(w)
  }

  /** Printable ASCII other than the space: never whitespace. */
  predicate Printable(w: string) {
    forall i :: 0 <= i < |w| ==> '!' <= w[i] <= '~'
  }

  lemma PrintableWord(w: string)
    requires w != [] && Printable(w)
    ensures IsWord(w)
  {
  }

  /** The text left after `strip()`; `Strip(s) == ""` is Python's
      `not s.strip()`. */
  predicate IsBlank(s: string) {
    Strip(s) == []
  }

  // ---------------------------------------------------------------------------
  // str.strip()
  // ---------------------------------------------------------------------------

  function TrimStart(s: string): string {
    if s != [] && IsSpace(s[0]) then TrimStart(s[1..]) else s
  }

  function TrimEnd(s: string): string {
    if s != [] && IsSpace(s[|s| - 1]) then TrimEnd(s[..|s| - 1]) else s
  }

  /** What `TrimStart` keeps is a suffix that does not start with whitespace,
      and what it drops is whitespace. */
  lemma {:induction false} TrimStartShape(s: string)
    ensures |TrimStart(s)| <= |s|
    ensures TrimStart(s) == s[|s| - |TrimStart(s)|..]
    ensures AllSpace(s[..|s| - |TrimStart(s)|])
    ensures TrimStart(s) == [] || !IsSpace(TrimStart(s)[0])
  {
    if s != [] && IsSpace(s[0]) {
      TrimStartShape(s[1..]);
      var r := TrimStart(s[1..]);
      assert s[|s| - |r|..] == s[1..][|s| - 1 - |r|..];
      assert s[..|s| - |r|] == [s[0]] + s[1..][..|s| - 1 - |r|];
      AllSpaceAppend([s[0]], s[1..][..|s| - 1 - |r|]);
    }
  }

  /** What `TrimEnd` keeps is a prefix that does not end with whitespace, and
      what it drops is whitespace. */
  lemma {:induction false} TrimEndShape(s: string)
    ensures |TrimEnd(s)| <= |s|
    ensures TrimEnd(s) == s[..|TrimEnd(s)|]
    ensures AllSpace(s[|TrimEnd(s)|..])
    ensures TrimEnd(s) == [] || !IsSpace(TrimEnd(s)[|TrimEnd(s)| - 1])
  {
    if s != [] && IsSpace(s[|s| - 1]) {
      var init := s[..|s| - 1];
      TrimEndShape(init);
      var r := TrimEnd(init);
      assert s[..|r|] == init[..|r|];
      assert s[|r|..] == init[|r|..] + [s[|s| - 1]];
      AllSpaceAppend(init[|r|..], [s[|s| - 1]]);
    }
  }

  lemma AllSpaceAppend(a: string, b: string)
    requires AllSpace(a) && AllSpace(b)
    ensures AllSpace(a + b)
  {
    forall i | 0 <= i < |a + b| ensures IsSpace((a + b)[i]) {
      if i < |a| { assert (a + b)[i] == a[i]; } else { assert (a + b)[i] == b[i - |a|]; }
    }
  }

  /** `r` is `s[i..]` cut just before a run of trailing whitespace, `s[..i]`
      is whitespace, and `r` neither starts nor ends with whitespace. */
  ghost predicate IsStripAt(r: string, s: string, i: int) {
    && 0 <= i <= |s| - |r|
    && s[i..i + |r|] == r
    && AllSpace(s[..i]) && AllSpace(s[i + |r|..])
    && (r == [] || (!IsSpace(r[0]) && !IsSpace(r[|r| - 1])))
  }

  /** `r` is what is left of `s` once whitespace is cut from both ends. */
  ghost predicate IsStripOf(r: string, s: string) {
    exists i :: IsStripAt(r, s, i)
  }

  /** Python's `s.strip()`. */
  function Strip(s: string): (r: string)
    ensures IsStripOf(r, s)
    ensures r == [] <==> AllSpace(s)
  {
    var r := TrimStart(TrimEnd(s));
    TrimsAreStrip(s);
    StripOf(r, s, |TrimEnd(s)| - |r|);
    r
  }

  /** Cutting trailing and then leading whitespace leaves the stripped text. */
  lemma TrimsAreStrip(s: string)
    ensures IsStripAt(TrimStart(TrimEnd(s)), s, |TrimEnd(s)| - |TrimStart(TrimEnd(s))|)
  {
    var e := TrimEnd(s);
    TrimEndShape(s);
    TrimStartShape(e);
    StripFacts(s, e, TrimStart(e));
  }

  lemma StripOf(r: string, s: string, i: int)
    requires IsStripAt(r, s, i)
    ensures IsStripOf(r, s)
    ensures r == [] <==> AllSpace(s)
  {
    StripWitness(r, s, i);
    StripAtEmpty(r, s, i);
  }

  lemma StripWitness(r: string, s: string, i: int)
    requires IsStripAt(r, s, i)
    ensures IsStripOf(r, s)
  {
  }

  lemma StripFacts(s: string, e: string, r: string)
    requires |e| <= |s| && e == s[..|e|] && AllSpace(s[|e|..])
    requires e == [] || !IsSpace(e[|e| - 1])
    requires |r| <= |e| && r == e[|e| - |r|..] && AllSpace(e[..|e| - |r|])
    requires r == [] || !IsSpace(r[0])
    ensures IsStripAt(r, s, |e| - |r|)
  {
    var i := |e| - |r|;
    PrefixSlices(s, e, i);
    if r != [] {
      LastOfSuffix(e, r);
    }
  }

  lemma PrefixSlices(s: string, e: string, i: int)
    requires 0 <= i <= |e| <= |s| && e == s[..|e|]
    ensures s[i..|e|] == e[i..] && s[..i] == e[..i]
  {
    assert s[i..|e|] == s[..|e|][i..];
    assert s[..i] == s[..|e|][..i];
  }

  lemma LastOfSuffix(e: string, r: string)
    requires 0 < |r| <= |e| && r == e[|e| - |r|..]
    ensures r[|r| - 1] == e[|e| - 1]
  {
  }

  lemma StripAtEmpty(r: string, s: string, i: int)
    requires IsStripAt(r, s, i)
    ensures r == [] <==> AllSpace(s)
  {
    if r == [] {
      forall k | 0 <= k < |s| ensures IsSpace(s[k]) {
        if k < i {
          assert s[..i][k] == s[k];
        } else {
          assert s[i..][k - i] == s[k];
        }
      }
    } else {
      assert s[i] == r[0];
    }
  }

  lemma {:induction false} StripIdempotent(s: string)
    ensures Strip(Strip(s)) == Strip(s)
  {
    var r := Strip(s);
    if r != [] {
      assert TrimEnd(r) == r;
      assert TrimStart(r) == r;
    }
  }

  // ---------------------------------------------------------------------------
  // str.split() with no argument: tokens between whitespace runs
  // ---------------------------------------------------------------------------

  /** Length of the run of non-whitespace at the front of `s`. */
  function SpanLength(s: string): (k: nat)
    ensures k <= |s|
    ensures NoSpace(s[..k])
    ensures k < |s| ==> IsSpace(s[k])
  {
    if s == [] || IsSpace(s[0]) then 0
    else
      var k := 1 + SpanLength(s[1..]);
      assert s[..k] == [s[0]] + s[1..][..k - 1];
      k
  }

  /** Python's `s.split()`: the maximal whitespace-free runs of `s`, in order. */
  function Words(s: string): (ws: seq<string>)
    ensures forall i :: 0 <= i < |ws| ==> IsWord(ws[i])
    decreases |s|
  {
    if s == [] then []
    else if IsSpace(s[0]) then Words(s[1..])
    else
      var k := SpanLength(s);
      [s[..k]] + Words(s[k..])
  }

  /** `len(s.split())`, the word count used throughout the backend. */
  function WordCount(s: string): nat {
    |Words(s)|
  }

  lemma {:induction false} SpanLengthStopsAtSpace(a: string, c: char, b: string)
    requires IsSpace(c)
    ensures SpanLength(a + [c] + b) == SpanLength(a)
    decreases |a|
  {
    if a == [] {
    } else if IsSpace(a[0]) {
      assert (a + [c] + b)[0] == a[0];
    } else {
      assert (a + [c] + b)[1..] == a[1..] + [c] + b;
      SpanLengthStopsAtSpace(a[1..], c, b);
    }
  }

  /** A whitespace character splits the words of its two sides apart. */
  lemma {:induction false} WordsAroundSpace(a: string, c: char, b: string)
    requires IsSpace(c)
    ensures Words(a + [c] + b) == Words(a) + Words(b)
    decreases |a|
  {
    var s := a + [c] + b;
    if a == [] {
      assert s == [c] + b;
      assert s[1..] == b;
    } else if IsSpace(a[0]) {
      assert s[1..] == a[1..] + [c] + b;
      WordsAroundSpace(a[1..], c, b);
    } else {
      var k := SpanLength(s);
      SpanLengthStopsAtSpace(a, c, b);
      assert s[..k] == a[..k];
      assert s[k..] == a[k..] + [c] + b;
      WordsAroundSpace(a[k..], c, b);
    }
  }

  lemma {:induction false} WordsOfAllSpace(s: string)
    requires AllSpace(s)
    ensures Words(s) == []
    decreases |s|
  {
    if s != [] {
      WordsOfAllSpace(s[1..]);
    }
  }

  lemma {:induction false} WordsOfWord(w: string)
    requires IsWord(w)
    ensures Words(w) == [w]
  {
    var k := SpanLength(w);
    assert k == |w|;
    assert w[..k] == w;
    assert w[k..] == [];
  }

  /** A whitespace character separates: the words on either side add up. */
  lemma CountAround(a: string, c: char, b: string)
    requires IsSpace(c)
    ensures WordCount(a + [c] + b) == WordCount(a) + WordCount(b)
  {
    WordsAroundSpace(a, c, b);
  }

  lemma CountOfWord(w: string)
    requires IsWord(w)
    ensures WordCount(w) == 1
  {
    WordsOfWord(w);
  }

  /** A text with a non-whitespace character has a word. */
  lemma {:induction false} CountOfVisible(s: string, k: nat)
    requires k < |s| && !IsSpace(s[k])
    ensures WordCount(s) >= 1
    decreases |s|
  {
    if IsSpace(s[0]) {
      CountOfVisible(s[1..], k - 1);
    }
  }

  /** A text followed by "]" has at least one word, exactly one when the
      text holds no whitespace. */
  lemma BracketWords(s: string)
    ensures WordCount(s + "]") >= 1
    ensures NoSpace(s) ==> WordCount(s + "]") == 1
  {
    var x := s + "]";
    CountOfVisible(x, |x| - 1);
    if NoSpace(s) {
      assert NoSpace(x) by {
        forall i | 0 <= i < |x| ensures !IsSpace(x[i]) {
          if i < |s| { assert x[i] == s[i]; }
        }
      }
      CountOfWord(x);
    }
  }

  /** Words separated by single spaces, then a space and `x`. */
  lemma {:induction false} WordsThen(ws: seq<string>, x: string)
    requires ws != [] && forall i :: 0 <= i < |ws| ==> IsWord(ws[i])
    ensures WordCount(Join(" ", ws) + " " + x) == |ws| + WordCount(x)
  {
    CountAround(Join(" ", ws), ' ', x);
    assert Join(" ", ws) + " " + x == Join(" ", ws) + [' '] + x;
    WordsOfJoinedWords(ws);
  }

  lemma {:induction false} WordsAfterSpaces(p: string, x: string)
    requires AllSpace(p)
    ensures Words(p + x) == Words(x)
    decreases |p|
  {
    if p != [] {
      var s := p + x;
      assert s[0] == p[0];
      assert s[1..] == p[1..] + x;
      WordsAfterSpaces(p[1..], x);
    } else {
      assert p + x == x;
    }
  }

  lemma {:induction false} WordsBeforeSpaces(x: string, q: string)
    requires AllSpace(q)
    ensures Words(x + q) == Words(x)
  {
    if q == [] {
      assert x + q == x;
    } else {
      var rest := q[1..];
      assert AllSpace(rest);
      assert x + q == x + [q[0]] + rest;
      WordsAroundSpace(x, q[0], rest);
      WordsOfAllSpace(rest);
    }
  }

  /** Stripping never changes the words of a string. */
  lemma WordsOfStrip(s: string)
    ensures Words(Strip(s)) == Words(s)
  {
    var i :| IsStripAt(Strip(s), s, i);
    WordsOfStripAt(Strip(s), s, i);
  }

  lemma WordsOfStripAt(r: string, s: string, i: int)
    requires IsStripAt(r, s, i)
    ensures Words(r) == Words(s)
  {
    SliceThree(s, i, i + |r|);
    WordsBetweenSpaces(s[..i], r, s[i + |r|..]);
  }

  lemma SliceThree<T>(s: seq<T>, i: nat, j: nat)
    requires i <= j <= |s|
    ensures s == s[..i] + (s[i..j] + s[j..])
  {
    assert s[i..] == s[i..j] + s[j..];
  }

  /** Whitespace around a text adds no words. */
  lemma WordsBetweenSpaces(pre: string, r: string, post: string)
    requires AllSpace(pre) && AllSpace(post)
    ensures Words(pre + (r + post)) == Words(r)
  {
    WordsAfterSpaces(pre, r + post);
    WordsBeforeSpaces(r, post);
  }

  /** The characters of `s` that are not whitespace, in order. */
  function NonSpace(s: string): (r: string)
    ensures |r| <= |s|
  {
    if s == [] then []
    else (if IsSpace(s[0]) then [] else [s[0]]) + NonSpace(s[1..])
  }

  /** The pieces laid end to end. */
  function Concat<T>(ws: seq<seq<T>>): seq<T> {
    if ws == [] then [] else ws[0] + Concat(ws[1..])
  }

  /** Concatenating one more piece appends it at the end. */
  lemma {:induction false} ConcatAppend<T>(ws: seq<seq<T>>, w: seq<T>)
    ensures Concat(ws + [w]) == Concat(ws) + w
    decreases |ws|
  {
    if ws == [] {
      assert [] + [w] == [w];
      assert Concat([w]) == w + Concat([]);
    } else {
      assert (ws + [w])[1..] == ws[1..] + [w];
      ConcatAppend(ws[1..], w);
    }
  }

  lemma {:induction false} NonSpaceAppend(a: string, b: string)
    ensures NonSpace(a + b) == NonSpace(a) + NonSpace(b)
    decreases |a|
  {
    if a == [] {
      assert a + b == b;
    } else {
      var h := if IsSpace(a[0]) then [] else [a[0]];
      assert NonSpace(a + b) == h + NonSpace(a[1..] + b) by {
        assert (a + b)[0] == a[0];
        assert (a + b)[1..] == a[1..] + b;
      }
      NonSpaceAppend(a[1..], b);
      AppendAssoc(h, NonSpace(a[1..]), NonSpace(b));
    }
  }

  lemma {:induction false} NonSpaceOfNoSpace(w: string)
    requires NoSpace(w)
    ensures NonSpace(w) == w
    decreases |w|
  {
    if w != [] {
      NonSpaceOfNoSpace(w[1..]);
    }
  }

  /** The words hold exactly the non-whitespace characters of `s`, in order:
      splitting loses only whitespace. */
  lemma {:induction false} WordsKeepNonSpace(s: string)
    ensures Concat(Words(s)) == NonSpace(s)
    decreases |s|
  {
    if s == [] {
    } else if IsSpace(s[0]) {
      WordsKeepNonSpace(s[1..]);
    } else {
      var k := SpanLength(s);
      var ws := Words(s);
      assert ws[0] == s[..k] && ws[1..] == Words(s[k..]);
      WordsKeepNonSpace(s[k..]);
      assert s == s[..k] + s[k..];
      NonSpaceAppend(s[..k], s[k..]);
      NonSpaceOfNoSpace(s[..k]);
    }
  }

  // ---------------------------------------------------------------------------
  // sep.join(parts)
  // ---------------------------------------------------------------------------

  /** Python's `sep.join(parts)`. */
  function Join(sep: string, parts: seq<string>): string {
    if |parts| == 0 then []
    else if |parts| == 1 then parts[0]
    else Join(sep, parts[..|parts| - 1]) + sep + parts[|parts| - 1]
  }

  /** `" ".join(parts)`. */
  function JoinSpace(parts: seq<string>): string {
    Join(" ", parts)
  }

  lemma JoinAppend(sep: string, parts: seq<string>, p: string)
    requires parts != []
    ensures Join(sep, parts + [p]) == Join(sep, parts) + sep + p
  {
    assert (parts + [p])[..|parts|] == parts;
  }

  lemma JoinStep(sep: string, parts: seq<string>, k: nat)
    requires 1 <= k < |parts|
    ensures Join(sep, parts[..k + 1]) == Join(sep, parts[..k]) + sep + parts[k]
  {
    assert parts[..k + 1][..k] == parts[..k];
  }

  /** Joining more parts only extends the joined text. */
  lemma {:induction false} JoinPrefix(sep: string, ps: seq<string>, qs: seq<string>)
    requires ps <= qs
    ensures Join(sep, ps) <= Join(sep, qs)
    decreases |qs|
  {
    if |ps| < |qs| {
      var init := qs[..|qs| - 1];
      assert ps <= init by {
        assert ps == qs[..|ps|];
        assert init[..|ps|] == qs[..|ps|];
      }
      JoinPrefix(sep, ps, init);
      if init != [] {
        assert qs == init + [qs[|qs| - 1]];
        JoinAppend(sep, init, qs[|qs| - 1]);
      } else {
        assert ps == [];
      }
    } else {
      assert ps == qs;
    }
  }

  /** The number of words of every part, added up. */
  function TotalWords(parts: seq<string>): nat {
    if parts == [] then 0 else TotalWords(parts[..|parts| - 1]) + WordCount(parts[|parts| - 1])
  }

  /** Joining with a space neither merges nor splits words: the words of the
      joined text are the words of the parts, part after part. */
  lemma {:induction false} WordsOfJoinSpace(parts: seq<string>)
    ensures WordCount(JoinSpace(parts)) == TotalWords(parts)
    decreases |parts|
  {
    if |parts| == 0 {
      assert Words([]) == [];
    } else if |parts| == 1 {
      assert parts[..0] == [];
    } else {
      var init := parts[..|parts| - 1];
      WordsOfJoinSpace(init);
      WordsAroundSpace(JoinSpace(init), ' ', parts[|parts| - 1]);
      assert JoinSpace(parts) == JoinSpace(init) + [' '] + parts[|parts| - 1];
    }
  }

  /** Splitting a space-joined list of words gives the words back. */
  lemma {:induction false} WordsOfJoinedWords(ws: seq<string>)
    requires forall i :: 0 <= i < |ws| ==> IsWord(ws[i])
    ensures Words(JoinSpace(ws)) == ws
    decreases |ws|
  {
    if |ws| == 0 {
    } else if |ws| == 1 {
      WordsOfWord(ws[0]);
    } else {
      var init := ws[..|ws| - 1];
      WordsOfJoinedWords(init);
      WordsOfWord(ws[|ws| - 1]);
      WordsAroundSpace(JoinSpace(init), ' ', ws[|ws| - 1]);
      assert JoinSpace(ws) == JoinSpace(init) + [' '] + ws[|ws| - 1];
      assert ws == init + [ws[|ws| - 1]];
    }
  }

  /** `str.split()` is the inverse of `" ".join` up to whitespace: re-joining
      the words of `s` and splitting again gives the same words. */
  lemma WordsNormalForm(s: string)
    ensures Words(JoinSpace(Words(s))) == Words(s)
  {
    WordsOfJoinedWords(Words(s));
  }

  // ---------------------------------------------------------------------------
  // str.split(sep) with a one-character separator
  // ---------------------------------------------------------------------------

  function Occurrences(s: string, c: char): nat {
    if s == [] then 0
    else Occurrences(s[..|s| - 1], c) + (if s[|s| - 1] == c then 1 else 0)
  }

  /** Python's `s.split(sep)` for a one-character `sep`: one more piece than
      there are separators, none of them holding the separator. */
  function Split(s: string, sep: char): (r: seq<string>)
    ensures |r| == Occurrences(s, sep) + 1
    ensures forall i :: 0 <= i < |r| ==> sep !in r[i]
  {
    if s == [] then [[]]
    else
      var init := Split(s[..|s| - 1], sep);
      var c := s[|s| - 1];
      if c == sep then init + [[]]
      else
        var last := init[|init| - 1] + [c];
        assert sep !in last;
        init[..|init| - 1] + [last]
  }

  /** Joining the pieces with the separator restores the string. */
  lemma {:induction false} JoinSplit(s: string, sep: char)
    ensures Join([sep], Split(s, sep)) == s
    decreases |s|
  {
    if s != [] {
      JoinSplit(s[..|s| - 1], sep);
      if s[|s| - 1] == sep {
        JoinSplitAtSeparator(s, sep);
      } else {
        JoinSplitInPiece(s, sep);
      }
    }
  }

  lemma JoinSplitAtSeparator(s: string, sep: char)
    requires s != [] && s[|s| - 1] == sep
    requires Join([sep], Split(s[..|s| - 1], sep)) == s[..|s| - 1]
    ensures Join([sep], Split(s, sep)) == s
  {
    var pre := s[..|s| - 1];
    SplitAtSeparator(s, sep);
    JoinAppend([sep], Split(pre, sep), []);
    LastRestores(s, pre, sep);
  }

  lemma JoinSplitInPiece(s: string, sep: char)
    requires s != [] && s[|s| - 1] != sep
    requires Join([sep], Split(s[..|s| - 1], sep)) == s[..|s| - 1]
    ensures Join([sep], Split(s, sep)) == s
  {
    var pre := s[..|s| - 1];
    SplitLast(s, sep);
    JoinExtendLast([sep], Split(pre, sep), s[|s| - 1]);
    LastRestores(s, pre, s[|s| - 1]);
  }

  lemma LastRestores(s: string, pre: string, c: char)
    requires s != [] && pre == s[..|s| - 1] && c == s[|s| - 1]
    ensures pre + [c] == s
  {
  }

  lemma SplitAtSeparator(s: string, sep: char)
    requires s != [] && s[|s| - 1] == sep
    ensures Split(s, sep) == Split(s[..|s| - 1], sep) + [[]]
  {
  }

  /** Growing the last part grows the joined text at its end. */
  lemma JoinExtendLast(sep: string, parts: seq<string>, c: char)
    requires parts != []
    ensures var m := |parts|;
      Join(sep, parts[..m - 1] + [parts[m - 1] + [c]]) == Join(sep, parts) + [c]
  {
    var m := |parts|;
    var last := parts[m - 1];
    var longer := parts[..m - 1] + [last + [c]];
    if m >= 2 {
      var head := Join(sep, parts[..m - 1]);
      assert longer[..m - 1] == parts[..m - 1];
      assert Join(sep, longer) == head + sep + (last + [c]);
      AppendAssoc(head + sep, last, [c]);
    }
  }

  lemma AppendAssoc<T>(a: seq<T>, b: seq<T>, c: seq<T>)
    ensures a + (b + c) == a + b + c
  {
  }

  lemma {:induction false} SplitAfterSeparator(x: string, sep: char, w: string)
    requires sep !in w
    ensures Split(x + [sep] + w, sep) == Split(x, sep) + [w]
    decreases |w|
  {
    if w == [] {
      SplitSnocSeparator(x, sep);
      assert x + [sep] + w == x + [sep];
    } else {
      var w', c := w[..|w| - 1], w[|w| - 1];
      SplitAfterSeparator(x, sep, w');
      SplitSnoc(x + [sep] + w', c, sep);
      var init := Split(x, sep) + [w'];
      assert init[..|init| - 1] == Split(x, sep) && init[|init| - 1] == w';
      LastRestores(w, w', c);
      assert x + [sep] + w' + [c] == x + [sep] + w;
    }
  }

  lemma SplitLast(s: string, sep: char)
    requires s != [] && s[|s| - 1] != sep
    ensures var init := Split(s[..|s| - 1], sep);
      Split(s, sep) == init[..|init| - 1] + [init[|init| - 1] + [s[|s| - 1]]]
  {
  }

  /** `SplitAtSeparator` and `SplitLast` for a string given by its last
      character. */
  lemma SplitSnocSeparator(pre: string, sep: char)
    ensures Split(pre + [sep], sep) == Split(pre, sep) + [[]]
  {
    var s := pre + [sep];
    assert s[..|s| - 1] == pre;
    SplitAtSeparator(s, sep);
  }

  /** `parts` with `c` added to its last part. */
  function GrowLast(parts: seq<string>, c: char): seq<string>
    requires parts != []
  {
    parts[..|parts| - 1] + [parts[|parts| - 1] + [c]]
  }

  lemma SplitSnoc(pre: string, c: char, sep: char)
    requires c != sep
    ensures Split(pre + [c], sep) == GrowLast(Split(pre, sep), c)
  {
    var s := pre + [c];
    assert s[..|s| - 1] == pre;
    SplitLast(s, sep);
  }

  /** Splitting a separator-joined list gives the list back when no piece
      holds the separator. */
  lemma {:induction false} SplitJoin(parts: seq<string>, sep: char)
    requires parts != []
    requires forall i :: 0 <= i < |parts| ==> sep !in parts[i]
    ensures Split(Join([sep], parts), sep) == parts
    decreases |parts|
  {
    if |parts| == 1 {
      SplitOfPiece(parts[0], sep);
    } else {
      var init, last := parts[..|parts| - 1], parts[|parts| - 1];
      SplitJoin(init, sep);
      assert Join([sep], parts) == Join([sep], init) + [sep] + last;
      SplitAfterSeparator(Join([sep], init), sep, last);
      assert init + [last] == parts;
    }
  }

  lemma {:induction false} SplitOfPiece(w: string, sep: char)
    requires sep !in w
    ensures Split(w, sep) == [w]
    decreases |w|
  {
    if w != [] {
      SplitOfPiece(w[..|w| - 1], sep);
      assert w[..|w| - 1] + [w[|w| - 1]] == w;
    }
  }

  // ---------------------------------------------------------------------------
  // str.lower()
  // ---------------------------------------------------------------------------

  function LowerChar(c: char): char {
    if 'A' <= c <= 'Z' then (c as int - 'A' as int + 'a' as int) as char else c
  }

  /** `s.lower()` on the ASCII letters. */
  function Lower(s: string): (r: string)
    ensures |r| == |s|
    ensures forall i :: 0 <= i < |s| ==> !('A' <= r[i] <= 'Z')
    ensures forall i :: 0 <= i < |s| ==> (r[i] == s[i] <==> !('A' <= s[i] <= 'Z'))
    ensures forall i :: 0 <= i < |s| && 'A' <= s[i] <= 'Z' ==>
      r[i] as int == s[i] as int + ('a' as int - 'A' as int)
  {
    seq(|s|, i requires 0 <= i < |s| => LowerChar(s[i]))
  }

  /** Lower-casing a suffix is taking the suffix of the lower-cased text. */
  lemma LowerSuffix(s: string, i: nat)
    requires i <= |s|
    ensures Lower(s)[i..] == Lower(s[i..])
  {
    forall j | 0 <= j < |s| - i ensures Lower(s)[i..][j] == Lower(s[i..])[j] {
      assert Lower(s)[i + j] == LowerChar(s[i + j]);
    }
  }

  lemma LowerIdempotent(s: string)
    ensures Lower(Lower(s)) == Lower(s)
  {
  }

  // ---------------------------------------------------------------------------
  // str(n) for integers
  // ---------------------------------------------------------------------------

  predicate IsDigit(c: char) {
    '0' <= c <= '9'
  }

  predicate AllDigits(s: string) {
    forall i :: 0 <= i < |s| ==> IsDigit(s[i])
  }

  function DigitChar(d: nat): (c: char)
    requires d < 10
    ensures IsDigit(c) && c as int - '0' as int == d
  {
    ('0' as int + d) as char
  }

  /** The value of a string of decimal digits. */
  function DecimalValue(s: string): nat
    requires AllDigits(s)
  {
    if s == [] then 0
    else 10 * DecimalValue(s[..|s| - 1]) + (s[|s| - 1] as int - '0' as int)
  }

  /** Python's `str(n)` for `n >= 0`: the shortest decimal numeral of `n`. */
  function NatToString(n: nat): (r: string)
    ensures r != [] && AllDigits(r)
    ensures DecimalValue(r) == n
    ensures r[0] == '0' ==> r == "0"
  {
    if n < 10 then [DigitChar(n)]
    else
      var r := NatToString(n / 10) + [DigitChar(n % 10)];
      assert r[..|r| - 1] == NatToString(n / 10);
      r
  }

  /** A numeral `str` can print: digits only, no leading zero except "0". */
  predicate IsCanonicalNumeral(s: string) {
    s != [] && AllDigits(s) && (s[0] == '0' ==> s == "0")
  }

  lemma {:induction false} LeadingDigitPositive(s: string)
    requires s != [] && AllDigits(s) && s[0] != '0'
    ensures DecimalValue(s) >= 1
    decreases |s|
  {
    if |s| > 1 {
      var p := s[..|s| - 1];
      assert p[0] == s[0];
      LeadingDigitPositive(p);
    }
  }

  /** `str` is onto the canonical numerals: each is `str` of its own value,
      so no other spelling of a number is produced. */
  lemma {:induction false} CanonicalNumeral(s: string)
    requires IsCanonicalNumeral(s)
    ensures NatToString(DecimalValue(s)) == s
    decreases |s|
  {
    var d := s[|s| - 1] as int - '0' as int;
    assert IsDigit(s[|s| - 1]);
    if |s| == 1 {
      assert s[..0] == [];
      assert DecimalValue(s) == d;
      assert [DigitChar(d)] == s;
    } else {
      var p := s[..|s| - 1];
      assert p[0] == s[0] && s[0] != '0';
      LeadingDigitPositive(p);
      CanonicalNumeral(p);
      var v := DecimalValue(s);
      assert v == 10 * DecimalValue(p) + d;
      assert v / 10 == DecimalValue(p) && v % 10 == d;
      assert DigitChar(d) == s[|s| - 1];
      assert p + [s[|s| - 1]] == s;
    }
  }

  /** Python's `str(n)` / `"%d" % n` for any integer. */
  function IntToString(n: int): (r: string)
    ensures n >= 0 ==> r == NatToString(n)
    ensures n < 0 ==> r == "-" + NatToString(-n)
  {
    if n < 0 then "-" + NatToString(-n) else NatToString(n)
  }

  lemma NatToStringIsWord(n: nat)
    ensures IsWord(NatToString(n))
  {
    var r := NatToString(n);
    forall i | 0 <= i < |r| ensures !IsSpace(r[i]) {
      assert IsDigit(r[i]);
    }
  }
}
