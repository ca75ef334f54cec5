/**
 * String operations of Python that the dependency engine and the configuration
 * loader rely on: the ordering of `str` values (`<`, `>`, `sorted`), `in` on
 * strings, `find`, `split(sep)`, `split()`, `join` and `replace`.
 */
module Strings {

  import opened Wrappers

  /** The elements of a sequence, as a set (Python's `set(list)`). */
  function Elems<T>(s: seq<T>): set<T>
  {
    set x | x in s
  }

  // ---------------------------------------------------------------------------
  // Ordering of Python strings
  // ---------------------------------------------------------------------------

  /**
   * Python's `a < b` on `str`: lexicographic on code points, a proper prefix
   * being smaller. (Dafny's own `<` on strings means "proper prefix".)
   */
  predicate LexLess(a: string, b: string)
    decreases |a|
  {
    if |a| == 0 then |b| > 0
    else if |b| == 0 then false
    else if a[0] == b[0] then LexLess(a[1..], b[1..])
    else a[0] < b[0]
  }

  lemma {:induction false} LexIrreflexive(a: string)
    ensures !LexLess(a, a)
  {
    if |a| > 0 {
      LexIrreflexive(a[1..]);
    }
  }

  lemma {:induction false} LexTransitive(a: string, b: string, c: string)
    requires LexLess(a, b) && LexLess(b, c)
    ensures LexLess(a, c)
    decreases |a|
  {
    if |a| > 0 && a[0] == b[0] && b[0] == c[0] {
      LexTransitive(a[1..], b[1..], c[1..]);
    }
  }

  /** Any two different strings are ordered one way or the other. */
  lemma {:induction false} LexTotal(a: string, b: string)
    requires a != b
    ensures LexLess(a, b) || LexLess(b, a)
    decreases |a|
  {
    if |a| > 0 && |b| > 0 && a[0] == b[0] {
      assert a == [a[0]] + a[1..] && b == [b[0]] + b[1..];
      LexTotal(a[1..], b[1..]);
    }
  }

  lemma LexAsymmetric(a: string, b: string)
    requires LexLess(a, b)
    ensures !LexLess(b, a)
  {
    if LexLess(b, a) {
      LexTransitive(a, b, a);
      LexIrreflexive(a);
    }
  }

  /** The non-numeric comparison the version tie-break inherits: "1.9" > "1.10". */
  lemma NineSortsAfterTen()
    ensures LexLess("1.10", "1.9") && !LexLess("1.9", "1.10")
  {
    assert "1.10"[1..] == ".10" && "1.9"[1..] == ".9";
    assert ".10"[1..] == "10" && ".9"[1..] == "9";
    LexAsymmetric("1.10", "1.9");
  }

  // ---------------------------------------------------------------------------
  // sorted(set(...))
  // ---------------------------------------------------------------------------

  /** Strictly increasing under Python's order: sorted and free of duplicates. */
  predicate StrictlySorted(s: seq<string>)
  {
    forall i, j :: 0 <= i < j < |s| ==> LexLess(s[i], s[j])
  }

  /** Insert `x` at its place in a strictly sorted list, unless it is there already. */
  function InsertSorted(r: seq<string>, x: string): (res: seq<string>)
    requires StrictlySorted(r)
    ensures StrictlySorted(res)
    ensures Elems(res) == Elems(r) + {x}
  {
    if r == [] then [x]
    else if x == r[0] then r
    else if LexLess(x, r[0]) then
      ConsSorted(x, r);
      [x] + r
    else
      LexTotal(x, r[0]);
      var rest := InsertSorted(r[1..], x);
      ConsSorted(r[0], rest);
      [r[0]] + rest
  }

  /**
   * Putting `x` in front of a strictly sorted list keeps it strictly sorted
   * when `x` is below its head, and adds just `x` to its elements.
   */
  lemma ConsSorted(x: string, r: seq<string>)
    requires StrictlySorted(r)
    requires r != [] ==> LexLess(x, r[0])
    ensures StrictlySorted([x] + r)
    ensures Elems([x] + r) == Elems(r) + {x}
  {
    forall j | 0 < j < |r| ensures LexLess(x, r[j]) {
      LexTransitive(x, r[0], r[j]);
    }
    ElemsConcat([x], r);
  }

  /** Python's `sorted(set(xs))`: the strictly sorted list of the distinct elements. */
  function SortDedup(xs: seq<string>): (r: seq<string>)
    ensures StrictlySorted(r)
    ensures Elems(r) == Elems(xs)
  {
    if xs == [] then []
    else
      assert xs == xs[..|xs| - 1] + [xs[|xs| - 1]];
      InsertSorted(SortDedup(xs[..|xs| - 1]), xs[|xs| - 1])
  }

  /** `sorted(list(s))` for a set of strings. */
  method SortedList(s: set<string>) returns (r: seq<string>)
    ensures StrictlySorted(r)
    ensures Elems(r) == s
  {
    var items: seq<string> := [];
    var rest := s;
    while rest != {}
      invariant rest <= s
      invariant Elems(items) == s - rest
      decreases |rest|
    {
      var x :| x in rest;
      ElemsConcat(items, [x]);
      items := items + [x];
      rest := rest - {x};
    }
    r := SortDedup(items);
  }

  /** A prefix one longer is the prefix plus the next element. */
  lemma PrefixSnoc<T>(s: seq<T>, i: nat)
    requires i < |s|
    ensures s[..i + 1] == s[..i] + [s[i]]
  {
  }

  /** Python's `set(a + b)` is `set(a) | set(b)`. */
  lemma ElemsConcat<T>(a: seq<T>, b: seq<T>)
    ensures Elems(a + b) == Elems(a) + Elems(b)
  {
    assert forall x :: x in a + b <==> x in a || x in b;
  }

  lemma ElemsEmpty<T>(s: seq<T>)
    ensures Elems(s) == {} <==> s == []
  {
    if s != [] {
      assert s[0] in Elems(s);
    }
  }

  /**
   * A strictly sorted list is determined by its elements, so every
   * `sorted(set(...))` in the source is pinned down by the set it sorts.
   */
  lemma {:induction false} SortedUnique(a: seq<string>, b: seq<string>)
    requires StrictlySorted(a) && StrictlySorted(b)
    requires Elems(a) == Elems(b)
    ensures a == b
    decreases |a|
  {
    ElemsEmpty(a);
    ElemsEmpty(b);
    if a != [] {
      assert a[0] in Elems(b);
      assert b != [];
      assert b[0] in Elems(a);
      if a[0] != b[0] {
        var i :| 0 <= i < |a| && a[i] == b[0];
        var j :| 0 <= j < |b| && b[j] == a[0];
        assert LexLess(a[0], b[0]);
        assert LexLess(b[0], a[0]);
        LexAsymmetric(a[0], b[0]);
      }
      assert a == [a[0]] + a[1..] && b == [b[0]] + b[1..];
      forall x | x in a[1..] ensures x != a[0] {
        var k :| 0 <= k < |a[1..]| && a[1..][k] == x;
        assert LexLess(a[0], a[k + 1]);
        LexIrreflexive(a[0]);
      }
      forall x | x in b[1..] ensures x != b[0] {
        var k :| 0 <= k < |b[1..]| && b[1..][k] == x;
        assert LexLess(b[0], b[k + 1]);
        LexIrreflexive(b[0]);
      }
      assert Elems(a[1..]) == Elems(a) - {a[0]};
      assert Elems(b[1..]) == Elems(b) - {b[0]};
      SortedUnique(a[1..], b[1..]);
    }
  }

  // ---------------------------------------------------------------------------
  // `pat in s` and `s.find(pat)`
  // ---------------------------------------------------------------------------

  predicate OccursAt(s: string, pat: string, i: int)
  {
    0 <= i && i + |pat| <= |s| && s[i..i + |pat|] == pat
  }

  /** Python's `pat in s` on strings. */
  predicate Contains(s: string, pat: string)
  {
    exists i :: 0 <= i <= |s| && OccursAt(s, pat, i)
  }

  function FindFrom(s: string, pat: string, i: nat): (r: Option<nat>)
    requires i <= |s|
    ensures r.Some? ==> i <= r.value && OccursAt(s, pat, r.value)
    ensures r.Some? ==> forall j :: i <= j < r.value ==> !OccursAt(s, pat, j)
    ensures r.None? ==> forall j :: i <= j ==> !OccursAt(s, pat, j)
    decreases |s| - i
  {
    if i + |pat| > |s| then None
    else if s[i..i + |pat|] == pat then Some(i)
    else FindFrom(s, pat, i + 1)
  }

  /** Python's `s.find(pat)`, with `None` for -1: the first occurrence. */
  function Find(s: string, pat: string): (r: Option<nat>)
    ensures r.None? <==> !Contains(s, pat)
    ensures r.Some? ==> OccursAt(s, pat, r.value)
    ensures r.Some? ==> forall j :: 0 <= j < r.value ==> !OccursAt(s, pat, j)
  {
    FindFrom(s, pat, 0)
  }

  // ---------------------------------------------------------------------------
  // `sep.join(parts)` and `s.split(sep)` for a one-character separator
  // ---------------------------------------------------------------------------

  /** Python's `sep.join(parts)`. */
  function Join(parts: seq<string>, sep: string): string
  {
    if |parts| == 0 then ""
    else if |parts| == 1 then parts[0]
    else parts[0] + sep + Join(parts[1..], sep)
  }

  lemma JoinPrepend(x: string, parts: seq<string>, sep: string)
    requires |parts| >= 1
    ensures Join([x + parts[0]] + parts[1..], sep) == x + Join(parts, sep)
  {
    var q := [x + parts[0]] + parts[1..];
    if |parts| > 1 {
      assert q[1..] == parts[1..];
    }
  }

  /**
   * Python's `s.split(sep)`: the pieces between the separators, empty ones
   * included; joining them back with the separator gives `s`.
   */
  function Split(s: string, sep: char): (parts: seq<string>)
    ensures |parts| >= 1
    ensures forall p :: p in parts ==> sep !in p
    ensures Join(parts, [sep]) == s
  {
    if s == [] then [""]
    else
      var rest := Split(s[1..], sep);
      if s[0] == sep then
        assert ([""] + rest)[1..] == rest;
        [""] + rest
      else
        JoinPrepend([s[0]], rest, [sep]);
        assert s == [s[0]] + s[1..];
        [[s[0]] + rest[0]] + rest[1..]
  }

  lemma {:induction false} SplitNoSeparator(x: string, sep: char)
    requires sep !in x
    ensures Split(x, sep) == [x]
  {
    if x != [] {
      SplitNoSeparator(x[1..], sep);
      assert x == [x[0]] + x[1..];
    }
  }

  lemma {:induction false} SplitAfterPiece(x: string, y: string, sep: char)
    requires sep !in x
    ensures Split(x + [sep] + y, sep) == [x] + Split(y, sep)
  {
    var s := x + [sep] + y;
    if x == [] {
      assert s[1..] == y;
    } else {
      assert s[1..] == x[1..] + [sep] + y;
      SplitAfterPiece(x[1..], y, sep);
      assert x == [x[0]] + x[1..];
    }
  }

  /** Round trip: splitting what `join` built gives back the pieces. */
  lemma {:induction false} SplitJoin(parts: seq<string>, sep: char)
    requires |parts| >= 1
    requires forall p :: p in parts ==> sep !in p
    ensures Split(Join(parts, [sep]), sep) == parts
  {
    if |parts| == 1 {
      SplitNoSeparator(parts[0], sep);
    } else {
      SplitJoin(parts[1..], sep);
      SplitAfterPiece(parts[0], Join(parts[1..], [sep]), sep);
      assert parts == [parts[0]] + parts[1..];
    }
  }

  // ---------------------------------------------------------------------------
  // `s.split()` with no argument
  // ---------------------------------------------------------------------------

  /** The characters Python's `str.split()` treats as whitespace. */
  predicate IsSpace(c: char)
  {
    ('\t' <= c <= '\r') || ('\U{1C}' <= c <= '\U{1F}') || c == ' ' || c == '\U{85}' || c == '\U{A0}'
    || c == '\U{1680}' || ('\U{2000}' <= c <= '\U{200A}') || c == '\U{2028}' || c == '\U{2029}'
    || c == '\U{202F}' || c == '\U{205F}' || c == '\U{3000}'
  }

  predicate IsWord(w: string)
  {
    w != [] && forall i :: 0 <= i < |w| ==> !IsSpace(w[i])
  }

  /** The characters of `s` that are not whitespace, in order. */
  function NonSpace(s: string): string
  {
    if s == [] then ""
    else if IsSpace(s[0]) then NonSpace(s[1..])
    else [s[0]] + NonSpace(s[1..])
  }

  function Concat(words: seq<string>): string
  {
    if words == [] then "" else words[0] + Concat(words[1..])
  }

  lemma {:induction false} NonSpaceAppend(x: string, y: string)
    ensures NonSpace(x + y) == NonSpace(x) + NonSpace(y)
  {
    if x != [] {
      assert (x + y)[0] == x[0] && (x + y)[1..] == x[1..] + y;
      NonSpaceAppend(x[1..], y);
      if IsSpace(x[0]) {
        assert NonSpace(x + y) == NonSpace(x[1..] + y);
      } else {
        assert NonSpace(x + y) == [x[0]] + NonSpace(x[1..] + y);
        assert NonSpace(x) == [x[0]] + NonSpace(x[1..]);
      }
    } else {
      assert x + y == y;
    }
  }

  lemma {:induction false} NonSpaceWord(w: string)
    requires forall i :: 0 <= i < |w| ==> !IsSpace(w[i])
    ensures NonSpace(w) == w
  {
    if w != [] {
      NonSpaceWord(w[1..]);
      assert w == [w[0]] + w[1..];
    }
  }

  /** The end of the run of non-whitespace characters that starts at `i`. */
  function WordEnd(s: string, i: nat): (n: nat)
    requires i <= |s|
    ensures i <= n <= |s|
    ensures forall k :: i <= k < n ==> !IsSpace(s[k])
    ensures n < |s| ==> IsSpace(s[n])
    decreases |s| - i
  {
    if i == |s| || IsSpace(s[i]) then i else WordEnd(s, i + 1)
  }

  /**
   * Python's `s.split()`: the maximal runs of non-whitespace characters. The
   * words are non-empty, hold no whitespace, and together spell `s` without
   * its whitespace.
   */
  function SplitWords(s: string): (words: seq<string>)
    ensures forall w :: w in words ==> IsWord(w)
    ensures Concat(words) == NonSpace(s)
    decreases |s|
  {
    if s == [] then []
    else if IsSpace(s[0]) then SplitWords(s[1..])
    else
      var n := WordEnd(s, 0);
      var rest := SplitWords(s[n..]);
      assert s == s[..n] + s[n..];
      NonSpaceAppend(s[..n], s[n..]);
      NonSpaceWord(s[..n]);
      assert ([s[..n]] + rest)[1..] == rest;
      [s[..n]] + rest
  }

  lemma SplitWordsSingle(w: string)
    requires IsWord(w)
    ensures SplitWords(w) == [w]
  {
    assert WordEnd(w, 0) == |w|;
    assert w[..|w|] == w && w[|w|..] == [];
  }

  /** Every character of `ws` is whitespace. */
  predicate AllSpace(ws: string)
  {
    forall i :: 0 <= i < |ws| ==> IsSpace(ws[i])
  }

  /** Leading whitespace, of any kind and length, is skipped. */
  lemma {:induction false} SplitWordsSkipSpace(ws: string, y: string)
    requires AllSpace(ws)
    ensures SplitWords(ws + y) == SplitWords(y)
  {
    if ws != [] {
      assert (ws + y)[0] == ws[0];
      assert (ws + y)[1..] == ws[1..] + y;
      SplitWordsSkipSpace(ws[1..], y);
    } else {
      assert ws + y == y;
    }
  }

  /** A word followed by a non-empty run of whitespace is the first word. */
  lemma SplitWordsAfterWord(w: string, ws: string, y: string)
    requires IsWord(w) && ws != [] && AllSpace(ws)
    ensures SplitWords(w + ws + y) == [w] + SplitWords(y)
  {
    var s := w + ws + y;
    assert s[0] == w[0];
    assert s[|w|] == ws[0];
    assert WordEnd(s, 0) == |w|;
    assert s[..|w|] == w;
    assert s[|w|..] == ws + y;
    SplitWordsSkipSpace(ws, y);
  }

  /**
   * Python's `str.split()` breaks exactly at runs of whitespace: an
   * all-whitespace string has no words, leading whitespace is dropped, a
   * lone word is itself, and a word ended by whitespace comes first. These
   * equations fix the split of every string.
   */
  lemma SplitWordsRuns(w: string, ws: string, y: string)
    ensures AllSpace(ws) ==> SplitWords(ws) == []
    ensures AllSpace(ws) ==> SplitWords(ws + y) == SplitWords(y)
    ensures IsWord(w) ==> SplitWords(w) == [w]
    ensures IsWord(w) && ws != [] && AllSpace(ws) ==> SplitWords(w + ws + y) == [w] + SplitWords(y)
  {
    if AllSpace(ws) {
      SplitWordsSkipSpace(ws, []);
      assert ws + [] == ws;
      SplitWordsSkipSpace(ws, y);
      if IsWord(w) && ws != [] {
        SplitWordsAfterWord(w, ws, y);
      }
    }
    if IsWord(w) {
      SplitWordsSingle(w);
    }
  }

  /** Round trip: `" ".join(words).split()` gives back the words. */
  lemma {:induction false} SplitWordsJoin(words: seq<string>)
    requires forall w :: w in words ==> IsWord(w)
    ensures SplitWords(Join(words, " ")) == words
  {
    if |words| == 1 {
      SplitWordsSingle(words[0]);
    } else if |words| > 1 {
      SplitWordsJoin(words[1..]);
      SplitWordsAfterWord(words[0], " ", Join(words[1..], " "));
      assert words == [words[0]] + words[1..];
    }
  }

  // ---------------------------------------------------------------------------
  // `s.replace(old, new)` for single characters
  // ---------------------------------------------------------------------------

  /** Python's `s.replace(a, b)` for one-character `a` and `b`. */
  function ReplaceChar(s: string, a: char, b: char): (r: string)
    ensures |r| == |s|
    ensures forall i :: 0 <= i < |s| ==> r[i] == (if s[i] == a then b else s[i])
    ensures a != b ==> a !in r
  {
    if s == [] then ""
    else [if s[0] == a then b else s[0]] + ReplaceChar(s[1..], a, b)
  }
}
