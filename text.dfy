/** Python string operations used by the response clean-up, over `string`
    (a sequence of `char`). The model fixes three simplifications of Python's
    Unicode-aware semantics:
    - whitespace, for `str.strip()` and `str.split()`, is the ten ASCII
      characters Python treats as whitespace (space, tab, line feed,
      vertical tab, form feed, carriage return, and the four separators
      U+001C to U+001F); non-ASCII whitespace is not whitespace here;
    - `str.lower()` and the `re.IGNORECASE` flag fold only ASCII letters;
    - a word character, for the regular-expression anchor `\b`, is an ASCII
      letter, an ASCII digit or `_`. */
module Text {

  predicate IsSpace(c: char) {
    c == ' ' || c == '\t' || c == '\n' || c == '\U{B}' || c == '\U{C}' || c == '\r'
    || c == '\U{1C}' || c == '\U{1D}' || c == '\U{1E}' || c == '\U{1F}'
  }

  predicate IsWordChar(c: char) {
    ('a' <= c <= 'z') || ('A' <= c <= 'Z') || ('0' <= c <= '9') || c == '_'
  }

  function LowerChar(c: char): char {
    if 'A' <= c <= 'Z' then (c as int - 'A' as int + 'a' as int) as char else c
  }

  /** `str.lower()`, restricted to ASCII letters. */
  function Lower(s: string): string {
    seq(|s|, i requires 0 <= i < |s| => LowerChar(s[i]))
  }

  // ---------------------------------------------------------------- strip

  /** The number of whitespace characters that begin `s`. */
  function LeadingSpace(s: string): (n: nat)
    ensures n <= |s|
    ensures forall i :: 0 <= i < n ==> IsSpace(s[i])
    ensures n == |s| || !IsSpace(s[n])
  {
    if s != [] && IsSpace(s[0]) then 1 + LeadingSpace(s[1..]) else 0
  }

  /** The number of whitespace characters that end `s`. */
  function TrailingSpace(s: string): (n: nat)
    ensures n <= |s|
    ensures forall i :: |s| - n <= i < |s| ==> IsSpace(s[i])
    ensures n == |s| || !IsSpace(s[|s| - n - 1])
  {
    if s != [] && IsSpace(s[|s| - 1]) then 1 + TrailingSpace(s[..|s| - 1]) else 0
  }

  /** Neither begins nor ends with whitespace. */
  predicate Stripped(s: string) {
    s == [] || (!IsSpace(s[0]) && !IsSpace(s[|s| - 1]))
  }

  /** `str.strip()`: the part of `s` between its leading and its trailing
      whitespace. */
  function Strip(s: string): (r: string)
    ensures Stripped(r)
    ensures LeadingSpace(s) + |r| <= |s| && r == s[LeadingSpace(s)..LeadingSpace(s) + |r|]
    ensures forall i :: 0 <= i < |s| && !(LeadingSpace(s) <= i < LeadingSpace(s) + |r|) ==> IsSpace(s[i])
  {
    var a := LeadingSpace(s);
    var t := s[a..];
    t[..|t| - TrailingSpace(t)]
  }

  /** Stripping changes exactly the strings that begin or end with whitespace. */
  lemma StripUnchangedIff(s: string)
    ensures Strip(s) == s <==> Stripped(s)
  {
    if Stripped(s) && s != [] {
      assert LeadingSpace(s) == 0;
      assert TrailingSpace(s) == 0;
    }
  }

  /** Strip is determined by its contract: a non-empty stripped slice with
      only whitespace around it is what `strip()` returns. */
  lemma StripUnique(s: string, a: nat, r: string)
    requires r != [] && Stripped(r) && a + |r| <= |s| && s[a..a + |r|] == r
    requires forall i :: 0 <= i < |s| && !(a <= i < a + |r|) ==> IsSpace(s[i])
    ensures Strip(s) == r
  {
    assert s[a] == r[0];
    assert s[a + |r| - 1] == r[|r| - 1];
    var n := LeadingSpace(s);
    assert n == a;
    var t := Strip(s);
    assert |t| == |r|;
  }

  /** Appending whitespace does not change what `strip()` returns. */
  lemma {:induction false} StripIgnoresPadding(s: string, pad: string)
    requires forall i :: 0 <= i < |pad| ==> IsSpace(pad[i])
    ensures Strip(s + pad) == Strip(s)
  {
    var r := Strip(s);
    var a := LeadingSpace(s);
    var u := s + pad;
    if r != [] {
      assert u[a..a + |r|] == s[a..a + |r|];
      forall i | 0 <= i < |u| && !(a <= i < a + |r|)
        ensures IsSpace(u[i])
      {
        if i < |s| {
          assert u[i] == s[i];
        } else {
          assert u[i] == pad[i - |s|];
        }
      }
      StripUnique(u, a, r);
    } else {
      assert forall i :: 0 <= i < |s| ==> IsSpace(s[i]);
      assert forall i :: 0 <= i < |u| ==> IsSpace(u[i]) by {
        forall i | 0 <= i < |u| ensures IsSpace(u[i]) {
          if i < |s| {
            assert u[i] == s[i];
          } else {
            assert u[i] == pad[i - |s|];
          }
        }
      }
    }
  }

  /** Stripping a string that already ends in a non-space only removes its
      leading whitespace, so the result is a suffix of it. */
  lemma StripKeepsEnd(s: string)
    requires s == [] || !IsSpace(s[|s| - 1])
    ensures Strip(s) == s[|s| - |Strip(s)|..]
  {
    if s != [] {
      var a := LeadingSpace(s);
      assert a < |s| by { assert !IsSpace(s[|s| - 1]); }
      var t := s[a..];
      assert t[|t| - 1] == s[|s| - 1];
      assert TrailingSpace(t) == 0;
      assert Strip(s) == t;
    }
  }

  // ---------------------------------------------------------------- search

  predicate StartsWith(s: string, p: string) {
    |p| <= |s| && s[..|p|] == p
  }

  predicate OccursAt(s: string, p: string, i: int) {
    0 <= i && i + |p| <= |s| && s[i..i + |p|] == p
  }

  /** Python's `p in s`. */
  predicate Contains(s: string, p: string) {
    exists i :: 0 <= i <= |s| - |p| && OccursAt(s, p, i)
  }

  /** A piece of a string can hold a pattern only where the whole string does. */
  lemma NotContainsSlice(s: string, p: string, a: nat, b: nat)
    requires a <= b <= |s|
    requires !Contains(s, p)
    ensures !Contains(s[a..b], p)
  {
    var t := s[a..b];
    forall i | 0 <= i <= |t| - |p|
      ensures !OccursAt(t, p, i)
    {
      if OccursAt(t, p, i) {
        var u := s[a + i..a + i + |p|];
        forall j | 0 <= j < |p|
          ensures u[j] == p[j]
        {
          assert p[j] == t[i + j] == s[a + i + j];
        }
        assert OccursAt(s, p, a + i);
      }
    }
  }

  lemma StripKeepsAbsence(s: string, p: string)
    requires !Contains(s, p)
    ensures !Contains(Strip(s), p)
  {
    var a := LeadingSpace(s);
    NotContainsSlice(s, p, a, a + |Strip(s)|);
  }

  /** A piece that begins and ends with non-whitespace survives `strip()`. */
  lemma StripKeepsInner(u: string, m: string, w: string)
    requires m != [] && !IsSpace(m[0]) && !IsSpace(m[|m| - 1])
    ensures Contains(Strip(u + m + w), m)
  {
    var x := u + m + w;
    assert x[|u|..|u| + |m|] == m;
    StripKeepsWindow(x, |u|, |u| + |m|);
  }

  lemma StripKeepsWindow(x: string, lo: nat, hi: nat)
    requires lo < hi <= |x| && !IsSpace(x[lo]) && !IsSpace(x[hi - 1])
    ensures Contains(Strip(x), x[lo..hi])
  {
    StripCovers(x, lo);
    StripCovers(x, hi - 1);
    var a := LeadingSpace(x);
    var r := Strip(x);
    var off := lo - a;
    SliceOfSlice(x, a, a + |r|, off, off + (hi - lo));
    assert OccursAt(r, x[lo..hi], off);
  }

  /** `strip()` keeps every non-space character. */
  lemma StripCovers(x: string, k: nat)
    requires k < |x| && !IsSpace(x[k])
    ensures LeadingSpace(x) <= k < LeadingSpace(x) + |Strip(x)|
  {
    LeadingSpaceBound(x, k);
    var a := LeadingSpace(x);
    var t := x[a..];
    assert t[k - a] == x[k];
    TrailingSpaceBound(t, k - a);
  }

  /** Leading whitespace stops at the first non-space character. */
  lemma {:induction false} LeadingSpaceBound(x: string, k: nat)
    requires k < |x| && !IsSpace(x[k])
    ensures LeadingSpace(x) <= k
    decreases k
  {
    if IsSpace(x[0]) {
      assert x[1..][k - 1] == x[k];
      LeadingSpaceBound(x[1..], k - 1);
    }
  }

  /** Trailing whitespace stops at the last non-space character. */
  lemma {:induction false} TrailingSpaceBound(x: string, k: nat)
    requires k < |x| && !IsSpace(x[k])
    ensures TrailingSpace(x) < |x| - k
    decreases |x| - k
  {
    if IsSpace(x[|x| - 1]) {
      var y := x[..|x| - 1];
      assert y[k] == x[k];
      TrailingSpaceBound(y, k);
    }
  }

  lemma ContainsJoint(a: string, p: string, b: string)
    ensures Contains(a + p + b, p)
  {
    assert (a + p + b)[|a|..|a| + |p|] == p;
    assert OccursAt(a + p + b, p, |a|);
  }

  // ---------------------------------------------------------------- split / join

  /** Python's `s.split(sep)` for a non-empty separator: scanning from the
      left, every non-overlapping occurrence of `sep` ends one part. */
  function Split(s: string, sep: string): (parts: seq<string>)
    requires |sep| > 0
    ensures |parts| >= 1
    decreases |s|
  {
    if |s| < |sep| then [s]
    else if s[..|sep|] == sep then [[]] + Split(s[|sep|..], sep)
    else
      var t := Split(s[1..], sep);
      [[s[0]] + t[0]] + t[1..]
  }

  /** Python's `sep.join(parts)`. */
  function JoinWith(parts: seq<string>, sep: string): string {
    if |parts| == 0 then []
    else if |parts| == 1 then parts[0]
    else parts[0] + sep + JoinWith(parts[1..], sep)
  }

  /** Python's `"".join(parts)`. */
  function Concat(parts: seq<string>): string {
    if parts == [] then [] else parts[0] + Concat(parts[1..])
  }

  /** Python's `s.replace(p, "")`: the same left-to-right scan as `split`,
      keeping what lies between the occurrences; an empty `p` leaves `s`
      as it is. */
  function RemoveAll(s: string, p: string): string {
    if p == [] then s else Concat(Split(s, p))
  }

  /** Joining the parts with the separator gives back the string that was
      split. */
  lemma {:induction false} SplitJoin(s: string, sep: string)
    requires |sep| > 0
    ensures JoinWith(Split(s, sep), sep) == s
    decreases |s|
  {
    if |s| < |sep| {
    } else if s[..|sep|] == sep {
      var rest := s[|sep|..];
      SplitJoin(rest, sep);
      JoinEmptyFirst(Split(rest, sep), sep);
      assert s == s[..|sep|] + rest;
    } else {
      var rest := s[1..];
      SplitJoin(rest, sep);
      JoinExtendFirst(s[0], Split(rest, sep), sep);
      assert s == [s[0]] + rest;
    }
  }

  lemma JoinEmptyFirst(t: seq<string>, sep: string)
    requires |t| >= 1
    ensures JoinWith([[]] + t, sep) == sep + JoinWith(t, sep)
  {
    assert ([[]] + t)[1..] == t;
  }

  lemma JoinExtendFirst(c: char, t: seq<string>, sep: string)
    requires |t| >= 1
    ensures JoinWith([[c] + t[0]] + t[1..], sep) == [c] + JoinWith(t, sep)
  {
    var parts := [[c] + t[0]] + t[1..];
    if |t| > 1 {
      assert parts[1..] == t[1..];
    }
  }

  /** No part of a split holds the separator: every occurrence was cut. */
  lemma {:induction false} SplitPartsFree(s: string, sep: string)
    requires |sep| > 0
    ensures forall k :: 0 <= k < |Split(s, sep)| ==> !Contains(Split(s, sep)[k], sep)
    decreases |s|
  {
    var parts := Split(s, sep);
    if |s| < |sep| {
    } else if s[..|sep|] == sep {
      SplitPartsFree(s[|sep|..], sep);
      assert forall k :: 1 <= k < |parts| ==> parts[k] == Split(s[|sep|..], sep)[k - 1];
    } else {
      var t := Split(s[1..], sep);
      SplitPartsFree(s[1..], sep);
      SplitFirstIsPrefix(s[1..], sep);
      ConsKeepsFree(s, sep, t[0]);
      assert forall k :: 1 <= k < |parts| ==> parts[k] == t[k];
    }
  }

  /** A separator-free prefix of `s[1..]` stays free once `s[0]` is put in
      front, when `s` does not start with the separator. */
  lemma ConsKeepsFree(s: string, sep: string, u: string)
    requires |sep| > 0 && |sep| <= |s| && s[..|sep|] != sep
    requires |u| < |s| && u == s[1..][..|u|] && !Contains(u, sep)
    ensures !Contains([s[0]] + u, sep)
  {
    var head := [s[0]] + u;
    assert head == s[..|head|];
    forall i | 0 <= i <= |head| - |sep|
      ensures !OccursAt(head, sep, i)
    {
      if i == 0 {
        assert head[..|sep|] == s[..|sep|];
      } else {
        assert head[i..i + |sep|] == u[i - 1..i - 1 + |sep|];
        assert !OccursAt(u, sep, i - 1);
      }
    }
  }

  /** The first part is a prefix of the string. */
  lemma SplitFirstIsPrefix(s: string, sep: string)
    requires |sep| > 0
    ensures |Split(s, sep)[0]| <= |s| && Split(s, sep)[0] == s[..|Split(s, sep)[0]|]
  {
    var parts := Split(s, sep);
    SplitJoin(s, sep);
    if |parts| > 1 {
      assert s == parts[0] + (sep + JoinWith(parts[1..], sep));
    }
  }

  /** The last part is a suffix of the string. */
  lemma {:induction false} JoinWithEndsWithLast(parts: seq<string>, sep: string)
    requires |parts| >= 1
    ensures var j := JoinWith(parts, sep);
      |parts[|parts| - 1]| <= |j| && j[|j| - |parts[|parts| - 1]|..] == parts[|parts| - 1]
  {
    if |parts| > 1 {
      JoinWithEndsWithLast(parts[1..], sep);
    }
  }

  /** Joining peels off the last part as well as the first. */
  lemma {:induction false} JoinWithLast(parts: seq<string>, sep: string)
    requires |parts| >= 2
    ensures JoinWith(parts, sep) == JoinWith(parts[..|parts| - 1], sep) + sep + parts[|parts| - 1]
    decreases |parts|
  {
    var n := |parts|;
    if n > 2 {
      JoinWithLast(parts[1..], sep);
      assert parts[1..][..n - 2] == parts[..n - 1][1..];
      assert parts[1..][n - 2] == parts[n - 1];
    } else {
      assert parts[..1] == [parts[0]];
    }
  }

  lemma SplitLastIsSuffix(s: string, sep: string)
    requires |sep| > 0
    ensures var last := Split(s, sep)[|Split(s, sep)| - 1];
      |last| <= |s| && s[|s| - |last|..] == last
  {
    SplitJoin(s, sep);
    JoinWithEndsWithLast(Split(s, sep), sep);
  }

  /** A split yields more than one part exactly when the separator occurs. */
  lemma SplitManyIff(s: string, sep: string)
    requires |sep| > 0
    ensures |Split(s, sep)| > 1 <==> Contains(s, sep)
  {
    var parts := Split(s, sep);
    SplitJoin(s, sep);
    SplitPartsFree(s, sep);
    if |parts| > 1 {
      ContainsJoint(parts[0], sep, JoinWith(parts[1..], sep));
    } else {
      assert s == parts[0];
    }
  }

  /** `replace(p, "")` changes the string exactly when `p` occurs in it; it
      removes every occurrence, so none of the kept pieces holds `p`. */
  lemma RemoveAllUnchangedIff(s: string, p: string)
    requires |p| > 0
    ensures RemoveAll(s, p) == s <==> !Contains(s, p)
  {
    var parts := Split(s, p);
    SplitJoin(s, p);
    SplitManyIff(s, p);
    if |parts| == 1 {
      assert Concat(parts) == parts[0] + Concat([]);
    } else {
      JoinLongerThanConcat(parts, p);
    }
  }

  /** Joining at least two parts with a non-empty separator gives a longer
      string than concatenating them. */
  lemma JoinLongerThanConcat(parts: seq<string>, sep: string)
    requires |parts| >= 2 && |sep| > 0
    ensures |JoinWith(parts, sep)| > |Concat(parts)|
  {
    JoinNotShorter(parts[1..], sep);
  }

  lemma {:induction false} JoinNotShorter(parts: seq<string>, sep: string)
    ensures |JoinWith(parts, sep)| >= |Concat(parts)|
  {
    if |parts| > 1 {
      JoinNotShorter(parts[1..], sep);
    } else if |parts| == 1 {
      assert Concat(parts) == parts[0] + Concat([]);
    }
  }

  // ---------------------------------------------------------------- split() / collapse

  /** The length of the run of non-whitespace characters that begins `s`. */
  function WordLength(s: string): (n: nat)
    ensures n <= |s|
    ensures forall i :: 0 <= i < n ==> !IsSpace(s[i])
    ensures n == |s| || IsSpace(s[n])
  {
    if s == [] || IsSpace(s[0]) then 0 else 1 + WordLength(s[1..])
  }

  /** Python's `s.split()` with no separator: the maximal runs of
      non-whitespace characters, in order. */
  function Words(s: string): seq<string>
    decreases |s|
  {
    if s == [] then []
    else if IsSpace(s[0]) then Words(s[1..])
    else
      var n := WordLength(s);
      [s[..n]] + Words(s[n..])
  }

  /** A non-empty run of non-whitespace characters. */
  predicate IsWord(w: string) {
    w != [] && forall i :: 0 <= i < |w| ==> !IsSpace(w[i])
  }

  predicate AllWords(ws: seq<string>) {
    forall k :: 0 <= k < |ws| ==> IsWord(ws[k])
  }

  /** Python's `" ".join(s.split())`. */
  function Collapse(s: string): string {
    JoinWith(Words(s), " ")
  }

  /** Whitespace normal form: every whitespace character is a plain space
      that stands between two non-whitespace characters. So there is no
      leading or trailing whitespace, no two adjacent spaces, and no line
      break. */
  predicate SingleSpaced(s: string) {
    forall i :: 0 <= i < |s| && IsSpace(s[i]) ==> s[i] == ' ' && 0 < i < |s| - 1 && !IsSpace(s[i + 1])
  }

  lemma SingleSpacedIsStripped(s: string)
    requires SingleSpaced(s)
    ensures Stripped(s)
  {
  }

  lemma {:induction false} WordsAreWords(s: string)
    ensures AllWords(Words(s))
    decreases |s|
  {
    if s == [] {
    } else if IsSpace(s[0]) {
      WordsAreWords(s[1..]);
    } else {
      var n := WordLength(s);
      WordsAreWords(s[n..]);
      var ws := [s[..n]] + Words(s[n..]);
      assert forall k :: 1 <= k < |ws| ==> ws[k] == Words(s[n..])[k - 1];
    }
  }

  lemma JoinWordsHead(ws: seq<string>)
    requires AllWords(ws) && |ws| >= 1
    ensures var j := JoinWith(ws, " "); |j| > 0 && j[0] == ws[0][0]
  {
  }

  /** Words joined by single spaces are in whitespace normal form. */
  lemma {:induction false} JoinWordsSingleSpaced(ws: seq<string>)
    requires AllWords(ws)
    ensures SingleSpaced(JoinWith(ws, " "))
  {
    if |ws| == 0 {
    } else if |ws| == 1 {
      assert IsWord(ws[0]);
    } else {
      var w := ws[0];
      var rest := ws[1..];
      assert IsWord(w);
      assert AllWords(rest) by {
        forall k | 0 <= k < |rest| ensures IsWord(rest[k]) { assert rest[k] == ws[k + 1]; }
      }
      JoinWordsSingleSpaced(rest);
      JoinWordsHead(rest);
      assert IsWord(rest[0]);
      var j := JoinWith(rest, " ");
      var r := w + " " + j;
      assert r == JoinWith(ws, " ");
      forall i | 0 <= i < |r| && IsSpace(r[i])
        ensures r[i] == ' ' && 0 < i < |r| - 1 && !IsSpace(r[i + 1])
      {
        if i == |w| {
          assert r[i + 1] == j[0];
        } else if i > |w| {
          assert r[i] == j[i - |w| - 1];
          assert i + 1 < |r| ==> r[i + 1] == j[i - |w|];
        }
      }
    }
  }

  /** Collapsing whitespace always yields the normal form. */
  lemma CollapseSingleSpaced(s: string)
    ensures SingleSpaced(Collapse(s))
  {
    WordsAreWords(s);
    JoinWordsSingleSpaced(Words(s));
  }

  /** A string already in normal form is left as it is by the collapse. */
  lemma {:induction false} SingleSpacedCollapseUnchanged(s: string)
    requires SingleSpaced(s)
    ensures Collapse(s) == s
    decreases |s|
  {
    if s != [] {
      var n := WordLength(s);
      assert n > 0 by { assert !IsSpace(s[0]); }
      if n == |s| {
        SingleWord(s);
        assert JoinWith([s], " ") == s;
      } else {
        assert s[n] == ' ' && n < |s| - 1 && !IsSpace(s[n + 1]);
        SingleSpacedDrop(s, n + 1);
        SingleSpacedCollapseUnchanged(s[n + 1..]);
        CollapseFirstWord(s);
      }
    }
  }

  /** The step of the induction above: a normal-form string whose tail after
      the first word and space collapses to itself collapses to itself. */
  lemma CollapseFirstWord(s: string)
    requires 0 < WordLength(s) < |s| - 1
    requires s[WordLength(s)] == ' ' && !IsSpace(s[WordLength(s) + 1])
    requires Collapse(s[WordLength(s) + 1..]) == s[WordLength(s) + 1..]
    ensures Collapse(s) == s
  {
    var n := WordLength(s);
    var tail := s[n + 1..];
    WordsAfterFirst(s);
    var w := Words(tail);
    assert |w| >= 1 by { assert JoinWith(w, " ") == tail != []; }
    JoinExtendWords(s[..n], w);
    AroundIndex(s, n);
    assert [s[n]] == " ";
  }

  lemma SliceOfSlice(s: string, lo: nat, hi: nat, a: nat, b: nat)
    requires lo <= hi <= |s| && a <= b <= hi - lo
    ensures s[lo..hi][a..b] == s[lo + a..lo + b]
  {
    assert forall i :: 0 <= i < b - a ==> s[lo..hi][a..b][i] == s[lo + a + i];
  }

  /** A string is the part before an index, the character there, and the
      part after it. */
  lemma AroundIndex(s: string, n: nat)
    requires n < |s|
    ensures s == s[..n] + [s[n]] + s[n + 1..]
  {
  }

  /** A string that is one run of non-whitespace is its only word. */
  lemma SingleWord(s: string)
    requires s != [] && WordLength(s) == |s|
    ensures Words(s) == [s]
  {
    assert !IsSpace(s[0]);
    assert s[..|s|] == s;
    assert Words(s[|s|..]) == [];
  }

  /** Dropping a prefix that ends before a non-space keeps the normal form. */
  lemma SingleSpacedDrop(s: string, j: nat)
    requires SingleSpaced(s) && j <= |s| && (j == |s| || !IsSpace(s[j]))
    ensures SingleSpaced(s[j..])
  {
    var tail := s[j..];
    forall i | 0 <= i < |tail| && IsSpace(tail[i])
      ensures tail[i] == ' ' && 0 < i < |tail| - 1 && !IsSpace(tail[i + 1])
    {
      assert tail[i] == s[j + i];
      assert j + i < |s| - 1;
      assert tail[i + 1] == s[j + i + 1];
    }
  }

  /** When the first word is followed by one space and another word, the
      words are that first word and the words after the space. */
  lemma WordsAfterFirst(s: string)
    requires s != [] && !IsSpace(s[0])
    requires WordLength(s) < |s|
    ensures Words(s) == [s[..WordLength(s)]] + Words(s[WordLength(s) + 1..])
  {
    var n := WordLength(s);
    assert Words(s) == [s[..n]] + Words(s[n..]);
    var t := s[n..];
    assert t != [] && IsSpace(t[0]);
    assert Words(t) == Words(t[1..]);
    assert t[1..] == s[n + 1..];
  }

  lemma JoinExtendWords(w: string, ws: seq<string>)
    requires |ws| >= 1
    ensures JoinWith([w] + ws, " ") == w + " " + JoinWith(ws, " ")
  {
    assert ([w] + ws)[1..] == ws;
  }

  /** The collapse fixes exactly the strings in whitespace normal form. */
  lemma CollapseUnchangedIff(s: string)
    ensures Collapse(s) == s <==> SingleSpaced(s)
  {
    CollapseSingleSpaced(s);
    if SingleSpaced(s) {
      SingleSpacedCollapseUnchanged(s);
    }
  }

  /** Splitting words joined by single spaces gives back the same words. */
  lemma {:induction false} WordsOfJoin(ws: seq<string>)
    requires AllWords(ws)
    ensures Words(JoinWith(ws, " ")) == ws
  {
    if |ws| == 1 {
      var w := ws[0];
      assert IsWord(w);
      SingleWord(w);
    } else if |ws| > 1 {
      var w := ws[0];
      assert IsWord(w);
      var rest := ws[1..];
      assert AllWords(rest) by {
        forall k | 0 <= k < |rest| ensures IsWord(rest[k]) { assert rest[k] == ws[k + 1]; }
      }
      WordsOfJoin(rest);
      var j := JoinWith(rest, " ");
      var r := w + " " + j;
      assert r == JoinWith(ws, " ");
      FirstWordLength(w, j);
      WordsAfterFirst(r);
      assert r[..|w|] == w;
      assert r[|w| + 1..] == j;
      assert ws == [w] + rest;
    }
  }

  /** The first word of a word followed by a space is that word. */
  lemma FirstWordLength(w: string, rest: string)
    requires IsWord(w)
    ensures WordLength(w + " " + rest) == |w|
  {
    var r := w + " " + rest;
    assert r[|w|] == ' ';
    assert forall i :: 0 <= i < |w| ==> r[i] == w[i];
  }

  /** The collapse keeps the words of the text, in their order. */
  lemma WordsOfCollapse(s: string)
    ensures Words(Collapse(s)) == Words(s)
  {
    WordsAreWords(s);
    WordsOfJoin(Words(s));
  }

  // ---------------------------------------------------------------- subsequences

  /** `a` is obtained from `b` by deleting characters, never inserting any. */
  ghost predicate IsSubsequence(a: string, b: string)
    decreases |b|
  {
    if a == [] then true
    else if b == [] then false
    else (a[0] == b[0] && IsSubsequence(a[1..], b[1..])) || IsSubsequence(a, b[1..])
  }

  lemma {:induction false} SubsequenceRefl(a: string)
    ensures IsSubsequence(a, a)
    decreases |a|
  {
    if a != [] {
      SubsequenceRefl(a[1..]);
    }
  }

  lemma {:induction false} SubsequenceTrans(a: string, b: string, c: string)
    requires IsSubsequence(a, b) && IsSubsequence(b, c)
    ensures IsSubsequence(a, c)
    decreases |c|
  {
    if a != [] {
      if IsSubsequence(b, c[1..]) {
        SubsequenceTrans(a, b, c[1..]);
      } else if IsSubsequence(a, b[1..]) {
        SubsequenceTrans(a, b[1..], c[1..]);
      } else {
        SubsequenceTrans(a[1..], b[1..], c[1..]);
      }
    }
  }

  /** The same character put in front of both keeps a subsequence. */
  lemma SubsequenceCons(c: char, a: string, b: string)
    requires IsSubsequence(a, b)
    ensures IsSubsequence([c] + a, [c] + b)
  {
    assert ([c] + a)[1..] == a && ([c] + b)[1..] == b;
  }

  /** Dropping a prefix of the larger string keeps the relation. */
  lemma {:induction false} SubsequenceOfSuffix(a: string, b: string, k: nat)
    requires k <= |b| && IsSubsequence(a, b[k..])
    ensures IsSubsequence(a, b)
    decreases k
  {
    if k > 0 {
      assert b[k..] == b[1..][k - 1..];
      SubsequenceOfSuffix(a, b[1..], k - 1);
    }
  }

  lemma {:induction false} PrefixIsSubsequence(b: string, n: nat)
    requires n <= |b|
    ensures IsSubsequence(b[..n], b)
    decreases n
  {
    if n > 0 {
      assert b[..n][1..] == b[1..][..n - 1];
      PrefixIsSubsequence(b[1..], n - 1);
    }
  }

  /** Every slice of a string is a subsequence of it. */
  lemma SliceIsSubsequence(b: string, lo: nat, hi: nat)
    requires lo <= hi <= |b|
    ensures IsSubsequence(b[lo..hi], b)
  {
    assert b[lo..hi] == b[lo..][..hi - lo];
    PrefixIsSubsequence(b[lo..], hi - lo);
    SubsequenceOfSuffix(b[lo..hi], b, lo);
  }

  lemma StripIsSubsequence(s: string)
    ensures IsSubsequence(Strip(s), s)
  {
    SliceIsSubsequence(s, LeadingSpace(s), LeadingSpace(s) + |Strip(s)|);
  }
}
