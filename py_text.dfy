/**
 Python's built-in text operations that the scripts rely on, as functions on
 `string`: `str.split()` with no argument, `" ".join`, `str.split(sep)` with a
 one-character separator, `str.replace`, `str.endswith`, the substring test
 `pat in s`, and `os.path.join` on POSIX paths.
 */
module PyText {

  /** The characters that `str.split()` treats as whitespace (the C-level
      `Py_UNICODE_ISSPACE` set), by code point. */
  predicate IsSpace(c: char) {
    var n := c as int;
    (9 <= n <= 13) || (28 <= n <= 32) || n == 0x85 || n == 0xA0 || n == 0x1680
    || (0x2000 <= n <= 0x200A) || n == 0x2028 || n == 0x2029 || n == 0x202F
    || n == 0x205F || n == 0x3000
  }

  /** A piece that `str.split()` can return: non-empty, without whitespace. */
  predicate IsWord(w: string) {
    |w| > 0 && forall i | 0 <= i < |w| :: !IsSpace(w[i])
  }

  predicate AllWords(ws: seq<string>) {
    forall k | 0 <= k < |ws| :: IsWord(ws[k])
  }

  /** Length of the longest whitespace-free prefix of `s`. */
  function WordLength(s: string): (n: nat)
    ensures n <= |s|
    ensures forall i | 0 <= i < n :: !IsSpace(s[i])
    ensures n < |s| ==> IsSpace(s[n])
  {
    if s == [] || IsSpace(s[0]) then 0 else 1 + WordLength(s[1..])
  }

  /** `s.split()`: split on runs of whitespace and drop empty pieces. */
  function Split(s: string): (ws: seq<string>)
    ensures AllWords(ws)
    decreases |s|
  {
    if s == [] then []
    else if IsSpace(s[0]) then Split(s[1..])
    else
      var n := WordLength(s);
      [s[..n]] + Split(s[n..])
  }

  /** `" ".join(ws)`. */
  function Join(ws: seq<string>): string {
    if ws == [] then ""
    else if |ws| == 1 then ws[0]
    else ws[0] + " " + Join(ws[1..])
  }

  /** A string in which the only whitespace is single `' '` characters
      strictly between two non-whitespace characters. */
  predicate SingleSpaced(s: string) {
    forall i | 0 <= i < |s| && IsSpace(s[i]) ::
      s[i] == ' ' && 0 < i < |s| - 1 && !IsSpace(s[i - 1]) && !IsSpace(s[i + 1])
  }

  /** A text made only of whitespace has no words. */
  lemma {:induction false} SplitBlank(s: string)
    ensures Split(s) == [] <==> forall i | 0 <= i < |s| :: IsSpace(s[i])
    decreases |s|
  {
    if s != [] {
      if IsSpace(s[0]) {
        SplitBlank(s[1..]);
        assert forall i | 1 <= i < |s| :: s[i] == s[1..][i - 1];
      }
    }
  }

  lemma SplitOfWord(w: string)
    requires IsWord(w)
    ensures Split(w) == [w]
  {
    assert WordLength(w) == |w|;
    assert w[..|w|] == w && w[|w|..] == [];
    assert Split(w) == [w[..|w|]] + Split(w[|w|..]);
  }

  /** Whitespace in front of a text does not change its words. */
  lemma {:induction false} SplitSkipsSpace(sp: string, s: string)
    requires forall i | 0 <= i < |sp| :: IsSpace(sp[i])
    ensures Split(sp + s) == Split(s)
    decreases |sp|
  {
    if sp != [] {
      assert (sp + s)[0] == sp[0] && (sp + s)[1..] == sp[1..] + s;
      assert Split(sp + s) == Split(sp[1..] + s);
      assert forall i | 0 <= i < |sp[1..]| :: IsSpace(sp[1..][i]) by {
        forall i | 0 <= i < |sp[1..]| ensures IsSpace(sp[1..][i]) {
          assert sp[1..][i] == sp[i + 1];
        }
      }
      SplitSkipsSpace(sp[1..], s);
    } else {
      assert sp + s == s;
    }
  }

  /** A word followed by whitespace splits off as the first word. */
  lemma SplitWordThen(w: string, sp: char, rest: string)
    requires IsWord(w) && IsSpace(sp)
    ensures Split(w + [sp] + rest) == [w] + Split(rest)
  {
    var s := w + [sp] + rest;
    var n := WordLength(s);
    assert forall i | 0 <= i < |w| :: s[i] == w[i];
    assert s[|w|] == sp;
    assert n == |w|;
    assert s[..n] == w;
    assert s[n..] == [sp] + rest;
    SplitSkipsSpace([sp], rest);
  }

  lemma JoinStartsWithFirstWord(ws: seq<string>)
    requires AllWords(ws) && ws != []
    ensures |Join(ws)| >= |ws[0]| && Join(ws)[..|ws[0]|] == ws[0]
  {
  }

  /** `" ".join` followed by `str.split()` gives the words back. */
  lemma {:induction false} SplitJoin(ws: seq<string>)
    requires AllWords(ws)
    ensures Split(Join(ws)) == ws
    decreases |ws|
  {
    if ws == [] {
    } else if |ws| == 1 {
      SplitOfWord(ws[0]);
    } else {
      assert AllWords(ws[1..]);
      SplitJoin(ws[1..]);
      SplitWordThen(ws[0], ' ', Join(ws[1..]));
      assert ws[0] + " " + Join(ws[1..]) == ws[0] + [' '] + Join(ws[1..]);
      assert [ws[0]] + ws[1..] == ws;
    }
  }

  /** `" ".join` of words is empty exactly when there are no words. */
  lemma JoinEmpty(ws: seq<string>)
    requires AllWords(ws)
    ensures Join(ws) == "" <==> ws == []
  {
    if ws != [] {
      JoinStartsWithFirstWord(ws);
    }
  }

  /** `" ".join` of words has no leading, trailing, repeated or non-space whitespace. */
  lemma {:induction false} JoinSingleSpaced(ws: seq<string>)
    requires AllWords(ws)
    ensures SingleSpaced(Join(ws))
    decreases |ws|
  {
    if |ws| > 1 {
      var w, j := ws[0], Join(ws[1..]);
      assert AllWords(ws[1..]);
      JoinSingleSpaced(ws[1..]);
      JoinStartsWithFirstWord(ws[1..]);
      var s := w + " " + j;
      assert s == Join(ws);
      forall i | 0 <= i < |s|
        ensures IsSpace(s[i]) ==>
          s[i] == ' ' && 0 < i < |s| - 1 && !IsSpace(s[i - 1]) && !IsSpace(s[i + 1])
      {
        if i < |w| {
          assert s[i] == w[i];
        } else if i == |w| {
          assert s[i + 1] == j[0] == ws[1][0];
        } else {
          var k := i - |w| - 1;
          assert s[i] == j[k];
          if IsSpace(j[k]) {
            assert s[i - 1] == j[k - 1] && s[i + 1] == j[k + 1];
          }
        }
      }
    }
  }

  /** `s.split(sep)` for a one-character separator: every occurrence of `sep`
      cuts, and empty pieces are kept. */
  function SplitOn(s: string, sep: char): (parts: seq<string>)
    ensures |parts| >= 1
    ensures forall k | 0 <= k < |parts| :: sep !in parts[k]
  {
    if s == [] then [""]
    else
      var rest := SplitOn(s[1..], sep);
      if s[0] == sep then [""] + rest else [[s[0]] + rest[0]] + rest[1..]
  }

  /** `sep.join(parts)` for a one-character separator. */
  function JoinOn(parts: seq<string>, sep: char): string {
    if parts == [] then ""
    else if |parts| == 1 then parts[0]
    else parts[0] + [sep] + JoinOn(parts[1..], sep)
  }

  /** Joining the pieces of `s.split(sep)` with `sep` gives `s` back. */
  lemma {:induction false} JoinSplitOn(s: string, sep: char)
    ensures JoinOn(SplitOn(s, sep), sep) == s
  {
    if s != [] {
      var rest := SplitOn(s[1..], sep);
      JoinSplitOn(s[1..], sep);
      if s[0] == sep {
        assert ([""] + rest)[1..] == rest;
      } else {
        var parts := [[s[0]] + rest[0]] + rest[1..];
        assert parts[1..] == rest[1..];
        if |rest| > 1 {
          assert JoinOn(rest, sep) == rest[0] + [sep] + JoinOn(rest[1..], sep);
        }
      }
    }
  }

  /** Without a separator in it, `s.split(sep)` is `[s]`. */
  lemma {:induction false} SplitOnAbsent(s: string, sep: char)
    requires sep !in s
    ensures SplitOn(s, sep) == [s]
  {
    if s != [] {
      assert sep !in s[1..];
      SplitOnAbsent(s[1..], sep);
      assert s[0] != sep;
      assert [s[0]] + s[1..] == s;
    }
  }

  /** One separator between `a` and `b` splits as `a`'s pieces then `b`'s. */
  lemma {:induction false} SplitOnAround(a: string, sep: char, b: string)
    ensures SplitOn(a + [sep] + b, sep) == SplitOn(a, sep) + SplitOn(b, sep)
  {
    var s := a + [sep] + b;
    if a == [] {
      assert s[1..] == b;
    } else {
      assert s[1..] == a[1..] + [sep] + b;
      SplitOnAround(a[1..], sep, b);
      if a[0] != sep {
        assert |SplitOn(a[1..], sep)| >= 1;
      }
    }
  }

  /** The first piece of `s.split(sep)` is a prefix of `s`. */
  lemma {:induction false} SplitOnFirstIsPrefix(s: string, sep: char)
    ensures var first := SplitOn(s, sep)[0]; |first| <= |s| && s[..|first|] == first
  {
    if s != [] {
      SplitOnFirstIsPrefix(s[1..], sep);
    }
  }

  /** `s[-1]` of a non-empty list. */
  function Last<T>(xs: seq<T>): T
    requires xs != []
  {
    xs[|xs| - 1]
  }

  /** `s.replace(pat, rep)` for a non-empty pattern: left to right, non-overlapping. */
  function Replace(s: string, pat: string, rep: string): string
    requires pat != []
    decreases |s|
  {
    if |s| < |pat| then s
    else if s[..|pat|] == pat then rep + Replace(s[|pat|..], pat, rep)
    else [s[0]] + Replace(s[1..], pat, rep)
  }

  /** A pattern holding a character that `s` lacks is never replaced. */
  lemma {:induction false} ReplaceAbsent(s: string, pat: string, rep: string, c: char)
    requires pat != [] && c in pat && c !in s
    ensures Replace(s, pat, rep) == s
    decreases |s|
  {
    if |s| >= |pat| {
      assert c !in s[..|pat|];
      assert c !in s[1..];
      ReplaceAbsent(s[1..], pat, rep, c);
    }
  }

  /** `s.endswith(suffix)`. */
  predicate EndsWith(s: string, suffix: string) {
    |suffix| <= |s| && s[|s| - |suffix|..] == suffix
  }

  /** `pat` occurs in `s` starting at position `i`. */
  predicate OccursAt(s: string, pat: string, i: nat) {
    i + |pat| <= |s| && s[i..i + |pat|] == pat
  }

  /** An occurrence inside a suffix is an occurrence in the whole text. */
  lemma OccursInSuffix(s: string, t: string, pat: string, i: nat)
    requires EndsWith(s, t) && OccursAt(t, pat, i)
    ensures OccursAt(s, pat, |s| - |t| + i)
  {
    var o := |s| - |t|;
    assert s[o + i..o + i + |pat|] == s[o..][i..i + |pat|];
  }

  /** `pat in s` for strings: `pat` occurs in `s` at some position. */
  predicate Contains(s: string, pat: string)
    decreases |s|
  {
    if |s| < |pat| then false
    else s[..|pat|] == pat || (s != [] && Contains(s[1..], pat))
  }

  /** `Contains` finds exactly the positions where `pat` occurs. */
  lemma {:induction false} ContainsAt(s: string, pat: string)
    ensures Contains(s, pat) <==> exists i: nat :: OccursAt(s, pat, i)
    decreases |s|
  {
    if |s| >= |pat| && s[..|pat|] == pat {
      assert OccursAt(s, pat, 0);
    }
    if |s| >= |pat| && s != [] {
      ContainsAt(s[1..], pat);
      if Contains(s[1..], pat) {
        var i: nat :| OccursAt(s[1..], pat, i);
        assert s[i + 1..i + 1 + |pat|] == s[1..][i..i + |pat|];
        assert OccursAt(s, pat, i + 1);
      }
      if exists i: nat :: OccursAt(s, pat, i) {
        var i: nat :| OccursAt(s, pat, i);
        if i > 0 {
          assert s[1..][i - 1..i - 1 + |pat|] == s[i..i + |pat|];
          assert OccursAt(s[1..], pat, i - 1);
        }
      }
    }
  }

  /** `os.path.join(a, b)` on POSIX: an absolute `b` replaces `a`; otherwise
      a `/` is inserted unless `a` is empty or already ends with one. */
  function PathJoin(a: string, b: string): (p: string)
    ensures EndsWith(p, b)
  {
    if |b| > 0 && b[0] == '/' then b
    else if a == [] || a[|a| - 1] == '/' then a + b
    else a + "/" + b
  }
}
