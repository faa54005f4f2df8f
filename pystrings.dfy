/** Python's str methods used by the target-list loader, with their exact
    semantics: strip() with no argument, split(sep) with no limit and
    replace() with no count. Find, modelled on find(), is not called by the
    loader: it is the reference search that pins down Replace. A Python str is a sequence of code points,
    modelled as a Dafny string. */
module PyStrings {

  /** str.isspace() for one code point: the characters Python's strip()
      removes when it is given no argument. */
  predicate IsSpace(c: char)
    ensures IsSpace(c) ==> !('!' <= c <= '~')
    ensures c == ' ' || '\t' <= c <= '\r' ==> IsSpace(c)
  {
    ('\t' <= c <= '\r') || ('\U{1c}' <= c <= '\U{1f}') || c == ' ' ||
    c == '\U{85}' || c == '\U{a0}' || c == '\U{1680}' ||
    ('\U{2000}' <= c <= '\U{200a}') || c == '\U{2028}' || c == '\U{2029}' ||
    c == '\U{202f}' || c == '\U{205f}' || c == '\U{3000}'
  }

  predicate AllSpace(s: string) {
    forall i :: 0 <= i < |s| ==> IsSpace(s[i])
  }

  /** Neither end of s is whitespace (vacuously so for the empty string). */
  predicate Trimmed(s: string) {
    s == [] || (!IsSpace(s[0]) && !IsSpace(s[|s| - 1]))
  }

  /** Index at which strip() starts keeping characters: the length of the
      leading whitespace run. */
  function StripStart(s: string): (k: nat)
    ensures k <= |s|
    ensures forall i :: 0 <= i < k ==> IsSpace(s[i])
    ensures k < |s| ==> !IsSpace(s[k])
  {
    if |s| > 0 && IsSpace(s[0]) then 1 + StripStart(s[1..]) else 0
  }

  /** Index at which the trailing whitespace run begins. */
  function StripEnd(s: string): (e: nat)
    ensures e <= |s|
    ensures forall i :: e <= i < |s| ==> IsSpace(s[i])
    ensures e > 0 ==> !IsSpace(s[e - 1])
  {
    if |s| > 0 && IsSpace(s[|s| - 1]) then StripEnd(s[..|s| - 1]) else |s|
  }

  /** str.strip(): whitespace removed at both ends and nowhere else. */
  function Strip(s: string): (r: string)
    ensures StripStart(s) + |r| <= |s|
    ensures r == s[StripStart(s)..StripStart(s) + |r|]
    ensures AllSpace(s[..StripStart(s)]) && AllSpace(s[StripStart(s) + |r|..])
    ensures Trimmed(r)
    ensures r == [] <==> AllSpace(s)
  {
    var k := StripStart(s);
    var e := StripEnd(s);
    if k < e then s[k..e] else []
  }

  /** strip() is determined by what it keeps: whenever s is whitespace, then a
      part with no whitespace at either end, then whitespace, strip() returns
      exactly that middle part. */
  lemma StripUnique(a: string, m: string, b: string)
    requires AllSpace(a) && AllSpace(b) && Trimmed(m)
    ensures Strip(a + m + b) == m
  {
    var s := a + m + b;
    if m == [] {
      assert AllSpace(s);
    } else {
      assert s[|a|] == m[0];
      assert s[|a| + |m| - 1] == m[|m| - 1];
      assert StripStart(s) == |a|;
      assert StripEnd(s) == |a| + |m|;
      assert s[|a|..|a| + |m|] == m;
    }
  }

  /** Number of occurrences of c in s. */
  function Count(s: string, c: char): (n: nat)
    ensures n <= |s|
    ensures n == 0 <==> c !in s
  {
    if s == [] then 0 else (if s[0] == c then 1 else 0) + Count(s[1..], c)
  }

  /** sep.join(parts) for a one-character separator. */
  function Join(parts: seq<string>, sep: char): string
    requires |parts| >= 1
  {
    if |parts| == 1 then parts[0] else parts[0] + [sep] + Join(parts[1..], sep)
  }

  /** Joining one more, empty, part adds a trailing separator. */
  lemma {:induction false} JoinAppendEmpty(parts: seq<string>, sep: char)
    requires |parts| >= 1
    ensures Join(parts + [""], sep) == Join(parts, sep) + [sep]
    decreases |parts|
  {
    var ext := parts + [""];
    if |parts| == 1 {
      assert ext[1..] == [""];
    } else {
      assert ext[1..] == parts[1..] + [""];
      JoinAppendEmpty(parts[1..], sep);
    }
  }

  /** str.split(sep) with a one-character separator and no limit: every
      occurrence of sep ends a piece, so there is one piece more than there
      are separators, no piece holds sep, and joining the pieces gives s back. */
  function Split(s: string, sep: char): (r: seq<string>)
    ensures |r| == Count(s, sep) + 1
    ensures forall i :: 0 <= i < |r| ==> sep !in r[i]
    ensures Join(r, sep) == s
  {
    if s == [] then [[]]
    else if s[0] == sep then [[]] + Split(s[1..], sep)
    else
      var rest := Split(s[1..], sep);
      JoinExtendFirst(s[0], rest, sep);
      assert Join(rest, sep) == s[1..];
      [[s[0]] + rest[0]] + rest[1..]
  }

  lemma {:induction false} JoinExtendFirst(c: char, parts: seq<string>, sep: char)
    requires |parts| >= 1
    ensures Join([[c] + parts[0]] + parts[1..], sep) == [c] + Join(parts, sep)
  {
    var ps := [[c] + parts[0]] + parts[1..];
    assert ps[1..] == parts[1..];
  }

  /** split() is the only way to cut s into sep-free pieces that join back
      to s: the pieces, their number and their order are all forced. */
  lemma {:induction false} SplitUnique(parts: seq<string>, sep: char)
    requires |parts| >= 1
    requires forall i :: 0 <= i < |parts| ==> sep !in parts[i]
    ensures Split(Join(parts, sep), sep) == parts
    decreases |Join(parts, sep)|
  {
    var s := Join(parts, sep);
    if parts[0] == [] {
      if |parts| > 1 {
        assert s == [sep] + Join(parts[1..], sep);
        assert s[1..] == Join(parts[1..], sep);
        SplitUnique(parts[1..], sep);
        assert parts == [[]] + parts[1..];
      }
    } else {
      var c := parts[0][0];
      var shorter := [parts[0][1..]] + parts[1..];
      assert parts[0] == [c] + shorter[0];
      assert shorter[1..] == parts[1..];
      JoinExtendFirst(c, shorter, sep);
      assert parts == [[c] + shorter[0]] + shorter[1..];
      assert s == [c] + Join(shorter, sep);
      assert s[1..] == Join(shorter, sep);
      assert c != sep;
      SplitUnique(shorter, sep);
    }
  }

  /** pat occurs in s starting at index i. */
  predicate MatchAt(s: string, pat: string, i: int) {
    0 <= i && i + |pat| <= |s| && s[i..i + |pat|] == pat
  }

  /** `pat in s` */
  predicate Contains(s: string, pat: string) {
    exists i :: 0 <= i <= |s| && MatchAt(s, pat, i)
  }

  lemma ShiftMatches(s: string, pat: string)
    requires s != []
    ensures forall i :: 1 <= i ==> (MatchAt(s, pat, i) <==> MatchAt(s[1..], pat, i - 1))
  {
    forall i | 1 <= i
      ensures MatchAt(s, pat, i) <==> MatchAt(s[1..], pat, i - 1)
    {
      if i + |pat| <= |s| {
        assert s[1..][i - 1..i - 1 + |pat|] == s[i..i + |pat|];
      }
    }
  }

  /** str.find(pat): the leftmost index at which pat occurs, or -1. */
  function Find(s: string, pat: string): (r: int)
    requires pat != []
    ensures -1 <= r
    ensures 0 <= r ==> r + |pat| <= |s|
    decreases |s|
  {
    if |s| < |pat| then -1
    else if s[..|pat|] == pat then 0
    else if Find(s[1..], pat) == -1 then -1
    else Find(s[1..], pat) + 1
  }

  /** find() returns an index at which pat occurs, unless it returns -1. */
  lemma {:induction false} FindMatches(s: string, pat: string)
    requires pat != []
    ensures 0 <= Find(s, pat) ==> MatchAt(s, pat, Find(s, pat))
    decreases |s|
  {
    if |s| >= |pat| && s[..|pat|] != pat && Find(s[1..], pat) != -1 {
      var j := Find(s[1..], pat);
      FindMatches(s[1..], pat);
      assert s[1..][j..j + |pat|] == s[j + 1..j + 1 + |pat|];
    }
  }

  /** find() reports -1 exactly when pat does not occur at all. */
  lemma {:induction false} FindAbsent(s: string, pat: string)
    requires pat != []
    ensures Find(s, pat) == -1 <==> !Contains(s, pat)
    decreases |s|
  {
    FindMatches(s, pat);
    if |s| >= |pat| && s[..|pat|] != pat {
      FindAbsent(s[1..], pat);
      ShiftMatches(s, pat);
      assert !MatchAt(s, pat, 0);
    }
  }

  /** No occurrence of pat starts before the index find() returns. */
  lemma {:induction false} FindLeftmost(s: string, pat: string, j: int)
    requires pat != [] && 0 <= j < Find(s, pat)
    ensures !MatchAt(s, pat, j)
    decreases |s|
  {
    if j > 0 {
      ShiftMatches(s, pat);
      FindLeftmost(s[1..], pat, j - 1);
    }
  }

  /** str.replace(pat, rep) with no count: one left-to-right scan that
      replaces each non-overlapping occurrence and never rescans its own
      output. */
  function Replace(s: string, pat: string, rep: string): (r: string)
    requires pat != []
    ensures rep == [] ==> |r| <= |s|
    decreases |s|
  {
    if |s| < |pat| then s
    else if s[..|pat|] == pat then rep + Replace(s[|pat|..], pat, rep)
    else [s[0]] + Replace(s[1..], pat, rep)
  }

  /** With no occurrence found, replace() returns the text unchanged. */
  lemma {:induction false} ReplaceNotFound(s: string, pat: string, rep: string)
    requires pat != [] && Find(s, pat) == -1
    ensures Replace(s, pat, rep) == s
    decreases |s|
  {
    if |s| >= |pat| {
      assert s[..|pat|] != pat;
      ReplaceNotFound(s[1..], pat, rep);
      assert [s[0]] + s[1..] == s;
    }
  }

  /** replace() agrees with find(): the text before the leftmost occurrence
      is kept, rep takes that occurrence's place, and the rest of the text
      after it is processed the same way. */
  lemma {:induction false} ReplaceFound(s: string, pat: string, rep: string, i: nat)
    requires pat != [] && Find(s, pat) == i
    ensures i + |pat| <= |s|
    ensures Replace(s, pat, rep) == s[..i] + rep + Replace(s[i + |pat|..], pat, rep)
    decreases |s|
  {
    if s[..|pat|] == pat {
      ReplaceHere(s, pat, rep);
    } else {
      ReplaceFound(s[1..], pat, rep, i - 1);
      ReplaceSkip(s, pat, rep, i);
    }
  }

  lemma ReplaceHere(s: string, pat: string, rep: string)
    requires pat != [] && |pat| <= |s| && s[..|pat|] == pat
    ensures Replace(s, pat, rep) == s[..0] + rep + Replace(s[0 + |pat|..], pat, rep)
  {
    assert s[..0] + rep == rep;
  }

  /** Inductive step of ReplaceFound: s does not start with pat and its
      leftmost occurrence is at i, so its tail's is at i - 1. */
  lemma ReplaceSkip(s: string, pat: string, rep: string, i: nat)
    requires pat != [] && |s| >= |pat| && s[..|pat|] != pat
    requires 1 <= i && i + |pat| <= |s|
    requires Replace(s[1..], pat, rep) == s[1..][..i - 1] + rep + Replace(s[1..][i - 1 + |pat|..], pat, rep)
    ensures Replace(s, pat, rep) == s[..i] + rep + Replace(s[i + |pat|..], pat, rep)
  {
    assert s[1..][i - 1 + |pat|..] == s[i + |pat|..];
    ConsSlice(s, i, rep, Replace(s[i + |pat|..], pat, rep));
  }

  lemma ConsSlice(s: string, i: nat, rep: string, x: string)
    requires 1 <= i <= |s|
    ensures [s[0]] + (s[1..][..i - 1] + rep + x) == s[..i] + rep + x
  {
    assert [s[0]] + s[1..][..i - 1] == s[..i];
  }

  /** A text in which pat does not occur comes back unchanged. */
  lemma ReplaceAbsent(s: string, pat: string, rep: string)
    requires pat != [] && !Contains(s, pat)
    ensures Replace(s, pat, rep) == s
  {
    FindAbsent(s, pat);
    ReplaceNotFound(s, pat, rep);
  }

  /** An occurrence in a slice is an occurrence in the whole text. */
  lemma ContainsSlice(s: string, lo: int, hi: int, pat: string)
    requires 0 <= lo <= hi <= |s| && Contains(s[lo..hi], pat)
    ensures Contains(s, pat)
  {
    var k :| 0 <= k <= hi - lo && MatchAt(s[lo..hi], pat, k);
    assert k + |pat| <= hi - lo;
    forall j | 0 <= j < |pat|
      ensures s[lo + k..lo + k + |pat|][j] == pat[j]
    {
      assert s[lo..hi][k..k + |pat|][j] == pat[j];
    }
    assert MatchAt(s, pat, lo + k);
  }

  /** An occurrence at the very front is replaced and the scan resumes
      right after it. */
  lemma ReplaceAtFront(pat: string, rep: string, v: string)
    requires pat != []
    ensures Replace(pat + v, pat, rep) == rep + Replace(v, pat, rep)
  {
    assert (pat + v)[..|pat|] == pat;
    assert (pat + v)[|pat|..] == v;
  }

  /** Characters at which no occurrence starts are copied through unchanged. */
  lemma {:induction false} ReplaceSkipPrefix(u: string, v: string, pat: string, rep: string)
    requires pat != []
    requires forall i :: 0 <= i < |u| ==> !MatchAt(u + v, pat, i)
    ensures Replace(u + v, pat, rep) == u + Replace(v, pat, rep)
    decreases |u|
  {
    if u != [] {
      var s := u + v;
      assert !MatchAt(s, pat, 0);
      assert s[1..] == u[1..] + v;
      forall i | 0 <= i < |u| - 1
        ensures !MatchAt(u[1..] + v, pat, i)
      {
        ShiftMatches(s, pat);
        assert !MatchAt(s, pat, i + 1);
      }
      ReplaceSkipPrefix(u[1..], v, pat, rep);
      assert [u[0]] + u[1..] == u;
      if |s| >= |pat| {
        assert Replace(s, pat, rep) == [u[0]] + (u[1..] + Replace(v, pat, rep));
      } else {
        assert Replace(v, pat, rep) == v;
      }
    } else {
      assert u + v == v;
    }
  }

  /** When no occurrence starts inside u, the first one is the pat that
      follows u: the text before it is kept, rep takes its place, and the scan
      resumes on what comes after it. */
  lemma ReplaceFirstAfter(u: string, v: string, pat: string, rep: string)
    requires pat != []
    requires forall i :: 0 <= i < |u| ==> !MatchAt(u + (pat + v), pat, i)
    ensures Replace(u + (pat + v), pat, rep) == u + rep + Replace(v, pat, rep)
  {
    ReplaceSkipPrefix(u, pat + v, pat, rep);
    ReplaceAtFront(pat, rep, v);
  }

  /** pat cannot occur in a text that lacks one of pat's characters. */
  lemma AbsentChar(s: string, pat: string, c: char)
    requires c in pat && c !in s
    ensures !Contains(s, pat)
  {
  }
}
