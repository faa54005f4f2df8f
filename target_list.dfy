/** The target-list loader of vortex.py (check_ip_list): the file of
    comma-separated IPs and domains is read, a missing or blank file ends the
    program with status 1, and otherwise every comma-separated piece becomes
    a target after trimming and removal of "http://" and "https://". */
module TargetList {
  import opened PyStrings

  /** Why the loader ends the program instead of returning a list. */
  datatype LoadError = NotFound | Blank

  /** What check_ip_list does: return the targets, or exit with a status. */
  datatype LoadOutcome = Loaded(targets: seq<string>) | Exit(status: int, reason: LoadError)

  /** The files the program can open, by path, each with the text that
      reading it yields. A path that is absent does not exist. */
  type Files = map<string, string>

  const HttpScheme: string := "http://"
  const HttpsScheme: string := "https://"

  /** One target from one comma-separated piece: strip(), then every
      "http://" removed, then every "https://" removed. The target is never
      longer than the stripped piece, and a blank piece gives an empty
      target. */
  function NormalizeTarget(piece: string): (t: string)
    ensures |t| <= |Strip(piece)|
    ensures AllSpace(piece) ==> t == []
  {
    Replace(Replace(Strip(piece), HttpScheme, ""), HttpsScheme, "")
  }

  /** The list comprehension over content.split(','). */
  function ParseTargets(content: string): (targets: seq<string>)
    ensures |targets| == Count(content, ',') + 1
  {
    NormalizeAll(Split(content, ','))
  }

  /** Every piece normalised, in order. */
  function NormalizeAll(pieces: seq<string>): (targets: seq<string>)
    ensures |targets| == |pieces|
    ensures forall i :: 0 <= i < |pieces| ==> targets[i] == NormalizeTarget(pieces[i])
  {
    if pieces == [] then [] else [NormalizeTarget(pieces[0])] + NormalizeAll(pieces[1..])
  }

  /** check_ip_list: a missing file and a file that is only whitespace both end
      the program with status 1; any other file yields one target per
      comma-separated piece of its stripped text, so never an empty list. */
  method CheckIpList(files: Files, filename: string) returns (outcome: LoadOutcome)
    ensures filename !in files <==> outcome == Exit(1, NotFound)
    ensures filename in files ==> (outcome == Exit(1, Blank) <==> AllSpace(files[filename]))
    ensures outcome.Exit? ==> outcome.status == 1
    ensures outcome.Loaded? ==>
      filename in files && !AllSpace(files[filename]) &&
      outcome.targets == ParseTargets(Strip(files[filename])) &&
      |outcome.targets| == Count(Strip(files[filename]), ',') + 1 >= 1
  {
    if filename !in files {
      return Exit(1, NotFound);
    }
    var content := Strip(files[filename]);
    if content == [] {
      return Exit(1, Blank);
    }
    outcome := Loaded(ParseTargets(content));
  }

  /** Order is kept and nothing is filtered: if the text is cut at its commas
      into pieces, target i is exactly the normalised piece i. */
  lemma ParseTargetsPiecewise(content: string, pieces: seq<string>)
    requires |pieces| >= 1 && Join(pieces, ',') == content
    requires forall i :: 0 <= i < |pieces| ==> ',' !in pieces[i]
    ensures |ParseTargets(content)| == |pieces|
    ensures forall i :: 0 <= i < |pieces| ==> ParseTargets(content)[i] == NormalizeTarget(pieces[i])
  {
    SplitUnique(pieces, ',');
  }

  /** Empty pieces and repeated pieces survive: a piece, two commas and the
      same piece again give three targets, the middle one empty and the outer
      two equal. */
  lemma EmptyAndDuplicateKept(x: string)
    requires ',' !in x
    ensures ParseTargets(x + [','] + [','] + x) == [NormalizeTarget(x), "", NormalizeTarget(x)]
  {
    JoinEmptyMiddle(x);
    NormalizeEmpty();
    ParseThree(x, "", x, NormalizeTarget(x), "", NormalizeTarget(x));
  }

  lemma JoinEmptyMiddle(x: string)
    ensures Join([x, "", x], ',') == x + [','] + [','] + x
  {
    JoinThree(x, "", x);
    assert x + [','] + "" == x + [','];
  }

  /** A trailing comma yields one more target, an empty one, after the
      targets of the text before it. */
  lemma TrailingCommaKept(c: string)
    ensures ParseTargets(c + [',']) == ParseTargets(c) + [""]
  {
    var parts := Split(c, ',');
    var pieces := parts + [""];
    JoinAppendEmpty(parts, ',');
    forall i | 0 <= i < |pieces|
      ensures ',' !in pieces[i]
    {
      if i < |parts| {
        assert pieces[i] == parts[i];
      }
    }
    SplitUnique(pieces, ',');
    NormalizeAllAppend(parts, "");
    NormalizeEmpty();
  }

  /** Normalising one more piece appends its target. */
  lemma {:induction false} NormalizeAllAppend(pieces: seq<string>, p: string)
    ensures NormalizeAll(pieces + [p]) == NormalizeAll(pieces) + [NormalizeTarget(p)]
    decreases |pieces|
  {
    if pieces != [] {
      assert (pieces + [p])[1..] == pieces[1..] + [p];
      NormalizeAllAppend(pieces[1..], p);
    } else {
      assert pieces + [p] == [p];
    }
  }

  lemma NormalizeEmpty()
    ensures NormalizeTarget("") == ""
  {
    assert AllSpace("");
  }

  /** A piece in which neither scheme occurs is only trimmed. */
  lemma NormalizeWithoutScheme(piece: string)
    requires !Contains(piece, HttpScheme) && !Contains(piece, HttpsScheme)
    ensures NormalizeTarget(piece) == Strip(piece)
  {
    var t := Strip(piece);
    var k := StripStart(piece);
    if Contains(t, HttpScheme) {
      ContainsSlice(piece, k, k + |t|, HttpScheme);
    }
    ReplaceAbsent(t, HttpScheme, "");
    if Contains(t, HttpsScheme) {
      ContainsSlice(piece, k, k + |t|, HttpsScheme);
    }
    ReplaceAbsent(t, HttpsScheme, "");
  }

  /** A host without ':' preceded by "http://" loses the scheme and nothing
      else. */
  lemma NormalizeHttpHost(s: string, h: string)
    requires Trimmed(h) && h != [] && ':' !in h
    requires s == HttpScheme + h
    ensures NormalizeTarget(s) == h
  {
    assert Trimmed(s) by {
      assert s[0] == 'h' && s[|s| - 1] == h[|h| - 1];
    }
    StripOfTrimmed(s);
    ReplaceAtFront(HttpScheme, "", h);
    AbsentChar(h, HttpScheme, ':');
    ReplaceAbsent(h, HttpScheme, "");
    assert "" + h == h;
    assert Replace(Strip(s), HttpScheme, "") == h;
    AbsentChar(h, HttpsScheme, ':');
    ReplaceAbsent(h, HttpsScheme, "");
  }

  /** A host without ':' preceded by "https://" loses the scheme and nothing
      else. */
  lemma NormalizeHttpsHost(s: string, h: string)
    requires Trimmed(h) && h != [] && ':' !in h
    requires s == HttpsScheme + h
    ensures NormalizeTarget(s) == h
  {
    assert Trimmed(s) by {
      assert s[0] == 'h' && s[|s| - 1] == h[|h| - 1];
    }
    StripOfTrimmed(s);
    HttpsHasNoHttp(h);
    assert Replace(Strip(s), HttpScheme, "") == s;
    ReplaceAtFront(HttpsScheme, "", h);
    AbsentChar(h, HttpsScheme, ':');
    ReplaceAbsent(h, HttpsScheme, "");
    assert "" + h == h;
  }

  /** A piece without ':' is only stripped of its surrounding whitespace. */
  lemma NormalizePadded(s: string, a: string, m: string)
    requires AllSpace(a) && Trimmed(m) && ':' !in m
    requires s == a + m
    ensures NormalizeTarget(s) == m
  {
    StripUnique(a, m, "");
    assert a + m + "" == s;
    AbsentChar(m, HttpScheme, ':');
    AbsentChar(m, HttpsScheme, ':');
    ReplaceAbsent(m, HttpScheme, "");
    ReplaceAbsent(m, HttpsScheme, "");
  }

  lemma StripOfTrimmed(m: string)
    requires Trimmed(m)
    ensures Strip(m) == m
  {
    StripUnique("", m, "");
    assert "" + m + "" == m;
  }

  /** A bare host name as the loader expects one: non-empty, no surrounding
      whitespace, no ':' and no ','. */
  predicate Host(h: string) {
    h != [] && Trimmed(h) && ':' !in h && ',' !in h
  }

  /** A list of an "http://" host, a blank-prefixed host and an "https://"
      host yields the three bare hosts, in the order written. */
  lemma SchemesAndBlanksRemoved(a: string, b: string, c: string)
    requires Host(a) && Host(b) && Host(c)
    ensures ParseTargets(Join([HttpScheme + a, " " + b, HttpsScheme + c], ',')) == [a, b, c]
  {
    assert ',' !in HttpScheme + a;
    assert ',' !in " " + b;
    assert ',' !in HttpsScheme + c;
    assert AllSpace(" ");
    NormalizeHttpHost(HttpScheme + a, a);
    NormalizePadded(" " + b, " ", b);
    NormalizeHttpsHost(HttpsScheme + c, c);
    ParseThree(HttpScheme + a, " " + b, HttpsScheme + c, a, b, c);
  }

  lemma ParseThree(p0: string, p1: string, p2: string, r0: string, r1: string, r2: string)
    requires ',' !in p0 && ',' !in p1 && ',' !in p2
    requires NormalizeTarget(p0) == r0 && NormalizeTarget(p1) == r1 && NormalizeTarget(p2) == r2
    ensures ParseTargets(Join([p0, p1, p2], ',')) == [r0, r1, r2]
  {
    var pieces := [p0, p1, p2];
    var content := Join(pieces, ',');
    forall i | 0 <= i < |pieces|
      ensures ',' !in pieces[i]
    {
      if i == 0 {
        assert pieces[i] == p0;
      } else if i == 1 {
        assert pieces[i] == p1;
      } else {
        assert pieces[i] == p2;
      }
    }
    ParseTargetsPiecewise(content, pieces);
    ThreeOf(ParseTargets(content), r0, r1, r2);
  }

  lemma ThreeOf(s: seq<string>, r0: string, r1: string, r2: string)
    requires |s| == 3 && s[0] == r0 && s[1] == r1 && s[2] == r2
    ensures s == [r0, r1, r2]
  {
  }

  /** The list "http://a.com, b.com,https://c.com" yields a.com, b.com and
      c.com, in that order. */
  lemma ThreeTargetsExample()
    ensures ParseTargets("http://a.com, b.com,https://c.com") == ["a.com", "b.com", "c.com"]
  {
    SchemesAndBlanksRemoved("a.com", "b.com", "c.com");
    ThreeTargetsJoin();
  }

  lemma ThreeTargetsJoin()
    ensures Join([HttpScheme + "a.com", " " + "b.com", HttpsScheme + "c.com"], ',')
         == "http://a.com, b.com,https://c.com"
  {
    JoinThree(HttpScheme + "a.com", " " + "b.com", HttpsScheme + "c.com");
  }

  lemma JoinThree(a: string, b: string, c: string)
    ensures Join([a, b, c], ',') == a + [','] + b + [','] + c
  {
    var pieces := [a, b, c];
    assert pieces[1..] == [b, c];
    assert pieces[1..][1..] == [c];
    assert Join(pieces[1..], ',') == b + [','] + c;
    assert a + [','] + (b + [','] + c) == a + [','] + b + [','] + c;
  }

  /** "http://" never occurs in a text that starts with "https://" and whose
      rest has no ':' (the only ':' sits where "http://" cannot put one). */
  lemma HttpsHasNoHttp(rest: string)
    requires ':' !in rest
    ensures Replace(HttpsScheme + rest, HttpScheme, "") == HttpsScheme + rest
  {
    var s := HttpsScheme + rest;
    forall i | 0 <= i <= |s|
      ensures !MatchAt(s, HttpScheme, i)
    {
      NoHttpAt(rest, i);
    }
    ReplaceAbsent(s, HttpScheme, "");
  }

  lemma NoHttpAt(rest: string, i: int)
    requires ':' !in rest
    ensures !MatchAt(HttpsScheme + rest, HttpScheme, i)
  {
    var s := HttpsScheme + rest;
    if 0 <= i && i + 7 <= |s| {
      assert s[i..i + 7][4] == s[i + 4];
      assert s[i..i + 7][0] == s[i];
      if i + 4 >= 8 {
        assert s[i + 4] == rest[i + 4 - 8];
      }
    }
  }

  /** The removal works anywhere in a piece and in a single pass: removing
      the "http://" in the middle of "hthttp://tp://x" joins its two halves
      into a fresh "http://", which stays in the target. */
  lemma RemovalCanLeaveScheme()
    ensures NormalizeTarget("hthttp://tp://x") == "http://x"
    ensures Contains(NormalizeTarget("hthttp://tp://x"), HttpScheme)
  {
    StripOfTrimmed("hthttp://tp://x");
    FirstPassJoinsHalves("hthttp://tp://x");
    SecondPassKeeps("http://x");
    assert MatchAt("http://x", HttpScheme, 0);
  }

  lemma SecondPassKeeps(r: string)
    requires 's' !in r
    ensures Replace(r, HttpsScheme, "") == r
  {
    AbsentChar(r, HttpsScheme, 's');
    ReplaceAbsent(r, HttpsScheme, "");
  }

  lemma FirstPassJoinsHalves(s: string)
    requires s == "hthttp://tp://x"
    ensures Replace(s, HttpScheme, "") == "http://x"
  {
    SchemeInside(s);
    JoinHalves("ht", "tp://x");
    NoHttpIn("tp://x");
    SchemeGlued("ht", "tp://x");
  }

  lemma SchemeInside(s: string)
    requires s == "hthttp://tp://x"
    ensures s == "ht" + (HttpScheme + "tp://x")
  {
  }

  lemma SchemeGlued(u: string, v: string)
    requires u == "ht" && v == "tp://x"
    ensures u + v == "http://x"
  {
  }

  lemma NoHttpIn(r: string)
    requires 'h' !in r
    ensures Replace(r, HttpScheme, "") == r
  {
    AbsentChar(r, HttpScheme, 'h');
    ReplaceAbsent(r, HttpScheme, "");
  }

  /** Removing an "http://" glues the text before it to the text after it,
      which is then scanned in turn. No occurrence can start earlier when the
      text before it has no ':'. */
  lemma JoinHalves(u: string, v: string)
    requires ':' !in u
    ensures Replace(u + (HttpScheme + v), HttpScheme, "") == u + Replace(v, HttpScheme, "")
  {
    var w := HttpScheme + v;
    var s := u + w;
    forall i | 0 <= i < |u|
      ensures !MatchAt(s, HttpScheme, i)
    {
      if i + 7 <= |s| {
        if i + 4 < |u| {
          assert s[i + 4] == u[i + 4];
        } else {
          assert s[i + 4] == w[i + 4 - |u|] == HttpScheme[i + 4 - |u|];
        }
        assert s[i..i + 7][4] == s[i + 4] != ':';
      }
    }
    ReplaceFirstAfter(u, v, HttpScheme, "");
    assert u + "" == u;
  }

  /** Whitespace after a scheme survives: strip() runs before the removal. */
  lemma RemovalCanLeaveLeadingSpace()
    ensures NormalizeTarget("http:// x") == " x"
  {
    SpaceAfterScheme(" x");
    assert HttpScheme + " x" == "http:// x";
  }

  /** After a leading "http://" is removed, the rest of an already trimmed
      piece goes through both removals without being stripped again, so its
      own leading whitespace survives; a rest without ':' is kept whole. */
  lemma SpaceAfterScheme(r: string)
    requires Trimmed(HttpScheme + r)
    ensures NormalizeTarget(HttpScheme + r) == Replace(Replace(r, HttpScheme, ""), HttpsScheme, "")
    ensures ':' !in r ==> NormalizeTarget(HttpScheme + r) == r
  {
    var s := HttpScheme + r;
    StripOfTrimmed(s);
    ReplaceAtFront(HttpScheme, "", r);
    assert "" + Replace(r, HttpScheme, "") == Replace(r, HttpScheme, "");
    if ':' !in r {
      AbsentChar(r, HttpScheme, ':');
      ReplaceAbsent(r, HttpScheme, "");
      AbsentChar(r, HttpsScheme, ':');
      ReplaceAbsent(r, HttpsScheme, "");
    }
  }

  /** The comment line of the default iplist.txt that vortex.py writes,
      written as the text before its one comma, the comma, and the text
      after it. */
  const CommentHead: string := "# Add your IP addresses or domains here"
  const TailText: string := "separated by commas."
  const CommentTail: string := " " + TailText
  const DefaultComment: string := CommentHead + "," + CommentTail

  /** The whole body of that default file: the comment line between a
      newline and a newline with eight blanks. */
  const DefaultIpList: string := "\n" + DefaultComment + "\n        "

  /** Comment lines are not filtered: the default file is not blank, and
      its comment text, cut at its comma, becomes two targets. */
  lemma DefaultIpListYieldsComment()
    ensures !AllSpace(DefaultIpList)
    ensures ParseTargets(Strip(DefaultIpList))
      == ["# Add your IP addresses or domains here", "separated by commas."]
  {
    DefaultIpListStrips();
    DefaultCommentJoin();
    CommentFacts();
    NormalizePadded(CommentHead, "", CommentHead);
    NormalizePadded(CommentTail, " ", TailText);
    ParseTwo(CommentHead, CommentTail, CommentHead, TailText);
  }

  lemma ParseTwo(p0: string, p1: string, r0: string, r1: string)
    requires ',' !in p0 && ',' !in p1
    requires NormalizeTarget(p0) == r0 && NormalizeTarget(p1) == r1
    ensures ParseTargets(Join([p0, p1], ',')) == [r0, r1]
  {
    var pieces := [p0, p1];
    var content := Join(pieces, ',');
    forall i | 0 <= i < |pieces|
      ensures ',' !in pieces[i]
    {
      if i == 0 {
        assert pieces[i] == p0;
      } else {
        assert pieces[i] == p1;
      }
    }
    ParseTargetsPiecewise(content, pieces);
    TwoOf(ParseTargets(content), r0, r1);
  }

  lemma TwoOf(s: seq<string>, r0: string, r1: string)
    requires |s| == 2 && s[0] == r0 && s[1] == r1
    ensures s == [r0, r1]
  {
  }

  lemma DefaultIpListStrips()
    ensures Strip(DefaultIpList) == DefaultComment
    ensures !AllSpace(DefaultIpList)
  {
    DefaultCommentTrimmed();
    DefaultPadding();
    StripUnique("\n", DefaultComment, "\n        ");
  }

  lemma DefaultCommentTrimmed()
    ensures Trimmed(DefaultComment)
  {
    assert DefaultComment[0] == CommentHead[0] == '#';
    assert DefaultComment[|DefaultComment| - 1] == CommentTail[20] == '.';
  }

  lemma CommentFacts()
    ensures Trimmed(CommentHead) && ':' !in CommentHead && ',' !in CommentHead
    ensures CommentHead == "" + CommentHead
    ensures Trimmed(TailText) && ':' !in TailText && ',' !in CommentTail
    ensures AllSpace("") && AllSpace(" ")
  {
    HeadTrimmed();
    HeadNoColon();
    HeadNoComma();
    TailFacts();
  }

  lemma HeadTrimmed()
    ensures Trimmed(CommentHead)
  {
  }

  lemma HeadNoColon()
    ensures ':' !in CommentHead
  {
  }

  lemma HeadNoComma()
    ensures ',' !in CommentHead
  {
  }

  lemma TailFacts()
    ensures Trimmed(TailText) && ':' !in TailText && ',' !in CommentTail
  {
  }

  lemma DefaultPadding()
    ensures AllSpace("\n") && AllSpace("\n        ")
  {
  }

  lemma DefaultCommentJoin()
    ensures Join([CommentHead, CommentTail], ',') == DefaultComment
  {
    assert [CommentHead, CommentTail][1..] == [CommentTail];
  }
}
