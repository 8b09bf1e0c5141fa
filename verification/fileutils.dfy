/** Card path helpers (GateKeeperSDK/GKFileUtils.cs). A card path is a run of
    segments separated by '/'; empty segments carry no meaning. Arguments are never
    null here: parsePath and joinPath throw a NullReferenceException on a null
    argument, and that exception is not modelled. */
module FileUtils {
  import opened StringUtils

  const Slash: char := '/'

  /** The text joinPath hands to String.Replace: the five characters / \ / + /. */
  const SlashRunPattern: string := "/\\/+/"

  /** nonblankPathSegments: the non-empty strings, in their order. */
  function NonblankPathSegments(paths: seq<string>): (r: seq<string>)
    ensures |r| <= |paths|
    ensures forall i :: 0 <= i < |r| ==> r[i] != ""
    ensures forall x :: x in r <==> x in paths && x != ""
  {
    if |paths| == 0 then []
    else
      assert paths == [paths[0]] + paths[1..];
      if paths[0] == "" then NonblankPathSegments(paths[1..])
      else [paths[0]] + NonblankPathSegments(paths[1..])
  }

  /** Filtering a concatenation filters each part. */
  lemma {:induction false} NonblankAppend(xs: seq<string>, ys: seq<string>)
    ensures NonblankPathSegments(xs + ys) == NonblankPathSegments(xs) + NonblankPathSegments(ys)
  {
    if |xs| > 0 {
      assert (xs + ys)[1..] == xs[1..] + ys;
      NonblankAppend(xs[1..], ys);
    } else {
      assert xs + ys == ys;
    }
  }

  /** A list without blanks is left as it is. */
  lemma {:induction false} NonblankKeeps(xs: seq<string>)
    requires forall i :: 0 <= i < |xs| ==> xs[i] != ""
    ensures NonblankPathSegments(xs) == xs
  {
    if |xs| > 0 {
      NonblankKeeps(xs[1..]);
    }
  }

  /** parsePath: the '/'-separated pieces of the path, in order, blanks dropped. */
  function ParsePath(path: string): (r: seq<string>)
    ensures forall i :: 0 <= i < |r| ==> r[i] != "" && NoneOf(r[i], {Slash})
  {
    var pieces := Split(path, {Slash});
    SplitPiecesClean(path, {Slash});
    var r := NonblankPathSegments(pieces);
    assert forall i :: 0 <= i < |r| ==> r[i] in pieces;
    r
  }

  /** The segments of a path without the character `c` do not hold it either. */
  lemma ParsePathNoneOf(path: string, c: char)
    requires NoneOf(path, {c})
    ensures forall i :: 0 <= i < |ParsePath(path)| ==> NoneOf(ParsePath(path)[i], {c})
  {
    var pieces := Split(path, {Slash});
    SplitKeepsNoneOf(path, {Slash}, {c});
    var r := ParsePath(path);
    assert forall i :: 0 <= i < |r| ==> r[i] in pieces;
  }

  /** The empty path has no segments. */
  lemma ParseEmpty()
    ensures ParsePath("") == []
  {
    assert Split("", {Slash}) == [""];
  }

  /** A segment parses to itself. */
  lemma ParseSegment(s: string)
    requires s != "" && NoneOf(s, {Slash})
    ensures ParsePath(s) == [s]
  {
    assert Split(s, {Slash}) == [s];
    assert NonblankPathSegments([s]) == [s] + NonblankPathSegments([]);
  }

  /** Parsing two paths glued by a slash parses each of them. */
  lemma ParseGlued(x: string, y: string)
    ensures ParsePath(x + [Slash] + y) == ParsePath(x) + ParsePath(y)
  {
    SplitAppend(x, Slash, y, {Slash});
    NonblankAppend(Split(x, {Slash}), Split(y, {Slash}));
  }

  /** A leading slash does not change the segments. */
  lemma ParseLeadingSlash(y: string)
    ensures ParsePath([Slash] + y) == ParsePath(y)
  {
    ParseGlued("", y);
    ParseEmpty();
    assert "" + [Slash] + y == [Slash] + y;
  }

  /** The segments of every path in the list, one path after another. */
  function ParseAll(paths: seq<string>): seq<string>
  {
    if |paths| == 0 then [] else ParsePath(paths[0]) + ParseAll(paths[1..])
  }

  /** The segments of two paths. */
  lemma ParseAllPair(a: string, b: string)
    ensures ParseAll([a, b]) == ParsePath(a) + ParsePath(b)
  {
    assert [a, b][1..] == [b];
    assert [b][1..] == [];
    assert ParseAll([b]) == ParsePath(b) + ParseAll([]);
    assert ParsePath(b) + [] == ParsePath(b);
  }

  /** Joining with '/' and parsing again gives the segments of each part in turn. */
  lemma {:induction false} JoinParse(xs: seq<string>)
    ensures ParsePath(Join(xs, [Slash])) == ParseAll(xs)
  {
    if |xs| == 0 {
      ParseEmpty();
    } else if |xs| == 1 {
      assert ParseAll(xs) == ParsePath(xs[0]) + ParseAll([]);
    } else {
      JoinParse(xs[1..]);
      ParseGlued(xs[0], Join(xs[1..], [Slash]));
    }
  }

  /** Blank parts contribute no segments. */
  lemma {:induction false} ParseAllNonblank(xs: seq<string>)
    ensures ParseAll(NonblankPathSegments(xs)) == ParseAll(xs)
  {
    if |xs| > 0 {
      ParseAllNonblank(xs[1..]);
      if xs[0] == "" {
        ParseEmpty();
      } else {
        assert ([xs[0]] + NonblankPathSegments(xs[1..]))[1..] == NonblankPathSegments(xs[1..]);
      }
    }
  }

  /** Parts that are single segments parse to themselves. */
  lemma {:induction false} ParseAllSegments(xs: seq<string>)
    requires forall i :: 0 <= i < |xs| ==> xs[i] != "" && NoneOf(xs[i], {Slash})
    ensures ParseAll(xs) == xs
  {
    if |xs| > 0 {
      ParseAllSegments(xs[1..]);
      ParseSegment(xs[0]);
      assert xs == [xs[0]] + xs[1..];
    }
  }

  /** No two neighbouring characters are both slashes. */
  predicate NoDoubleSlash(s: string)
  {
    forall i :: 0 <= i < |s| - 1 ==> !(s[i] == Slash && s[i + 1] == Slash)
  }

  /** The slashes at the front of `s` removed. */
  function DropSlashes(s: string): (r: string)
    ensures |r| <= |s|
    ensures |r| > 0 ==> r[0] != Slash
    ensures NoneOf(s, {Slash}) ==> r == s
  {
    if |s| > 0 && s[0] == Slash then DropSlashes(s[1..]) else s
  }

  /** Dropping leading slashes keeps the segments. */
  lemma {:induction false} DropSlashesParse(s: string)
    ensures ParsePath(DropSlashes(s)) == ParsePath(s)
  {
    if |s| > 0 && s[0] == Slash {
      DropSlashesParse(s[1..]);
      ParseLeadingSlash(s[1..]);
      assert s == [Slash] + s[1..];
    }
  }

  /** Gluing a slash-free piece, one slash and a text that does not start with a
      slash creates no double slash. */
  lemma GlueNoDoubleSlash(a: string, c: string)
    requires NoneOf(a, {Slash}) && NoDoubleSlash(c) && (|c| > 0 ==> c[0] != Slash)
    ensures NoDoubleSlash(a + [Slash] + c)
  {
    var s := a + [Slash] + c;
    forall i | 0 <= i < |s| - 1 ensures !(s[i] == Slash && s[i + 1] == Slash) {
      if i < |a| {
        assert s[i] == a[i];
      } else if i == |a| {
        assert s[i + 1] == c[0];
      } else {
        assert s[i] == c[i - |a| - 1] && s[i + 1] == c[i - |a|];
      }
    }
  }

  /** Every run of slashes replaced by one slash: what the pattern /\/+/ of joinPath
      evidently means as a regular expression. */
  function CollapseSlashes(s: string): (r: string)
    ensures NoDoubleSlash(r)
    ensures |s| > 0 ==> |r| > 0 && r[0] == s[0]
    ensures |r| <= |s|
    decreases |s|
  {
    var k := IndexOfAny(s, {Slash});
    IndexOfAnyFirst(s, {Slash});
    if k == |s| then
      assert NoDoubleSlash(s) by {
        assert s[..k] == s;
      }
      s
    else
      var a := s[..k];
      var c := CollapseSlashes(DropSlashes(s[k + 1..]));
      GlueNoDoubleSlash(a, c);
      a + [Slash] + c
  }

  /** Collapsing slash runs keeps the segments. */
  lemma {:induction false} CollapseParse(s: string)
    ensures ParsePath(CollapseSlashes(s)) == ParsePath(s)
    decreases |s|
  {
    var k := IndexOfAny(s, {Slash});
    if k < |s| {
      var t := s[k + 1..];
      var d := DropSlashes(t);
      CollapseParse(d);
      DropSlashesParse(t);
      ParseGlued(s[..k], CollapseSlashes(d));
      SplitAround(s, k);
      ParseGlued(s[..k], t);
    }
  }

  /** A text without double slashes is left as it is. */
  lemma {:induction false} CollapseFixed(s: string)
    requires NoDoubleSlash(s)
    ensures CollapseSlashes(s) == s
    decreases |s|
  {
    var k := IndexOfAny(s, {Slash});
    if k < |s| {
      var t := s[k + 1..];
      assert |t| > 0 ==> t[0] != Slash by {
        if |t| > 0 { assert t[0] == s[k + 1]; }
      }
      assert NoDoubleSlash(t) by {
        forall i | 0 <= i < |t| - 1 ensures !(t[i] == Slash && t[i + 1] == Slash) {
          assert t[i] == s[k + 1 + i] && t[i + 1] == s[k + 2 + i];
        }
      }
      CollapseFixed(t);
      SplitAround(s, k);
    }
  }

  /** Collapsing twice is collapsing once. */
  lemma CollapseIdempotent(s: string)
    ensures CollapseSlashes(CollapseSlashes(s)) == CollapseSlashes(s)
  {
    CollapseFixed(CollapseSlashes(s));
  }

  /** Only blank arguments leave nothing to join. */
  lemma NonblankOfBlanks(paths: seq<string>)
    ensures (forall i :: 0 <= i < |paths| ==> paths[i] == "") ==> NonblankPathSegments(paths) == []
  {
    var r := NonblankPathSegments(paths);
    if |r| > 0 {
      assert r[0] in paths;
    }
  }

  /** joinPath as the card client writes it: the non-blank arguments joined by '/',
      then every literal occurrence of the text / \ / + / replaced by '/'. */
  function JoinPathAsWritten(paths: seq<string>): (r: string)
    ensures (forall i :: 0 <= i < |paths| ==> paths[i] == "") ==> r == ""
  {
    NonblankOfBlanks(paths);
    var joined := Join(NonblankPathSegments(paths), [Slash]);
    Replace(joined, SlashRunPattern, [Slash])
  }

  /** joinPath as evidently intended: the non-blank arguments joined by '/', then
      every run of slashes collapsed to one. */
  function JoinPath(paths: seq<string>): (r: string)
    ensures NoDoubleSlash(r)
    ensures (forall i :: 0 <= i < |paths| ==> paths[i] == "") ==> r == ""
  {
    NonblankOfBlanks(paths);
    CollapseSlashes(Join(NonblankPathSegments(paths), [Slash]))
  }

  /** The segments of a joined path are the segments of the arguments, in order. */
  lemma JoinPathParse(paths: seq<string>)
    ensures ParsePath(JoinPath(paths)) == ParseAll(paths)
  {
    var nonblank := NonblankPathSegments(paths);
    CollapseParse(Join(nonblank, [Slash]));
    JoinParse(nonblank);
    ParseAllNonblank(paths);
  }

  /** Joining segments and parsing the path gives the segments back. */
  lemma JoinPathRoundTrip(xs: seq<string>)
    requires forall i :: 0 <= i < |xs| ==> xs[i] != "" && NoneOf(xs[i], {Slash})
    ensures ParsePath(JoinPath(xs)) == xs
  {
    JoinPathParse(xs);
    ParseAllSegments(xs);
  }

  /** Parsing a path and joining the segments removes blank segments only: parsing
      the result again gives the same segments. */
  lemma ParseThenJoin(path: string)
    ensures ParsePath(JoinPath(ParsePath(path))) == ParsePath(path)
  {
    JoinPathRoundTrip(ParsePath(path));
  }

  /** Joining separator-free parts with a separator-free separator leaves none. */
  lemma {:induction false} JoinNoneOf(xs: seq<string>, sep: string, seps: set<char>)
    requires forall i :: 0 <= i < |xs| ==> NoneOf(xs[i], seps)
    requires NoneOf(sep, seps)
    ensures NoneOf(Join(xs, sep), seps)
  {
    if |xs| > 1 {
      JoinNoneOf(xs[1..], sep, seps);
      var s := Join(xs, sep);
      var a, b := xs[0], Join(xs[1..], sep);
      forall i | 0 <= i < |s| ensures s[i] !in seps {
        if i < |a| {
          assert s[i] == a[i];
        } else if i < |a| + |sep| {
          assert s[i] == sep[i - |a|];
        } else {
          assert s[i] == b[i - |a| - |sep|];
        }
      }
    }
  }

  /** Joining non-blank segments with '/' creates no double slash. */
  lemma {:induction false} JoinNoDoubleSlash(xs: seq<string>)
    requires forall i :: 0 <= i < |xs| ==> xs[i] != "" && NoneOf(xs[i], {Slash})
    ensures NoDoubleSlash(Join(xs, [Slash]))
    ensures |xs| > 0 ==> Join(xs, [Slash])[0] == xs[0][0]
  {
    if |xs| == 1 {
      assert forall i :: 0 <= i < |xs[0]| ==> xs[0][i] != Slash;
    } else if |xs| > 1 {
      JoinNoDoubleSlash(xs[1..]);
      GlueNoDoubleSlash(xs[0], Join(xs[1..], [Slash]));
    }
  }

  /** A text without a backslash does not contain the pattern. */
  lemma PatternNeedsBackslash(s: string)
    requires NoneOf(s, {'\\'})
    ensures !Occurs(SlashRunPattern, s)
  {
    forall i: nat ensures !OccursAt(SlashRunPattern, s, i) {
      if i + |SlashRunPattern| <= |s| {
        assert s[i..i + |SlashRunPattern|][1] == s[i + 1] != SlashRunPattern[1];
      }
    }
  }

  /** For segments without '/' or '\', the written joinPath agrees with the intended
      one: the literal replacement finds nothing and there is nothing to collapse. */
  lemma JoinPathAsWrittenAgrees(xs: seq<string>)
    requires forall i :: 0 <= i < |xs| ==> NoneOf(xs[i], {Slash}) && NoneOf(xs[i], {'\\'})
    ensures JoinPathAsWritten(xs) == JoinPath(xs)
  {
    var nonblank := NonblankPathSegments(xs);
    var joined := Join(nonblank, [Slash]);
    assert forall i :: 0 <= i < |nonblank| ==> nonblank[i] in xs;
    JoinNoneOf(nonblank, [Slash], {'\\'});
    PatternNeedsBackslash(joined);
    ReplaceAbsent(joined, SlashRunPattern, [Slash]);
    JoinNoDoubleSlash(nonblank);
    CollapseFixed(joined);
  }

  /** So the written joinPath also parses back, for segments without '/' or '\'. */
  lemma JoinPathAsWrittenRoundTrip(xs: seq<string>)
    requires forall i :: 0 <= i < |xs| ==> xs[i] != "" && NoneOf(xs[i], {Slash}) && NoneOf(xs[i], {'\\'})
    ensures ParsePath(JoinPathAsWritten(xs)) == xs
  {
    JoinPathAsWrittenAgrees(xs);
    JoinPathRoundTrip(xs);
  }

  /** Without a backslash in the arguments the literal replacement finds nothing: the
      written joinPath is the plain join of the non-blank arguments, and its segments
      are the arguments' segments, in order. */
  lemma JoinPathAsWrittenParse(paths: seq<string>)
    requires forall i :: 0 <= i < |paths| ==> NoneOf(paths[i], {'\\'})
    ensures JoinPathAsWritten(paths) == Join(NonblankPathSegments(paths), [Slash])
    ensures NoneOf(JoinPathAsWritten(paths), {'\\'})
    ensures ParsePath(JoinPathAsWritten(paths)) == ParseAll(paths)
  {
    var nonblank := NonblankPathSegments(paths);
    var joined := Join(nonblank, [Slash]);
    assert forall i :: 0 <= i < |nonblank| ==> nonblank[i] in paths;
    JoinNoneOf(nonblank, [Slash], {'\\'});
    PatternNeedsBackslash(joined);
    ReplaceAbsent(joined, SlashRunPattern, [Slash]);
    JoinParse(nonblank);
    ParseAllNonblank(paths);
  }

  /** The written joinPath leaves a double slash where an argument ends in '/':
      joinPath("a/", "b") is "a//b", where the intended result is "a/b". */
  lemma JoinPathAsWrittenKeepsDoubleSlash()
    ensures JoinPathAsWritten(["a/", "b"]) == "a//b"
    ensures JoinPath(["a/", "b"]) == "a/b"
  {
    var xs := ["a/", "b"];
    assert NonblankPathSegments(xs) == xs by { NonblankKeeps(xs); }
    assert Join(xs, [Slash]) == "a//b";
    assert IndexOfAny("a//b", {Slash}) == 1;
    assert DropSlashes("/b") == "b";
    assert CollapseSlashes("b") == "b";
  }

  /** The written joinPath treats the segments "\" and "+" between slashes as the
      pattern and deletes them: joinPath("a", "\", "+", "b") is "a/b", whose segments
      are only "a" and "b" (JoinPathRoundTrip keeps all four). */
  lemma JoinPathAsWrittenDropsSegments()
    ensures JoinPathAsWritten(["a", "\\", "+", "b"]) == "a/b"
  {
    var xs := ["a", "\\", "+", "b"];
    JoinFourSegments(xs);
    ReplaceDropsPattern();
  }

  /** The four segments "a", "\", "+" and "b" are joined into "a/\/+/b". */
  lemma JoinFourSegments(xs: seq<string>)
    requires xs == ["a", "\\", "+", "b"]
    ensures Join(NonblankPathSegments(xs), [Slash]) == "a/\\/+/b"
  {
    assert NonblankPathSegments(xs) == xs by {
      NonblankKeeps(xs);
    }
    assert Join(["+", "b"], [Slash]) == "+/b" by {
      JoinCons("+", ["b"], [Slash]);
    }
    assert Join(["\\", "+", "b"], [Slash]) == "\\/+/b" by {
      assert ["\\"] + ["+", "b"] == ["\\", "+", "b"];
      JoinCons("\\", ["+", "b"], [Slash]);
    }
    assert Join(xs, [Slash]) == "a/\\/+/b" by {
      assert ["a"] + ["\\", "+", "b"] == xs;
      JoinCons("a", ["\\", "+", "b"], [Slash]);
    }
  }

  /** The literal replacement turns "a/\/+/b" into "a/b". */
  lemma ReplaceDropsPattern()
    ensures Replace("a/\\/+/b", SlashRunPattern, [Slash]) == "a/b"
  {
    var joined := "a/\\/+/b";
    var rest := joined[1..];
    assert Replace(joined, SlashRunPattern, [Slash]) == "a" + Replace(rest, SlashRunPattern, [Slash]) by {
      assert joined[..5][0] != SlashRunPattern[0];
      ReplaceSkip(joined, SlashRunPattern, [Slash]);
    }
    assert Replace(rest, SlashRunPattern, [Slash]) == "/b" by {
      assert rest[..5] == SlashRunPattern;
      ReplaceMatch(rest, SlashRunPattern, [Slash]);
      assert rest[5..] == "b";
      assert Replace("b", SlashRunPattern, [Slash]) == "b";
    }
  }

  /** addExtension: "" for an empty path, the path itself for an empty extension,
      otherwise the path, a dot and the extension. */
  function AddExtension(path: string, extension: string): (r: string)
    ensures path == "" ==> r == ""
    ensures path != "" ==> |r| >= |path| && r[..|path|] == path
    ensures path != "" && extension != "" ==>
              |r| > |path| && r[|path|] == '.' && r[|path| + 1..] == extension
    ensures path != "" && extension == "" ==> r == path
  {
    if |path| == 0 then ""
    else if |extension| == 0 then path
    else path + "." + extension
  }
}
