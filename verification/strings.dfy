/** String helpers: GkStringUtils.Join and the .NET String.Split / String.Replace
    behaviour the path helpers rely on. */
module StringUtils {

  /** Sum of the lengths of the strings. */
  function TotalLength(xs: seq<string>): nat
  {
    if |xs| == 0 then 0 else |xs[0]| + TotalLength(xs[1..])
  }

  /** GkStringUtils.Join: the strings in order with `sep` between neighbours. */
  function Join(xs: seq<string>, sep: string): (r: string)
    ensures |xs| == 0 ==> r == ""
    ensures |xs| == 1 ==> r == xs[0]
    ensures |xs| >= 1 ==> |r| == TotalLength(xs) + (|xs| - 1) * |sep|
  {
    if |xs| == 0 then ""
    else if |xs| == 1 then xs[0]
    else xs[0] + sep + Join(xs[1..], sep)
  }

  /** Joining a longer list appends one separator and the new last element. */
  lemma {:induction false} JoinSnoc(xs: seq<string>, x: string, sep: string)
    requires |xs| >= 1
    ensures Join(xs + [x], sep) == Join(xs, sep) + sep + x
  {
    if |xs| > 1 {
      assert (xs + [x])[1..] == xs[1..] + [x];
      JoinSnoc(xs[1..], x, sep);
    } else {
      assert (xs + [x])[1..] == [x];
    }
  }

  /** Index of the first character of `s` that is in `seps`, or |s| when none is. */
  function IndexOfAny(s: string, seps: set<char>): (k: nat)
    ensures k <= |s|
    ensures k < |s| ==> s[k] in seps
  {
    if |s| == 0 then 0
    else if s[0] in seps then 0
    else 1 + IndexOfAny(s[1..], seps)
  }

  /** No separator comes before the one IndexOfAny finds. */
  lemma {:induction false} IndexOfAnyFirst(s: string, seps: set<char>)
    ensures NoneOf(s[..IndexOfAny(s, seps)], seps)
    decreases |s|
  {
    if |s| > 0 && s[0] !in seps {
      var k := IndexOfAny(s, seps);
      IndexOfAnyFirst(s[1..], seps);
      forall j | 0 <= j < k ensures s[..k][j] !in seps {
        if j > 0 {
          assert s[..k][j] == s[1..][..k - 1][j - 1];
        }
      }
    }
  }

  /** The first separator of x + y is the first character of y when x has none. */
  lemma IndexOfAnyAfter(x: string, y: string, seps: set<char>)
    requires NoneOf(x, seps) && |y| > 0 && y[0] in seps
    ensures IndexOfAny(x + y, seps) == |x|
  {
    var s := x + y;
    assert s[|x|] == y[0];
    assert s[..|x|] == x;
    IndexOfAnyUnique(s, seps, |x|);
  }

  /** IndexOfAny finds the only index with a separator and none before it. */
  lemma {:induction false} IndexOfAnyUnique(s: string, seps: set<char>, k: nat)
    requires k <= |s| && (k < |s| ==> s[k] in seps) && NoneOf(s[..k], seps)
    ensures IndexOfAny(s, seps) == k
    decreases |s|
  {
    if k > 0 {
      var t := s[1..];
      assert s[0] == s[..k][0];
      var u := t[..k - 1];
      assert NoneOf(u, seps) by {
        forall i | 0 <= i < |u| ensures u[i] !in seps {
          assert u[i] == s[..k][i + 1];
        }
      }
      assert k - 1 < |t| ==> t[k - 1] == s[k];
      IndexOfAnyUnique(t, seps, k - 1);
    }
  }

  predicate NoneOf(s: string, seps: set<char>)
  {
    forall i :: 0 <= i < |s| ==> s[i] !in seps
  }

  /** String.Split(char[]) without options: the pieces between separators,
      empty pieces kept, so there is always one more piece than separators. */
  function Split(s: string, seps: set<char>): (r: seq<string>)
    ensures |r| >= 1
    decreases |s|
  {
    var k := IndexOfAny(s, seps);
    if k == |s| then [s] else [s[..k]] + Split(s[k + 1..], seps)
  }

  /** A string without separators is its own only piece. */
  lemma SplitNone(s: string, seps: set<char>)
    requires NoneOf(s, seps)
    ensures Split(s, seps) == [s]
  {
    assert s[..|s|] == s;
    IndexOfAnyUnique(s, seps, |s|);
  }

  /** No piece of a split holds a separator. */
  lemma {:induction false} SplitPiecesClean(s: string, seps: set<char>)
    ensures forall i :: 0 <= i < |Split(s, seps)| ==> NoneOf(Split(s, seps)[i], seps)
    decreases |s|
  {
    var k := IndexOfAny(s, seps);
    if k < |s| {
      SplitPiecesClean(s[k + 1..], seps);
      SplitUnfold(s, seps);
      var rest := Split(s[k + 1..], seps);
      IndexOfAnyFirst(s, seps);
      forall i | 0 <= i < |Split(s, seps)| ensures NoneOf(Split(s, seps)[i], seps) {
        if i > 0 {
          assert Split(s, seps)[i] == rest[i - 1];
        }
      }
    } else {
      IndexOfAnyFirst(s, seps);
      assert s[..|s|] == s;
    }
  }

  /** The pieces of a string without any of `other` have none of them either. */
  lemma {:induction false} SplitKeepsNoneOf(s: string, seps: set<char>, other: set<char>)
    requires NoneOf(s, other)
    ensures forall i :: 0 <= i < |Split(s, seps)| ==> NoneOf(Split(s, seps)[i], other)
    decreases |s|
  {
    var k := IndexOfAny(s, seps);
    if k < |s| {
      var front, tail := s[..k], s[k + 1..];
      assert NoneOf(front, other) by {
        forall j | 0 <= j < |front| ensures front[j] !in other {
          assert front[j] == s[j];
        }
      }
      assert NoneOf(tail, other) by {
        forall j | 0 <= j < |tail| ensures tail[j] !in other {
          assert tail[j] == s[k + 1 + j];
        }
      }
      SplitKeepsNoneOf(tail, seps, other);
      SplitUnfold(s, seps);
      var rest := Split(tail, seps);
      forall i | 0 <= i < |Split(s, seps)| ensures NoneOf(Split(s, seps)[i], other) {
        if i > 0 {
          assert Split(s, seps)[i] == rest[i - 1];
        }
      }
    } else {
      assert s[..k] == s;
    }
  }

  /** Splitting on one character and joining with it gives the string back. */
  lemma {:induction false} SplitThenJoin(s: string, c: char)
    ensures Join(Split(s, {c}), [c]) == s
    decreases |s|
  {
    var k := IndexOfAny(s, {c});
    if k < |s| {
      var tail := s[k + 1..];
      SplitThenJoin(tail, c);
      JoinCons(s[..k], Split(tail, {c}), [c]);
      SplitAround(s, k);
      calc {
        Join(Split(s, {c}), [c]);
        Join([s[..k]] + Split(tail, {c}), [c]);
        s[..k] + [c] + tail;
        s;
      }
    }
  }

  /** A string is its prefix, the character at `k` and its suffix. */
  lemma SplitAround(s: string, k: nat)
    requires k < |s|
    ensures s == s[..k] + [s[k]] + s[k + 1..]
  {
  }

  /** Joining a non-empty list behind one more element puts one separator between. */
  lemma JoinCons(x: string, xs: seq<string>, sep: string)
    requires |xs| >= 1
    ensures Join([x] + xs, sep) == x + sep + Join(xs, sep)
  {
    assert ([x] + xs)[1..] == xs;
  }

  /** A separator-free piece followed by a separator splits off as the first piece. */
  lemma SplitCons(x: string, c: char, y: string, seps: set<char>)
    requires c in seps && NoneOf(x, seps)
    ensures Split(x + [c] + y, seps) == [x] + Split(y, seps)
  {
    var s := x + [c] + y;
    assert IndexOfAny(s, seps) == |x| by {
      assert s[|x|] == c;
      assert s[..|x|] == x;
      IndexOfAnyUnique(s, seps, |x|);
    }
    assert s[..|x|] == x;
    assert s[|x| + 1..] == y;
  }

  /** Splitting two strings glued by a separator splits each of them: the last
      piece of the first and the first piece of the second stay apart. */
  lemma {:induction false} SplitAppend(x: string, c: char, y: string, seps: set<char>)
    requires c in seps
    ensures Split(x + [c] + y, seps) == Split(x, seps) + Split(y, seps)
    decreases |x|
  {
    var k := IndexOfAny(x, seps);
    IndexOfAnyFirst(x, seps);
    if k == |x| {
      assert x[..k] == x;
      SplitCons(x, c, y, seps);
    } else {
      SplitAround(x, k);
      SplitAppend(x[k + 1..], c, y, seps);
      SplitAppendStep(x, x[..k], x[k + 1..], x[k], c, y, seps);
    }
  }

  /** One step of SplitAppend: a separator-free piece in front of both sides. */
  lemma SplitAppendStep(x: string, front: string, back: string, d: char, c: char, y: string,
                        seps: set<char>)
    requires c in seps && d in seps
    requires x == front + [d] + back && NoneOf(front, seps)
    requires Split(back + [c] + y, seps) == Split(back, seps) + Split(y, seps)
    ensures Split(x + [c] + y, seps) == Split(x, seps) + Split(y, seps)
  {
    SplitFront(x, front, d, back, seps);
    Reassociate(x, front, d, back, c, y);
    SplitFront(x + [c] + y, front, d, back + [c] + y, seps);
    HeadThenAppend(front, Split(back + [c] + y, seps), Split(back, seps), Split(y, seps));
  }

  /** A string made of a separator-free piece, a separator and a rest splits into
      that piece and the pieces of the rest. */
  lemma SplitFront(s: string, front: string, c: char, rest: string, seps: set<char>)
    requires c in seps && NoneOf(front, seps)
    requires s == front + [c] + rest
    ensures Split(s, seps) == [front] + Split(rest, seps)
  {
    SplitCons(front, c, rest, seps);
  }

  /** Gluing a string behind a glued string, regrouped. */
  lemma Reassociate(x: string, front: string, d: char, back: string, c: char, y: string)
    requires x == front + [d] + back
    ensures x + [c] + y == front + [d] + (back + [c] + y)
  {
  }

  /** An element in front of a concatenation, regrouped. */
  lemma HeadThenAppend<T>(h: T, w: seq<T>, a: seq<T>, b: seq<T>)
    requires w == a + b
    ensures [h] + w == ([h] + a) + b
  {
  }

  /** Joining separator-free pieces and splitting again gives the pieces back. */
  lemma {:induction false} JoinThenSplit(xs: seq<string>, c: char)
    requires |xs| >= 1
    requires forall i :: 0 <= i < |xs| ==> NoneOf(xs[i], {c})
    ensures Split(Join(xs, [c]), {c}) == xs
  {
    if |xs| > 1 {
      JoinThenSplit(xs[1..], c);
      assert Join(xs, [c]) == xs[0] + [c] + Join(xs[1..], [c]);
      SplitCons(xs[0], c, Join(xs[1..], [c]), {c});
      assert xs == [xs[0]] + xs[1..];
    }
  }

  /** `pat` occurs in `s` starting at index `i`. */
  predicate OccursAt(pat: string, s: string, i: nat)
  {
    i + |pat| <= |s| && s[i..i + |pat|] == pat
  }

  /** `pat` occurs somewhere in `s`. */
  ghost predicate Occurs(pat: string, s: string)
  {
    exists i: nat :: OccursAt(pat, s, i)
  }

  /** String.Replace(string, string): ordinal, left to right, non-overlapping. */
  function Replace(s: string, pat: string, rep: string): string
    requires |pat| > 0
    decreases |s|
  {
    if |s| < |pat| then s
    else if s[..|pat|] == pat then rep + Replace(s[|pat|..], pat, rep)
    else [s[0]] + Replace(s[1..], pat, rep)
  }

  /** Replace leaves a string in which the pattern does not occur unchanged. */
  lemma {:induction false} ReplaceAbsent(s: string, pat: string, rep: string)
    requires |pat| > 0 && !Occurs(pat, s)
    ensures Replace(s, pat, rep) == s
    decreases |s|
  {
    if |s| >= |pat| {
      assert !OccursAt(pat, s, 0);
      assert s[0..|pat|] == s[..|pat|];
      forall i: nat
        ensures !OccursAt(pat, s[1..], i)
      {
        assert !OccursAt(pat, s, i + 1);
        if i + |pat| <= |s| - 1 {
          assert s[1..][i..i + |pat|] == s[i + 1..i + 1 + |pat|];
        }
      }
      ReplaceAbsent(s[1..], pat, rep);
      assert [s[0]] + s[1..] == s;
    }
  }

  /** Replace at a match: the replacement, then the rest replaced. */
  lemma ReplaceMatch(s: string, pat: string, rep: string)
    requires |pat| > 0 && |pat| <= |s| && s[..|pat|] == pat
    ensures Replace(s, pat, rep) == rep + Replace(s[|pat|..], pat, rep)
  {
  }

  /** Replace where no match starts: the first character, then the rest replaced. */
  lemma ReplaceSkip(s: string, pat: string, rep: string)
    requires |pat| > 0 && |pat| <= |s| && s[..|pat|] != pat
    ensures Replace(s, pat, rep) == [s[0]] + Replace(s[1..], pat, rep)
  {
  }

  /** Index of the last character of `s` that is in `seps`, or -1 when none is
      (String.LastIndexOf with ordinal comparison). */
  function LastIndexOfAny(s: string, seps: set<char>): (k: int)
    ensures -1 <= k < |s|
    ensures 0 <= k ==> s[k] in seps
  {
    if |s| == 0 then -1
    else if s[|s| - 1] in seps then |s| - 1
    else LastIndexOfAny(s[..|s| - 1], seps)
  }

  /** No separator follows the one LastIndexOfAny finds. */
  lemma {:induction false} LastIndexOfAnyAfter(s: string, seps: set<char>)
    ensures NoneOf(s[LastIndexOfAny(s, seps) + 1..], seps)
    decreases |s|
  {
    if |s| > 0 && s[|s| - 1] !in seps {
      var init := s[..|s| - 1];
      var k := LastIndexOfAny(init, seps);
      LastIndexOfAnyAfter(init, seps);
      var after := s[k + 1..];
      forall i | 0 <= i < |after| ensures after[i] !in seps {
        if k + 1 + i < |s| - 1 {
          assert after[i] == init[k + 1..][i];
        }
      }
    }
  }

  /** LastIndexOfAny is the only index with a separator and none after it. */
  lemma {:induction false} LastIndexUnique(s: string, seps: set<char>, j: int)
    requires -1 <= j < |s| && (0 <= j ==> s[j] in seps)
    requires forall i :: j < i < |s| ==> s[i] !in seps
    ensures LastIndexOfAny(s, seps) == j
    decreases |s|
  {
    if j < |s| - 1 {
      var init := s[..|s| - 1];
      assert forall i :: j < i < |init| ==> init[i] == s[i];
      LastIndexUnique(init, seps, j);
    }
  }

  /** A string with a separator splits into the piece before it and the split of
      the rest. */
  lemma SplitUnfold(s: string, seps: set<char>)
    requires IndexOfAny(s, seps) < |s|
    ensures var k := IndexOfAny(s, seps);
            Split(s, seps) == [s[..k]] + Split(s[k + 1..], seps)
  {
  }

  /** A sequence ending in a non-empty sequence ends in that sequence's last element. */
  lemma LastOfAppend<T>(first: seq<T>, rest: seq<T>, whole: seq<T>)
    requires whole == first + rest && |rest| > 0
    ensures whole[|whole| - 1] == rest[|rest| - 1]
  {
  }

  /** The last piece of a split is what follows the last separator. */
  lemma SplitLast(s: string, seps: set<char>)
    ensures var pieces := Split(s, seps);
            pieces[|pieces| - 1] == s[LastIndexOfAny(s, seps) + 1..]
  {
    if LastIndexOfAny(s, seps) >= 0 {
      SplitLastSome(s, seps);
    } else {
      SplitLastNone(s, seps);
    }
  }

  /** SplitLast when there is a separator: the pieces before it, then the rest. */
  lemma SplitLastSome(s: string, seps: set<char>)
    requires LastIndexOfAny(s, seps) >= 0
    ensures var pieces := Split(s, seps);
            pieces[|pieces| - 1] == s[LastIndexOfAny(s, seps) + 1..]
  {
    var l := LastIndexOfAny(s, seps);
    var front, y := s[..l], s[l + 1..];
    assert Split(y, seps) == [y] by {
      LastIndexOfAnyAfter(s, seps);
      SplitNone(y, seps);
    }
    assert Split(s, seps) == Split(front, seps) + [y] by {
      SplitAround(s, l);
      SplitAppend(front, s[l], y, seps);
    }
    LastOfAppend(Split(front, seps), [y], Split(s, seps));
  }

  /** SplitLast when there is no separator: the whole string is the one piece. */
  lemma SplitLastNone(s: string, seps: set<char>)
    requires LastIndexOfAny(s, seps) == -1
    ensures var pieces := Split(s, seps);
            pieces[|pieces| - 1] == s[LastIndexOfAny(s, seps) + 1..]
  {
    assert NoneOf(s, seps) by {
      LastIndexOfAnyAfter(s, seps);
      assert s[0..] == s;
    }
    SplitNone(s, seps);
    assert s[0..] == s;
  }

  /** A string with a separator in it splits into more than one piece. */
  lemma SplitSeveral(s: string, seps: set<char>)
    ensures !NoneOf(s, seps) ==> |Split(s, seps)| > 1
  {
    IndexOfAnyFirst(s, seps);
    assert s[..|s|] == s;
  }
}
