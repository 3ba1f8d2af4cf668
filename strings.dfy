/** Python's `str.split(sep)` and `sep.join(pieces)` over strings, for a
    non-empty separator: occurrences are found left to right and do not
    overlap. */
module Strings {

  /** `sep` occurs in `s` starting at index `i`. */
  predicate MatchAt(s: string, sep: string, i: nat) {
    i + |sep| <= |s| && s[i..i + |sep|] == sep
  }

  /** `sep` occurs somewhere in `s`. */
  predicate Occurs(s: string, sep: string) {
    exists i: nat | i <= |s| :: MatchAt(s, sep, i)
  }

  /** `s.split(sep)`: the pieces of `s` between the occurrences of `sep`. */
  function Split(s: string, sep: string): (r: seq<string>)
    requires |sep| > 0
    ensures |r| >= 1
    decreases |s|
  {
    if |s| < |sep| then [s]
    else if s[..|sep|] == sep then [""] + Split(s[|sep|..], sep)
    else
      var rest := Split(s[1..], sep);
      [[s[0]] + rest[0]] + rest[1..]
  }

  /** `s.count(sep)`: the number of non-overlapping occurrences of `sep`,
      counted left to right. */
  function Count(s: string, sep: string): (r: nat)
    requires |sep| > 0
    ensures r * |sep| <= |s|
    decreases |s|
  {
    if |s| < |sep| then 0
    else if s[..|sep|] == sep then 1 + Count(s[|sep|..], sep)
    else Count(s[1..], sep)
  }

  /** `sep.join(pieces)`. */
  function Join(pieces: seq<string>, sep: string): (r: string)
    ensures |pieces| > 0 ==> pieces[0] <= r
    ensures |pieces| > 1 ==> pieces[0] + sep <= r
    ensures |pieces| == 1 ==> r == pieces[0]
  {
    if |pieces| == 0 then ""
    else if |pieces| == 1 then pieces[0]
    else pieces[0] + sep + Join(pieces[1..], sep)
  }

  /** No character of `s` is `c`. */
  predicate Free(s: string, c: char) {
    forall i :: 0 <= i < |s| ==> s[i] != c
  }

  lemma MatchShift(s: string, sep: string, j: nat)
    requires 1 <= j && |s| >= 1
    ensures MatchAt(s, sep, j) == MatchAt(s[1..], sep, j - 1)
  {
    if j + |sep| <= |s| {
      var here, there := s[j..j + |sep|], s[1..][j - 1..j - 1 + |sep|];
      forall k | 0 <= k < |sep|
        ensures here[k] == there[k]
      {
        assert here[k] == s[j + k];
        assert there[k] == s[1..][j - 1 + k];
      }
      assert here == there;
    }
  }

  /** An occurrence in a prefix of `s` is an occurrence in `s`. */
  lemma PrefixMatch(p: string, s: string, sep: string, i: nat)
    requires p <= s
    ensures MatchAt(p, sep, i) ==> MatchAt(s, sep, i)
  {
    if MatchAt(p, sep, i) {
      assert p[i..i + |sep|] == s[i..i + |sep|];
    }
  }

  /** `r` is the split of `s` as far as its first piece is concerned: the
      first piece is a prefix of `s` before which no occurrence of `sep`
      starts; it is all of `s` if it is the only piece, and otherwise `sep`
      occurs right after it and the remaining pieces split what follows. */
  predicate FirstPieceOk(s: string, sep: string, r: seq<string>)
    requires |sep| > 0 && |r| >= 1
  {
    && r[0] <= s
    && (forall j: nat :: j < |r[0]| ==> !MatchAt(s, sep, j))
    && (|r| == 1 ==> r[0] == s)
    && (|r| > 1 ==> MatchAt(s, sep, |r[0]|) && r[1..] == Split(s[|r[0]| + |sep|..], sep))
  }

  /** Putting a character that does not start an occurrence in front of the
      first piece keeps `FirstPieceOk`. */
  lemma FirstPieceStep(s: string, sep: string, rest: seq<string>)
    requires |sep| > 0 && |s| >= |sep| && s[..|sep|] != sep
    requires |rest| >= 1 && FirstPieceOk(s[1..], sep, rest)
    ensures FirstPieceOk(s, sep, [[s[0]] + rest[0]] + rest[1..])
  {
    var r := [[s[0]] + rest[0]] + rest[1..];
    assert r[0] == [s[0]] + rest[0];
    assert r[1..] == rest[1..];
    assert r[0] <= s by {
      assert s == [s[0]] + s[1..];
    }
    forall j: nat | j < |r[0]|
      ensures !MatchAt(s, sep, j)
    {
      if j >= 1 {
        MatchShift(s, sep, j);
      }
    }
    if |r| > 1 {
      MatchShift(s, sep, |r[0]|);
      assert s[1..][|rest[0]| + |sep|..] == s[|r[0]| + |sep|..];
    } else {
      assert s == [s[0]] + s[1..];
    }
  }

  /** The first piece is the longest prefix of `s` before which no
      occurrence of `sep` starts; if there is another piece, `sep` occurs
      right after the first piece and the remaining pieces are the split of
      what follows that occurrence. This determines `Split` uniquely. */
  lemma {:induction false} SplitFirstPiece(s: string, sep: string)
    requires |sep| > 0
    ensures FirstPieceOk(s, sep, Split(s, sep))
    decreases |s|
  {
    if |s| < |sep| {
    } else if s[..|sep|] == sep {
      assert Split(s, sep)[1..] == Split(s[|sep|..], sep);
    } else {
      SplitFirstPiece(s[1..], sep);
      FirstPieceStep(s, sep, Split(s[1..], sep));
    }
  }

  /** `FirstPieceOk` holds of the split only: any `r` satisfying it is
      `Split(s, sep)`. */
  lemma SplitUnique(s: string, sep: string, r: seq<string>)
    requires |sep| > 0 && |r| >= 1 && FirstPieceOk(s, sep, r)
    ensures r == Split(s, sep)
  {
    SplitFirstPiece(s, sep);
    FirstPieceAgree(s, sep, r, Split(s, sep));
  }

  /** Two lists that both satisfy `FirstPieceOk` are equal. */
  lemma FirstPieceAgree(s: string, sep: string, r: seq<string>, q: seq<string>)
    requires |sep| > 0 && |r| >= 1 && |q| >= 1
    requires FirstPieceOk(s, sep, r) && FirstPieceOk(s, sep, q)
    ensures r == q
  {
    var n, m := |r[0]|, |q[0]|;
    assert n == m;
    assert r[0] == s[..n] == q[0];
    assert r == [r[0]] + r[1..];
    assert q == [q[0]] + q[1..];
  }

  /** No piece of a split contains the separator. */
  lemma {:induction false} SplitPiecesFree(s: string, sep: string)
    requires |sep| > 0
    ensures forall k :: 0 <= k < |Split(s, sep)| ==> !Occurs(Split(s, sep)[k], sep)
    decreases |s|
  {
    var r := Split(s, sep);
    SplitFirstPiece(s, sep);
    forall i: nat | i <= |r[0]|
      ensures !MatchAt(r[0], sep, i)
    {
      PrefixMatch(r[0], s, sep, i);
    }
    if |r| > 1 {
      var t := s[|r[0]| + |sep|..];
      SplitPiecesFree(t, sep);
      forall k | 1 <= k < |r|
        ensures !Occurs(r[k], sep)
      {
        assert r[k] == Split(t, sep)[k - 1];
      }
    }
  }

  /** A split has one more piece than there are occurrences of the separator. */
  lemma {:induction false} SplitCount(s: string, sep: string)
    requires |sep| > 0
    ensures |Split(s, sep)| == Count(s, sep) + 1
    decreases |s|
  {
    if |s| < |sep| {
    } else if s[..|sep|] == sep {
      SplitCount(s[|sep|..], sep);
    } else {
      SplitCount(s[1..], sep);
    }
  }

  /** For a one-character separator, the occurrence count is the number of
      times that character appears. */
  lemma {:induction false} CountChar(s: string, c: char)
    ensures Count(s, [c]) == multiset(s)[c]
    decreases |s|
  {
    if |s| == 0 {
    } else {
      CountChar(s[1..], c);
      assert s == [s[0]] + s[1..];
      assert multiset(s) == multiset{s[0]} + multiset(s[1..]);
    }
  }

  /** Joining the pieces of a split with the same separator gives back the
      string. */
  lemma {:induction false} JoinSplit(s: string, sep: string)
    requires |sep| > 0
    ensures Join(Split(s, sep), sep) == s
    decreases |s|
  {
    if |s| < |sep| {
    } else if s[..|sep|] == sep {
      JoinSplit(s[|sep|..], sep);
      JoinEmptyFirst(Split(s[|sep|..], sep), sep);
      assert s == sep + s[|sep|..];
    } else {
      JoinSplit(s[1..], sep);
      JoinCons(s[0], Split(s[1..], sep), sep);
      assert s == [s[0]] + s[1..];
    }
  }

  /** An empty first piece contributes only the separator. */
  lemma JoinEmptyFirst(rest: seq<string>, sep: string)
    requires |rest| >= 1
    ensures Join([""] + rest, sep) == sep + Join(rest, sep)
  {
    assert ([""] + rest)[1..] == rest;
  }

  /** A character put in front of the first piece is put in front of the
      join. */
  lemma JoinCons(x: char, rest: seq<string>, sep: string)
    requires |rest| >= 1
    ensures Join([[x] + rest[0]] + rest[1..], sep) == [x] + Join(rest, sep)
  {
    var r := [[x] + rest[0]] + rest[1..];
    if |rest| > 1 {
      assert r[1..] == rest[1..];
      assert Join(r, sep) == [x] + rest[0] + sep + Join(rest[1..], sep);
    }
  }

  /** A piece without the separator's first character is a single piece. */
  lemma {:induction false} SplitFreePiece(p: string, sep: string)
    requires |sep| > 0 && Free(p, sep[0])
    ensures Split(p, sep) == [p]
    decreases |p|
  {
    if |p| >= |sep| {
      assert p[..|sep|][0] != sep[0];
      SplitFreePiece(p[1..], sep);
      assert p == [p[0]] + p[1..];
    }
  }

  /** A piece without the separator's first character, followed by the
      separator, splits off as the first piece. */
  lemma {:induction false} SplitFreePrefix(p: string, sep: string, rest: string)
    requires |sep| > 0 && Free(p, sep[0])
    ensures Split(p + sep + rest, sep) == [p] + Split(rest, sep)
    decreases |p|
  {
    var s := p + sep + rest;
    if |p| == 0 {
      assert s == sep + rest;
      assert s[..|sep|] == sep;
      assert s[|sep|..] == rest;
    } else {
      assert s[..|sep|][0] == p[0];
      SplitFreePrefix(p[1..], sep, rest);
      assert s[1..] == p[1..] + sep + rest;
      assert p == [p[0]] + p[1..];
    }
  }

  /** Splitting a join gives back the pieces, provided no piece contains the
      separator's first character (so no occurrence can start inside a
      piece). */
  lemma {:induction false} SplitJoin(pieces: seq<string>, sep: string)
    requires |sep| > 0 && |pieces| > 0
    requires forall k :: 0 <= k < |pieces| ==> Free(pieces[k], sep[0])
    ensures Split(Join(pieces, sep), sep) == pieces
    decreases |pieces|
  {
    if |pieces| == 1 {
      SplitFreePiece(pieces[0], sep);
    } else {
      SplitJoin(pieces[1..], sep);
      SplitFreePrefix(pieces[0], sep, Join(pieces[1..], sep));
      assert pieces == [pieces[0]] + pieces[1..];
    }
  }

  lemma SplitSepFirst(c: char, t: string)
    ensures Split([c] + t, [c]) == [""] + Split(t, [c])
  {
    assert ([c] + t)[..1] == [c];
    assert ([c] + t)[1..] == t;
  }

  lemma SplitOtherFirst(x: char, c: char, t: string)
    requires x != c
    ensures Split([x] + t, [c]) == [[x] + Split(t, [c])[0]] + Split(t, [c])[1..]
  {
    assert ([x] + t)[..1] != [c];
    assert ([x] + t)[1..] == t;
  }

  /** For a one-character separator, splitting at one occurrence and
      splitting the two sides separately agree. */
  lemma {:induction false} SplitAround(a: string, c: char, b: string)
    ensures Split(a + [c] + b, [c]) == Split(a, [c]) + Split(b, [c])
    decreases |a|
  {
    if |a| == 0 {
      assert a + [c] + b == [c] + b;
      SplitSepFirst(c, b);
    } else {
      var t := a[1..];
      SplitAround(t, c, b);
      assert a + [c] + b == [a[0]] + (t + [c] + b) && a == [a[0]] + t;
      SplitConsStep(a[0], c, t, b);
    }
  }

  /** One character in front of `t` extends the split of `t + [c] + b`
      as it extends the split of `t`. */
  lemma SplitConsStep(x: char, c: char, t: string, b: string)
    requires Split(t + [c] + b, [c]) == Split(t, [c]) + Split(b, [c])
    ensures Split([x] + (t + [c] + b), [c]) == Split([x] + t, [c]) + Split(b, [c])
  {
    if x == c {
      SplitSepFirst(c, t + [c] + b);
      SplitSepFirst(c, t);
      AppendAssoc([""], Split(t, [c]), Split(b, [c]));
    } else {
      SplitOtherStep(x, c, t, b);
    }
  }

  lemma SplitOtherStep(x: char, c: char, t: string, b: string)
    requires x != c
    requires Split(t + [c] + b, [c]) == Split(t, [c]) + Split(b, [c])
    ensures Split([x] + (t + [c] + b), [c]) == Split([x] + t, [c]) + Split(b, [c])
  {
    SplitOtherFirst(x, c, t + [c] + b);
    SplitOtherFirst(x, c, t);
    ExtendFirst([x], Split(t, [c]), Split(b, [c]));
  }

  /** Concatenation of lists of pieces is associative; a lemma, so the
      solver uses the fact only where it is called. */
  lemma AppendAssoc(p: seq<string>, q: seq<string>, r: seq<string>)
    ensures p + (q + r) == (p + q) + r
  {
  }

  /** Extending the first piece of `p + q` extends the first piece of `p`;
      a lemma for the same reason. */
  lemma ExtendFirst(x: string, p: seq<string>, q: seq<string>)
    requires |p| > 0
    ensures [x + (p + q)[0]] + (p + q)[1..] == ([x + p[0]] + p[1..]) + q
  {
    assert (p + q)[0] == p[0];
    assert (p + q)[1..] == p[1..] + q;
  }

  /** Every character of a join is a separator character or a character of
      one of the pieces. */
  lemma {:induction false} JoinChars(pieces: seq<string>, sep: string, i: nat)
    requires i < |Join(pieces, sep)|
    ensures Join(pieces, sep)[i] in sep
         || exists k, j :: 0 <= k < |pieces| && 0 <= j < |pieces[k]| && pieces[k][j] == Join(pieces, sep)[i]
    decreases |pieces|
  {
    var s := Join(pieces, sep);
    if |pieces| == 1 {
      assert pieces[0][i] == s[i];
    } else if i < |pieces[0]| {
      assert pieces[0][i] == s[i];
    } else if i < |pieces[0]| + |sep| {
      assert s[i] == sep[i - |pieces[0]|];
    } else {
      var i' := i - |pieces[0]| - |sep|;
      JoinChars(pieces[1..], sep, i');
      assert s[i] == Join(pieces[1..], sep)[i'];
      if s[i] !in sep {
        var k, j :| 0 <= k < |pieces[1..]| && 0 <= j < |pieces[1..][k]| && pieces[1..][k][j] == s[i];
        assert pieces[k + 1][j] == s[i];
      }
    }
  }

  /** Every character of `s` other than a one-character separator lies in
      some piece of the split. */
  lemma CharInPiece(s: string, c: char, i: nat)
    requires i < |s| && s[i] != c
    ensures exists k, j :: 0 <= k < |Split(s, [c])| && 0 <= j < |Split(s, [c])[k]| && Split(s, [c])[k][j] == s[i]
  {
    JoinSplit(s, [c]);
    JoinChars(Split(s, [c]), [c], i);
  }

  /** A join has no `c` when no piece and not the separator has one. */
  lemma {:induction false} JoinFree(pieces: seq<string>, sep: string, c: char)
    requires Free(sep, c)
    requires forall k :: 0 <= k < |pieces| ==> Free(pieces[k], c)
    ensures Free(Join(pieces, sep), c)
    decreases |pieces|
  {
    if |pieces| > 1 {
      JoinFree(pieces[1..], sep, c);
    }
  }

  /** Appending to a join appends to its last piece. */
  lemma {:induction false} JoinAppend(pieces: seq<string>, sep: string, w: string)
    requires |pieces| > 0
    ensures Join(pieces, sep) + w == Join(pieces[..|pieces| - 1] + [pieces[|pieces| - 1] + w], sep)
    decreases |pieces|
  {
    var n := |pieces|;
    var longer := pieces[..n - 1] + [pieces[n - 1] + w];
    if n > 1 {
      JoinAppend(pieces[1..], sep, w);
      assert longer[1..] == pieces[1..][..n - 2] + [pieces[1..][n - 2] + w];
    }
  }
}
