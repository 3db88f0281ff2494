/**
 * The three `str` operations the programs rely on: `replace`, `split` and a
 * separator join, all scanning left to right for non-overlapping matches.
 */
module Text {

  /** `pat` occurs in `s` starting at index `i`. */
  predicate MatchAt(s: string, pat: string, i: nat)
    requires i <= |s|
  {
    pat <= s[i..]
  }

  /** `pat in s`, for a non-empty `pat`. */
  predicate Contains(s: string, pat: string)
  {
    exists i: nat :: i <= |s| && MatchAt(s, pat, i)
  }

  /**
   * `s.replace(pat, rep)`: every non-overlapping occurrence of `pat`, found
   * scanning left to right, is replaced by `rep`.
   */
  function Replace(s: string, pat: string, rep: string): (r: string)
    requires |pat| > 0
    decreases |s|
  {
    if |s| == 0 then ""
    else if pat <= s then rep + Replace(s[|pat|..], pat, rep)
    else [s[0]] + Replace(s[1..], pat, rep)
  }

  /**
   * The scan behind `s.split(pat)`: `cur` is the piece collected so far, the
   * result holds it and every later piece.
   */
  function SplitFrom(s: string, pat: string, cur: string): (pieces: seq<string>)
    requires |pat| > 0
    ensures |pieces| > 0
    decreases |s|
  {
    if |s| == 0 then [cur]
    else if pat <= s then [cur] + SplitFrom(s[|pat|..], pat, "")
    else SplitFrom(s[1..], pat, cur + [s[0]])
  }

  /** `s.split(pat)`: the text between the occurrences `Replace` would rewrite. */
  function Split(s: string, pat: string): (pieces: seq<string>)
    requires |pat| > 0
    ensures |pieces| > 0
  {
    SplitFrom(s, pat, "")
  }

  /** `sep.join(pieces)`. */
  function Join(pieces: seq<string>, sep: string): string
    requires |pieces| > 0
    decreases |pieces|
  {
    if |pieces| == 1 then pieces[0] else pieces[0] + sep + Join(pieces[1..], sep)
  }

  /** Text without any occurrence of `pat` is returned unchanged. */
  lemma {:induction false} ReplaceWithoutMatch(s: string, pat: string, rep: string)
    requires |pat| > 0
    requires !Contains(s, pat)
    ensures Replace(s, pat, rep) == s
    decreases |s|
  {
    if |s| > 0 {
      assert !MatchAt(s, pat, 0);
      assert !Contains(s[1..], pat) by {
        forall i: nat | i <= |s[1..]| ensures !MatchAt(s[1..], pat, i) {
          assert s[1..][i..] == s[i + 1..];
          assert !MatchAt(s, pat, i + 1);
        }
      }
      ReplaceWithoutMatch(s[1..], pat, rep);
    }
  }

  /** Replacing a pattern by itself changes nothing. */
  lemma {:induction false} ReplaceBySelf(s: string, pat: string)
    requires |pat| > 0
    ensures Replace(s, pat, pat) == s
    decreases |s|
  {
    if |s| == 0 {
    } else if pat <= s {
      ReplaceBySelf(s[|pat|..], pat);
      assert s == pat + s[|pat|..];
    } else {
      ReplaceBySelf(s[1..], pat);
      assert s == [s[0]] + s[1..];
    }
  }

  /** The scan of `Replace` and the scan of `SplitFrom` cut the text at the same places. */
  lemma {:induction false} ReplaceJoinsSplitFrom(s: string, pat: string, rep: string, cur: string)
    requires |pat| > 0
    ensures cur + Replace(s, pat, rep) == Join(SplitFrom(s, pat, cur), rep)
    decreases |s|
  {
    if |s| == 0 {
    } else if pat <= s {
      var rest := SplitFrom(s[|pat|..], pat, "");
      ReplaceJoinsSplitFrom(s[|pat|..], pat, rep, "");
      assert ([cur] + rest)[1..] == rest;
      assert "" + Replace(s[|pat|..], pat, rep) == Replace(s[|pat|..], pat, rep);
    } else {
      ReplaceJoinsSplitFrom(s[1..], pat, rep, cur + [s[0]]);
      assert cur + ([s[0]] + Replace(s[1..], pat, rep)) == (cur + [s[0]]) + Replace(s[1..], pat, rep);
    }
  }

  /** `s.replace(pat, rep) == rep.join(s.split(pat))`. */
  lemma ReplaceIsJoinOfSplit(s: string, pat: string, rep: string)
    requires |pat| > 0
    ensures Replace(s, pat, rep) == Join(Split(s, pat), rep)
  {
    ReplaceJoinsSplitFrom(s, pat, rep, "");
    assert "" + Replace(s, pat, rep) == Replace(s, pat, rep);
  }

  /** Joining the pieces of a split with the pattern rebuilds the text. */
  lemma SplitJoinRoundTrip(s: string, pat: string)
    requires |pat| > 0
    ensures Join(Split(s, pat), pat) == s
  {
    ReplaceIsJoinOfSplit(s, pat, pat);
    ReplaceBySelf(s, pat);
  }

  /** No match of `pat` starts inside `cur` when `cur` is followed by `rest`. */
  ghost predicate NoMatchStartsIn(cur: string, rest: string, pat: string)
  {
    forall j: nat :: j < |cur| ==> !MatchAt(cur + rest, pat, j)
  }

  lemma {:induction false} SplitFromPiecesAvoidPattern(s: string, pat: string, cur: string)
    requires |pat| > 0
    requires NoMatchStartsIn(cur, s, pat)
    ensures forall k :: 0 <= k < |SplitFrom(s, pat, cur)| ==> !Contains(SplitFrom(s, pat, cur)[k], pat)
    decreases |s|
  {
    var pieces := SplitFrom(s, pat, cur);
    if |s| == 0 || pat <= s {
      assert !Contains(cur, pat) by {
        forall i: nat | i <= |cur| ensures !MatchAt(cur, pat, i) {
          if i < |cur| {
            assert !MatchAt(cur + s, pat, i);
            assert cur[i..] <= (cur + s)[i..];
          }
        }
      }
      if |s| > 0 {
        SplitFromPiecesAvoidPattern(s[|pat|..], pat, "");
        assert pieces == [cur] + SplitFrom(s[|pat|..], pat, "");
      }
    } else {
      var cur' := cur + [s[0]];
      assert NoMatchStartsIn(cur', s[1..], pat) by {
        assert cur' + s[1..] == cur + s;
        assert (cur + s)[|cur|..] == s;
      }
      SplitFromPiecesAvoidPattern(s[1..], pat, cur');
    }
  }

  /** No piece of `s.split(pat)` contains `pat`: every occurrence was a cut. */
  lemma SplitPiecesAvoidPattern(s: string, pat: string)
    requires |pat| > 0
    ensures forall k :: 0 <= k < |Split(s, pat)| ==> !Contains(Split(s, pat)[k], pat)
  {
    SplitFromPiecesAvoidPattern(s, pat, "");
  }

  /** Splitting on one character a text that ends without that character. */
  lemma {:induction false} SplitFromSingleNoSep(x: string, c: char, cur: string)
    requires c !in x
    ensures SplitFrom(x, [c], cur) == [cur + x]
    decreases |x|
  {
    if |x| > 0 {
      assert !([c] <= x) by { assert x[0] != c; }
      SplitFromSingleNoSep(x[1..], c, cur + [x[0]]);
      assert cur + [x[0]] + x[1..] == cur + x;
    } else {
      assert cur + x == cur;
    }
  }

  lemma {:induction false} SplitFromSingleSep(x: string, c: char, y: string, cur: string)
    requires c !in x
    ensures SplitFrom(x + [c] + y, [c], cur) == [cur + x] + SplitFrom(y, [c], "")
    decreases |x|
  {
    var s := x + [c] + y;
    if |x| == 0 {
      assert [c] <= s;
      assert s[|[c]|..] == y;
      assert cur + x == cur;
    } else {
      assert !([c] <= s) by { assert s[0] == x[0] != c; }
      assert s[1..] == x[1..] + [c] + y;
      SplitFromSingleSep(x[1..], c, y, cur + [x[0]]);
      assert cur + [x[0]] + x[1..] == cur + x;
    }
  }

  /** For a one-character separator, splitting undoes joining pieces that do not contain it. */
  lemma {:induction false} JoinSplitRoundTrip(pieces: seq<string>, c: char)
    requires |pieces| > 0
    requires forall k :: 0 <= k < |pieces| ==> c !in pieces[k]
    ensures Split(Join(pieces, [c]), [c]) == pieces
    decreases |pieces|
  {
    if |pieces| == 1 {
      SplitFromSingleNoSep(pieces[0], c, "");
      assert "" + pieces[0] == pieces[0];
    } else {
      JoinSplitRoundTrip(pieces[1..], c);
      SplitFromSingleSep(pieces[0], c, Join(pieces[1..], [c]), "");
      assert "" + pieces[0] == pieces[0];
      assert pieces == [pieces[0]] + pieces[1..];
    }
  }

  /** Replacing one character distributes over concatenation: no match can straddle the seam. */
  lemma {:induction false} ReplaceCharDistributes(a: string, b: string, c: char, rep: string)
    ensures Replace(a + b, [c], rep) == Replace(a, [c], rep) + Replace(b, [c], rep)
    decreases |a|
  {
    if |a| > 0 {
      assert (a + b)[1..] == a[1..] + b;
      assert ([c] <= a + b) == ([c] <= a);
      ReplaceCharDistributes(a[1..], b, c, rep);
    } else {
      assert a + b == b;
    }
  }

  /** Text without the character is left alone by replacing that character. */
  lemma {:induction false} ReplaceAbsentChar(s: string, c: char, rep: string)
    requires c !in s
    ensures Replace(s, [c], rep) == s
    decreases |s|
  {
    if |s| > 0 {
      assert !([c] <= s) by { assert s[0] != c; }
      ReplaceAbsentChar(s[1..], c, rep);
      assert s == [s[0]] + s[1..];
    }
  }

  /** For a one-character pattern, containment is plain membership. */
  lemma ContainsChar(s: string, c: char)
    ensures Contains(s, [c]) <==> c in s
  {
    if c in s {
      var i :| 0 <= i < |s| && s[i] == c;
      assert MatchAt(s, [c], i);
    }
    if Contains(s, [c]) {
      var i: nat :| i <= |s| && MatchAt(s, [c], i);
      assert s[i] == c;
    }
  }

  /** A text that starts with the pattern has it replaced there, and the scan resumes right after it. */
  lemma ReplaceLeadingMatch(pat: string, rest: string, rep: string)
    requires |pat| > 0
    ensures Replace(pat + rest, pat, rep) == rep + Replace(rest, pat, rep)
  {
    assert (pat + rest)[|pat|..] == rest;
  }

  /** Joining one more piece puts the separator and that piece at the end. */
  lemma {:induction false} JoinSnoc(pieces: seq<string>, x: string, sep: string)
    requires |pieces| > 0
    ensures Join(pieces + [x], sep) == Join(pieces, sep) + sep + x
    decreases |pieces|
  {
    if |pieces| == 1 {
      assert (pieces + [x])[1..] == [x];
    } else {
      assert (pieces + [x])[1..] == pieces[1..] + [x];
      JoinSnoc(pieces[1..], x, sep);
    }
  }

  /** Where `pat` does not start `s`, the replace scan keeps the first character and moves on. */
  lemma ReplaceSkipsChar(s: string, pat: string, rep: string)
    requires |pat| > 0 && |s| > 0 && !(pat <= s)
    ensures Replace(s, pat, rep) == [s[0]] + Replace(s[1..], pat, rep)
  {
  }

  /** Where `pat` does not start `s`, the split scan adds the first character to the current piece. */
  lemma SplitFromSkipsChar(s: string, pat: string, cur: string)
    requires |pat| > 0 && |s| > 0 && !(pat <= s)
    ensures SplitFrom(s, pat, cur) == SplitFrom(s[1..], pat, cur + [s[0]])
  {
  }

  /** A lone match followed by a character it cannot start with and a match-free rest: only the match is replaced. */
  lemma ReplaceLoneMatch(pat: string, c: char, rest: string, rep: string)
    requires |pat| > 0 && pat[0] != c && !Contains(rest, pat)
    ensures Replace(pat + [c] + rest, pat, rep) == rep + [c] + rest
  {
    var tail := [c] + rest;
    assert pat + [c] + rest == pat + tail;
    ReplaceLeadingMatch(pat, tail, rep);
    assert !(pat <= tail) by { assert tail[0] == c; }
    ReplaceSkipsChar(tail, pat, rep);
    assert tail[1..] == rest;
    ReplaceWithoutMatch(rest, pat, rep);
  }

  /**
   * Dropping the first character of a text that has its leftmost match at
   * `i > 0` moves that leftmost match to `i - 1`.
   */
  lemma FirstMatchShifts(s: string, pat: string, i: nat)
    requires |pat| > 0 && 0 < i <= |s| && MatchAt(s, pat, i)
    requires forall j: nat :: j < i ==> !MatchAt(s, pat, j)
    ensures |s| > 0 && !(pat <= s)
    ensures MatchAt(s[1..], pat, i - 1)
    ensures forall j: nat :: j < i - 1 ==> !MatchAt(s[1..], pat, j)
  {
    assert !MatchAt(s, pat, 0);
    assert s[1..][i - 1..] == s[i..];
    forall j: nat | j < i - 1 ensures !MatchAt(s[1..], pat, j) {
      assert s[1..][j..] == s[j + 1..];
      assert !MatchAt(s, pat, j + 1);
    }
  }

  /**
   * The scan takes the leftmost occurrence: when `pat` first occurs at `i`,
   * the text before `i` is kept, that occurrence is replaced, and the scan
   * resumes after it, so a later occurrence overlapping it is never matched.
   */
  lemma {:induction false} ReplaceAtFirstMatch(s: string, pat: string, rep: string, i: nat)
    requires |pat| > 0 && i <= |s| && MatchAt(s, pat, i)
    requires forall j: nat :: j < i ==> !MatchAt(s, pat, j)
    ensures i + |pat| <= |s|
    ensures Replace(s, pat, rep) == s[..i] + rep + Replace(s[i + |pat|..], pat, rep)
    decreases i
  {
    if i > 0 {
      FirstMatchShifts(s, pat, i);
      var t, tail := s[1..], s[i + |pat|..];
      ReplaceSkipsChar(s, pat, rep);
      ReplaceAtFirstMatch(t, pat, rep, i - 1);
      SliceAfterFirst(s, i, |pat|);
      ConsAssociates(s[0], t[..i - 1], rep, Replace(tail, pat, rep));
    }
  }

  /** Slices of `s[1..]` as slices of `s`. */
  lemma SliceAfterFirst(s: string, i: nat, n: nat)
    requires 0 < i && i + n <= |s|
    ensures s[..i] == [s[0]] + s[1..][..i - 1]
    ensures s[1..][i - 1 + n..] == s[i + n..]
  {
  }

  /** A character put before a three-part text joins its first part. */
  lemma ConsAssociates(c: char, a: string, b: string, d: string)
    ensures [c] + (a + b + d) == ([c] + a) + b + d
  {
  }

  /** The split scan ends its current piece at the leftmost occurrence of `pat`. */
  lemma {:induction false} SplitFromAtFirstMatch(s: string, pat: string, cur: string, i: nat)
    requires |pat| > 0 && i <= |s| && MatchAt(s, pat, i)
    requires forall j: nat :: j < i ==> !MatchAt(s, pat, j)
    ensures i + |pat| <= |s|
    ensures SplitFrom(s, pat, cur) == [cur + s[..i]] + SplitFrom(s[i + |pat|..], pat, "")
    decreases i
  {
    if i > 0 {
      FirstMatchShifts(s, pat, i);
      var t, tail := s[1..], s[i + |pat|..];
      SplitFromSkipsChar(s, pat, cur);
      SplitFromAtFirstMatch(t, pat, cur + [s[0]], i - 1);
      SliceAfterFirst(s, i, |pat|);
      assert cur + [s[0]] + t[..i - 1] == cur + s[..i];
    } else {
      assert pat <= s;
      assert cur + s[..0] == cur;
    }
  }

  /** The first piece of `s.split(pat)` is the text before the leftmost occurrence of `pat`. */
  lemma SplitAtFirstMatch(s: string, pat: string, i: nat)
    requires |pat| > 0 && i <= |s| && MatchAt(s, pat, i)
    requires forall j: nat :: j < i ==> !MatchAt(s, pat, j)
    ensures i + |pat| <= |s|
    ensures Split(s, pat) == [s[..i]] + Split(s[i + |pat|..], pat)
  {
    SplitFromAtFirstMatch(s, pat, "", i);
    assert "" + s[..i] == s[..i];
  }
}
