/** The string operations of the generator: `endsWith`, JavaScript's `<` on
    strings (the order `Array.prototype.sort` uses by default), `replaceAll`
    with a string pattern, `split` on one character, and `path.join` of two
    components. */
module Text {

  /** `s.endsWith(suffix)`. */
  predicate EndsWith(s: string, suffix: string)
  {
    |suffix| <= |s| && s[|s| - |suffix|..] == suffix
  }

  /** `pat` occurs in `s` starting at position `k`. */
  predicate ContainsAt(s: string, pat: string, k: nat)
  {
    k + |pat| <= |s| && s[k..k + |pat|] == pat
  }

  predicate StartsWith(s: string, prefix: string)
  {
    |prefix| <= |s| && s[..|prefix|] == prefix
  }

  /** No character of `w` occurs anywhere in `x`. */
  predicate Disjoint(w: string, x: string)
  {
    forall k :: 0 <= k < |w| ==> w[k] !in x
  }

  /** `path.join(dir, name)` for a directory and one plain component. */
  function PathJoin(dir: string, name: string): string
  {
    dir + "/" + name
  }

  // ---------------------------------------------------------------------
  // String order

  /** `a <= b` on JavaScript strings: lexicographic by character, a proper
      prefix sorting first. */
  predicate LessEq(a: string, b: string)
    ensures StartsWith(b, a) ==> LessEq(a, b)
    ensures a != [] && b != [] && a[0] != b[0] ==> (LessEq(a, b) <==> a[0] < b[0])
  {
    a == [] || (b != [] && (a[0] < b[0] || (a[0] == b[0] && LessEq(a[1..], b[1..]))))
  }

  lemma {:induction false} LessEqTotal(a: string, b: string)
    ensures LessEq(a, b) || LessEq(b, a)
  {
    if a != [] && b != [] && a[0] == b[0] {
      LessEqTotal(a[1..], b[1..]);
    }
  }

  lemma {:induction false} LessEqTransitive(a: string, b: string, c: string)
    requires LessEq(a, b) && LessEq(b, c)
    ensures LessEq(a, c)
  {
    if a != [] && b != [] && c != [] && a[0] == b[0] == c[0] {
      LessEqTransitive(a[1..], b[1..], c[1..]);
    }
  }

  lemma {:induction false} LessEqAntisymmetric(a: string, b: string)
    requires LessEq(a, b) && LessEq(b, a)
    ensures a == b
  {
    if a != [] && b != [] {
      LessEqAntisymmetric(a[1..], b[1..]);
      assert a == [a[0]] + a[1..] && b == [b[0]] + b[1..];
    }
  }

  /** Comparing two strings of equal length extended by one character each:
      the prefixes decide, and only equal prefixes leave it to the last
      characters. */
  lemma {:induction false} LessEqAppend(s: string, t: string, c: char, d: char)
    requires |s| == |t|
    ensures LessEq(s + [c], t + [d]) <==> (LessEq(s, t) && s != t) || (s == t && c <= d)
  {
    if s != [] {
      assert (s + [c])[0] == s[0] && (s + [c])[1..] == s[1..] + [c];
      assert (t + [d])[0] == t[0] && (t + [d])[1..] == t[1..] + [d];
      LessEqAppend(s[1..], t[1..], c, d);
      assert s == [s[0]] + s[1..] && t == [t[0]] + t[1..];
    }
  }

  // ---------------------------------------------------------------------
  // replaceAll

  /** `s.replaceAll(pat, rep)` for a string pattern: occurrences are found
      left to right and do not overlap. */
  function ReplaceAll(s: string, pat: string, rep: string): (r: string)
    requires pat != []
    ensures |s| < |pat| ==> r == s
    ensures StartsWith(s, pat) ==> StartsWith(r, rep)
    ensures |pat| == |rep| ==> |r| == |s|
    decreases |s|
  {
    if |s| < |pat| then s
    else if s[..|pat|] == pat then rep + ReplaceAll(s[|pat|..], pat, rep)
    else [s[0]] + ReplaceAll(s[1..], pat, rep)
  }

  /** One step of `replaceAll` where the input starts with the pattern. */
  lemma ReplaceAllMatchStep(s: string, pat: string, rep: string)
    requires pat != [] && |pat| <= |s| && s[..|pat|] == pat
    ensures ReplaceAll(s, pat, rep) == rep + ReplaceAll(s[|pat|..], pat, rep)
  {
  }

  /** One step of `replaceAll` where the input does not start with the
      pattern. */
  lemma ReplaceAllSkipStep(s: string, pat: string, rep: string)
    requires pat != [] && |pat| <= |s| && s[..|pat|] != pat
    ensures ReplaceAll(s, pat, rep) == [s[0]] + ReplaceAll(s[1..], pat, rep)
  {
  }

  /** A string with one more character in front starts with `w` exactly
      when `w` starts with that character and the rest of `w` begins the
      string. */
  lemma StartsWithCons(c: char, t: string, w: string)
    requires w != []
    ensures StartsWith([c] + t, w) <==> w[0] == c && StartsWith(t, w[1..])
  {
    if |w| <= |t| + 1 {
      assert ([c] + t)[..|w|] == [c] + t[..|w| - 1];
      assert w == [w[0]] + w[1..];
    }
  }

  /** A prefix made of characters the replacement never contains can only
      come from the input itself. */
  lemma {:induction false} ReplaceAllKeepsPrefix(s: string, pat: string, rep: string, w: string)
    requires pat != [] && rep != []
    requires Disjoint(w, rep)
    ensures StartsWith(ReplaceAll(s, pat, rep), w) ==> StartsWith(s, w)
    decreases |s|
  {
    if |s| < |pat| || w == [] {
    } else if s[..|pat|] == pat {
      ReplaceAllMatchStep(s, pat, rep);
      assert ReplaceAll(s, pat, rep)[0] == rep[0];
      assert w[0] !in rep;
    } else {
      var r' := ReplaceAll(s[1..], pat, rep);
      ReplaceAllSkipStep(s, pat, rep);
      assert Disjoint(w[1..], rep) by {
        forall k | 0 <= k < |w[1..]| ensures w[1..][k] !in rep {
          assert w[1..][k] == w[k + 1];
        }
      }
      ReplaceAllKeepsPrefix(s[1..], pat, rep, w[1..]);
      StartsWithCons(s[0], r', w);
      StartsWithCons(s[0], s[1..], w);
      assert s == [s[0]] + s[1..];
    }
  }

  /** After `replaceAll` no occurrence of the pattern is left, provided the
      replacement shares no character with the pattern. */
  lemma {:induction false} ReplaceAllRemovesPatternAt(s: string, pat: string, rep: string, k: nat)
    requires pat != [] && rep != []
    requires Disjoint(pat, rep)
    ensures !ContainsAt(ReplaceAll(s, pat, rep), pat, k)
    decreases |s|, 1
  {
    if |s| < |pat| {
    } else if s[..|pat|] == pat {
      RemovesAfterMatch(s, pat, rep, k);
    } else {
      RemovesAfterSkip(s, pat, rep, k);
    }
  }

  /** The case of `ReplaceAllRemovesPatternAt` where the input starts with
      the pattern. */
  lemma {:induction false} RemovesAfterMatch(s: string, pat: string, rep: string, k: nat)
    requires pat != [] && rep != []
    requires Disjoint(pat, rep)
    requires |s| >= |pat| && s[..|pat|] == pat
    ensures !ContainsAt(ReplaceAll(s, pat, rep), pat, k)
    decreases |s|, 0
  {
    var r' := ReplaceAll(s[|pat|..], pat, rep);
    assert ReplaceAll(s, pat, rep) == rep + r';
    if k < |rep| {
      HeadAvoidsPattern(rep, r', pat, k);
    } else {
      ReplaceAllRemovesPatternAt(s[|pat|..], pat, rep, k - |rep|);
      ShiftAvoidsPattern(rep, r', pat, k);
    }
  }

  /** An occurrence of `pat` cannot start inside a head that shares no
      character with `pat`. */
  lemma HeadAvoidsPattern(head: string, rest: string, pat: string, k: nat)
    requires pat != [] && Disjoint(pat, head) && k < |head|
    ensures !ContainsAt(head + rest, pat, k)
  {
    var t := head + rest;
    if k + |pat| <= |t| {
      assert t[k..k + |pat|][0] == head[k];
      assert head[k] in head;
    }
  }

  /** Past a head, occurrences are those of the rest. */
  lemma ShiftAvoidsPattern(head: string, rest: string, pat: string, k: nat)
    requires |head| <= k && !ContainsAt(rest, pat, k - |head|)
    ensures !ContainsAt(head + rest, pat, k)
  {
    var t := head + rest;
    if k + |pat| <= |t| {
      assert rest[k - |head|..k - |head| + |pat|] == t[k..k + |pat|];
    }
  }

  /** The case of `ReplaceAllRemovesPatternAt` where the input does not
      start with the pattern. */
  lemma {:induction false} RemovesAfterSkip(s: string, pat: string, rep: string, k: nat)
    requires pat != [] && rep != []
    requires Disjoint(pat, rep)
    requires |s| >= |pat| && s[..|pat|] != pat
    ensures !ContainsAt(ReplaceAll(s, pat, rep), pat, k)
    decreases |s|, 0
  {
    var r' := ReplaceAll(s[1..], pat, rep);
    assert ReplaceAll(s, pat, rep) == [s[0]] + r';
    if k == 0 {
      ReplaceAllKeepsPrefix(s, pat, rep, pat);
    } else {
      ReplaceAllRemovesPatternAt(s[1..], pat, rep, k - 1);
      ShiftAvoidsPattern([s[0]], r', pat, k);
    }
  }

  /** Wrapping a string that does not contain `pat` between a prefix that
      lacks `pat`'s first character and a suffix that lacks its last one
      does not create an occurrence. */
  lemma WrappedAvoidsPattern(pre: string, mid: string, post: string, pat: string, k: nat)
    requires pat != []
    requires forall j: nat :: !ContainsAt(mid, pat, j)
    requires pat[0] !in pre && pat[|pat| - 1] !in post
    ensures !ContainsAt(pre + mid + post, pat, k)
  {
    var s := pre + mid + post;
    if k + |pat| <= |s| {
      if k < |pre| {
        assert s[k..k + |pat|][0] == pre[k];
      } else if k + |pat| <= |pre| + |mid| {
        assert !ContainsAt(mid, pat, k - |pre|);
        assert s[k..k + |pat|] == mid[k - |pre|..k - |pre| + |pat|];
      } else {
        assert s[k..k + |pat|][|pat| - 1] == post[k + |pat| - 1 - |pre| - |mid|];
      }
    }
  }

  /** The first occurrence of the pattern becomes the replacement, the text
      before it is kept, and the search goes on after it. */
  lemma {:induction false} ReplaceAllFirst(a: string, b: string, pat: string, rep: string)
    requires pat != []
    requires forall k :: 0 <= k < |a| ==> !ContainsAt(a + pat + b, pat, k)
    ensures ReplaceAll(a + pat + b, pat, rep) == a + rep + ReplaceAll(b, pat, rep)
    decreases |a|
  {
    if a == [] {
      var s := pat + b;
      assert a + pat + b == s;
      assert s[..|pat|] == pat && s[|pat|..] == b;
      ReplaceAllMatchStep(s, pat, rep);
    } else {
      var t := a[1..] + pat + b;
      assert a + pat + b == [a[0]] + t;
      forall k | 0 <= k < |a[1..]| ensures !ContainsAt(t, pat, k) {
        assert !ContainsAt(a + pat + b, pat, k + 1);
        ContainsAtShift(a[0], t, pat, k);
      }
      assert !ContainsAt([a[0]] + t, pat, 0);
      ReplaceAllSkipCons(a[0], t, pat, rep);
      ReplaceAllFirst(a[1..], b, pat, rep);
      assert [a[0]] + a[1..] == a;
      Regroup([a[0]], a[1..], rep, ReplaceAll(b, pat, rep));
    }
  }

  /** A character that does not begin an occurrence is kept as it is. */
  lemma ReplaceAllSkipCons(c: char, t: string, pat: string, rep: string)
    requires pat != [] && |pat| <= 1 + |t| && !ContainsAt([c] + t, pat, 0)
    ensures ReplaceAll([c] + t, pat, rep) == [c] + ReplaceAll(t, pat, rep)
  {
    var s := [c] + t;
    assert s[0..|pat|] == s[..|pat|];
    ReplaceAllSkipStep(s, pat, rep);
    assert s[1..] == t;
  }

  lemma Regroup(c: string, x: string, y: string, z: string)
    ensures c + (x + y + z) == c + x + y + z
  {
  }

  /** Occurrences in a string are those one further on after one more
      character in front. */
  lemma ContainsAtShift(c: char, t: string, pat: string, k: nat)
    ensures ContainsAt([c] + t, pat, k + 1) <==> ContainsAt(t, pat, k)
  {
    if k + |pat| <= |t| {
      assert ([c] + t)[k + 1..k + 1 + |pat|] == t[k..k + |pat|];
    }
  }

  /** A string without any occurrence of the pattern is left as it is. */
  lemma {:induction false} ReplaceAllWithoutPattern(s: string, pat: string, rep: string)
    requires pat != []
    requires forall k: nat :: !ContainsAt(s, pat, k)
    ensures ReplaceAll(s, pat, rep) == s
    decreases |s|
  {
    if |s| >= |pat| {
      assert !ContainsAt(s, pat, 0);
      forall k: nat ensures !ContainsAt(s[1..], pat, k) {
        if ContainsAt(s[1..], pat, k) {
          assert s[k + 1..k + 1 + |pat|] == s[1..][k..k + |pat|];
          assert ContainsAt(s, pat, k + 1);
        }
      }
      ReplaceAllWithoutPattern(s[1..], pat, rep);
      assert s == [s[0]] + s[1..];
    }
  }

  // ---------------------------------------------------------------------
  // split and join

  /** `s.split(sep)` for a one-character separator: the pieces between
      separators, always at least one. */
  function Split(s: string, sep: char): (parts: seq<string>)
    ensures |parts| >= 1
    ensures forall k :: 0 <= k < |parts| ==> sep !in parts[k]
  {
    if s == [] then [[]]
    else
      var rest := Split(s[1..], sep);
      if s[0] == sep then [[]] + rest
      else [[s[0]] + rest[0]] + rest[1..]
  }

  /** The pieces one after another, as `+` on strings builds a template. */
  function Concat(parts: seq<string>): string
  {
    if parts == [] then [] else parts[0] + Concat(parts[1..])
  }

  /** Concatenating two runs of pieces is concatenating their results. */
  lemma {:induction false} ConcatAppend(a: seq<string>, b: seq<string>)
    ensures Concat(a + b) == Concat(a) + Concat(b)
  {
    if a != [] {
      assert (a + b)[1..] == a[1..] + b;
      ConcatAppend(a[1..], b);
    } else {
      assert a + b == b;
    }
  }

  /** The first `k + 1` pieces are the first `k` followed by the `k`-th. */
  lemma ConcatSnoc(parts: seq<string>, k: nat)
    requires k < |parts|
    ensures Concat(parts[..k + 1]) == Concat(parts[..k]) + parts[k]
  {
    assert parts[..k + 1] == parts[..k] + [parts[k]];
    ConcatAppend(parts[..k], [parts[k]]);
    assert Concat([parts[k]]) == parts[k] + Concat([]);
  }

  /** `parts.join(sep)`. */
  function JoinWith(parts: seq<string>, sep: char): string
    requires |parts| >= 1
  {
    if |parts| == 1 then parts[0] else parts[0] + [sep] + JoinWith(parts[1..], sep)
  }

  /** Splitting loses nothing: joining the pieces back gives the input. */
  lemma {:induction false} JoinSplit(s: string, sep: char)
    ensures JoinWith(Split(s, sep), sep) == s
  {
    if s != [] {
      var rest := Split(s[1..], sep);
      JoinSplit(s[1..], sep);
      if s[0] == sep {
        assert ([[]] + rest)[1..] == rest;
      } else if |rest| == 1 {
      } else {
        var parts := [[s[0]] + rest[0]] + rest[1..];
        assert parts[1..] == rest[1..];
        assert JoinWith(rest, sep) == rest[0] + [sep] + JoinWith(rest[1..], sep);
      }
    }
  }

  /** Splitting around one separator splits each side on its own. */
  lemma {:induction false} SplitAround(a: string, b: string, sep: char)
    ensures Split(a + [sep] + b, sep) == Split(a, sep) + Split(b, sep)
  {
    if a == [] {
      assert a + [sep] + b == [sep] + b;
      assert ([sep] + b)[1..] == b;
    } else {
      assert (a + [sep] + b)[0] == a[0];
      assert (a + [sep] + b)[1..] == a[1..] + [sep] + b;
      SplitAround(a[1..], b, sep);
    }
  }

  /** A string without the separator is a single piece. */
  lemma {:induction false} SplitWithoutSeparator(s: string, sep: char)
    requires sep !in s
    ensures Split(s, sep) == [s]
  {
    if s != [] {
      SplitWithoutSeparator(s[1..], sep);
      assert s == [s[0]] + s[1..];
    }
  }
}
