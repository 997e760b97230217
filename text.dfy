/**
 * String helpers shared by several components: substring search
 * (`in` in Python, `includes` in JavaScript) and the code-unit order used
 * by `Array.prototype.sort` and `localeCompare` on the identifiers of this code base.
 */
module Text {

  /** `sub` occurs in `s` at position `i`. */
  predicate OccursAt(s: string, sub: string, i: int)
  {
    0 <= i && i + |sub| <= |s| && s[i..i + |sub|] == sub
  }

  /** `sub in s` / `s.includes(sub)`. */
  predicate Contains(s: string, sub: string)
  {
    exists i :: 0 <= i <= |s| - |sub| && OccursAt(s, sub, i)
  }

  /** A string contains itself, and every string contains the empty string. */
  lemma ContainsSelf(s: string)
    ensures Contains(s, s) && Contains(s, "")
  {
    assert OccursAt(s, s, 0);
    assert OccursAt(s, "", 0);
  }

  /** Text around a string keeps every substring it has. */
  lemma ContainsInContext(s: string, sub: string, pre: string, post: string)
    ensures Contains(s, sub) ==> Contains(pre + s + post, sub)
  {
    if Contains(s, sub) {
      var i :| 0 <= i <= |s| - |sub| && OccursAt(s, sub, i);
      var t := pre + s + post;
      assert t[|pre| + i..|pre| + i + |sub|] == s[i..i + |sub|];
      assert OccursAt(t, sub, |pre| + i);
    }
  }

  /**
   * Strict lexicographic order on characters, the default string order of
   * JavaScript. JavaScript compares UTF-16 code units and this order compares
   * code points; the two differ only between characters beyond U+FFFF and
   * characters from U+E000 to U+FFFF.
   */
  predicate Less(a: string, b: string)
    decreases |a|
  {
    if |a| == 0 then |b| > 0
    else if |b| == 0 then false
    else if a[0] == b[0] then Less(a[1..], b[1..])
    else a[0] < b[0]
  }

  predicate LessEq(a: string, b: string)
  {
    a == b || Less(a, b)
  }

  lemma {:induction false} LessIrreflexive(a: string)
    ensures !Less(a, a)
    decreases |a|
  {
    if |a| > 0 {
      LessIrreflexive(a[1..]);
    }
  }

  lemma {:induction false} LessTransitive(a: string, b: string, c: string)
    requires Less(a, b) && Less(b, c)
    ensures Less(a, c)
    decreases |a|
  {
    if |a| > 0 && a[0] == b[0] && b[0] == c[0] {
      LessTransitive(a[1..], b[1..], c[1..]);
    }
  }

  lemma {:induction false} LessTotal(a: string, b: string)
    ensures a == b || Less(a, b) || Less(b, a)
    decreases |a|
  {
    if |a| > 0 && |b| > 0 && a[0] == b[0] {
      LessTotal(a[1..], b[1..]);
      if a[1..] == b[1..] {
        assert a == [a[0]] + a[1..] && b == [b[0]] + b[1..];
      }
    }
  }

  lemma LessAsymmetric(a: string, b: string)
    requires Less(a, b)
    ensures !Less(b, a) && a != b
  {
    if Less(b, a) {
      LessTransitive(a, b, a);
      LessIrreflexive(a);
    }
    if a == b {
      LessIrreflexive(a);
    }
  }

  /** Each string is at most the next one. */
  predicate SortedStrings(s: seq<string>)
  {
    forall i :: 0 < i < |s| ==> LessEq(s[i - 1], s[i])
  }

  function InsertString(x: string, s: seq<string>): (r: seq<string>)
    ensures |r| == |s| + 1 && (r[0] == x || (s != [] && r[0] == s[0]))
  {
    if s == [] then [x]
    else if Less(x, s[0]) then [x] + s
    else [s[0]] + InsertString(x, s[1..])
  }

  /** `Array.prototype.sort()` with the default comparison. */
  function SortStrings(s: seq<string>): seq<string>
    decreases |s|
  {
    if s == [] then [] else InsertString(s[|s| - 1], SortStrings(s[..|s| - 1]))
  }

  lemma {:induction false} InsertStringSpec(x: string, s: seq<string>)
    requires SortedStrings(s)
    ensures SortedStrings(InsertString(x, s))
    ensures multiset(InsertString(x, s)) == multiset(s) + multiset{x}
  {
    InsertStringSorted(x, s);
    InsertStringCount(x, s);
  }

  lemma {:induction false} InsertStringCount(x: string, s: seq<string>)
    ensures multiset(InsertString(x, s)) == multiset(s) + multiset{x}
    decreases |s|
  {
    if s != [] && !Less(x, s[0]) {
      var rest := InsertString(x, s[1..]);
      InsertStringCount(x, s[1..]);
      ConsCount(x, s, rest);
    }
  }

  lemma {:induction false} ConsCount(x: string, s: seq<string>, rest: seq<string>)
    requires s != [] && multiset(rest) == multiset(s[1..]) + multiset{x}
    ensures multiset([s[0]] + rest) == multiset(s) + multiset{x}
  {
    assert s == [s[0]] + s[1..];
  }

  lemma {:induction false} InsertStringSorted(x: string, s: seq<string>)
    requires SortedStrings(s)
    ensures SortedStrings(InsertString(x, s))
    decreases |s|
  {
    if s != [] && !Less(x, s[0]) {
      LessTotal(x, s[0]);
      var rest := InsertString(x, s[1..]);
      InsertStringSorted(x, s[1..]);
      var r := [s[0]] + rest;
      assert LessEq(r[0], r[1]) by {
        assert rest[0] == x || (|s| > 1 && rest[0] == s[1]);
      }
      forall i | 1 < i < |r| ensures LessEq(r[i - 1], r[i]) {
        assert r[i - 1] == rest[i - 2] && r[i] == rest[i - 1];
      }
    }
  }

  /** The sort orders the strings and keeps exactly them. */
  lemma {:induction false} SortStringsSpec(s: seq<string>)
    ensures SortedStrings(SortStrings(s))
    ensures multiset(SortStrings(s)) == multiset(s)
    decreases |s|
  {
    if s != [] {
      var front := s[..|s| - 1];
      SortStringsSpec(front);
      InsertStringSpec(s[|s| - 1], SortStrings(front));
      assert s == front + [s[|s| - 1]];
    }
  }

  /** Adjacent order extends to every pair. */
  lemma {:induction false} SortedPairs(s: seq<string>, i: int, j: int)
    requires SortedStrings(s) && 0 <= i <= j < |s|
    ensures LessEq(s[i], s[j])
    decreases j - i
  {
    if i < j {
      SortedPairs(s, i + 1, j);
      assert LessEq(s[i], s[i + 1]);
      if s[i] != s[i + 1] && s[i + 1] != s[j] {
        LessTransitive(s[i], s[i + 1], s[j]);
      }
    }
  }

  /** `entries.join(sep)`. */
  function Join(xs: seq<string>, sep: string): (r: string)
    // the joined text starts with the first entry and ends with the last
    ensures |xs| > 0 ==> |xs[0]| <= |r| && r[..|xs[0]|] == xs[0]
    ensures |xs| > 0 ==> |xs[|xs| - 1]| <= |r| && r[|r| - |xs[|xs| - 1]|..] == xs[|xs| - 1]
    decreases |xs|
  {
    if |xs| == 0 then ""
    else if |xs| == 1 then xs[0]
    else Join(xs[..|xs| - 1], sep) + sep + xs[|xs| - 1]
  }

  /**
   * `s.split(c)`: the pieces between occurrences of `c`, empty ones
   * included, so that text without `c` (the empty text too) is one piece.
   */
  function Split(s: string, c: char): (r: seq<string>)
    ensures |r| >= 1
    decreases |s|
  {
    if s == [] then [""]
    else
      var rest := Split(s[..|s| - 1], c);
      if s[|s| - 1] == c then rest + [""]
      else rest[..|rest| - 1] + [rest[|rest| - 1] + [s[|s| - 1]]]
  }

  /** Joining one more entry appends the separator and the entry. */
  lemma JoinSnoc(xs: seq<string>, x: string, sep: string)
    requires |xs| > 0
    ensures Join(xs + [x], sep) == Join(xs, sep) + sep + x
  {
    assert (xs + [x])[..|xs|] == xs;
  }

  /** Joining the pieces with the separator gives back the text. */
  lemma {:induction false} SplitJoin(s: string, c: char)
    ensures Join(Split(s, c), [c]) == s
    decreases |s|
  {
    if s != [] {
      var front := s[..|s| - 1];
      SplitJoin(front, c);
      assert front + [s[|s| - 1]] == s;
      SplitJoinStep(front, s[|s| - 1], c);
    }
  }

  /** One more character at the end of the text is one more character at the end of the joined pieces. */
  lemma SplitJoinStep(front: string, last: char, c: char)
    ensures Join(Split(front + [last], c), [c]) == Join(Split(front, c), [c]) + [last]
  {
    var s := front + [last];
    assert s[..|s| - 1] == front && s[|s| - 1] == last;
    var rest := Split(front, c);
    if last == c {
      assert Split(s, c) == rest + [""];
      JoinSnoc(rest, "", [c]);
    } else {
      assert Split(s, c) == rest[..|rest| - 1] + [rest[|rest| - 1] + [last]];
      JoinExtendLast(rest, last, [c]);
    }
  }

  /** Extending the last entry by one character extends the joined text by it. */
  lemma JoinExtendLast(xs: seq<string>, ch: char, sep: string)
    requires |xs| > 0
    ensures Join(xs[..|xs| - 1] + [xs[|xs| - 1] + [ch]], sep) == Join(xs, sep) + [ch]
  {
    var init := xs[..|xs| - 1];
    if |xs| > 1 {
      assert xs == init + [xs[|xs| - 1]];
      JoinSnoc(init, xs[|xs| - 1], sep);
      JoinSnoc(init, xs[|xs| - 1] + [ch], sep);
    }
  }

  /** Text without the separator is a single piece. */
  lemma {:induction false} SplitNoSeparator(t: string, c: char)
    requires c !in t
    ensures Split(t, c) == [t]
    decreases |t|
  {
    if t != [] {
      SplitNoSeparator(t[..|t| - 1], c);
      assert t[..|t| - 1] + [t[|t| - 1]] == t;
    }
  }

  /** A separator followed by text without one adds exactly that text as the last piece. */
  lemma {:induction false} SplitAppendPiece(s: string, t: string, c: char)
    requires c !in t
    ensures Split(s + [c] + t, c) == Split(s, c) + [t]
    decreases |t|
  {
    var u := s + [c] + t;
    if t == [] {
      assert u[..|u| - 1] == s;
    } else {
      var front := t[..|t| - 1];
      assert u[..|u| - 1] == s + [c] + front;
      SplitAppendPiece(s, front, c);
      var rest := Split(s, c) + [front];
      assert Split(u, c) == rest[..|rest| - 1] + [front + [t[|t| - 1]]];
      assert rest[..|rest| - 1] == Split(s, c);
      assert front + [t[|t| - 1]] == t;
    }
  }

  /** Splitting pieces joined with a separator none of them holds gives the pieces back. */
  lemma {:induction false} JoinSplit(pieces: seq<string>, c: char)
    requires |pieces| >= 1
    requires forall i :: 0 <= i < |pieces| ==> c !in pieces[i]
    ensures Split(Join(pieces, [c]), c) == pieces
    decreases |pieces|
  {
    if |pieces| == 1 {
      SplitNoSeparator(pieces[0], c);
    } else {
      var init := pieces[..|pieces| - 1];
      JoinSplit(init, c);
      SplitAppendPiece(Join(init, [c]), pieces[|pieces| - 1], c);
      assert init + [pieces[|pieces| - 1]] == pieces;
    }
  }

  /** No piece holds the separator. */
  lemma {:induction false} SplitPieces(s: string, c: char)
    ensures forall i :: 0 <= i < |Split(s, c)| ==> c !in Split(s, c)[i]
    decreases |s|
  {
    if s != [] {
      SplitPieces(s[..|s| - 1], c);
    }
  }

  lemma SortStringsLength(s: seq<string>)
    ensures |SortStrings(s)| == |s|
  {
    SortStringsSpec(s);
    assert |multiset(SortStrings(s))| == |multiset(s)|;
  }

}
