/**
 * The few JavaScript string operations the upgrade steps and the status bar
 * use, on strings as sequences of characters: `startsWith`, `indexOf`,
 * `includes`, `replace` with a string pattern (first occurrence only),
 * `split` on a delimiter (optionally with a negative lookahead, as in the
 * regular expression `/<th(?!ead)/`) and `join`.
 */
module Text {
  import opened Wrappers

  /** `s` begins with `p`. */
  predicate StartsWith(s: string, p: string)
  {
    |p| <= |s| && s[..|p|] == p
  }

  /**
   * A search pattern: literal `text`, optionally followed by a negative
   * lookahead; an empty `notFollowedBy` means there is no lookahead.
   */
  datatype Pattern = Pattern(text: string, notFollowedBy: string)

  /** The pattern of a plain string search. */
  function Literal(t: string): Pattern
  {
    Pattern(t, [])
  }

  /** The pattern matches `s` at position `k`. */
  predicate MatchAt(s: string, k: int, p: Pattern)
  {
    0 <= k <= |s| && StartsWith(s[k..], p.text) &&
    (p.notFollowedBy == [] || !StartsWith(s[k + |p.text|..], p.notFollowedBy))
  }

  /** The leftmost match of `p` in `s` at or after position `from`. */
  function IndexFrom(s: string, p: Pattern, from: nat): (r: Option<nat>)
    requires from <= |s|
    ensures r.Some? ==> from <= r.value && r.value + |p.text| <= |s| && MatchAt(s, r.value, p)
    ensures r.Some? ==> forall j :: from <= j < r.value ==> !MatchAt(s, j, p)
    ensures r.None? ==> forall j :: from <= j <= |s| ==> !MatchAt(s, j, p)
    decreases |s| - from
  {
    if MatchAt(s, from, p) then Some(from)
    else if from == |s| then None
    else IndexFrom(s, p, from + 1)
  }

  /** JavaScript's `indexOf` (and the search behind `split` and `replace`). */
  function IndexOf(s: string, p: Pattern): (r: Option<nat>)
    ensures r.Some? ==> r.value + |p.text| <= |s| && MatchAt(s, r.value, p)
    ensures r.Some? ==> forall j :: 0 <= j < r.value ==> !MatchAt(s, j, p)
    ensures r.None? ==> forall j :: 0 <= j <= |s| ==> !MatchAt(s, j, p)
  {
    IndexFrom(s, p, 0)
  }

  /** JavaScript's `s.includes(t)`. */
  predicate Contains(s: string, t: string)
  {
    IndexOf(s, Literal(t)).Some?
  }

  /** `t` occurs in `s` at position `k`. */
  predicate OccursAt(s: string, t: string, k: int)
  {
    0 <= k && k + |t| <= |s| && s[k..k + |t|] == t
  }

  /** A literal pattern matches exactly where its text occurs. */
  lemma MatchAtLiteral(s: string, t: string, k: int)
    ensures MatchAt(s, k, Literal(t)) <==> OccursAt(s, t, k)
  {
    if 0 <= k <= |s| && k + |t| <= |s| {
      assert s[k..][..|t|] == s[k..k + |t|];
    }
  }

  /** `Contains` is the existence of an occurrence, in both directions. */
  lemma ContainsIff(s: string, t: string)
    ensures Contains(s, t) <==> exists k :: OccursAt(s, t, k)
  {
    if Contains(s, t) {
      var k := IndexOf(s, Literal(t)).value;
      MatchAtLiteral(s, t, k);
    } else {
      forall k | OccursAt(s, t, k)
        ensures false
      {
        MatchAtLiteral(s, t, k);
      }
    }
  }

  /** An occurrence of `t` inside `s` makes `s` contain `t`. */
  lemma ContainsAt(s: string, t: string, k: int)
    requires OccursAt(s, t, k)
    ensures Contains(s, t)
  {
    ContainsIff(s, t);
  }

  /** Containment is inherited by every string that has `s` as a slice. */
  lemma ContainsInfix(a: string, s: string, b: string, t: string)
    requires Contains(s, t)
    ensures Contains(a + s + b, t)
  {
    ContainsIff(s, t);
    var k :| OccursAt(s, t, k);
    assert (a + s + b)[|a| + k..|a| + k + |t|] == s[k..k + |t|];
    ContainsAt(a + s + b, t, |a| + k);
  }

  /**
   * JavaScript's `s.replace(t, r)` with a string pattern: only the first
   * occurrence of `t` is replaced; without one, `s` is returned as it is.
   */
  function ReplaceFirst(s: string, t: string, r: string): (out: string)
    ensures !Contains(s, t) ==> out == s
    ensures Contains(s, t) ==> |out| == |s| - |t| + |r|
  {
    match IndexOf(s, Literal(t))
    case None => s
    case Some(k) => s[..k] + r + s[k + |t|..]
  }

  /**
   * Where the first occurrence is known, `ReplaceFirst` puts `r` in its place
   * and keeps everything before and after it.
   */
  lemma ReplaceFirstAt(a: string, t: string, b: string, r: string)
    requires |t| > 0 && !Contains(a + t[..|t| - 1], t)
    ensures ReplaceFirst(a + t + b, t, r) == a + r + b
  {
    var s := a + t + b;
    assert s[|a|..][..|t|] == t;
    assert MatchAt(s, |a|, Literal(t));
    var k := IndexOf(s, Literal(t)).value;
    if k < |a| {
      MatchAtLiteral(s, t, k);
      var pre := a + t[..|t| - 1];
      assert pre == s[..|a| + |t| - 1];
      assert pre[k..k + |t|] == s[k..k + |t|];
      ContainsAt(pre, t, k);
    }
    assert k == |a|;
  }

  /** JavaScript's `split` on a non-empty delimiter pattern. */
  function Split(s: string, p: Pattern): (parts: seq<string>)
    requires |p.text| > 0
    ensures |parts| >= 1
    decreases |s|
  {
    match IndexOf(s, p)
    case None => [s]
    case Some(k) => [s[..k]] + Split(s[k + |p.text|..], p)
  }

  /** JavaScript's `join`: the parts with `sep` between neighbours. */
  function Join(parts: seq<string>, sep: string): string
  {
    if |parts| == 0 then []
    else if |parts| == 1 then parts[0]
    else Join(parts[..|parts| - 1], sep) + sep + parts[|parts| - 1]
  }

  /** `Join` unfolded from the front. */
  lemma {:induction false} JoinCons(a: string, rest: seq<string>, sep: string)
    requires |rest| >= 1
    ensures Join([a] + rest, sep) == a + sep + Join(rest, sep)
    decreases |rest|
  {
    if |rest| > 1 {
      var all := [a] + rest;
      assert all[..|all| - 1] == [a] + rest[..|rest| - 1];
      JoinCons(a, rest[..|rest| - 1], sep);
    }
  }

  /** `Join` of a longer list: the joined prefix, the separator, the last part. */
  lemma JoinSnoc(parts: seq<string>, last: string, sep: string)
    requires |parts| >= 1
    ensures Join(parts + [last], sep) == Join(parts, sep) + sep + last
  {
    assert (parts + [last])[..|parts|] == parts;
  }

  /** A match cuts `s` into what precedes it, the pattern text and the rest. */
  lemma MatchDecomposes(s: string, k: int, p: Pattern)
    requires MatchAt(s, k, p)
    ensures k + |p.text| <= |s| && s == s[..k] + p.text + s[k + |p.text|..]
  {
    assert s[k..][..|p.text|] == p.text;
    assert s[k..k + |p.text|] == p.text;
  }

  /** Splitting and joining back with the delimiter gives the input again. */
  lemma {:induction false} JoinSplit(s: string, p: Pattern)
    requires |p.text| > 0
    ensures Join(Split(s, p), p.text) == s
    decreases |s|
  {
    var r := IndexOf(s, p);
    if r.Some? {
      var k := r.value;
      var rest := s[k + |p.text|..];
      JoinSplit(rest, p);
      JoinCons(s[..k], Split(rest, p), p.text);
      MatchDecomposes(s, k, p);
    }
  }

  /** No part of a literal split contains the delimiter. */
  lemma {:induction false} SplitPartsFree(s: string, d: string)
    requires |d| > 0
    ensures forall j :: 0 <= j < |Split(s, Literal(d))| ==> !Contains(Split(s, Literal(d))[j], d)
    decreases |s|
  {
    match IndexOf(s, Literal(d))
    case None =>
    case Some(k) =>
      var rest := s[k + |d|..];
      SplitPartsFree(rest, d);
      BeforeFirstFree(s, d, k);
      var parts := Split(s, Literal(d));
      assert parts == [s[..k]] + Split(rest, Literal(d));
      forall j | 0 <= j < |parts|
        ensures !Contains(parts[j], d)
      {
        if j > 0 {
          assert parts[j] == Split(rest, Literal(d))[j - 1];
        }
      }
  }

  /** The text before the first occurrence of `d` does not contain `d`. */
  lemma BeforeFirstFree(s: string, d: string, k: nat)
    requires |d| > 0 && IndexOf(s, Literal(d)) == Some(k)
    ensures !Contains(s[..k], d)
  {
    if Contains(s[..k], d) {
      ContainsIff(s[..k], d);
      var i :| OccursAt(s[..k], d, i);
      assert s[i..i + |d|] == s[..k][i..i + |d|];
      MatchAtLiteral(s, d, i);
    }
  }

  /** The decimal digit character of `d`. */
  function DigitChar(d: nat): (c: char)
    requires d < 10
    ensures '0' <= c <= '9' && c as int - '0' as int == d
  {
    ('0' as int + d) as char
  }

  /** JavaScript's `String(n)` for a non-negative integer: its decimal digits. */
  function NatToString(n: nat): (s: string)
    ensures |s| >= 1 && forall i :: 0 <= i < |s| ==> '0' <= s[i] <= '9'
    ensures s[0] == '0' ==> n == 0
  {
    if n < 10 then [DigitChar(n)] else NatToString(n / 10) + [DigitChar(n % 10)]
  }

  /** Where `ReplaceFirst` acts: at the first occurrence of `t`, keeping what precedes and follows it. */
  lemma ReplaceFirstSplits(s: string, t: string, r: string)
    requires Contains(s, t)
    ensures var k := IndexOf(s, Literal(t)).value;
      k + |t| <= |s| && s == s[..k] + t + s[k + |t|..] && ReplaceFirst(s, t, r) == s[..k] + r + s[k + |t|..]
  {
    var k := IndexOf(s, Literal(t)).value;
    MatchDecomposes(s, k, Literal(t));
  }

  /** A pattern whose first character does not occur in `s` has no match in it. */
  lemma NoMatchWithoutFirst(s: string, p: Pattern)
    requires |p.text| > 0 && forall i :: 0 <= i < |s| ==> s[i] != p.text[0]
    ensures IndexOf(s, p).None?
  {
    forall j | 0 <= j <= |s|
      ensures !MatchAt(s, j, p)
    {
      if j < |s| {
        assert s[j..][0] == s[j] != p.text[0];
      }
    }
  }

  /**
   * `a` is `b` with some characters deleted: the characters of `a` occur
   * in `b` in the same order.
   */
  predicate Sub(a: string, b: string)
    decreases |b|
  {
    if a == [] then true
    else if b == [] then false
    else (a[0] == b[0] && Sub(a[1..], b[1..])) || Sub(a, b[1..])
  }

  /** Deleting nothing. */
  lemma {:induction false} SubRefl(a: string)
    ensures Sub(a, a)
    decreases |a|
  {
    if a != [] {
      SubRefl(a[1..]);
    }
  }

  /** Text inserted in front can be deleted again. */
  lemma {:induction false} SubPrepend(x: string, a: string, b: string)
    requires Sub(a, b)
    ensures Sub(a, x + b)
    decreases |x|
  {
    if x == [] {
      assert x + b == b;
    } else {
      SubPrepend(x[1..], a, b);
      assert (x + b)[1..] == x[1..] + b;
    }
  }

  /** Deletions in two halves are a deletion in the whole. */
  lemma {:induction false} SubConcat(a1: string, b1: string, a2: string, b2: string)
    requires Sub(a1, b1) && Sub(a2, b2)
    ensures Sub(a1 + a2, b1 + b2)
    decreases |b1|
  {
    if a1 == [] {
      SubPrepend(b1, a2, b2);
      assert a1 + a2 == a2;
    } else {
      assert (b1 + b2)[1..] == b1[1..] + b2;
      assert (a1 + a2)[1..] == a1[1..] + a2;
      if a1[0] == b1[0] && Sub(a1[1..], b1[1..]) {
        SubConcat(a1[1..], b1[1..], a2, b2);
      } else {
        SubConcat(a1, b1[1..], a2, b2);
      }
    }
  }

  /** Two rounds of deletion are one. */
  lemma {:induction false} SubTrans(a: string, b: string, c: string)
    requires Sub(a, b) && Sub(b, c)
    ensures Sub(a, c)
    decreases |c|
  {
    if a != [] {
      if b[0] == c[0] && Sub(b[1..], c[1..]) {
        if a[0] == b[0] && Sub(a[1..], b[1..]) {
          SubTrans(a[1..], b[1..], c[1..]);
        } else {
          SubTrans(a, b[1..], c[1..]);
        }
      } else {
        SubTrans(a, b, c[1..]);
      }
    }
  }

  /** Joining parts that each lost some characters, with the same separator. */
  lemma {:induction false} SubJoin(ps: seq<string>, qs: seq<string>, sep: string)
    requires |ps| == |qs| && forall i :: 0 <= i < |ps| ==> Sub(ps[i], qs[i])
    ensures Sub(Join(ps, sep), Join(qs, sep))
    decreases |ps|
  {
    if |ps| > 1 {
      var n := |ps| - 1;
      SubJoin(ps[..n], qs[..n], sep);
      SubRefl(sep);
      SubConcat(Join(ps[..n], sep), Join(qs[..n], sep), sep, sep);
      SubConcat(Join(ps[..n], sep) + sep, Join(qs[..n], sep) + sep, ps[n], qs[n]);
    }
  }

  /** Character `c` does not occur in `s`. */
  predicate Lacks(s: string, c: char)
  {
    forall i :: 0 <= i < |s| ==> s[i] != c
  }

  /** A concatenation lacks what both halves lack. */
  lemma LacksConcat(a: string, b: string, c: char)
    requires Lacks(a, c) && Lacks(b, c)
    ensures Lacks(a + b, c)
  {
  }

  /** Replacing the first `t` by a text that `t` is a subsequence of only inserts characters. */
  lemma SubReplaceFirst(s: string, t: string, r: string)
    requires Sub(t, r)
    ensures Sub(s, ReplaceFirst(s, t, r))
  {
    if Contains(s, t) {
      ReplaceFirstSplits(s, t, r);
      var k := IndexOf(s, Literal(t)).value;
      SubMiddle(s[..k], t, r, s[k + |t|..]);
    } else {
      SubRefl(s);
    }
  }

  /** Inserting characters in the middle of a text. */
  lemma SubMiddle(a: string, t: string, r: string, b: string)
    requires Sub(t, r)
    ensures Sub(a + t + b, a + r + b)
  {
    assert Sub(t + b, r + b) by {
      SubRefl(b);
      SubConcat(t, r, b, b);
    }
    assert Sub(a + (t + b), a + (r + b)) by {
      SubRefl(a);
      SubConcat(a, a, t + b, r + b);
    }
    assert a + t + b == a + (t + b) && a + r + b == a + (r + b);
  }

  /** When the text in front has no character that starts `t`, the first `t` is the one after it. */
  lemma ReplaceFirstAfter(a: string, t: string, b: string, r: string)
    requires |t| > 0 && Lacks(a, t[0])
    ensures ReplaceFirst(a + t + b, t, r) == a + r + b
  {
    ReplaceFirstAt(a, t, b, r);
  }
}
