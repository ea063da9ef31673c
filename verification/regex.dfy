/** The matching semantics of the client's regexes, spelled out.

    Every regex the client uses is anchored at `^` and built from a lazy `.*?`,
    literals, a greedy `+` over a character class and a trailing `.*`. Under the
    leftmost-first semantics of Rust's `regex` crate, a lazy `.*?` tries the
    shortest prefix first (and `.` never crosses a line feed), while a greedy `+`
    tries the longest run first and gives characters back one at a time. The two
    searches below make that order explicit, so that a capture is the one the
    regex reports, not merely some match. */
module Regex {
  import opened Outcomes
  import opened Text

  /** One literal character of a pattern: an unescaped `.` matches anything but a line feed. */
  predicate CharMatches(p: char, c: char) {
    if p == '.' then c != '\n' else c == p
  }

  /** The pattern literal `pat` matches `s` at `i`. */
  predicate LiteralAt(s: string, i: nat, pat: string) {
    i + |pat| <= |s| && forall k :: 0 <= k < |pat| ==> CharMatches(pat[k], s[i + k])
  }

  /** A literal that occurs verbatim also matches as a pattern. */
  lemma LiteralOfOccurrence(s: string, i: nat, pat: string)
    requires OccursAt(s, pat, i) && '\n' !in pat
    ensures LiteralAt(s, i, pat)
  {
    forall k | 0 <= k < |pat|
      ensures CharMatches(pat[k], s[i + k])
    {
      assert s[i + k] == s[i..i + |pat|][k];
    }
  }

  /** A pattern without `.` matches exactly where it occurs verbatim. */
  lemma OccurrenceOfLiteral(s: string, i: nat, pat: string)
    requires LiteralAt(s, i, pat) && '.' !in pat
    ensures OccursAt(s, pat, i)
  {
    var w := s[i..i + |pat|];
    assert forall k :: 0 <= k < |pat| ==> w[k] == pat[k];
    assert w == pat;
  }

  /** No line feed in `s[from..to]`: a `.*` can span it. */
  predicate NoLineFeed(s: string, from: nat, to: nat) {
    to <= |s| && forall k :: from <= k < to ==> s[k] != '\n'
  }

  /** Where a sub-match was found, and what it produced. */
  datatype Found<T> = Found(at: nat, value: T)

  /** A lazy `.*?` starting at `p`: the first position `q >= p`, reached without
      crossing a line feed, at which the rest of the pattern (`tail`) matches. */
  function FirstFrom<T>(s: string, p: nat, tail: nat -> Option<T>): (r: Option<Found<T>>)
    ensures r.Some? ==> p <= r.value.at && NoLineFeed(s, p, r.value.at)
    ensures r.Some? ==> tail(r.value.at) == Some(r.value.value)
    ensures r.Some? ==> forall q :: p <= q < r.value.at ==> tail(q).None?
    ensures r.None? ==> forall q :: p <= q && NoLineFeed(s, p, q) ==> tail(q).None?
    decreases |s| - p
  {
    if p > |s| then None
    else match tail(p)
      case Some(v) => Some(Found(p, v))
      case None =>
        if p == |s| || s[p] == '\n' then None
        else FirstFrom(s, p + 1, tail)
  }

  /** The lazy search stops at the first reachable position where the tail matches. */
  lemma FirstFromAt<T>(s: string, p: nat, q0: nat, tail: nat -> Option<T>)
    requires p <= q0 && NoLineFeed(s, p, q0)
    requires tail(q0).Some?
    requires forall q :: p <= q < q0 ==> tail(q).None?
    ensures FirstFrom(s, p, tail) == Some(Found(q0, tail(q0).value))
  {
  }

  /** A greedy `+` whose run may end anywhere in `lo..b`: the longest end for which
      the rest of the pattern (`tail`) matches, giving back one character at a time. */
  function LastDownTo<T>(lo: nat, b: nat, tail: nat -> Option<T>): (r: Option<Found<T>>)
    ensures r.Some? ==> lo <= r.value.at <= b
    ensures r.Some? ==> tail(r.value.at) == Some(r.value.value)
    ensures r.Some? ==> forall q :: r.value.at < q <= b ==> tail(q).None?
    ensures r.None? ==> forall q :: lo <= q <= b ==> tail(q).None?
    decreases b
  {
    if b < lo then None
    else match tail(b)
      case Some(v) => Some(Found(b, v))
      case None =>
        if b == lo then None
        else LastDownTo(lo, b - 1, tail)
  }

  /** A greedy run that can keep every character it took keeps them all. */
  lemma LastDownToAt<T>(lo: nat, b: nat, tail: nat -> Option<T>)
    requires lo <= b && tail(b).Some?
    ensures LastDownTo(lo, b, tail) == Some(Found(b, tail(b).value))
  {
  }

  /** `^.*?LIT(?P<x>C+)`: the run of class `C` captured after the first reachable
      place where `LIT` matches and is followed by at least one `C` character. */
  function RunAfter(s: string, q: nat, lit: string, cls: CharClass): (r: Option<string>)
    ensures r.Some? ==> LiteralAt(s, q, lit)
    ensures r.Some? ==> r.value != [] && AllIn(r.value, cls)
    ensures r.Some? ==> q + |lit| + |r.value| <= |s| && r.value == s[q + |lit|..q + |lit| + |r.value|]
    ensures r.Some? ==> q + |lit| + |r.value| == |s| || !InClass(s[q + |lit| + |r.value|], cls)
    ensures r.None? ==> !LiteralAt(s, q, lit) || q + |lit| == |s| || !InClass(s[q + |lit|], cls)
  {
    if LiteralAt(s, q, lit) then
      var e := RunEnd(s, q + |lit|, cls);
      if e > q + |lit| then Some(s[q + |lit|..e]) else None
    else None
  }

  /** The capture of `^.*?LIT(?P<x>C+)` over the whole line, or `None` when the regex does not match. */
  function Capture(s: string, lit: string, cls: CharClass): (r: Option<string>)
    ensures r.Some? ==> r.value != [] && AllIn(r.value, cls)
  {
    match FirstFrom(s, 0, q => RunAfter(s, q, lit, cls))
    case Some(f) => Some(f.value)
    case None => None
  }

  /** `LIT` matches at a position reachable from the start, and a `C` character follows. */
  predicate CaptureMatchesAt(s: string, q: nat, lit: string, cls: CharClass) {
    NoLineFeed(s, 0, q) && LiteralAt(s, q, lit) && q + |lit| < |s| && InClass(s[q + |lit|], cls)
  }

  /** The regex fails exactly when there is no place it can match: a failed capture is
      never a silent default. */
  lemma CaptureMatchesIff(s: string, lit: string, cls: CharClass)
    ensures Capture(s, lit, cls).Some? <==> exists q: nat :: CaptureMatchesAt(s, q, lit, cls)
  {
    var tail := q => RunAfter(s, q, lit, cls);
    if Capture(s, lit, cls).Some? {
      var f := FirstFrom(s, 0, tail).value;
      assert CaptureMatchesAt(s, f.at, lit, cls);
    }
    if q: nat :| CaptureMatchesAt(s, q, lit, cls) {
      assert tail(q).Some?;
    }
  }

  /** The capture when the first place `LIT` matches is well formed: the whole run of
      class `C` that follows it. */
  lemma {:induction false} CaptureAtFirst(s: string, q0: nat, lit: string, cls: CharClass)
    requires CaptureMatchesAt(s, q0, lit, cls)
    requires forall q: nat :: q < q0 ==> !LiteralAt(s, q, lit)
    ensures Capture(s, lit, cls) == Some(s[q0 + |lit|..RunEnd(s, q0 + |lit|, cls)])
  {
    var tail := q => RunAfter(s, q, lit, cls);
    assert tail(q0).Some?;
    FirstFromAt(s, 0, q0, tail);
  }

  /** A capture whose literal first matches right after `p`, which holds no line feed,
      and is followed by the run `v` that `r` does not continue: the regex reports `v`. */
  lemma CaptureOf(p: string, lit: string, v: string, r: string, cls: CharClass)
    requires '\n' !in p && '\n' !in lit
    requires forall q: nat :: q < |p| ==> !LiteralAt(p + lit + v + r, q, lit)
    requires v != [] && AllIn(v, cls) && (r == [] || !InClass(r[0], cls))
    ensures Capture(p + lit + v + r, lit, cls) == Some(v)
  {
    var s := p + lit + v + r;
    var q0 := |p|;
    var k0 := q0 + |lit|;
    var e := k0 + |v|;
    assert s[q0..k0] == lit;
    LiteralOfOccurrence(s, q0, lit);
    assert s[..q0] == p;
    assert NoLineFeed(s, 0, q0);
    assert s[k0..e] == v;
    assert s[k0] == v[0];
    assert e < |s| ==> s[e] == r[0];
    RunEndIs(s, k0, e, cls);
    CaptureAtFirst(s, q0, lit, cls);
  }

  /** A literal whose first character is not a wildcard matches nowhere in a text that
      lacks that character. */
  lemma NoLiteralBefore(pre: string, after: string, lit: string)
    requires lit != [] && lit[0] != '.' && lit[0] !in pre
    ensures forall q: nat :: q < |pre| ==> !LiteralAt(pre + after, q, lit)
  {
    forall q: nat | q < |pre|
      ensures !LiteralAt(pre + after, q, lit)
    {
      assert (pre + after)[q + 0] == pre[q];
      assert !CharMatches(lit[0], (pre + after)[q + 0]);
    }
  }
}
