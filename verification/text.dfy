/** String operations the client uses on incoming frames: substring tests,
    splitting on CR-LF, dropping empty pieces, whitespace trimming and character classes. */
module Text {
  import opened Outcomes

  /** `pat` occurs in `s` starting at index `i`. */
  predicate OccursAt(s: string, pat: string, i: nat) {
    i + |pat| <= |s| && s[i..i + |pat|] == pat
  }

  /** Rust's `str::starts_with` with a string pattern. */
  predicate StartsWith(s: string, pat: string) {
    OccursAt(s, pat, 0)
  }

  /** Rust's `str::contains` with a string pattern. */
  predicate Contains(s: string, pat: string) {
    exists i: nat | i <= |s| :: OccursAt(s, pat, i)
  }

  /** An occurrence inside a slice is an occurrence in the whole string, shifted. */
  lemma OccursInSlice(s: string, a: nat, b: nat, pat: string, j: nat)
    requires a <= b <= |s|
    ensures OccursAt(s[a..b], pat, j) <==> (a + j + |pat| <= b && OccursAt(s, pat, a + j))
  {
    if a + j + |pat| <= b {
      var u := s[a..b][j..j + |pat|];
      var w := s[a + j..a + j + |pat|];
      assert forall k :: 0 <= k < |pat| ==> u[k] == w[k];
      assert u == w;
    }
  }

  /** `x + y` occurs at `i` exactly when `x` does and `y` follows it. */
  lemma OccursConcat(s: string, i: nat, x: string, y: string)
    ensures OccursAt(s, x + y, i) <==> OccursAt(s, x, i) && OccursAt(s, y, i + |x|)
  {
    if i + |x| + |y| <= |s| {
      assert s[i..i + |x| + |y|] == s[i..i + |x|] + s[i + |x|..i + |x| + |y|];
      if s[i..i + |x| + |y|] == x + y {
        assert (x + y)[..|x|] == x;
        assert (x + y)[|x|..] == y;
      }
    }
  }

  /** Four consecutive pieces occur exactly when each occurs right after the previous one. */
  lemma OccursConcat4(s: string, i: nat, w: string, x: string, y: string, z: string)
    ensures OccursAt(s, w + x + y + z, i) <==>
      OccursAt(s, w, i) && OccursAt(s, x, i + |w|) && OccursAt(s, y, i + |w| + |x|)
      && OccursAt(s, z, i + |w| + |x| + |y|)
  {
    OccursConcat(s, i, w + x + y, z);
    OccursConcat(s, i, w + x, y);
    OccursConcat(s, i, w, x);
  }

  /** A string that contains `a + b` contains `b`: this is why a line holding
      `GLOBALUSERSTATE` also holds `USERSTATE`. */
  lemma ContainsSuffix(s: string, a: string, b: string)
    requires Contains(s, a + b)
    ensures Contains(s, b)
  {
    var i: nat :| i <= |s| && OccursAt(s, a + b, i);
    assert s[i + |a|..i + |a| + |b|] == (a + b)[|a|..];
    assert OccursAt(s, b, i + |a|);
  }

  /** A pattern holding a character the string lacks cannot occur in it. */
  lemma MissingCharNotContained(s: string, pat: string, c: char)
    requires c in pat && c !in s
    ensures !Contains(s, pat)
  {
  }

  /** The first occurrence of `pat` at or after `from` (Rust's `str::find` on a suffix). */
  function IndexOf(s: string, pat: string, from: nat): (r: Option<nat>)
    ensures r.Some? ==> from <= r.value && OccursAt(s, pat, r.value)
    ensures r.Some? ==> forall j :: from <= j < r.value ==> !OccursAt(s, pat, j)
    ensures r.None? ==> forall j :: from <= j ==> !OccursAt(s, pat, j)
    decreases |s| - from
  {
    if from + |pat| > |s| then None
    else if OccursAt(s, pat, from) then Some(from)
    else IndexOf(s, pat, from + 1)
  }

  /** The first occurrence is determined by the occurrences alone. */
  lemma IndexOfIs(s: string, pat: string, from: nat, i: nat)
    requires from <= i && OccursAt(s, pat, i)
    requires forall j :: from <= j < i ==> !OccursAt(s, pat, j)
    ensures IndexOf(s, pat, from) == Some(i)
  {
  }

  /** The line separator of the IRC wire format (section 2.3 of RFC 1459). */
  const CRLF: string := "\r\n"

  /** Rust's `str::split("\r\n")`: the pieces between non-overlapping separators,
      scanned left to right. There is always at least one piece. */
  function Split(s: string): (pieces: seq<string>)
    ensures |pieces| >= 1
    ensures forall k :: 0 <= k < |pieces| ==> !Contains(pieces[k], CRLF)
    ensures Join(pieces) == s
    decreases |s|
  {
    match IndexOf(s, CRLF, 0)
    case None =>
      NoneBefore(s, |s|);
      [s]
    case Some(i) =>
      NoneBefore(s, i);
      var rest := Split(s[i + 2..]);
      assert ([s[..i]] + rest)[1..] == rest;
      assert s == s[..i] + CRLF + s[i + 2..];
      [s[..i]] + rest
  }

  /** No separator starts before `i` in `s`, so `s[..i]` holds none. */
  lemma NoneBefore(s: string, i: nat)
    requires i <= |s|
    requires forall j :: 0 <= j < i ==> !OccursAt(s, CRLF, j)
    ensures !Contains(s[..i], CRLF)
  {
    if Contains(s[..i], CRLF) {
      var j: nat :| j <= i && OccursAt(s[..i], CRLF, j);
      OccursInSlice(s, 0, i, CRLF, j);
      assert false;
    }
  }

  /** The inverse of `Split`: the pieces glued back with CR-LF. */
  function Join(pieces: seq<string>): string {
    if |pieces| == 0 then ""
    else if |pieces| == 1 then pieces[0]
    else pieces[0] + CRLF + Join(pieces[1..])
  }

  /** Joining one more piece appends a separator and the piece. */
  lemma {:induction false} JoinSnoc(pieces: seq<string>, x: string)
    requires |pieces| >= 1
    ensures Join(pieces + [x]) == Join(pieces) + CRLF + x
    decreases |pieces|
  {
    if |pieces| > 1 {
      assert (pieces + [x])[1..] == pieces[1..] + [x];
      JoinSnoc(pieces[1..], x);
    }
  }

  /** A separator-free piece in front of a separator is split off as the first piece. */
  lemma {:induction false} SplitCons(p: string, rest: string)
    requires !Contains(p, CRLF)
    ensures Split(p + CRLF + rest) == [p] + Split(rest)
  {
    var s := p + CRLF + rest;
    assert s[|p|..|p| + 2] == CRLF;
    forall j | 0 <= j < |p|
      ensures !OccursAt(s, CRLF, j)
    {
      if j + 2 <= |p| {
        OccursInSlice(s, 0, |p|, CRLF, j);
        assert s[..|p|] == p;
      } else {
        assert s[j + 1] == '\r';
      }
    }
    IndexOfIs(s, CRLF, 0, |p|);
    assert s[|p| + 2..] == rest;
  }

  /** A string without separators is one piece. */
  lemma SplitSingle(p: string)
    requires !Contains(p, CRLF)
    ensures Split(p) == [p]
  {
  }

  /** Splitting undoes joining, for pieces that hold no separator. */
  lemma {:induction false} SplitJoin(pieces: seq<string>)
    requires |pieces| >= 1
    requires forall k :: 0 <= k < |pieces| ==> !Contains(pieces[k], CRLF)
    ensures Split(Join(pieces)) == pieces
    decreases |pieces|
  {
    if |pieces| == 1 {
      SplitSingle(pieces[0]);
    } else {
      SplitCons(pieces[0], Join(pieces[1..]));
      SplitJoin(pieces[1..]);
    }
  }

  /** `.filter(|s| !s.is_empty())`: the non-empty pieces, in their original order. */
  function NonEmpty(pieces: seq<string>): (lines: seq<string>)
    ensures forall k :: 0 <= k < |lines| ==> lines[k] != ""
    ensures forall x :: x != "" ==> multiset(lines)[x] == multiset(pieces)[x]
  {
    if |pieces| == 0 then []
    else
      assert pieces == [pieces[0]] + pieces[1..];
      if pieces[0] == "" then NonEmpty(pieces[1..])
      else [pieces[0]] + NonEmpty(pieces[1..])
  }

  /** Filtering commutes with concatenation, so relative order is kept. */
  lemma {:induction false} NonEmptyAppend(a: seq<string>, b: seq<string>)
    ensures NonEmpty(a + b) == NonEmpty(a) + NonEmpty(b)
    decreases |a|
  {
    if |a| > 0 {
      assert (a + b)[1..] == a[1..] + b;
      NonEmptyAppend(a[1..], b);
    } else {
      assert a + b == b;
    }
  }

  /** Nothing is dropped from pieces that are all non-empty. */
  lemma {:induction false} NonEmptyKeepsAll(pieces: seq<string>)
    requires forall k :: 0 <= k < |pieces| ==> pieces[k] != ""
    ensures NonEmpty(pieces) == pieces
    decreases |pieces|
  {
    if |pieces| > 0 {
      NonEmptyKeepsAll(pieces[1..]);
      assert pieces == [pieces[0]] + pieces[1..];
    }
  }

  /** Unicode `White_Space`, the set Rust's `str::trim` removes. */
  predicate IsWhitespace(c: char) {
    ('\U{9}' <= c <= '\U{D}') || c == ' ' || c == '\U{85}' || c == '\U{A0}'
    || c == '\U{1680}' || ('\U{2000}' <= c <= '\U{200A}') || c == '\U{2028}' || c == '\U{2029}'
    || c == '\U{202F}' || c == '\U{205F}' || c == '\U{3000}'
  }

  predicate AllWhitespace(s: string) {
    forall k :: 0 <= k < |s| ==> IsWhitespace(s[k])
  }

  lemma AllWhitespaceConcat(a: string, b: string)
    requires AllWhitespace(a) && AllWhitespace(b)
    ensures AllWhitespace(a + b)
  {
    forall k | 0 <= k < |a + b|
      ensures IsWhitespace((a + b)[k])
    {
      if k < |a| {
        assert (a + b)[k] == a[k];
      } else {
        assert (a + b)[k] == b[k - |a|];
      }
    }
  }

  /** Every character before `i` is whitespace when `s[..i]` is. */
  lemma WhitespaceBefore(s: string, i: nat)
    requires i <= |s| && AllWhitespace(s[..i])
    ensures forall k :: 0 <= k < i ==> IsWhitespace(s[k])
  {
    forall k | 0 <= k < i
      ensures IsWhitespace(s[k])
    {
      assert s[..i][k] == s[k];
    }
  }

  /** Every character from `j` on is whitespace when `s[j..]` is. */
  lemma WhitespaceFrom(s: string, j: nat)
    requires j <= |s| && AllWhitespace(s[j..])
    ensures forall k :: j <= k < |s| ==> IsWhitespace(s[k])
  {
    forall k | j <= k < |s|
      ensures IsWhitespace(s[k])
    {
      assert s[j..][k - j] == s[k];
    }
  }

  /** Neither end of `s` is whitespace: `s` is what `trim` leaves. */
  predicate Trimmed(s: string) {
    s == [] || (!IsWhitespace(s[0]) && !IsWhitespace(s[|s| - 1]))
  }

  /** Rust's `str::trim`: whitespace is dropped from the front, then from the back,
      until neither end is whitespace (`TrimBounds` names where it cuts). */
  function Trim(s: string): (r: string)
    ensures Trimmed(r) && |r| <= |s|
    decreases |s|
  {
    if |s| > 0 && IsWhitespace(s[0]) then Trim(s[1..])
    else if |s| > 0 && IsWhitespace(s[|s| - 1]) then Trim(s[..|s| - 1])
    else s
  }

  /** Where `trim` cuts: the whitespace it removes in front and behind. */
  lemma {:induction false} TrimBounds(s: string) returns (i: nat, j: nat)
    ensures i <= j <= |s| && Trim(s) == s[i..j]
    ensures AllWhitespace(s[..i]) && AllWhitespace(s[j..])
    decreases |s|
  {
    if |s| > 0 && IsWhitespace(s[0]) {
      var i', j' := TrimBounds(s[1..]);
      TrimFrontStep(s, i', j');
      i, j := i' + 1, j' + 1;
    } else if |s| > 0 && IsWhitespace(s[|s| - 1]) {
      i, j := TrimBounds(s[..|s| - 1]);
      TrimBackStep(s, i, j);
    } else {
      i, j := 0, |s|;
      assert s[0..|s|] == s;
    }
  }

  /** A leading whitespace character widens the front cut by one. */
  lemma TrimFrontStep(s: string, i: nat, j: nat)
    requires |s| > 0 && IsWhitespace(s[0]) && i <= j <= |s| - 1
    requires Trim(s[1..]) == s[1..][i..j]
    requires AllWhitespace(s[1..][..i]) && AllWhitespace(s[1..][j..])
    ensures Trim(s) == s[i + 1..j + 1]
    ensures AllWhitespace(s[..i + 1]) && AllWhitespace(s[j + 1..])
  {
    TrimDropsFront(s);
    WhitespaceFront(s, i, j);
  }

  /** `trim` drops leading whitespace first. */
  lemma TrimDropsFront(s: string)
    requires |s| > 0 && IsWhitespace(s[0])
    ensures Trim(s) == Trim(s[1..])
  {
  }

  /** The cut positions of `s[1..]`, shifted by the dropped first character. */
  lemma WhitespaceFront(s: string, i: nat, j: nat)
    requires |s| > 0 && IsWhitespace(s[0]) && i <= j <= |s| - 1
    requires AllWhitespace(s[1..][..i]) && AllWhitespace(s[1..][j..])
    ensures s[1..][i..j] == s[i + 1..j + 1]
    ensures AllWhitespace(s[..i + 1]) && AllWhitespace(s[j + 1..])
  {
    var t := s[1..];
    assert s[..i + 1] == [s[0]] + t[..i];
    AllWhitespaceConcat([s[0]], t[..i]);
    assert t[j..] == s[j + 1..];
  }

  /** A trailing whitespace character, with none in front, widens the back cut by one. */
  lemma TrimBackStep(s: string, i: nat, j: nat)
    requires |s| > 0 && !IsWhitespace(s[0]) && IsWhitespace(s[|s| - 1]) && i <= j <= |s| - 1
    requires Trim(s[..|s| - 1]) == s[..|s| - 1][i..j]
    requires AllWhitespace(s[..|s| - 1][..i]) && AllWhitespace(s[..|s| - 1][j..])
    ensures Trim(s) == s[i..j]
    ensures AllWhitespace(s[..i]) && AllWhitespace(s[j..])
  {
    TrimDropsBack(s);
    WhitespaceBack(s, i, j);
  }

  /** With none in front, `trim` drops trailing whitespace. */
  lemma TrimDropsBack(s: string)
    requires |s| > 0 && !IsWhitespace(s[0]) && IsWhitespace(s[|s| - 1])
    ensures Trim(s) == Trim(s[..|s| - 1])
  {
  }

  /** The cut positions of `s` without its last character, which is whitespace. */
  lemma WhitespaceBack(s: string, i: nat, j: nat)
    requires |s| > 0 && IsWhitespace(s[|s| - 1]) && i <= j <= |s| - 1
    requires AllWhitespace(s[..|s| - 1][..i]) && AllWhitespace(s[..|s| - 1][j..])
    ensures s[..|s| - 1][i..j] == s[i..j]
    ensures AllWhitespace(s[..i]) && AllWhitespace(s[j..])
  {
    var t := s[..|s| - 1];
    assert t[..i] == s[..i];
    assert s[j..] == t[j..] + [s[|s| - 1]];
    AllWhitespaceConcat(t[j..], [s[|s| - 1]]);
  }

  /** Trimming a string that is already trimmed changes nothing. */
  lemma TrimOfTrimmed(s: string)
    requires Trimmed(s)
    ensures Trim(s) == s
  {
  }

  /** Trimming is idempotent. */
  lemma TrimIdempotent(s: string)
    ensures Trim(Trim(s)) == Trim(s)
  {
    TrimOfTrimmed(Trim(s));
  }

  /** The character classes the client's regexes use. */
  datatype CharClass =
    | Word          // `\w`
    | NotSemicolon  // `[^;]`
    | NotLineFeed   // `.`

  /** `\w` of an ASCII text: letters, digits and underscore. */
  predicate IsWordChar(c: char) {
    ('a' <= c <= 'z') || ('A' <= c <= 'Z') || ('0' <= c <= '9') || c == '_'
  }

  predicate InClass(c: char, cls: CharClass) {
    match cls
    case Word => IsWordChar(c)
    case NotSemicolon => c != ';'
    case NotLineFeed => c != '\n'
  }

  /** Every character of `s` is in the class. */
  predicate AllIn(s: string, cls: CharClass) {
    forall k :: 0 <= k < |s| ==> InClass(s[k], cls)
  }

  /** A prefix of a run of `cls` characters is one too. */
  lemma AllInPrefix(s: string, i: nat, b: nat, e: nat, cls: CharClass)
    requires i <= b <= e <= |s| && AllIn(s[i..e], cls)
    ensures AllIn(s[i..b], cls)
  {
    forall k | 0 <= k < b - i
      ensures InClass(s[i..b][k], cls)
    {
      assert s[i..b][k] == s[i..e][k];
    }
  }

  /** The end of the longest run of `cls` characters starting at `i`:
      where a greedy `cls*` stops. */
  function RunEnd(s: string, i: nat, cls: CharClass): (j: nat)
    requires i <= |s|
    ensures i <= j <= |s|
    ensures AllIn(s[i..j], cls)
    ensures j == |s| || !InClass(s[j], cls)
    decreases |s| - i
  {
    if i < |s| && InClass(s[i], cls) then
      var j := RunEnd(s, i + 1, cls);
      assert s[i..j] == [s[i]] + s[i + 1..j];
      j
    else i
  }

  /** A run is determined by where it stops. */
  lemma RunEndIs(s: string, i: nat, j: nat, cls: CharClass)
    requires i <= j <= |s|
    requires AllIn(s[i..j], cls)
    requires j == |s| || !InClass(s[j], cls)
    ensures RunEnd(s, i, cls) == j
  {
  }
}
