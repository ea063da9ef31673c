/** The earlier single-file revision of the client (`src/websocket.rs`): a login that
    always joins the user's own channel, a connection step whose writes depend on the
    URL, a frame handler that trims the frame and looks at its first line only, and
    the timing of the client's own keepalive probe. */
module Websocket {
  import opened Outcomes
  import opened Text
  import opened Protocol

  /** The two endpoints the client knows. `src/websocket.rs` imports them from
      `crate::util`, which does not define them; the values are the ones `src/main.rs`
      declares under the same names. */
  const URL_CHAT: string := "wss://irc-ws.chat.twitch.tv/"
  const URL_EVNT: string := "wss://pubsub-edge.twitch.tv/v1"

  /* ---------- login ---------- */

  /** The `WebsocketClient` struct: the formatted handshake lines it holds. */
  datatype WebsocketClient = WebsocketClient(nick: string, user: string, channel: string, auth: string)

  /** `open_conn`: the lines built from the credentials. The JOIN line names the user's
      own channel and is passed third, so it lands in the `channel` field. */
  function OpenConnClient(creds: Credentials): WebsocketClient {
    WebsocketClient(NickLine(creds.user), UserLine(creds.user), JoinLine(creds.user), PassLine(creds.auth))
  }

  /** Why `open_connection` panics after connecting. */
  datatype ConnError = UnknownUrl

  /** `WebsocketClient::open_connection`: what is written once the socket is open. The
      chat endpoint gets the capability request and the four stored lines, in order; the
      event endpoint gets nothing; any other URL is fatal. */
  function OpenConnection(client: WebsocketClient, url: string): (r: Result<seq<string>, ConnError>)
    ensures r.Ok? <==> url == URL_CHAT || url == URL_EVNT
    ensures url == URL_EVNT ==> r == Ok([])
    ensures url == URL_CHAT ==> r.Ok? && |r.value| == 5 && r.value[0] == REQ
    ensures url == URL_CHAT ==> r.value[1..] == [client.auth, client.nick, client.user, client.channel]
  {
    if url == URL_CHAT then Ok([REQ, client.auth, client.nick, client.user, client.channel])
    else if url == URL_EVNT then Ok([])
    else Err(UnknownUrl)
  }

  /** The login of `open_conn` on the chat endpoint: a server reads it as the configured
      user joining their own channel; nothing is written on the event endpoint. */
  function Connect(creds: Credentials, url: string): (r: Result<seq<string>, ConnError>)
    ensures url == URL_CHAT ==> r.Ok? && ParseHandshake(r.value) == Some(Registration(creds.auth, creds.user, creds.user))
    ensures url == URL_EVNT ==> r == Ok([])
    ensures url != URL_CHAT && url != URL_EVNT ==> r == Err(UnknownUrl)
  {
    ParseOfHandshake(creds.auth, creds.user, creds.user);
    OpenConnection(OpenConnClient(creds), url)
  }

  /* ---------- parse_incoming_irc ---------- */

  /** `.map(|l| l.trim())` over the pieces. */
  function TrimAll(pieces: seq<string>): (r: seq<string>)
    ensures |r| == |pieces|
    ensures forall k :: 0 <= k < |r| ==> r[k] == Trim(pieces[k])
  {
    seq(|pieces|, k requires 0 <= k < |pieces| => Trim(pieces[k]))
  }

  /** A trimmed piece without separators still has none. */
  lemma TrimKeepsNoSeparator(p: string)
    ensures !Contains(p, CRLF) ==> !Contains(Trim(p), CRLF)
  {
    var i, j := TrimBounds(p);
    if !Contains(p, CRLF) {
      NoSeparatorInSlice(p, i, j);
    }
  }

  /** A slice of a string without separators has none either. */
  lemma NoSeparatorInSlice(s: string, i: nat, j: nat)
    requires i <= j <= |s| && !Contains(s, CRLF)
    ensures !Contains(s[i..j], CRLF)
  {
    forall q: nat | q <= j - i
      ensures !OccursAt(s[i..j], CRLF, q)
    {
      OccursInSlice(s, i, j, CRLF, q);
    }
  }

  /** The frame trimmed, split on CR-LF, each piece trimmed: the list whose first element
      the handler inspects. It is never empty, so that element always exists. */
  function Normalize(frame: string): (lines: seq<string>)
    ensures |lines| >= 1
    ensures forall k :: 0 <= k < |lines| ==> Trimmed(lines[k]) && !Contains(lines[k], CRLF)
  {
    var pieces := Split(Trim(frame));
    forall k | 0 <= k < |pieces| {
      TrimKeepsNoSeparator(pieces[k]);
    }
    TrimAll(pieces)
  }

  /** What the old handler recognised in a frame. */
  datatype Incoming = PingAnswered | PongReceived | Generic(lines: seq<string>)

  /** The handler's outcome and what it wrote. */
  datatype Handled = Handled(kind: Incoming, sent: seq<string>)

  /** `parse_incoming_irc`: only the first normalised line is looked at, and it must equal
      the server's PING or PONG exactly; otherwise every line is just displayed. */
  function ParseIncomingIrc(frame: string): (r: Handled)
    ensures r.sent == [KEEPALIVE_PONG] <==> Normalize(frame)[0] == SERVER_PING
    ensures r.kind == PingAnswered <==> Normalize(frame)[0] == SERVER_PING
    ensures r.sent == [] <==> Normalize(frame)[0] != SERVER_PING
    ensures r.kind == PongReceived <==> Normalize(frame)[0] == SERVER_PONG
    ensures Normalize(frame)[0] == SERVER_PONG ==> r == Handled(PongReceived, [])
    ensures r.kind.Generic? ==> r.kind.lines == Normalize(frame)
  {
    var message := Normalize(frame);
    if message[0] == SERVER_PING then Handled(PingAnswered, [KEEPALIVE_PONG])
    else if message[0] == SERVER_PONG then Handled(PongReceived, [])
    else Handled(Generic(message), [])
  }

  /** Whitespace around the frame and around its first line does not matter: a frame
      made of whitespace, a line `L`, whitespace, and then either nothing or CR-LF and
      more text normalises to a list starting with `L`. The frame trim drops what is in
      front of `L`; the per-line trim drops what follows `L` up to the first CR-LF. */
  lemma FirstNormalizedLine(ws: string, line: string, ws2: string, more: string)
    requires AllWhitespace(ws) && AllWhitespace(ws2)
    requires line != [] && Trimmed(line) && !Contains(line, CRLF)
    requires more == [] || StartsWith(more, CRLF)
    ensures Normalize(ws + line + ws2 + more)[0] == line
  {
    var w, z := BreakAtSeparator(ws2, more);
    Regrouped(ws + line, ws2, more, w, z);
    var rest := TrimAroundLine(ws, line, w, z);
    if Trim(ws + line + w + z) == line {
      SplitSingle(line);
      TrimOfTrimmed(line);
    } else {
      LineWithPadding(line, w);
      SplitCons(line + w, rest);
    }
  }

  /** Equal tails make equal texts. */
  lemma Regrouped(h: string, x: string, y: string, w: string, z: string)
    requires x + y == w + z
    ensures h + x + y == h + w + z
  {
    assert h + x + y == h + (x + y);
    assert h + w + z == h + (w + z);
  }

  /** Whitespace followed by nothing or by a separator, cut at its first separator: the
      whitespace in front of it, and the rest, which is nothing or starts with a separator. */
  lemma BreakAtSeparator(ws: string, more: string) returns (w: string, z: string)
    requires AllWhitespace(ws)
    requires more == [] || StartsWith(more, CRLF)
    ensures ws + more == w + z
    ensures AllWhitespace(w) && !Contains(w, CRLF)
    ensures z == [] || StartsWith(z, CRLF)
  {
    match IndexOf(ws, CRLF, 0)
    case None =>
      w, z := ws, more;
    case Some(p) =>
      w, z := ws[..p], ws[p..] + more;
      assert ws == w + ws[p..];
      assert z[..2] == ws[p..p + 2];
      assert forall k :: 0 <= k < |w| ==> w[k] == ws[k];
      forall q: nat | q <= |w|
        ensures !OccursAt(w, CRLF, q)
      {
        OccursInSlice(ws, 0, p, CRLF, q);
      }
  }

  /** A line followed by whitespace without a separator: no separator straddles the two,
      because the line's last character is not whitespace (and CR is), and trimming drops
      the whitespace. */
  lemma LineWithPadding(line: string, w: string)
    requires line != [] && Trimmed(line) && !Contains(line, CRLF)
    requires AllWhitespace(w) && !Contains(w, CRLF)
    ensures !Contains(line + w, CRLF) && Trim(line + w) == line
  {
    forall q: nat | q <= |line + w|
      ensures !OccursAt(line + w, CRLF, q)
    {
      NoSeparatorAt(line, w, q);
    }
    var rest := TrimAroundLine("", line, w, []);
    assert "" + line + w + [] == line + w;
  }

  /** No separator starts at `q` in a line followed by separator-free whitespace. */
  lemma NoSeparatorAt(line: string, w: string, q: nat)
    requires line != [] && Trimmed(line) && !Contains(line, CRLF)
    requires AllWhitespace(w) && !Contains(w, CRLF)
    requires q <= |line + w|
    ensures !OccursAt(line + w, CRLF, q)
  {
    var s := line + w;
    if q + 2 <= |line| {
      OccursInSlice(s, 0, |line|, CRLF, q);
      assert s[0..|line|] == line;
    } else if q >= |line| {
      OccursInSlice(s, |line|, |s|, CRLF, q - |line|);
      assert s[|line|..|s|] == w;
    } else if q + 2 <= |s| {
      assert s[q] == line[|line| - 1];
      assert s[q..q + 2][0] == s[q];
      assert IsWhitespace(CRLF[0]);
    }
  }

  /** Trimming a frame whose first line is `L`, followed by whitespace `W` and then by
      nothing or a separator, keeps `L` whole at the front, and after it either nothing or
      `W`, a separator and more text. */
  lemma TrimAroundLine(ws: string, line: string, w: string, z: string) returns (rest: string)
    requires AllWhitespace(ws) && AllWhitespace(w)
    requires line != [] && Trimmed(line)
    requires z == [] || StartsWith(z, CRLF)
    ensures Trim(ws + line + w + z) == line || Trim(ws + line + w + z) == line + w + CRLF + rest
  {
    var s := ws + line + w + z;
    var a := |ws|;
    var b := a + |line|;
    var c := b + |w|;
    LineInFrame(ws, line, w, z);
    var i, j := TrimBounds(s);
    CutAroundLine(s, a, b, i, j);
    rest := [];
    if j > b {
      KeptTail(s, b, c, j, w, z);
      rest := s[c + 2..j];
      SliceAfterLine(s, a, b, c, j, line, w);
    } else {
      assert s[a..j] == line;
    }
  }

  /** Where the pieces sit in the frame. */
  lemma LineInFrame(ws: string, line: string, w: string, z: string)
    requires line != []
    ensures var s := ws + line + w + z; var a := |ws|; var b := a + |line|; var c := b + |w|;
      s[..a] == ws && s[a..b] == line && s[b..c] == w && s[c..] == z
      && s[a] == line[0] && s[b - 1] == line[|line| - 1]
  {
    var s := ws + line + w + z;
    assert s[|ws|..|ws| + |line|] == line;
    assert s[|ws| + |line|..|ws| + |line| + |w|] == w;
  }

  /** A cut that keeps a character past the line which is not whitespace keeps all of
      the whitespace `W` and a separator after it. */
  lemma KeptTail(s: string, b: nat, c: nat, j: nat, w: string, z: string)
    requires b <= c <= |s| && b < j <= |s| && s[b..c] == w && s[c..] == z
    requires AllWhitespace(w) && (z == [] || StartsWith(z, CRLF))
    requires !IsWhitespace(s[j - 1])
    ensures c + 2 <= j && s[c..c + 2] == CRLF
  {
    forall k | b <= k < c
      ensures IsWhitespace(s[k])
    {
      assert s[b..c][k - b] == s[k];
    }
    assert c < j;
    assert s[c..][j - 1 - c] == s[j - 1];
    assert z != [];
    assert z[..2] == CRLF;
    assert IsWhitespace(z[0]) && IsWhitespace(z[1]);
    assert s[c..][..2] == s[c..c + 2];
  }

  /** A kept slice running past the line, the whitespace and a separator. */
  lemma SliceAfterLine(s: string, a: nat, b: nat, c: nat, j: nat, line: string, w: string)
    requires a <= b <= c && c + 2 <= j <= |s| && s[a..b] == line && s[b..c] == w && s[c..c + 2] == CRLF
    ensures s[a..j] == line + w + CRLF + s[c + 2..j]
  {
    assert s[a..j] == s[a..b] + s[b..c] + s[c..c + 2] + s[c + 2..j];
  }

  /** `trim` stops at the first and last characters of a line before which the text is
      whitespace: it keeps the line whole. */
  lemma CutAroundLine(s: string, a: nat, b: nat, i: nat, j: nat)
    requires a < b <= |s| && AllWhitespace(s[..a])
    requires !IsWhitespace(s[a]) && !IsWhitespace(s[b - 1])
    requires i <= j <= |s| && Trimmed(s[i..j])
    requires AllWhitespace(s[..i]) && AllWhitespace(s[j..])
    ensures i == a && b <= j
    ensures j > b ==> !IsWhitespace(s[j - 1])
  {
    WhitespaceBefore(s, i);
    WhitespaceFrom(s, j);
    WhitespaceBefore(s, a);
    KeptEnds(s, i, j);
  }

  /** The first and last characters `trim` keeps are not whitespace. */
  lemma KeptEnds(s: string, i: nat, j: nat)
    requires i < j <= |s| && Trimmed(s[i..j])
    ensures !IsWhitespace(s[i]) && !IsWhitespace(s[j - 1])
  {
    assert s[i..j][0] == s[i];
    assert s[i..j][j - i - 1] == s[j - 1];
  }

  /** Splitting a joined list of trimmed lines, whose outer lines are not empty, and
      trimming again gives the lines back. */
  lemma NormalizeOfJoin(ls: seq<string>)
    requires |ls| >= 1 && ls[0] != [] && ls[|ls| - 1] != []
    requires forall k :: 0 <= k < |ls| ==> Trimmed(ls[k]) && !Contains(ls[k], CRLF)
    ensures Normalize(Join(ls)) == ls
  {
    var f := Join(ls);
    JoinTrimmed(ls);
    TrimOfTrimmed(f);
    SplitJoin(ls);
    TrimAllOfTrimmed(ls);
  }

  /** Trimming lines that are already trimmed changes none of them. */
  lemma TrimAllOfTrimmed(ls: seq<string>)
    requires forall k :: 0 <= k < |ls| ==> Trimmed(ls[k])
    ensures TrimAll(ls) == ls
  {
    var t := TrimAll(ls);
    forall k | 0 <= k < |ls|
      ensures t[k] == ls[k]
    {
      TrimOfTrimmed(ls[k]);
    }
  }

  /** Joining lines whose outer lines are trimmed and not empty gives a trimmed frame. */
  lemma JoinTrimmed(ls: seq<string>)
    requires |ls| >= 1 && ls[0] != [] && ls[|ls| - 1] != []
    requires Trimmed(ls[0]) && Trimmed(ls[|ls| - 1])
    ensures Trimmed(Join(ls))
  {
    JoinEnds(ls);
  }

  /** A joined list starts with its first line's first character and ends with its last
      line's last character. */
  lemma JoinEnds(ls: seq<string>)
    requires |ls| >= 1 && ls[0] != [] && ls[|ls| - 1] != []
    ensures var s := Join(ls); |s| >= 1 && s[0] == ls[0][0] && s[|s| - 1] == ls[|ls| - 1][|ls[|ls| - 1]| - 1]
  {
    JoinLast(ls);
  }

  /** A joined list ends with its last line's last character. */
  lemma {:induction false} JoinLast(ls: seq<string>)
    requires |ls| >= 1 && ls[|ls| - 1] != []
    ensures var s := Join(ls); |s| >= 1 && s[|s| - 1] == ls[|ls| - 1][|ls[|ls| - 1]| - 1]
    decreases |ls|
  {
    if |ls| > 1 {
      JoinLast(ls[1..]);
    }
  }

  /* ---------- the client's own keepalive ---------- */

  /** The base period of the client's PING, in milliseconds. */
  const KEEPALIVE_BASE: nat := 240000

  /** The jitter the offset stays below. */
  const MAX_OFFSET: nat := 10000

  /** The sleep before each probe: the base period plus the jitter. */
  function KeepaliveDelay(offset: nat): (ms: nat)
    ensures offset < MAX_OFFSET ==> KEEPALIVE_BASE <= ms < KEEPALIVE_BASE + MAX_OFFSET
  {
    KEEPALIVE_BASE + offset
  }

  /** One action of the keepalive task. */
  datatype Step = Sleep(ms: nat) | Send(line: string)

  /** The total time a trace spends asleep. */
  function TotalSleep(trace: seq<Step>): nat {
    if trace == [] then 0
    else TotalSleep(trace[..|trace| - 1]) + (match trace[|trace| - 1] case Sleep(ms) => ms case Send(_) => 0)
  }

  /** The spawned keepalive task over a run of jitter offsets: for each, sleep the delay,
      then write `PING`. After `n` rounds the task has written `n` probes and slept
      between `n` times the base period and `n` times the longest delay. */
  method KeepaliveLoop(offsets: seq<nat>) returns (trace: seq<Step>, elapsed: nat)
    requires forall k :: 0 <= k < |offsets| ==> offsets[k] < MAX_OFFSET
    ensures |trace| == 2 * |offsets|
    ensures forall k :: 0 <= k < |offsets| ==>
      trace[2 * k] == Sleep(KeepaliveDelay(offsets[k])) && trace[2 * k + 1] == Send(KEEPALIVE_PING)
    ensures elapsed == TotalSleep(trace)
    ensures |offsets| * KEEPALIVE_BASE <= elapsed <= |offsets| * (KEEPALIVE_BASE + MAX_OFFSET - 1)
  {
    trace := [];
    elapsed := 0;
    var n := 0;
    while n < |offsets|
      invariant n <= |offsets|
      invariant |trace| == 2 * n
      invariant forall k :: 0 <= k < n ==>
        trace[2 * k] == Sleep(KeepaliveDelay(offsets[k])) && trace[2 * k + 1] == Send(KEEPALIVE_PING)
      invariant elapsed == TotalSleep(trace)
      invariant n * KEEPALIVE_BASE <= elapsed <= n * (KEEPALIVE_BASE + MAX_OFFSET - 1)
    {
      var delay := KeepaliveDelay(offsets[n]);
      var before := trace;
      trace := trace + [Sleep(delay), Send(KEEPALIVE_PING)];
      assert trace[..|trace| - 1] == before + [Sleep(delay)];
      assert (before + [Sleep(delay)])[..|before|] == before;
      elapsed := elapsed + delay;
      n := n + 1;
    }
  }
}
