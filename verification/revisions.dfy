/** Where the two revisions of the frame handler part ways. `src/websocket/irc.rs`
    answers every line that starts with the server's PING; `src/websocket.rs` trims
    the frame, looks at its first line only and needs it to equal the PING exactly. */
module Revisions {
  import opened Outcomes
  import opened Text
  import opened Protocol
  import Irc
  import Websocket

  /** The server's keepalive lines hold no line break. */
  lemma KeepaliveLinesAreSingle()
    ensures !Contains(SERVER_PING, CRLF) && !Contains(SERVER_PONG, CRLF)
    ensures Trimmed(SERVER_PING) && Trimmed(SERVER_PONG)
  {
    MissingCharNotContained(SERVER_PING, CRLF, '\r');
    MissingCharNotContained(SERVER_PONG, CRLF, '\r');
  }

  /** A frame starting with a line `L` and a separator has `L` as its first line,
      followed by the lines of the rest. */
  lemma LinesAfterFirst(line: string, rest: string)
    requires line != [] && !Contains(line, CRLF)
    ensures Irc.Lines(line + CRLF + rest) == [line] + Irc.Lines(rest)
  {
    SplitCons(line, rest);
    NonEmptyAppend([line], Split(rest));
  }

  /** The old revision decides on the first line alone, whatever follows it. */
  lemma OldDecidesOnFirstLine(line: string, rest: string)
    requires line != [] && Trimmed(line) && !Contains(line, CRLF)
    ensures Websocket.ParseIncomingIrc(line + CRLF + rest).sent == (if line == SERVER_PING then [KEEPALIVE_PONG] else [])
    ensures line == SERVER_PONG ==> Websocket.ParseIncomingIrc(line + CRLF + rest) == Websocket.Handled(Websocket.PongReceived, [])
  {
    assert "" + line + "" + (CRLF + rest) == line + CRLF + rest;
    Websocket.FirstNormalizedLine("", line, "", CRLF + rest);
  }

  /** The new revision handles the first line, then the rest as a frame of its own. */
  lemma NewHandlesFirstLineThenRest(line: string, rest: string)
    requires line != [] && !Contains(line, CRLF) && Irc.Classify(line).Ok?
    ensures var e := Irc.Classify(line).value;
      var d := Irc.ParseMsg(rest);
      Irc.ParseMsg(line + CRLF + rest) == Irc.Dispatch(Irc.Reply(e) + d.sent, [e] + d.events, d.panic)
  {
    LinesAfterFirst(line, rest);
    var ls := [line] + Irc.Lines(rest);
    assert ls[1..] == Irc.Lines(rest);
    Irc.DispatchFirst(ls);
  }

  /** Both revisions answer a frame whose first line is exactly the server's PING, and
      the new one then goes on to handle the other lines as if they came alone. */
  lemma LeadingPingAnsweredByBoth(rest: string)
    ensures Websocket.ParseIncomingIrc(SERVER_PING + CRLF + rest).sent == [KEEPALIVE_PONG]
    ensures Irc.ParseMsg(SERVER_PING + CRLF + rest).sent == [KEEPALIVE_PONG] + Irc.ParseMsg(rest).sent
  {
    KeepaliveLinesAreSingle();
    OldDecidesOnFirstLine(SERVER_PING, rest);
    assert Irc.Classify(SERVER_PING) == Ok(Irc.KeepaliveRequest);
    NewHandlesFirstLineThenRest(SERVER_PING, rest);
  }

  /** The server's PONG writes nothing in either revision. */
  lemma LeadingPongWritesNothing(rest: string)
    ensures Websocket.ParseIncomingIrc(SERVER_PONG + CRLF + rest) == Websocket.Handled(Websocket.PongReceived, [])
    ensures var d := Irc.ParseMsg(rest);
      Irc.ParseMsg(SERVER_PONG + CRLF + rest) == Irc.Dispatch(d.sent, [Irc.KeepaliveAck] + d.events, d.panic)
  {
    KeepaliveLinesAreSingle();
    OldDecidesOnFirstLine(SERVER_PONG, rest);
    assert Irc.Classify(SERVER_PONG) == Ok(Irc.KeepaliveAck);
    NewHandlesFirstLineThenRest(SERVER_PONG, rest);
    assert Irc.Reply(Irc.KeepaliveAck) == [];
  }

  /** A PING on a later line is answered only by the new revision: the old one decides on
      the first line alone. */
  lemma LaterPingAnsweredOnlyByNew(first: string)
    requires first != [] && Trimmed(first) && !Contains(first, CRLF)
    requires first != SERVER_PING && Irc.Classify(first).Ok?
    ensures Websocket.ParseIncomingIrc(first + CRLF + SERVER_PING).sent == []
    ensures var d := Irc.ParseMsg(first + CRLF + SERVER_PING);
      d.panic.None? && |d.sent| >= 1 && d.sent[|d.sent| - 1] == KEEPALIVE_PONG
  {
    KeepaliveLinesAreSingle();
    OldDecidesOnFirstLine(first, SERVER_PING);
    NewHandlesFirstLineThenRest(first, SERVER_PING);
    SinglePingFrame();
  }

  /** A frame holding just the server's PING is answered once by the new revision. */
  lemma SinglePingFrame()
    ensures Irc.ParseMsg(SERVER_PING) == Irc.Dispatch([KEEPALIVE_PONG], [Irc.KeepaliveRequest], None)
  {
    KeepaliveLinesAreSingle();
    assert Irc.Classify(SERVER_PING) == Ok(Irc.KeepaliveRequest);
    Irc.ParseMsgOfLine(SERVER_PING);
  }

  /** Text after the host on a PING line is answered only by the new revision, which
      tests a prefix; the old one needs the whole line to match. */
  lemma PingWithTrailerAnsweredOnlyByNew(extra: string)
    requires extra != [] && !IsWhitespace(extra[|extra| - 1]) && '\r' !in extra
    ensures Websocket.ParseIncomingIrc(SERVER_PING + extra).sent == []
    ensures Irc.ParseMsg(SERVER_PING + extra).sent == [KEEPALIVE_PONG]
  {
    PingWithTrailerOld(extra);
    PingWithTrailerNew(extra);
  }

  /** A PING line with a trailer is a single line without a separator. */
  lemma PingWithTrailerIsLine(extra: string)
    requires '\r' !in extra
    ensures !Contains(SERVER_PING + extra, CRLF)
  {
    assert '\r' !in SERVER_PING + extra;
    MissingCharNotContained(SERVER_PING + extra, CRLF, '\r');
  }

  /** The old revision compares the whole trimmed line, trailer included. */
  lemma PingWithTrailerOld(extra: string)
    requires extra != [] && !IsWhitespace(extra[|extra| - 1]) && '\r' !in extra
    ensures Websocket.ParseIncomingIrc(SERVER_PING + extra).sent == []
  {
    var line := SERVER_PING + extra;
    PingWithTrailerIsLine(extra);
    assert "" + line + "" + "" == line;
    Websocket.FirstNormalizedLine("", line, "", "");
  }

  /** The new revision tests the prefix only. */
  lemma PingWithTrailerNew(extra: string)
    requires '\r' !in extra
    ensures Irc.ParseMsg(SERVER_PING + extra).sent == [KEEPALIVE_PONG]
  {
    var line := SERVER_PING + extra;
    PingWithTrailerIsLine(extra);
    assert line[..|SERVER_PING|] == SERVER_PING;
    assert Irc.Classify(line) == Ok(Irc.KeepaliveRequest);
    Irc.ParseMsgOfLine(line);
  }

  /** A PING preceded by whitespace (but no line break) is answered only by the old
      revision, which trims; the new one finds no prefix, no chat and no state keyword. */
  lemma PaddedPingAnsweredOnlyByOld(ws: string)
    requires ws != [] && AllWhitespace(ws) && '\r' !in ws
    ensures Websocket.ParseIncomingIrc(ws + SERVER_PING).sent == [KEEPALIVE_PONG]
    ensures Irc.ParseMsg(ws + SERVER_PING).sent == []
  {
    PaddedPingOld(ws);
    PaddedPingNew(ws);
  }

  /** The old revision trims the padding away. */
  lemma PaddedPingOld(ws: string)
    requires AllWhitespace(ws)
    ensures Websocket.ParseIncomingIrc(ws + SERVER_PING).sent == [KEEPALIVE_PONG]
  {
    KeepaliveLinesAreSingle();
    assert ws + SERVER_PING + "" + "" == ws + SERVER_PING;
    Websocket.FirstNormalizedLine(ws, SERVER_PING, "", "");
  }

  /** Whitespace between a PING and its separator does not stop the old revision from
      answering: each line is trimmed again after the split. */
  lemma PingWithTrailingSpaceOld(ws: string, rest: string)
    requires AllWhitespace(ws)
    ensures Websocket.ParseIncomingIrc(SERVER_PING + ws + CRLF + rest).sent == [KEEPALIVE_PONG]
  {
    KeepaliveLinesAreSingle();
    assert "" + SERVER_PING + ws + (CRLF + rest) == SERVER_PING + ws + CRLF + rest;
    Websocket.FirstNormalizedLine("", SERVER_PING, ws, CRLF + rest);
  }

  /** The new revision ignores the padded line. */
  lemma PaddedPingNew(ws: string)
    requires ws != [] && AllWhitespace(ws) && '\r' !in ws
    ensures Irc.ParseMsg(ws + SERVER_PING).sent == []
  {
    var line := ws + SERVER_PING;
    PaddedPingIgnored(ws);
    assert '\r' !in SERVER_PING;
    assert '\r' !in line;
    MissingCharNotContained(line, CRLF, '\r');
    Irc.ParseMsgOfLine(line);
  }

  /** The new revision's branch chain ignores a PING line that does not start at the
      first character. */
  lemma PaddedPingIgnored(ws: string)
    requires ws != [] && AllWhitespace(ws)
    ensures Irc.Classify(ws + SERVER_PING) == Ok(Irc.Ignored(ws + SERVER_PING))
  {
    PaddedPingMatchesNoBranch(ws);
  }

  /** A padded PING line has neither keepalive prefix, no `PRIVMSG` and no state keyword. */
  lemma PaddedPingMatchesNoBranch(ws: string)
    requires ws != [] && AllWhitespace(ws)
    ensures var line := ws + SERVER_PING;
      !StartsWith(line, SERVER_PING) && !StartsWith(line, SERVER_PONG)
      && !Contains(line, Irc.PRIVMSG) && !Irc.HasStateKeyword(line)
  {
    var line := ws + SERVER_PING;
    assert line[0] == ws[0] && !IsWhitespace('P');
    assert !StartsWith(line, SERVER_PING) && !StartsWith(line, SERVER_PONG);
    PaddedPingLetters(ws);
    NoChatNoState(line);
  }

  /** A padded PING line holds neither `R` nor `S`. */
  lemma PaddedPingLetters(ws: string)
    requires AllWhitespace(ws)
    ensures 'R' !in ws + SERVER_PING && 'S' !in ws + SERVER_PING
  {
    WhitespaceHoldsNoLetter(ws);
    assert 'R' !in SERVER_PING && 'S' !in SERVER_PING;
  }

  /** Without `R` there is no `PRIVMSG`, and without `S` no state keyword. */
  lemma NoChatNoState(line: string)
    requires 'R' !in line && 'S' !in line
    ensures !Contains(line, Irc.PRIVMSG) && !Irc.HasStateKeyword(line)
  {
    MissingCharNotContained(line, Irc.PRIVMSG, 'R');
    forall k | 0 <= k < |Irc.STATES|
      ensures !Contains(line, Irc.STATES[k])
    {
      MissingCharNotContained(line, Irc.STATES[k], 'S');
    }
  }

  /** Whitespace holds neither `R` nor `S`. */
  lemma WhitespaceHoldsNoLetter(ws: string)
    requires AllWhitespace(ws)
    ensures 'R' !in ws && 'S' !in ws
  {
    assert !IsWhitespace('R') && !IsWhitespace('S');
  }

  /** Two PINGs in one frame get two answers from the new revision and one from the old. */
  lemma DoublePing()
    ensures Websocket.ParseIncomingIrc(SERVER_PING + CRLF + SERVER_PING).sent == [KEEPALIVE_PONG]
    ensures Irc.ParseMsg(SERVER_PING + CRLF + SERVER_PING).sent == [KEEPALIVE_PONG, KEEPALIVE_PONG]
  {
    LeadingPingAnsweredByBoth(SERVER_PING);
    SinglePingFrame();
  }

  /** Both logins send the same five lines when the new one is asked for the user's own
      channel, which is all the old one can join. */
  lemma LoginsAgreeOnOwnChannel(creds: Credentials)
    ensures Websocket.Connect(creds, Websocket.URL_CHAT) == Ok(Irc.Login(creds, creds.user))
  {
  }
}
