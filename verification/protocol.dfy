/** The fixed protocol text both revisions of the client share: the keepalive lines,
    the capability request, and the five-line login handshake of the Twitch chat
    server (IRC over WebSocket), together with the server's view of that handshake. */
module Protocol {
  import opened Outcomes
  import opened Text

  /** The reply the client writes to a server PING, and the probe it sends itself. */
  const KEEPALIVE_PONG: string := "PONG"
  const KEEPALIVE_PING: string := "PING"

  /** The server's liveness probe and its answer to ours, as they arrive. */
  const SERVER_PING: string := "PING :tmi.twitch.tv"
  const SERVER_PONG: string := "PONG :tmi.twitch.tv"

  /** The capability request sent first: message tags and Twitch-specific commands. */
  const REQ: string := "CAP REQ :twitch.tv/tags twitch.tv/commands"

  const PASS_PREFIX: string := "PASS oauth:"
  const NICK_PREFIX: string := "NICK "
  const JOIN_PREFIX: string := "JOIN #"

  /** The credentials the configuration collaborator supplies. */
  datatype Credentials = Credentials(auth: string, user: string)

  function PassLine(auth: string): string { PASS_PREFIX + auth }

  function NickLine(user: string): string { NICK_PREFIX + user }

  /** The mode parameter of the USER line, in decimal. */
  const MODE_FIELD: string := "8"

  /** `USER <user> 8 * :<user>`: the second parameter is the registration mode bitmask. */
  function UserLine(user: string): string { "USER " + user + " " + MODE_FIELD + " * :" + user }

  function JoinLine(channel: string): string { JOIN_PREFIX + channel }

  /** The registration mode bitmask of the USER line. */
  const USER_MODE: nat := 8

  /** The user modes a USER bitmask sets (section 3.1.3 of RFC 2812): bit 2 sets
      `w` (wallops) and bit 3 sets `i` (invisible); no other bit has a meaning. */
  function RegistrationModes(mask: nat): set<char> {
    (if (mask / 4) % 2 == 1 then {'w'} else {}) + (if (mask / 8) % 2 == 1 then {'i'} else {})
  }

  /** The `8` of the USER line registers the client as invisible and nothing else. */
  lemma UserModeIsInvisible()
    ensures |MODE_FIELD| == 1 && (MODE_FIELD[0] as int) - ('0' as int) == USER_MODE
    ensures RegistrationModes(USER_MODE) == {'i'}
  {
  }

  /** The five handshake lines, in the order the server needs them. */
  function HandshakeLines(auth: string, user: string, channel: string): seq<string> {
    [REQ, PassLine(auth), NickLine(user), UserLine(user), JoinLine(channel)]
  }

  /** What a server learns from a completed handshake. */
  datatype Registration = Registration(auth: string, user: string, channel: string)

  /** The server's reading of a login sequence: the capability request, then PASS,
      NICK, a USER line naming the same user, then JOIN, and nothing else. */
  function ParseHandshake(lines: seq<string>): Option<Registration> {
    if |lines| == 5 && lines[0] == REQ && StartsWith(lines[1], PASS_PREFIX)
       && StartsWith(lines[2], NICK_PREFIX) && StartsWith(lines[4], JOIN_PREFIX)
    then
      var reg := Registration(lines[1][|PASS_PREFIX|..], lines[2][|NICK_PREFIX|..], lines[4][|JOIN_PREFIX|..]);
      if lines[3] == UserLine(reg.user) then Some(reg) else None
    else None
  }

  /** A prefix and the rest after it rebuild the string. */
  lemma PrefixSplit(pre: string, x: string)
    ensures StartsWith(pre + x, pre) && (pre + x)[|pre|..] == x
  {
    assert (pre + x)[..|pre|] == pre;
  }

  /** The server recovers exactly the credentials and channel the handshake was built from. */
  lemma ParseOfHandshake(auth: string, user: string, channel: string)
    ensures ParseHandshake(HandshakeLines(auth, user, channel)) == Some(Registration(auth, user, channel))
  {
    PrefixSplit(PASS_PREFIX, auth);
    PrefixSplit(NICK_PREFIX, user);
    PrefixSplit(JOIN_PREFIX, channel);
  }

  /** Conversely, every sequence the server accepts is the handshake of what it read. */
  lemma HandshakeOfParse(lines: seq<string>)
    requires ParseHandshake(lines).Some?
    ensures var reg := ParseHandshake(lines).value;
      lines == HandshakeLines(reg.auth, reg.user, reg.channel)
  {
    var reg := ParseHandshake(lines).value;
    assert lines[1] == lines[1][..|PASS_PREFIX|] + lines[1][|PASS_PREFIX|..];
    assert lines[2] == lines[2][..|NICK_PREFIX|] + lines[2][|NICK_PREFIX|..];
    assert lines[4] == lines[4][..|JOIN_PREFIX|] + lines[4][|JOIN_PREFIX|..];
  }
}
