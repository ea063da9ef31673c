/** The chat client of `src/websocket/irc.rs`: the handshake it sends, and how it splits
    an incoming frame into lines, classifies each line, extracts chat messages and state
    notices from tagged lines, and answers the server's PING. */
module Irc {
  import opened Outcomes
  import opened Text
  import opened Regex
  import opened Protocol

  /** The state-notice keywords that route a line to `CurrState`. */
  const STATES: seq<string> := ["GLOBALUSERSTATE", "ROOMSTATE", "USERSTATE"]

  const PRIVMSG: string := "PRIVMSG"

  /** Literals of the chat regex `^.*?display-name=(?P<chatter>[^;]+).*? PRIVMSG #(?P<channel>\w+) :(?P<content>.*)`. */
  const CHAT_TAG: string := "display-name="
  const PRIVMSG_CHANNEL: string := " PRIVMSG #"
  const CONTENT_SEP: string := " :"

  /** Literal of the state regex `^.*? :tmi.twitch.tv (?P<state_type>\w+)`; its dots are unescaped. */
  const STATE_HOST: string := " :tmi.twitch.tv "

  /** Literal of the state chatter regex `^.*?;display-name=(?P<chatter>[^;]+).*`. */
  const STATE_CHATTER_TAG: string := ";display-name="

  /** Literal of the state channel regex `^.*? #(?P<channel>\w+)`. */
  const CHANNEL_MARK: string := " #"

  datatype ChatMessage = ChatMessage(chatter: string, channel: string, content: string)

  datatype StateChanged = StateChanged(stateType: string, chatter: Option<string>, channel: Option<string>)

  /** Which `expect` ended the task. */
  datatype Panic =
    | ChatRegex      // "Error in regex selection."
    | StateRegex     // "Error in state regex selection."
    | ChatterRegex   // "Error in chatter_re regex."
    | ChannelRegex   // "Error in channel_re regex."

  /** What one line of a frame turned out to be. */
  datatype Event =
    | KeepaliveRequest            // the server's PING: answered with PONG
    | KeepaliveAck                // the server's PONG: logged only
    | Chat(msg: ChatMessage)
    | State(state: StateChanged)
    | Ignored(line: string)       // none of the branches applies

  /* ---------- chatroom ---------- */

  /** The tail ` PRIVMSG #C :T` of the chat regex matches at `c` with channel `C` and
      content `T`: `C` is a whole word, and `T` runs to the end of the line or to a line feed. */
  predicate ChannelShape(s: string, c: nat, channel: string, content: string) {
    OccursAt(s, PRIVMSG_CHANNEL + channel + CONTENT_SEP + content, c)
    && channel != [] && AllIn(channel, Word) && AllIn(content, NotLineFeed)
    && var end := c + |PRIVMSG_CHANNEL| + |channel| + |CONTENT_SEP| + |content|;
       end == |s| || s[end] == '\n'
  }

  /** The chat regex, from ` PRIVMSG #` on, tried at `c`. */
  function ChannelAndContent(s: string, c: nat): (r: Option<(string, string)>)
    ensures r.Some? ==> ChannelShape(s, c, r.value.0, r.value.1)
  {
    if LiteralAt(s, c, PRIVMSG_CHANNEL) then
      var m := RunEnd(s, c + |PRIVMSG_CHANNEL|, Word);
      if m > c + |PRIVMSG_CHANNEL| && LiteralAt(s, m, CONTENT_SEP) then
        var e := RunEnd(s, m + |CONTENT_SEP|, NotLineFeed);
        ChannelShapeOfRuns(s, c, m, e);
        Some((s[c + |PRIVMSG_CHANNEL|..m], s[m + |CONTENT_SEP|..e]))
      else None
    else None
  }

  /** The literals and runs `ChannelAndContent` finds make up the tail of a chat match. */
  lemma ChannelShapeOfRuns(s: string, c: nat, m: nat, e: nat)
    requires LiteralAt(s, c, PRIVMSG_CHANNEL) && LiteralAt(s, m, CONTENT_SEP)
    requires c + |PRIVMSG_CHANNEL| < m && m + |CONTENT_SEP| <= e <= |s|
    requires AllIn(s[c + |PRIVMSG_CHANNEL|..m], Word)
    requires AllIn(s[m + |CONTENT_SEP|..e], NotLineFeed) && (e == |s| || s[e] == '\n')
    ensures ChannelShape(s, c, s[c + |PRIVMSG_CHANNEL|..m], s[m + |CONTENT_SEP|..e])
  {
    OccurrenceOfLiteral(s, c, PRIVMSG_CHANNEL);
    OccurrenceOfLiteral(s, m, CONTENT_SEP);
    OccursConcat4(s, c, PRIVMSG_CHANNEL, s[c + |PRIVMSG_CHANNEL|..m], CONTENT_SEP, s[m + |CONTENT_SEP|..e]);
  }

  /** The tail of the chat regex matches with exactly the channel and content it shows. */
  lemma ChannelAndContentOfShape(s: string, c: nat, channel: string, content: string)
    requires ChannelShape(s, c, channel, content)
    ensures ChannelAndContent(s, c) == Some((channel, content))
  {
    var start := c + |PRIVMSG_CHANNEL|;
    var m := start + |channel|;
    OccursConcat4(s, c, PRIVMSG_CHANNEL, channel, CONTENT_SEP, content);
    LiteralOfOccurrence(s, c, PRIVMSG_CHANNEL);
    RunEndIs(s, start, m, Word);
    LiteralOfOccurrence(s, m, CONTENT_SEP);
    RunEndIs(s, m + |CONTENT_SEP|, m + |CONTENT_SEP| + |content|, NotLineFeed);
  }

  /** The whole chat regex matches with the `display-name=` tag at `a` and ` PRIVMSG #`
      at `c`, capturing `m`: a non-empty chatter free of `;`, then a stretch without line
      feeds, then the channel and content. */
  predicate ChatShape(s: string, a: nat, c: nat, m: ChatMessage) {
    OccursAt(s, CHAT_TAG + m.chatter, a) && m.chatter != [] && AllIn(m.chatter, NotSemicolon)
    && a + |CHAT_TAG| + |m.chatter| <= c && NoLineFeed(s, a + |CHAT_TAG| + |m.chatter|, c)
    && ChannelShape(s, c, m.channel, m.content)
  }

  /** The `.*? PRIVMSG #...` part of the chat regex, started after the chatter ends at `b`. */
  function AfterChatter(s: string, b: nat): Option<Found<(string, string)>> {
    FirstFrom(s, b, c => ChannelAndContent(s, c))
  }

  /** The pieces found by the search make up a match of the whole chat regex. */
  lemma ChatShapeOfParts(s: string, a: nat, b: nat, c: nat, channel: string, content: string)
    requires LiteralAt(s, a, CHAT_TAG)
    requires a + |CHAT_TAG| < b <= RunEnd(s, a + |CHAT_TAG|, NotSemicolon)
    requires b <= c && NoLineFeed(s, b, c) && ChannelShape(s, c, channel, content)
    ensures ChatShape(s, a, c, ChatMessage(s[a + |CHAT_TAG|..b], channel, content))
  {
    var start := a + |CHAT_TAG|;
    var e := RunEnd(s, start, NotSemicolon);
    OccurrenceOfLiteral(s, a, CHAT_TAG);
    AllInPrefix(s, start, b, e, NotSemicolon);
    OccursConcat(s, a, CHAT_TAG, s[start..b]);
  }

  /** The chatter run `[^;]+` after a tag at `a`, tried longest first, giving back
      characters until the rest of the line matches after it. */
  function ChatterRun(s: string, a: nat): (r: Option<Found<Found<(string, string)>>>)
    requires a + |CHAT_TAG| <= |s|
    ensures r.Some? ==> a + |CHAT_TAG| < r.value.at <= RunEnd(s, a + |CHAT_TAG|, NotSemicolon)
    ensures r.Some? ==> AfterChatter(s, r.value.at) == Some(r.value.value)
  {
    LastDownTo(a + |CHAT_TAG| + 1, RunEnd(s, a + |CHAT_TAG|, NotSemicolon), b => AfterChatter(s, b))
  }

  /** The chat regex with its leading `.*?` ending at `a`. The result records where
      ` PRIVMSG #` was found. */
  function ChatAt(s: string, a: nat): (r: Option<Found<ChatMessage>>)
    ensures r.Some? ==> ChatShape(s, a, r.value.at, r.value.value)
  {
    if LiteralAt(s, a, CHAT_TAG) then
      match ChatterRun(s, a)
      case Some(fb) =>
        var fc := fb.value;
        ChatShapeOfParts(s, a, fb.at, fc.at, fc.value.0, fc.value.1);
        Some(Found(fc.at, ChatMessage(s[a + |CHAT_TAG|..fb.at], fc.value.0, fc.value.1)))
      case None => None
    else None
  }

  /** `chatroom`: the captures of the chat regex, or the panic of its `expect`. */
  function Chatroom(line: string): (r: Result<ChatMessage, Panic>)
    ensures r.Ok? ==> exists a: nat, c: nat :: NoLineFeed(line, 0, a) && ChatShape(line, a, c, r.value)
    ensures r.Ok? ==> r.value.chatter != [] && AllIn(r.value.chatter, NotSemicolon)
    ensures r.Ok? ==> r.value.channel != [] && AllIn(r.value.channel, Word)
    ensures r.Err? ==> r.error == ChatRegex
  {
    match FirstFrom(line, 0, a => ChatAt(line, a))
    case Some(f) =>
      assert NoLineFeed(line, 0, f.at) && ChatShape(line, f.at, f.value.at, f.value.value);
      Ok(f.value.value)
    case None => Err(ChatRegex)
  }

  /** `chatroom` fails exactly when the chat regex can match nowhere in the line. */
  lemma ChatroomOkIff(line: string)
    ensures Chatroom(line).Ok? <==>
      exists a: nat, c: nat, m: ChatMessage :: NoLineFeed(line, 0, a) && ChatShape(line, a, c, m)
  {
    if a: nat, c: nat, m: ChatMessage :| NoLineFeed(line, 0, a) && ChatShape(line, a, c, m) {
      ChatAtOfShape(line, a, c, m);
      var outer := (a': nat) => ChatAt(line, a');
      assert outer(a).Some?;
    }
  }

  /** The chatter of a match lies inside the longest `[^;]` run after the tag. */
  lemma ChatterWithinRun(s: string, a: nat, c: nat, m: ChatMessage)
    requires ChatShape(s, a, c, m)
    ensures LiteralAt(s, a, CHAT_TAG)
    ensures a + |CHAT_TAG| + |m.chatter| <= RunEnd(s, a + |CHAT_TAG|, NotSemicolon)
  {
    var start := a + |CHAT_TAG|;
    var b := start + |m.chatter|;
    OccursConcat(s, a, CHAT_TAG, m.chatter);
    LiteralOfOccurrence(s, a, CHAT_TAG);
  }

  /** A ` PRIVMSG #` tail reachable from `b` makes the rest of the chat regex match from `b`. */
  lemma AfterChatterOfShape(s: string, b: nat, c: nat, channel: string, content: string)
    requires b <= c && NoLineFeed(s, b, c) && ChannelShape(s, c, channel, content)
    ensures AfterChatter(s, b).Some?
  {
    ChannelAndContentOfShape(s, c, channel, content);
    var inner := (c': nat) => ChannelAndContent(s, c');
    assert inner(c).Some?;
  }

  /** Wherever the chat regex can match with the tag at `a`, `ChatAt` finds some match there. */
  lemma ChatAtOfShape(s: string, a: nat, c: nat, m: ChatMessage)
    requires ChatShape(s, a, c, m)
    ensures ChatAt(s, a).Some?
  {
    var b := a + |CHAT_TAG| + |m.chatter|;
    ChatterWithinRun(s, a, c, m);
    AfterChatterOfShape(s, b, c, m.channel, m.content);
    var tail := (b': nat) => AfterChatter(s, b');
    assert tail(b).Some?;
    assert ChatterRun(s, a).Some?;
  }

  /** `ChatAt` on a tag at `a` whose chatter run ends at a `;` at `b`, when the first
      ` PRIVMSG #` reachable from `b` is at `c0` and completes the match there. */
  lemma ChatAtFirstChoice(s: string, a: nat, b: nat, c0: nat, channel: string, content: string)
    requires LiteralAt(s, a, CHAT_TAG)
    requires a + |CHAT_TAG| < b < |s| && AllIn(s[a + |CHAT_TAG|..b], NotSemicolon) && s[b] == ';'
    requires b <= c0 && NoLineFeed(s, b, c0)
    requires forall q: nat :: b <= q < c0 ==> !OccursAt(s, PRIVMSG_CHANNEL, q)
    requires ChannelShape(s, c0, channel, content)
    ensures ChatAt(s, a) == Some(Found(c0, ChatMessage(s[a + |CHAT_TAG|..b], channel, content)))
  {
    AfterChatterFirstChoice(s, b, c0, channel, content);
    ChatterRunWhole(s, a, b);
  }

  /** The chatter run keeps every character up to the `;` at `b` when the rest of the
      chat regex matches from there. */
  lemma ChatterRunWhole(s: string, a: nat, b: nat)
    requires a + |CHAT_TAG| < b < |s| && AllIn(s[a + |CHAT_TAG|..b], NotSemicolon) && s[b] == ';'
    requires AfterChatter(s, b).Some?
    ensures ChatterRun(s, a) == Some(Found(b, AfterChatter(s, b).value))
  {
    RunEndIs(s, a + |CHAT_TAG|, b, NotSemicolon);
    var tail := (b': nat) => AfterChatter(s, b');
    LastDownToAt(a + |CHAT_TAG| + 1, b, tail);
  }

  /** The `.*? PRIVMSG #` search from `b` stops at the first ` PRIVMSG #` at `c0` when
      the match completes there. */
  lemma AfterChatterFirstChoice(s: string, b: nat, c0: nat, channel: string, content: string)
    requires b <= c0 && NoLineFeed(s, b, c0)
    requires forall q: nat :: b <= q < c0 ==> !OccursAt(s, PRIVMSG_CHANNEL, q)
    requires ChannelShape(s, c0, channel, content)
    ensures AfterChatter(s, b) == Some(Found(c0, (channel, content)))
  {
    ChannelAndContentOfShape(s, c0, channel, content);
    var inner := (c: nat) => ChannelAndContent(s, c);
    forall q: nat | b <= q < c0
      ensures inner(q).None?
    {
      NoTailWithoutCommand(s, q);
    }
    FirstFromAt(s, b, c0, inner);
  }

  /** Without ` PRIVMSG #` at `q`, the tail of the chat regex cannot match there. */
  lemma NoTailWithoutCommand(s: string, q: nat)
    requires !OccursAt(s, PRIVMSG_CHANNEL, q)
    ensures ChannelAndContent(s, q).None?
  {
    if LiteralAt(s, q, PRIVMSG_CHANNEL) {
      OccurrenceOfLiteral(s, q, PRIVMSG_CHANNEL);
    }
  }

  /** `chatroom` takes the match at the first `display-name=` when that one succeeds. */
  lemma ChatroomAtFirst(s: string, a: nat, f: Found<ChatMessage>)
    requires NoLineFeed(s, 0, a) && ChatAt(s, a) == Some(f)
    requires forall q: nat :: q < a ==> !OccursAt(s, CHAT_TAG, q)
    ensures Chatroom(s) == Ok(f.value)
  {
    var outer := (a': nat) => ChatAt(s, a');
    forall q: nat | q < a
      ensures outer(q).None?
    {
      if LiteralAt(s, q, CHAT_TAG) {
        OccurrenceOfLiteral(s, q, CHAT_TAG);
      }
    }
    FirstFromAt(s, 0, a, outer);
  }

  /** Where the pieces of a chat line `pre + "display-name=" + N + ";" + mid + tl` sit. */
  lemma ChatLineParts(pre: string, chatter: string, mid: string, tl: string)
    ensures var s := pre + CHAT_TAG + chatter + ";" + mid + tl;
      var start := |pre| + |CHAT_TAG|;
      var b := start + |chatter|;
      var c0 := b + 1 + |mid|;
      && c0 + |tl| == |s| && s[..|pre|] == pre && OccursAt(s, CHAT_TAG, |pre|)
      && s[start..b] == chatter && s[b] == ';' && s[b + 1..c0] == mid && OccursAt(s, tl, c0)
  {
    var s := pre + CHAT_TAG + chatter + ";" + mid + tl;
    var start := |pre| + |CHAT_TAG|;
    var b := start + |chatter|;
    var c0 := b + 1 + |mid|;
    assert s[|pre|..start] == CHAT_TAG;
    assert s[c0..] == tl;
  }

  /** On a well-formed chat line `…display-name=N;… PRIVMSG #C :T`, `chatroom` returns
      chatter `N`, channel `C` and content `T`. Well formed means: the tag is the first
      `display-name=` and is reached without a line feed, `N` is non-empty and free of `;`,
      nothing between the tag and the command holds a line feed or an earlier ` PRIVMSG #`,
      `C` is a word, and `T` holds no line feed. */
  lemma {:induction false} ChatroomWellFormed(pre: string, chatter: string, mid: string, channel: string, content: string)
    requires '\n' !in pre && '\n' !in mid && '\n' !in content
    requires chatter != [] && ';' !in chatter
    requires channel != [] && AllIn(channel, Word)
    requires var s := pre + CHAT_TAG + chatter + ";" + mid + (PRIVMSG_CHANNEL + channel + CONTENT_SEP + content);
      forall q: nat :: q < |pre| ==> !OccursAt(s, CHAT_TAG, q)
    requires var s := pre + CHAT_TAG + chatter + ";" + mid + (PRIVMSG_CHANNEL + channel + CONTENT_SEP + content);
      var b := |pre| + |CHAT_TAG| + |chatter|;
      forall q: nat :: b <= q < b + 1 + |mid| ==> !OccursAt(s, PRIVMSG_CHANNEL, q)
    ensures Chatroom(pre + CHAT_TAG + chatter + ";" + mid + (PRIVMSG_CHANNEL + channel + CONTENT_SEP + content))
         == Ok(ChatMessage(chatter, channel, content))
  {
    var tl := PRIVMSG_CHANNEL + channel + CONTENT_SEP + content;
    var s := pre + CHAT_TAG + chatter + ";" + mid + tl;
    var a := |pre|;
    var b := a + |CHAT_TAG| + |chatter|;
    var c0 := b + 1 + |mid|;
    ChatLineShape(pre, chatter, mid, channel, content);
    ChatAtFirstChoice(s, a, b, c0, channel, content);
    ChatroomAtFirst(s, a, Found(c0, ChatMessage(chatter, channel, content)));
  }

  /** The facts `ChatroomWellFormed` needs about where the pieces of its line sit. */
  lemma ChatLineShape(pre: string, chatter: string, mid: string, channel: string, content: string)
    requires '\n' !in pre && '\n' !in mid && '\n' !in content
    requires chatter != [] && ';' !in chatter
    requires channel != [] && AllIn(channel, Word)
    ensures var s := pre + CHAT_TAG + chatter + ";" + mid + (PRIVMSG_CHANNEL + channel + CONTENT_SEP + content);
      var a := |pre|;
      var b := a + |CHAT_TAG| + |chatter|;
      var c0 := b + 1 + |mid|;
      && NoLineFeed(s, 0, a) && LiteralAt(s, a, CHAT_TAG)
      && a + |CHAT_TAG| < b < |s| && s[a + |CHAT_TAG|..b] == chatter && AllIn(chatter, NotSemicolon)
      && s[b] == ';' && b <= c0 && NoLineFeed(s, b, c0) && ChannelShape(s, c0, channel, content)
  {
    var tl := PRIVMSG_CHANNEL + channel + CONTENT_SEP + content;
    var s := pre + CHAT_TAG + chatter + ";" + mid + tl;
    var a := |pre|;
    var b := a + |CHAT_TAG| + |chatter|;
    var c0 := b + 1 + |mid|;
    ChatLineParts(pre, chatter, mid, tl);
    assert AllIn(content, NotLineFeed);
    assert s[b..c0] == [';'] + mid;
    assert NoLineFeed(s, b, c0);
    LiteralOfOccurrence(s, a, CHAT_TAG);
  }

  /* ---------- curr_state ---------- */

  const GLOBAL_USER_STATE: string := "GLOBALUSERSTATE"
  const USER_STATE: string := "USERSTATE"

  /** `curr_state`: the kind is the first word after ` :tmi.twitch.tv `; a global user
      state also captures the chatter, a user state the chatter and then the channel,
      and any other kind captures neither. Each failed capture is the panic of its `expect`. */
  function CurrState(line: string): (r: Result<StateChanged, Panic>)
    ensures r.Ok? ==> r.value.stateType != [] && AllIn(r.value.stateType, Word)
    ensures r.Ok? && r.value.stateType == GLOBAL_USER_STATE ==> r.value.chatter.Some? && r.value.channel.None?
    ensures r.Ok? && r.value.stateType == USER_STATE ==> r.value.chatter.Some? && r.value.channel.Some?
    ensures r.Ok? && r.value.stateType != GLOBAL_USER_STATE && r.value.stateType != USER_STATE ==>
      r.value.chatter.None? && r.value.channel.None?
    ensures r.Ok? && r.value.chatter.Some? ==> r.value.chatter.value != [] && AllIn(r.value.chatter.value, NotSemicolon)
    ensures r.Ok? && r.value.channel.Some? ==> r.value.channel.value != [] && AllIn(r.value.channel.value, Word)
    ensures r.Ok? ==> Capture(line, STATE_HOST, Word) == Some(r.value.stateType)
    ensures r.Ok? && r.value.chatter.Some? ==> Capture(line, STATE_CHATTER_TAG, NotSemicolon) == r.value.chatter
    ensures r.Ok? && r.value.channel.Some? ==> Capture(line, CHANNEL_MARK, Word) == r.value.channel
  {
    match Capture(line, STATE_HOST, Word)
    case None => Err(StateRegex)
    case Some(kind) =>
      if kind == GLOBAL_USER_STATE then
        match Capture(line, STATE_CHATTER_TAG, NotSemicolon)
        case None => Err(ChatterRegex)
        case Some(chatter) => Ok(StateChanged(kind, Some(chatter), None))
      else if kind == USER_STATE then
        match Capture(line, STATE_CHATTER_TAG, NotSemicolon)
        case None => Err(ChatterRegex)
        case Some(chatter) =>
          match Capture(line, CHANNEL_MARK, Word)
          case None => Err(ChannelRegex)
          case Some(channel) => Ok(StateChanged(kind, Some(chatter), Some(channel)))
      else Ok(StateChanged(kind, None, None))
  }

  /** The state regex can match somewhere: ` :tmi.twitch.tv ` (dots matching any
      character but a line feed), reached without a line feed and followed by a word. */
  ghost predicate HostMatches(line: string) {
    exists q: nat :: CaptureMatchesAt(line, q, STATE_HOST, Word)
  }

  /** The state chatter regex can match somewhere: `;display-name=` followed by a character other than `;`. */
  ghost predicate StateChatterMatches(line: string) {
    exists q: nat :: CaptureMatchesAt(line, q, STATE_CHATTER_TAG, NotSemicolon)
  }

  /** The state channel regex can match somewhere: ` #` followed by a word. */
  ghost predicate ChannelMarkMatches(line: string) {
    exists q: nat :: CaptureMatchesAt(line, q, CHANNEL_MARK, Word)
  }

  /** `curr_state` panics exactly when a regex it needs for the kind it found cannot match:
      the state regex always, the chatter regex for both user-state kinds, the channel
      regex for `USERSTATE`. A failed capture is never turned into a default. */
  lemma CurrStateErrIff(line: string)
    ensures CurrState(line).Err? <==>
      (!HostMatches(line)
       || (var kind := Capture(line, STATE_HOST, Word).value;
           ((kind == GLOBAL_USER_STATE || kind == USER_STATE) && !StateChatterMatches(line))
           || (kind == USER_STATE && !ChannelMarkMatches(line))))
    ensures CurrState(line) == Err(StateRegex) <==> !HostMatches(line)
  {
    CaptureMatchesIff(line, STATE_HOST, Word);
    CaptureMatchesIff(line, STATE_CHATTER_TAG, NotSemicolon);
    CaptureMatchesIff(line, CHANNEL_MARK, Word);
  }

  /** The state kind is the word after the first ` :tmi.twitch.tv `, whatever keyword sent
      the line here; a kind other than the two user states yields neither chatter nor
      channel, even when the line names a channel (as a `ROOMSTATE` line does). */
  lemma {:induction false} StateKindIsFirstWord(pre: string, kind: string, rest: string)
    requires '\n' !in pre && kind != [] && AllIn(kind, Word)
    requires rest == [] || !IsWordChar(rest[0])
    requires forall q: nat :: q < |pre| ==> !LiteralAt(pre + STATE_HOST + kind + rest, q, STATE_HOST)
    ensures var line := pre + STATE_HOST + kind + rest;
      Capture(line, STATE_HOST, Word) == Some(kind)
      && (kind != GLOBAL_USER_STATE && kind != USER_STATE ==> CurrState(line) == Ok(StateChanged(kind, None, None)))
  {
    CaptureOf(pre, STATE_HOST, kind, rest, Word);
  }

  /** On a well-formed user-state notice `…;display-name=N;… :tmi.twitch.tv USERSTATE #C…`,
      `curr_state` reports kind `USERSTATE`, chatter `N` and channel `C`. Well formed means:
      nothing before the host holds a line feed, `;display-name=` and the host each occur
      here for the first time, ` #` first occurs right after the kind, `N` is non-empty and
      free of `;`, and `C` is a whole word. */
  lemma {:induction false} UserStateWellFormed(pre: string, chatter: string, mid: string, channel: string, rest: string)
    requires '\n' !in pre && '\n' !in chatter && '\n' !in mid
    requires chatter != [] && ';' !in chatter
    requires channel != [] && AllIn(channel, Word) && (rest == [] || !IsWordChar(rest[0]))
    requires var line := pre + STATE_CHATTER_TAG + chatter + ";" + mid + STATE_HOST + USER_STATE + CHANNEL_MARK + channel + rest;
      forall q: nat :: q < |pre| ==> !LiteralAt(line, q, STATE_CHATTER_TAG)
    requires var line := pre + STATE_CHATTER_TAG + chatter + ";" + mid + STATE_HOST + USER_STATE + CHANNEL_MARK + channel + rest;
      forall q: nat :: q < |pre + STATE_CHATTER_TAG + chatter + ";" + mid| ==> !LiteralAt(line, q, STATE_HOST)
    requires var line := pre + STATE_CHATTER_TAG + chatter + ";" + mid + STATE_HOST + USER_STATE + CHANNEL_MARK + channel + rest;
      forall q: nat :: q < |pre + STATE_CHATTER_TAG + chatter + ";" + mid + STATE_HOST + USER_STATE| ==> !LiteralAt(line, q, CHANNEL_MARK)
    ensures CurrState(pre + STATE_CHATTER_TAG + chatter + ";" + mid + STATE_HOST + USER_STATE + CHANNEL_MARK + channel + rest)
         == Ok(StateChanged(USER_STATE, Some(chatter), Some(channel)))
  {
    var head := pre + STATE_CHATTER_TAG + chatter + ";" + mid;
    var after := CHANNEL_MARK + channel + rest;
    var line := head + STATE_HOST + USER_STATE + CHANNEL_MARK + channel + rest;
    StateHeadHasNoLineFeed(pre, chatter, mid);
    Regroup(head + STATE_HOST + USER_STATE, CHANNEL_MARK, channel, rest);
    StateKindIsFirstWord(head, USER_STATE, after);
    NoticeRegrouped(pre, chatter, mid, USER_STATE, after);
    StateChatterFirst(pre, chatter, ";" + mid + STATE_HOST + USER_STATE + after);
    ChannelAfterKind(head, channel, rest);
  }

  /** The channel regex captures the word after the first ` #`. */
  lemma ChannelAfterKind(head: string, channel: string, rest: string)
    requires '\n' !in head
    requires channel != [] && AllIn(channel, Word) && (rest == [] || !IsWordChar(rest[0]))
    requires forall q: nat :: q < |head + STATE_HOST + USER_STATE| ==>
      !LiteralAt(head + STATE_HOST + USER_STATE + CHANNEL_MARK + channel + rest, q, CHANNEL_MARK)
    ensures Capture(head + STATE_HOST + USER_STATE + CHANNEL_MARK + channel + rest, CHANNEL_MARK, Word) == Some(channel)
  {
    assert '\n' !in STATE_HOST + USER_STATE && '\n' !in CHANNEL_MARK;
    assert '\n' !in head + STATE_HOST + USER_STATE;
    CaptureOf(head + STATE_HOST + USER_STATE, CHANNEL_MARK, channel, rest, Word);
  }

  /** On a well-formed global user-state notice `…;display-name=N;… :tmi.twitch.tv GLOBALUSERSTATE`,
      `curr_state` reports kind `GLOBALUSERSTATE`, chatter `N` and no channel, under the
      conditions of `UserStateWellFormed` that concern the chatter and the host. */
  lemma {:induction false} GlobalUserStateWellFormed(pre: string, chatter: string, mid: string, rest: string)
    requires '\n' !in pre && '\n' !in chatter && '\n' !in mid
    requires chatter != [] && ';' !in chatter
    requires rest == [] || !IsWordChar(rest[0])
    requires var line := pre + STATE_CHATTER_TAG + chatter + ";" + mid + STATE_HOST + GLOBAL_USER_STATE + rest;
      forall q: nat :: q < |pre| ==> !LiteralAt(line, q, STATE_CHATTER_TAG)
    requires var line := pre + STATE_CHATTER_TAG + chatter + ";" + mid + STATE_HOST + GLOBAL_USER_STATE + rest;
      forall q: nat :: q < |pre + STATE_CHATTER_TAG + chatter + ";" + mid| ==> !LiteralAt(line, q, STATE_HOST)
    ensures CurrState(pre + STATE_CHATTER_TAG + chatter + ";" + mid + STATE_HOST + GLOBAL_USER_STATE + rest)
         == Ok(StateChanged(GLOBAL_USER_STATE, Some(chatter), None))
  {
    var head := pre + STATE_CHATTER_TAG + chatter + ";" + mid;
    var line := head + STATE_HOST + GLOBAL_USER_STATE + rest;
    StateHeadHasNoLineFeed(pre, chatter, mid);
    StateKindIsFirstWord(head, GLOBAL_USER_STATE, rest);
    NoticeRegrouped(pre, chatter, mid, GLOBAL_USER_STATE, rest);
    StateChatterFirst(pre, chatter, ";" + mid + STATE_HOST + GLOBAL_USER_STATE + rest);
  }

  /** A notice read as its chatter tag and what follows it. */
  lemma NoticeRegrouped(pre: string, chatter: string, mid: string, kind: string, rest: string)
    ensures pre + STATE_CHATTER_TAG + chatter + ";" + mid + STATE_HOST + kind + rest
         == pre + STATE_CHATTER_TAG + chatter + (";" + mid + STATE_HOST + kind + rest)
  {
  }

  /** Concatenation read with its last pieces grouped. */
  lemma Regroup(a: string, b: string, c: string, d: string)
    ensures a + b + c + d == a + (b + c + d)
    ensures a + b + c + d == a + (b + c) + d
    ensures a + b + c + d == a + b + (c + d)
  {
  }

  /** The tags in front of the host of a well-formed notice hold no line feed. */
  lemma StateHeadHasNoLineFeed(pre: string, chatter: string, mid: string)
    requires '\n' !in pre && '\n' !in chatter && '\n' !in mid
    ensures '\n' !in pre + STATE_CHATTER_TAG + chatter + ";" + mid
  {
    assert '\n' !in STATE_CHATTER_TAG && '\n' !in ";";
  }

  /** The chatter regex captures the run after the first `;display-name=`, up to the next `;`. */
  lemma StateChatterFirst(pre: string, chatter: string, tl: string)
    requires '\n' !in pre && chatter != [] && ';' !in chatter && tl != [] && tl[0] == ';'
    requires forall q: nat :: q < |pre| ==> !LiteralAt(pre + STATE_CHATTER_TAG + chatter + tl, q, STATE_CHATTER_TAG)
    ensures Capture(pre + STATE_CHATTER_TAG + chatter + tl, STATE_CHATTER_TAG, NotSemicolon) == Some(chatter)
  {
    assert AllIn(chatter, NotSemicolon);
    CaptureOf(pre, STATE_CHATTER_TAG, chatter, tl, NotSemicolon);
  }

  /** Twitch's own shape of a user-state notice, with the chatter tag after another tag,
      yields chatter and channel. */
  lemma UserStateNotice()
    ensures CurrState("@badges=;display-name=Alice;id=1 :tmi.twitch.tv USERSTATE #bob")
         == Ok(StateChanged(USER_STATE, Some("Alice"), Some("bob")))
  {
    NoticeText();
    NoticeIsWellFormed();
    UserStateWellFormed("@badges=", "Alice", "id=1", "bob", "");
  }

  /** That notice, written with the literals of the regexes. */
  lemma NoticeText()
    ensures "@badges=" + STATE_CHATTER_TAG + "Alice" + ";" + "id=1" + STATE_HOST + USER_STATE + CHANNEL_MARK + "bob" + ""
         == "@badges=;display-name=Alice;id=1 :tmi.twitch.tv USERSTATE #bob"
  {
    NoticePieces();
    NoticeWhole();
    Regroup("@badges=" + STATE_CHATTER_TAG + "Alice" + ";", "id=1", STATE_HOST, USER_STATE + CHANNEL_MARK + "bob" + "");
    Regroup("@badges=" + STATE_CHATTER_TAG + "Alice" + ";" + "id=1" + STATE_HOST, USER_STATE, CHANNEL_MARK, "bob" + "");
    Regroup("@badges=" + STATE_CHATTER_TAG + "Alice" + ";" + "id=1" + STATE_HOST + USER_STATE, CHANNEL_MARK, "bob", "");
  }

  /** The notice in three pieces, each written with the regex literals and as text. */
  lemma NoticePieces()
    ensures "@badges=" + STATE_CHATTER_TAG + "Alice" + ";" == "@badges=;display-name=Alice;"
    ensures "id=1" + STATE_HOST == "id=1 :tmi.twitch.tv "
    ensures USER_STATE + CHANNEL_MARK + "bob" + "" == "USERSTATE #bob"
  {
  }

  /** The three literal pieces make up the notice. */
  lemma NoticeWhole()
    ensures "@badges=;display-name=Alice;" + "id=1 :tmi.twitch.tv " + "USERSTATE #bob"
         == "@badges=;display-name=Alice;id=1 :tmi.twitch.tv USERSTATE #bob"
  {
  }

  /** The first-occurrence conditions of `UserStateWellFormed` hold for that notice. */
  lemma NoticeIsWellFormed()
    ensures var pre, chatter, mid, channel, rest := "@badges=", "Alice", "id=1", "bob", "";
      var line := pre + STATE_CHATTER_TAG + chatter + ";" + mid + STATE_HOST + USER_STATE + CHANNEL_MARK + channel + rest;
      && (forall q: nat :: q < |pre| ==> !LiteralAt(line, q, STATE_CHATTER_TAG))
      && (forall q: nat :: q < |pre + STATE_CHATTER_TAG + chatter + ";" + mid| ==> !LiteralAt(line, q, STATE_HOST))
      && (forall q: nat :: q < |pre + STATE_CHATTER_TAG + chatter + ";" + mid + STATE_HOST + USER_STATE| ==> !LiteralAt(line, q, CHANNEL_MARK))
  {
    var head := "@badges=" + STATE_CHATTER_TAG + "Alice" + ";" + "id=1";
    NoticeChatterTagFirst(head + STATE_HOST + USER_STATE + CHANNEL_MARK + "bob" + "");
    NoticeHostFirst(head);
    NoticeMarkFirst(head);
  }

  /** No `;display-name=` in front of the notice's chatter tag. */
  lemma NoticeChatterTagFirst(line: string)
    requires line == "@badges=" + STATE_CHATTER_TAG + "Alice" + ";" + "id=1" + STATE_HOST + USER_STATE + CHANNEL_MARK + "bob" + ""
    ensures forall q: nat :: q < |"@badges="| ==> !LiteralAt(line, q, STATE_CHATTER_TAG)
  {
    assert ';' !in "@badges=";
    assert line == "@badges=" + line[|"@badges="|..];
    NoLiteralBefore("@badges=", line[|"@badges="|..], STATE_CHATTER_TAG);
  }

  /** No host in front of the notice's host. */
  lemma NoticeHostFirst(head: string)
    requires head == "@badges=" + STATE_CHATTER_TAG + "Alice" + ";" + "id=1"
    ensures forall q: nat :: q < |head| ==> !LiteralAt(head + STATE_HOST + USER_STATE + CHANNEL_MARK + "bob" + "", q, STATE_HOST)
  {
    var after := STATE_HOST + USER_STATE + CHANNEL_MARK + "bob" + "";
    assert ' ' !in head;
    NoLiteralBefore(head, after, STATE_HOST);
    assert head + STATE_HOST + USER_STATE + CHANNEL_MARK + "bob" + "" == head + after;
  }

  /** No channel mark in front of the notice's channel mark. */
  lemma NoticeMarkFirst(head: string)
    requires head == "@badges=" + STATE_CHATTER_TAG + "Alice" + ";" + "id=1"
    ensures forall q: nat :: q < |head + STATE_HOST + USER_STATE| ==>
      !LiteralAt(head + STATE_HOST + USER_STATE + CHANNEL_MARK + "bob" + "", q, CHANNEL_MARK)
  {
    assert '#' !in head + STATE_HOST + USER_STATE;
    Regroup(head + STATE_HOST + USER_STATE, CHANNEL_MARK, "bob", "");
    NoChannelMarkBefore(head + STATE_HOST + USER_STATE, CHANNEL_MARK + "bob" + "");
  }

  /** ` #` needs a `#` in its second place, so it matches nowhere inside a text without one
      that is not followed by a `#`. */
  lemma NoChannelMarkBefore(pre: string, after: string)
    requires '#' !in pre && (after == [] || after[0] != '#')
    ensures forall q: nat :: q < |pre| ==> !LiteralAt(pre + after, q, CHANNEL_MARK)
  {
    forall q: nat | q < |pre|
      ensures !LiteralAt(pre + after, q, CHANNEL_MARK)
    {
      if q + 1 < |pre + after| {
        if q + 1 < |pre| {
          assert (pre + after)[q + 1] == pre[q + 1];
        } else {
          assert (pre + after)[q + 1] == after[0];
        }
        assert !CharMatches(CHANNEL_MARK[1], (pre + after)[q + 1]);
      }
    }
  }

  /** A state line whose first tag is `display-name` (`@display-name=N;…`) and that has no
      `;display-name=` later on gives the chatter regex nothing to match: for either user
      state kind `curr_state` panics, although `chatroom`'s regex, which lacks the `;`,
      would find the tag. */
  lemma {:induction false} FirstTagDisplayNameIsFatal(chatter: string, rest: string)
    requires ';' !in chatter && !Contains(rest, STATE_CHATTER_TAG)
    ensures var line := "@" + CHAT_TAG + chatter + rest;
      Capture(line, STATE_CHATTER_TAG, NotSemicolon).None?
      && (var r := CurrState(line);
          r.Ok? ==> r.value.stateType != GLOBAL_USER_STATE && r.value.stateType != USER_STATE)
      && OccursAt(line, CHAT_TAG, 1)
  {
    var line := "@" + CHAT_TAG + chatter + rest;
    var h := 1 + |CHAT_TAG| + |chatter|;
    assert line[1..1 + |CHAT_TAG|] == CHAT_TAG;
    assert line[h..] == rest;
    forall q: nat
      ensures !LiteralAt(line, q, STATE_CHATTER_TAG)
    {
      NoStateChatterTagAt(chatter, rest, q);
      if LiteralAt(line, q, STATE_CHATTER_TAG) {
        OccurrenceOfLiteral(line, q, STATE_CHATTER_TAG);
      }
    }
    CaptureMatchesIff(line, STATE_CHATTER_TAG, NotSemicolon);
  }

  /** A user-state notice whose tags open with `display-name`
      (`@display-name=Alice;id=1 :tmi.twitch.tv USERSTATE #bob`) is fatal: the kind is
      found, but the chatter regex, which needs a `;` in front of the tag, is not. */
  lemma DisplayNameFirstUserStatePanics()
    ensures CurrState("@" + CHAT_TAG + "Alice" + ";id=1" + STATE_HOST + USER_STATE + " #bob") == Err(ChatterRegex)
  {
    NoticeKindIsUserState();
    NoticeHasNoStateChatter();
  }

  /** The kind of that notice is found: `USERSTATE`. */
  lemma NoticeKindIsUserState()
    ensures Capture("@" + CHAT_TAG + "Alice" + ";id=1" + STATE_HOST + USER_STATE + " #bob", STATE_HOST, Word) == Some(USER_STATE)
  {
    var pre := "@" + CHAT_TAG + "Alice" + ";id=1";
    assert ' ' !in pre;
    NoLiteralBefore(pre, STATE_HOST + USER_STATE + " #bob", STATE_HOST);
    assert pre + STATE_HOST + USER_STATE + " #bob" == pre + (STATE_HOST + USER_STATE + " #bob");
    StateKindIsFirstWord(pre, USER_STATE, " #bob");
  }

  /** The chatter regex of `curr_state` finds nothing in that notice. */
  lemma NoticeHasNoStateChatter()
    ensures Capture("@" + CHAT_TAG + "Alice" + ";id=1" + STATE_HOST + USER_STATE + " #bob", STATE_CHATTER_TAG, NotSemicolon).None?
  {
    var rest := ";id=1" + STATE_HOST + USER_STATE + " #bob";
    assert "@" + CHAT_TAG + "Alice" + ";id=1" + STATE_HOST + USER_STATE + " #bob" == "@" + CHAT_TAG + "Alice" + rest;
    NoYIn(rest);
    MissingCharNotContained(rest, STATE_CHATTER_TAG, 'y');
    FirstTagDisplayNameIsFatal("Alice", rest);
  }

  /** None of the pieces of that notice after the first tag holds a `y`. */
  lemma NoYIn(rest: string)
    requires rest == ";id=1" + STATE_HOST + USER_STATE + " #bob"
    ensures 'y' !in rest
  {
    assert 'y' !in ";id=1" && 'y' !in STATE_HOST && 'y' !in USER_STATE && 'y' !in " #bob";
  }

  /** `;display-name=` occurs nowhere in such a line. */
  lemma NoStateChatterTagAt(chatter: string, rest: string, q: nat)
    requires ';' !in chatter && !Contains(rest, STATE_CHATTER_TAG)
    ensures !OccursAt("@" + CHAT_TAG + chatter + rest, STATE_CHATTER_TAG, q)
  {
    var line := "@" + CHAT_TAG + chatter + rest;
    var h := 1 + |CHAT_TAG| + |chatter|;
    if q < h {
      var head := "@" + CHAT_TAG + chatter;
      assert line[..h] == head;
      assert ';' !in head;
      assert line[q] == head[q];
      assert line[q] != STATE_CHATTER_TAG[0];
      if q + |STATE_CHATTER_TAG| <= |line| {
        assert line[q..q + |STATE_CHATTER_TAG|][0] == line[q];
      }
    } else {
      assert line[h..|line|] == rest;
      OccursInSlice(line, h, |line|, STATE_CHATTER_TAG, q - h);
    }
  }

  /* ---------- parse_msg ---------- */

  /** Some state keyword occurs in the line. */
  predicate HasStateKeyword(line: string) {
    exists k :: 0 <= k < |STATES| && Contains(line, STATES[k])
  }

  /** A `GLOBALUSERSTATE` notice also holds the `USERSTATE` keyword, so either would route it. */
  lemma GlobalHoldsUserState(line: string)
    requires Contains(line, GLOBAL_USER_STATE)
    ensures Contains(line, USER_STATE) && HasStateKeyword(line)
  {
    assert GLOBAL_USER_STATE == "GLOBAL" + USER_STATE;
    ContainsSuffix(line, "GLOBAL", USER_STATE);
    assert STATES[2] == USER_STATE;
  }

  /** The server's PING and PONG lines differ in their second character, so no line
      starts with both and the order of the first two tests does not matter. */
  lemma PingPongExclusive(line: string)
    ensures !(StartsWith(line, SERVER_PING) && StartsWith(line, SERVER_PONG))
  {
  }

  /** The branch chain of `parse_msg` for one line, first match wins: a PING prefix, a
      PONG prefix, `PRIVMSG` anywhere, a state keyword anywhere, or nothing. */
  function Classify(line: string): (r: Result<Event, Panic>)
    ensures r == Ok(KeepaliveRequest) <==> StartsWith(line, SERVER_PING)
    ensures r == Ok(KeepaliveAck) <==> StartsWith(line, SERVER_PONG)
    ensures r.Ok? && r.value.Chat? ==> Contains(line, PRIVMSG) && Chatroom(line) == Ok(r.value.msg)
    ensures r.Ok? && r.value.State? ==> !Contains(line, PRIVMSG) && HasStateKeyword(line) && CurrState(line) == Ok(r.value.state)
    ensures r.Ok? && r.value.Ignored? ==> r.value.line == line
    ensures r.Ok? && r.value.Ignored? <==>
      !StartsWith(line, SERVER_PING) && !StartsWith(line, SERVER_PONG) && !Contains(line, PRIVMSG) && !HasStateKeyword(line)
    ensures r.Err? ==> !StartsWith(line, SERVER_PING) && !StartsWith(line, SERVER_PONG) && (Contains(line, PRIVMSG) || HasStateKeyword(line))
    ensures !StartsWith(line, SERVER_PING) && !StartsWith(line, SERVER_PONG) && Contains(line, PRIVMSG) ==>
      (r.Ok? <==> Chatroom(line).Ok?) && (r.Err? ==> r.error == ChatRegex)
    ensures !StartsWith(line, SERVER_PING) && !StartsWith(line, SERVER_PONG) && !Contains(line, PRIVMSG) && HasStateKeyword(line) ==>
      (r.Ok? <==> CurrState(line).Ok?) && (r.Err? ==> CurrState(line) == Err(r.error))
  {
    PingPongExclusive(line);
    if StartsWith(line, SERVER_PING) then Ok(KeepaliveRequest)
    else if StartsWith(line, SERVER_PONG) then Ok(KeepaliveAck)
    else if Contains(line, PRIVMSG) then
      match Chatroom(line)
      case Ok(msg) => Ok(Chat(msg))
      case Err(p) => Err(p)
    else if HasStateKeyword(line) then
      match CurrState(line)
      case Ok(state) => Ok(State(state))
      case Err(p) => Err(p)
    else Ok(Ignored(line))
  }

  /** `keepalive`: given the writer it answers the server's PING with one PONG;
      without it (the server's PONG) it only logs. */
  function Keepalive(reply: bool): seq<string> {
    if reply then [KEEPALIVE_PONG] else []
  }

  /** What `parse_msg` writes for one classified line. */
  function Reply(e: Event): seq<string> {
    match e
    case KeepaliveRequest => Keepalive(true)
    case KeepaliveAck => Keepalive(false)
    case _ => []
  }

  /** The lines of a frame starting with the server's PING. */
  function CountPings(lines: seq<string>): nat {
    if lines == [] then 0
    else (if StartsWith(lines[0], SERVER_PING) then 1 else 0) + CountPings(lines[1..])
  }

  /** What handling a frame produced: the lines written back, the event of each line
      handled, and the panic that stopped the task, if any. */
  datatype Dispatch = Dispatch(sent: seq<string>, events: seq<Event>, panic: Option<Panic>)

  /** The `for` loop of `parse_msg`: each line is classified in turn and answered; a
      panic on a line ends the loop there, after what earlier lines already wrote. */
  function DispatchLines(lines: seq<string>): (d: Dispatch)
    ensures |d.events| <= |lines|
    ensures forall k :: 0 <= k < |d.events| ==> Classify(lines[k]) == Ok(d.events[k])
    ensures d.panic.None? <==> |d.events| == |lines|
    ensures d.panic.Some? ==> Classify(lines[|d.events|]) == Err(d.panic.value)
    ensures |d.sent| == CountPings(lines[..|d.events|])
    ensures forall k :: 0 <= k < |d.sent| ==> d.sent[k] == KEEPALIVE_PONG
  {
    if lines == [] then Dispatch([], [], None)
    else
      match Classify(lines[0])
      case Err(p) => Dispatch([], [], Some(p))
      case Ok(e) =>
        var rest := DispatchLines(lines[1..]);
        assert lines[..|rest.events| + 1][1..] == lines[1..][..|rest.events|];
        Dispatch(Reply(e) + rest.sent, [e] + rest.events, rest.panic)
  }

  /** The first line is handled before the rest, and what it writes comes first. */
  lemma DispatchFirst(lines: seq<string>)
    requires |lines| >= 1 && Classify(lines[0]).Ok?
    ensures var e := Classify(lines[0]).value;
      var rest := DispatchLines(lines[1..]);
      DispatchLines(lines) == Dispatch(Reply(e) + rest.sent, [e] + rest.events, rest.panic)
  {
  }

  /** The lines of a frame: split on CR-LF, empty pieces dropped. */
  function Lines(frame: string): (lines: seq<string>)
    ensures forall k :: 0 <= k < |lines| ==> lines[k] != [] && !Contains(lines[k], CRLF)
  {
    var pieces := Split(frame);
    var lines := NonEmpty(pieces);
    assert forall k :: 0 <= k < |lines| ==> lines[k] in multiset(pieces);
    lines
  }

  /** `parse_msg`: every line of the frame, in order, through the branch chain. */
  function ParseMsg(frame: string): Dispatch {
    DispatchLines(Lines(frame))
  }

  /** A frame of one line is handled as that line alone. */
  lemma ParseMsgOfLine(line: string)
    requires line != [] && !Contains(line, CRLF) && Classify(line).Ok?
    ensures ParseMsg(line) == Dispatch(Reply(Classify(line).value), [Classify(line).value], None)
  {
    LinesOfJoin([line]);
    assert Join([line]) == line;
    DispatchFirst([line]);
    assert [line][1..] == [];
  }

  /** A frame made of non-empty lines, each ended by CR-LF as the server sends them (or
      with the last terminator missing), yields exactly those lines, in order. */
  lemma LinesOfFrame(ls: seq<string>)
    requires forall k :: 0 <= k < |ls| ==> ls[k] != [] && !Contains(ls[k], CRLF)
    ensures Lines(Join(ls)) == ls
    ensures Lines(Join(ls) + CRLF) == ls
  {
    if ls == [] {
      SplitSingle("");
      SplitCons("", "");
    } else {
      LinesOfJoin(ls);
      LinesOfTerminated(ls);
    }
  }

  lemma LinesOfJoin(ls: seq<string>)
    requires |ls| >= 1
    requires forall k :: 0 <= k < |ls| ==> ls[k] != [] && !Contains(ls[k], CRLF)
    ensures Lines(Join(ls)) == ls
  {
    SplitJoin(ls);
    NonEmptyKeepsAll(ls);
  }

  lemma NoSeparatorInEmpty()
    ensures !Contains("", CRLF)
  {
  }

  lemma SplitTerminated(ls: seq<string>)
    requires |ls| >= 1
    requires forall k :: 0 <= k < |ls| ==> !Contains(ls[k], CRLF)
    ensures Split(Join(ls) + CRLF) == ls + [""]
  {
    JoinSnoc(ls, "");
    assert Join(ls) + CRLF + "" == Join(ls) + CRLF;
    NoSeparatorWithEmpty(ls);
    SplitJoin(ls + [""]);
  }

  /** An empty last piece adds no separator. */
  lemma NoSeparatorWithEmpty(ls: seq<string>)
    requires forall k :: 0 <= k < |ls| ==> !Contains(ls[k], CRLF)
    ensures forall k :: 0 <= k < |ls + [""]| ==> !Contains((ls + [""])[k], CRLF)
  {
    NoSeparatorInEmpty();
    forall k | 0 <= k < |ls + [""]|
      ensures !Contains((ls + [""])[k], CRLF)
    {
      if k < |ls| {
        assert (ls + [""])[k] == ls[k];
      }
    }
  }

  lemma LinesOfTerminated(ls: seq<string>)
    requires |ls| >= 1
    requires forall k :: 0 <= k < |ls| ==> ls[k] != [] && !Contains(ls[k], CRLF)
    ensures Lines(Join(ls) + CRLF) == ls
  {
    SplitTerminated(ls);
    NonEmptyAppend(ls, [""]);
    NonEmptyKeepsAll(ls);
    assert NonEmpty([""]) == [];
    assert ls + [] == ls;
  }

  /** A frame of N lines that all classify is answered with one PONG per line starting
      with the server's PING, and gives one event per line, in order. */
  lemma ParseMsgCountsPings(ls: seq<string>)
    requires forall k :: 0 <= k < |ls| ==> ls[k] != [] && !Contains(ls[k], CRLF) && Classify(ls[k]).Ok?
    ensures var d := ParseMsg(Join(ls) + CRLF);
      d.panic.None? && |d.events| == |ls| && |d.sent| == CountPings(ls)
      && (forall k :: 0 <= k < |ls| ==> Classify(ls[k]) == Ok(d.events[k]))
  {
    LinesOfFrame(ls);
    assert ls[..|ls|] == ls;
  }

  /* ---------- handshake ---------- */

  /** The `Irc` struct: the formatted handshake lines it holds. */
  datatype IrcClient = IrcClient(nick: string, user: string, channel: string, auth: string)

  /** `open_irc`: the handshake lines built from the credentials and the channel argument,
      passed to `Irc::new` in the order nick, user, channel, auth. */
  function OpenIrc(creds: Credentials, channel: string): IrcClient {
    IrcClient(NickLine(creds.user), UserLine(creds.user), JoinLine(channel), PassLine(creds.auth))
  }

  /** `Irc::irc_init`: what is written on the new connection, in order. */
  function IrcInit(irc: IrcClient): seq<string> {
    [REQ, irc.auth, irc.nick, irc.user, irc.channel]
  }

  /** The handshake of `open_irc`: exactly five lines, which a server reads back as the
      configured credentials joining the requested channel. */
  function Login(creds: Credentials, channel: string): (sent: seq<string>)
    ensures |sent| == 5 && sent[0] == REQ
    ensures ParseHandshake(sent) == Some(Registration(creds.auth, creds.user, channel))
  {
    ParseOfHandshake(creds.auth, creds.user, channel);
    IrcInit(OpenIrc(creds, channel))
  }
}
