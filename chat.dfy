/** The chat log shared by the players: messages kept in the order they were sent. */
module Chat {
  import opened Builtins

  /** One chat line: who sent it, what it says, and the id and time stamp it carries. */
  datatype ChatMessage = ChatMessage(id: string, playerId: string, text: string, timestamp: real)

  /** The smaller of two integers. */
  function Min(a: int, b: int): (m: int)
    ensures m <= a && m <= b && (m == a || m == b)
  {
    if a <= b then a else b
  }

  /** `messages[-limit:]` for a positive limit: the last `limit` messages, or all of them
      when there are fewer. */
  lemma LastMessages(s: seq<ChatMessage>, limit: int)
    requires limit > 0
    ensures |SliceFrom(s, -limit)| == Min(limit, |s|)
    ensures SliceFrom(s, -limit) == s[|s| - Min(limit, |s|)..]
  {
  }

  /** `messages[-0:]` is `messages[0:]`: a limit of zero returns every message. */
  lemma ZeroLimitReturnsAll(s: seq<ChatMessage>)
    ensures SliceFrom(s, -0) == s
  {
  }

  /** A negative limit counts from the front: `messages[m:]` drops the first `m` messages. */
  lemma NegativeLimitDropsFront(s: seq<ChatMessage>, limit: int)
    requires limit < 0
    ensures -limit <= |s| ==> SliceFrom(s, -limit) == s[-limit..]
    ensures -limit > |s| ==> SliceFrom(s, -limit) == []
  {
  }

  /** The chat log. A message's id and time stamp are the defaults fixed once, when the
      message class is defined, so every message of every manager carries the same two
      values. */
  class ChatManager {
    var messages: seq<ChatMessage>
    const defaultId: string
    const defaultTimestamp: real

    /** An empty log; `defaultId` and `defaultTimestamp` are the message defaults. */
    constructor(defaultId: string, defaultTimestamp: real)
      ensures messages == []
      ensures this.defaultId == defaultId && this.defaultTimestamp == defaultTimestamp
    {
      messages := [];
      this.defaultId := defaultId;
      this.defaultTimestamp := defaultTimestamp;
    }

    /** Appends one message from `playerId` and returns it. */
    method AddMessage(playerId: string, text: string) returns (msg: ChatMessage)
      modifies this
      ensures msg == ChatMessage(defaultId, playerId, text, defaultTimestamp)
      ensures messages == old(messages) + [msg]
    {
      msg := ChatMessage(defaultId, playerId, text, defaultTimestamp);
      messages := messages + [msg];
    }

    /** `get_messages(limit)`: the slice `messages[-limit:]`. */
    function GetMessages(limit: int := 50): (r: seq<ChatMessage>)
      reads this
      ensures limit > 0 ==> |r| == Min(limit, |messages|) && r == messages[|messages| - |r|..]
      ensures limit == 0 ==> r == messages
    {
      LastMessages(messages, if limit > 0 then limit else 1);
      SliceFrom(messages, -limit)
    }
  }

  /** With at most fifty messages the default limit returns all of them, in order. */
  lemma DefaultLimitReturnsAll(s: seq<ChatMessage>)
    requires |s| <= 50
    ensures SliceFrom(s, -50) == s
  {
    LastMessages(s, 50);
  }

  /** The message just added is the newest one returned, for every positive limit. */
  lemma NewestLast(s: seq<ChatMessage>, m: ChatMessage, limit: int)
    requires limit > 0
    ensures var r := SliceFrom(s + [m], -limit);
      |r| > 0 && r[|r| - 1] == m
  {
    LastMessages(s + [m], limit);
  }

  /** Adding a message to a full window moves it by one: the oldest returned message drops
      out and the new one comes in at the end. */
  lemma WindowSlides(s: seq<ChatMessage>, m: ChatMessage, limit: int)
    requires 0 < limit <= |s|
    ensures SliceFrom(s + [m], -limit) == SliceFrom(s, -limit)[1..] + [m]
  {
    LastMessages(s, limit);
    LastMessages(s + [m], limit);
    assert (s + [m])[|s| + 1 - limit..] == s[|s| + 1 - limit..] + [m];
  }
}
