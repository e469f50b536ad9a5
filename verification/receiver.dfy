/**
 The front receiver: it answers Slack's URL-verification challenge, or takes
 the text and channel out of the event, strips the bot's own mention and
 hands `{text, channel}` to the worker, acknowledging at once.

 The body arrives already parsed; the asynchronous invocation of the worker
 is represented by the payload it would carry.
 */
module Receiver {
  import opened Text
  import opened Wrappers
  import Worker

  /** The `event` object of a callback; each field may be missing. */
  datatype SlackEvent = SlackEvent(text: Option<string>, channel: Option<string>)

  /** A callback body: a verification challenge, an event, or neither. */
  datatype Body = Body(challenge: Option<string>, event: Option<SlackEvent>)

  /** The response body: `{"challenge": ...}` or a plain string. */
  datatype ResponseBody = ChallengeEcho(challenge: string) | Plain(content: string)

  datatype Response = Response(statusCode: int, body: ResponseBody)

  /** What is sent to the worker. */
  datatype Payload = Payload(text: string, channel: string)

  /** The HTTP response and the hand-off made before it, if any. */
  datatype Reception = Reception(response: Response, handoff: Option<Payload>)

  /** How the bot is mentioned in message text. */
  function Mention(botUserId: string): (m: string)
    ensures |m| > 0 && m[0] == '<'
  {
    "<@" + botUserId + ">"
  }

  /** Trim the text; if it then starts with the mention, remove every
      occurrence of the mention and trim again. */
  function CleanText(botUserId: string, raw: string): (r: string)
    ensures Trimmed(r)
  {
    var mention := Mention(botUserId);
    var text := Strip(raw);
    if StartsWith(text, mention) then Strip(RemoveAll(text, mention)) else text
  }

  /** The leading mention is removed with the rest. */
  lemma {:induction false} CleanLeadingMention(botUserId: string, raw: string, rest: string)
    requires Strip(raw) == Mention(botUserId) + rest
    ensures CleanText(botUserId, raw) == Strip(RemoveAll(rest, Mention(botUserId)))
  {
    var m := Mention(botUserId);
    assert StartsWith(Strip(raw), m) by { assert Strip(raw)[..|m|] == m; }
    RemoveAllHead(m, rest);
  }

  /** `lambda_handler` of the receiver. */
  function Receive(botUserId: string, body: Body): (res: Reception)
    ensures res.response.statusCode == 200
    ensures res.handoff.None? <==> body.challenge.Some?
    ensures body.challenge.Some? ==> res.response.body == ChallengeEcho(body.challenge.value)
    ensures body.challenge.None? ==> res.response.body == Plain("OK")
    ensures res.handoff.Some? ==> Trimmed(res.handoff.value.text)
    ensures body.challenge.None? ==>
      var event := body.event.GetOr(SlackEvent(None, None));
      res.handoff == Some(Payload(CleanText(botUserId, event.text.GetOr("")), event.channel.GetOr("")))
  {
    var event := body.event.GetOr(SlackEvent(None, None));
    if body.challenge.Some? then
      Reception(Response(200, ChallengeEcho(body.challenge.value)), None)
    else
      var text := CleanText(botUserId, event.text.GetOr(""));
      var channel := event.channel.GetOr("");
      Reception(Response(200, Plain("OK")), Some(Payload(text, channel)))
  }

  /** Empty text is handed off as empty text. */
  lemma {:induction false} CleanEmpty(botUserId: string)
    ensures CleanText(botUserId, "") == ""
  {
    StripCharacterized("", 0, "");
  }

  /** A body with no event hands off empty text to the empty channel. */
  lemma {:induction false} MissingEventDefault(botUserId: string)
    ensures Receive(botUserId, Body(None, None)).handoff == Some(Payload("", ""))
  {
    CleanEmpty(botUserId);
  }

  /** An event without text hands off empty text, to the event's channel
      when it has one. */
  lemma {:induction false} MissingTextDefault(botUserId: string, channel: Option<string>)
    ensures Receive(botUserId, Body(None, Some(SlackEvent(None, channel)))).handoff
              == Some(Payload("", channel.GetOr("")))
  {
    CleanEmpty(botUserId);
  }

  /** An event without a channel hands off its cleaned text to the empty
      channel. */
  lemma {:induction false} MissingChannelDefault(botUserId: string, text: Option<string>)
    ensures Receive(botUserId, Body(None, Some(SlackEvent(text, None)))).handoff
              == Some(Payload(CleanText(botUserId, text.GetOr("")), ""))
  {
  }

  /** Text that does not start with the mention once trimmed is only trimmed. */
  lemma {:induction false} UnmentionedTextTrimmed(botUserId: string, raw: string, channel: string)
    requires !StartsWith(Strip(raw), Mention(botUserId))
    ensures Receive(botUserId, Body(None, Some(SlackEvent(Some(raw), Some(channel))))).handoff
              == Some(Payload(Strip(raw), channel))
  {
  }

  /** A mention split in two by another one is put back together by the
      removal. */
  lemma {:induction false} SplitMentionJoined()
    ensures RemoveAll("<@<@U1>U1>", Mention("U1")) == "<@U1>"
  {
    var m := Mention("U1");
    var s1 := "<@<@U1>U1>";
    assert m == "<@U1>";
    assert !OccursAt(s1, m, 0) by { assert s1[2] != m[2]; }
    RemoveAllKeep(s1, m);
    var s2 := s1[1..];
    assert s2 == "@<@U1>U1>";
    assert !OccursAt(s2, m, 0) by { assert s2[0] != m[0]; }
    RemoveAllKeep(s2, m);
    assert s2[1..] == m + "U1>";
    RemoveAllHead(m, "U1>");
    assert RemoveAll("U1>", m) == "U1>";
  }

  /** Removal is one left-to-right pass, so the cleaned text can still start
      with the mention. */
  lemma {:induction false} MentionCanSurvive()
    ensures CleanText("U1", "<@U1><@<@U1>U1>") == "<@U1>"
  {
    var m := Mention("U1");
    var s := "<@U1><@<@U1>U1>";
    var s1 := "<@<@U1>U1>";
    assert Strip(s) == m + s1 by { StripTrimmed(s); }
    CleanLeadingMention("U1", s, s1);
    SplitMentionJoined();
    StripTrimmed("<@U1>");
  }

  /** The mention, a space and then text free of the mention is cleaned to
      exactly that text. */
  lemma {:induction false} MentionedTextCleaned(botUserId: string, t: string)
    requires Trimmed(t) && !Contains(t, Mention(botUserId))
    ensures CleanText(botUserId, Mention(botUserId) + " " + t) == t
  {
    var m := Mention(botUserId);
    var u := [' '] + t;
    var raw := m + u;
    assert raw == m + " " + t;
    if |t| == 0 {
      assert Strip(raw) == m + [] by {
        assert StripCut(raw, 0, m) by {
          assert raw[0..|m|] == m;
          assert raw[|m|..] == " ";
        }
        assert Trimmed(m) by { assert m[|m| - 1] == '>'; }
        StripCharacterized(raw, 0, m);
      }
      CleanLeadingMention(botUserId, raw, []);
      assert RemoveAll([], m) == [];
      CleanEmpty(botUserId);
    } else {
      assert Strip(raw) == m + u by {
        assert Trimmed(raw) by { assert raw[0] == m[0]; assert raw[|raw| - 1] == t[|t| - 1]; }
        StripTrimmed(raw);
      }
      CleanLeadingMention(botUserId, raw, u);
      assert RemoveAll(u, m) == u by {
        ContainsCons(' ', t, m);
        RemoveAllUnchanged(u, m);
      }
      StripAfterSpace(t);
    }
  }

  /** "@bot <command>" reaches the worker as exactly the command text, so the
      worker parses it as the command typed. */
  lemma {:induction false} MentionedCommandReachesWorker(botUserId: string, channel: string, cmd: Worker.Command)
    requires Worker.Typable(cmd)
    requires Trimmed(Worker.Render(cmd)) && !Contains(Worker.Render(cmd), Mention(botUserId))
    ensures var res := Receive(botUserId, Body(None, Some(SlackEvent(Some(Mention(botUserId) + " " + Worker.Render(cmd)), Some(channel)))));
            && res.handoff == Some(Payload(Worker.Render(cmd), channel))
            && Worker.Parse(res.handoff.value.text) == cmd
  {
    var t := Worker.Render(cmd);
    assert |t| > 0;
    MentionedTextCleaned(botUserId, t);
    Worker.ParseRender(cmd);
  }
}
