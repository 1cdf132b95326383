/** The stream listener that answers a status sent to the bot: it harvests the
    colours of the status, lists the other accounts the status mentions, and
    composes the reply text, drawing a stock phrase that never repeats the
    previous one when there is nobody else to mention. */
module Twitter {
  import opened Strings
  import Chromachipper

  datatype Option<T> = None | Some(value: T)

  /** The stock phrases of a reply that mentions nobody else. */
  const REPLIES: seq<string> := [
    "You're welcome!",
    "Enjoy!",
    "Here you are!",
    "Here's your Chroma Chip!",
    "Nice one!",
    "Colo(u)rs!",
    "Huetiful!",
    "There you go!",
    "What's better than chips? Chroma Chips!",
    "Looking good!",
    "No probs!",
    "I made this especially for you!",
    "Great!"
  ]

  /** One entry of a status's `user_mentions`. */
  datatype UserMention = UserMention(id: int, screenName: string)

  /** The parts of an incoming status the listener reads. */
  datatype Status = Status(
    id: int,
    text: string,
    inReplyToUserId: int,
    userScreenName: string,
    userMentions: seq<UserMention>)

  /** What the listener hands to `update_with_media`: the reply text, the status it
      answers, and the colour groups the attached chip is drawn from. */
  datatype Post = Post(text: string, inReplyToStatusId: int, colours: seq<seq<string>>)

  // ----- the mention list -----

  /** `"@" + screen_name` for every mention whose id is not the bot's, in order. */
  function Mentions(userMentions: seq<UserMention>, twitterId: int): (handles: seq<string>)
    ensures |handles| <= |userMentions|
    ensures forall k :: 0 <= k < |handles| ==>
      exists j :: 0 <= j < |userMentions| && userMentions[j].id != twitterId &&
        handles[k] == "@" + userMentions[j].screenName
    decreases |userMentions|
  {
    if userMentions == [] then []
    else
      var m := userMentions[0];
      var rest := Mentions(userMentions[1..], twitterId);
      assert forall j :: 0 <= j < |userMentions| - 1 ==> userMentions[1..][j] == userMentions[j + 1];
      (if m.id != twitterId then ["@" + m.screenName] else []) + rest
  }

  /** The mention list of a concatenation is the concatenation of the mention lists:
      filtering keeps the original order. */
  lemma {:induction false} MentionsAppend(a: seq<UserMention>, b: seq<UserMention>, twitterId: int)
    ensures Mentions(a + b, twitterId) == Mentions(a, twitterId) + Mentions(b, twitterId)
    decreases |a|
  {
    if a == [] {
      assert a + b == b;
    } else {
      assert (a + b)[1..] == a[1..] + b;
      MentionsAppend(a[1..], b, twitterId);
    }
  }

  /** The mention list is empty exactly when every mention is the bot itself. */
  lemma {:induction false} MentionsEmpty(userMentions: seq<UserMention>, twitterId: int)
    ensures Mentions(userMentions, twitterId) == [] <==>
      forall j :: 0 <= j < |userMentions| ==> userMentions[j].id == twitterId
    decreases |userMentions|
  {
    if userMentions != [] {
      MentionsEmpty(userMentions[1..], twitterId);
      assert forall j :: 0 <= j < |userMentions| - 1 ==> userMentions[1..][j] == userMentions[j + 1];
    }
  }

  /** When the bot is not among the mentions, every mention is kept, in place. */
  lemma {:induction false} MentionsAllOthers(userMentions: seq<UserMention>, twitterId: int)
    requires forall j :: 0 <= j < |userMentions| ==> userMentions[j].id != twitterId
    ensures var handles := Mentions(userMentions, twitterId);
      |handles| == |userMentions| &&
      forall k :: 0 <= k < |handles| ==> handles[k] == "@" + userMentions[k].screenName
    decreases |userMentions|
  {
    if userMentions != [] {
      var rest := userMentions[1..];
      MentionsAllOthers(rest, twitterId);
      var handles := Mentions(userMentions, twitterId);
      var tail := Mentions(rest, twitterId);
      assert handles == ["@" + userMentions[0].screenName] + tail;
      forall k | 0 <= k < |handles| ensures handles[k] == "@" + userMentions[k].screenName {
        if k > 0 {
          assert handles[k] == tail[k - 1] && rest[k - 1] == userMentions[k];
        }
      }
    }
  }

  // ----- the reply text -----

  const CHIP_SENT: string := " sent you a Chroma Chip! "

  /** The reply when others are mentioned: it opens with `@user sent you a
      Chroma Chip! ` and lists the handles after it. */
  function MentionReply(replyTo: string, mentions: seq<string>): (text: string)
    ensures "@" + replyTo + CHIP_SENT <= text
    ensures |mentions| > 0 ==> |text| >= |replyTo| + 1 + |CHIP_SENT| + |mentions[0]|
  {
    "@" + replyTo + CHIP_SENT + Join(mentions, " ")
  }

  /** The reply when nobody else is mentioned: it opens with `@user `. */
  function PhraseReply(replyTo: string, phrase: string): (text: string)
    ensures "@" + replyTo + " " <= text && |text| == |replyTo| + 2 + |phrase|
  {
    "@" + replyTo + " " + phrase
  }

  /** The mentions can be read back from a mention reply: after the fixed prefix,
      splitting on spaces gives the handles in order (screen names hold no space). */
  lemma MentionReplyRecovers(replyTo: string, mentions: seq<string>)
    requires |mentions| > 0
    requires forall k :: 0 <= k < |mentions| ==> ' ' !in mentions[k]
    ensures var prefix := "@" + replyTo + CHIP_SENT;
      var text := MentionReply(replyTo, mentions);
      prefix <= text && Split(text[|prefix|..], ' ') == mentions
  {
    var prefix := "@" + replyTo + CHIP_SENT;
    var text := MentionReply(replyTo, mentions);
    assert text == prefix + Join(mentions, " ");
    assert text[|prefix|..] == Join(mentions, " ");
    JoinSplit(mentions, ' ');
  }

  /** No stock phrase holds an `@`. */
  lemma PhrasesHoldNoAt()
    ensures forall k :: 0 <= k < |REPLIES| ==> '@' !in REPLIES[k]
  {
  }

  /** Deleting every `@user ` from a phrase reply leaves exactly the stock phrase:
      the prefix occurs once, at the start, since no stock phrase holds an `@`. */
  lemma PhraseReplyRecovers(replyTo: string, phrase: string)
    requires phrase in REPLIES
    ensures Replace(PhraseReply(replyTo, phrase), "@" + replyTo + " ", "") == phrase
  {
    var prefix := "@" + replyTo + " ";
    var text := PhraseReply(replyTo, phrase);
    PhrasesHoldNoAt();
    assert '@' !in phrase;
    forall i | 0 <= i <= |phrase| ensures !(prefix <= phrase[i..]) {
      if i < |phrase| {
        assert phrase[i..][0] == phrase[i] != '@';
      }
    }
    ReplaceAbsent(phrase, prefix, "");
    assert text == prefix + phrase && text[|prefix|..] == phrase;
  }

  /** The reply `on_status` posts when nobody else is mentioned (the text its
      `else` branch names) strips to the drawn phrase: a stock phrase, and not
      the previous one. */
  lemma PostedPhraseRecovers(replyTo: string, draws: seq<nat>, last: Option<string>)
    requires ValidDraws(draws) && HasFresh(draws, last)
    ensures var phrase := Pick(draws, last);
      var stripped := Replace(PhraseReply(replyTo, phrase), "@" + replyTo + " ", "");
      stripped == phrase && stripped in REPLIES && Some(stripped) != last
  {
    PhraseReplyRecovers(replyTo, Pick(draws, last));
  }

  /** No stock phrase starts like the mention reply's connective. */
  lemma PhrasesStartApart()
    ensures forall k :: 0 <= k < |REPLIES| ==> |REPLIES[k]| > 0 && REPLIES[k][0] != CHIP_SENT[1]
  {
  }

  /** The two shapes of reply never coincide: a reply with a stock phrase is never a
      reply listing mentions. */
  lemma ShapesDiffer(replyTo: string, mentions: seq<string>, phrase: string)
    requires phrase in REPLIES
    ensures PhraseReply(replyTo, phrase) != MentionReply(replyTo, mentions)
  {
    PhrasesStartApart();
    var n := |replyTo| + 2;
    assert PhraseReply(replyTo, phrase)[n] == phrase[0];
    assert MentionReply(replyTo, mentions)[n] == CHIP_SENT[1];
  }

  // ----- the non-repeating phrase draw -----

  /** Every draw is an index into `REPLIES`: the values `random.choice` picks. */
  predicate ValidDraws(draws: seq<nat>) {
    forall k :: 0 <= k < |draws| ==> draws[k] < |REPLIES|
  }

  /** Some draw yields a phrase other than `last`, so the redraws end. */
  predicate HasFresh(draws: seq<nat>, last: Option<string>)
    requires ValidDraws(draws)
  {
    exists k :: 0 <= k < |draws| && Some(REPLIES[draws[k]]) != last
  }

  lemma HasFreshTail(draws: seq<nat>, last: Option<string>)
    requires ValidDraws(draws) && HasFresh(draws, last)
    requires Some(REPLIES[draws[0]]) == last
    ensures ValidDraws(draws[1..]) && HasFresh(draws[1..], last)
  {
    var k :| 0 <= k < |draws| && Some(REPLIES[draws[k]]) != last;
    assert draws[1..][k - 1] == draws[k];
  }

  /** The phrase `get_random_reply` returns: the first drawn phrase that differs
      from `last`. It is a stock phrase and it is never `last`. */
  function Pick(draws: seq<nat>, last: Option<string>): (phrase: string)
    requires ValidDraws(draws) && HasFresh(draws, last)
    ensures phrase in REPLIES && Some(phrase) != last
    decreases |draws|
  {
    var drawn := REPLIES[draws[0]];
    if Some(drawn) != last then drawn
    else
      HasFreshTail(draws, last);
      Pick(draws[1..], last)
  }

  /** With no previous reply the first draw is taken. */
  lemma FirstDrawAccepted(draws: seq<nat>)
    requires ValidDraws(draws) && |draws| > 0
    ensures HasFresh(draws, None) && Pick(draws, None) == REPLIES[draws[0]]
  {
    assert Some(REPLIES[draws[0]]) != None;
  }

  /** The stock phrases are pairwise different. */
  lemma RepliesDistinct()
    ensures forall a, b :: 0 <= a < b < |REPLIES| ==> REPLIES[a] != REPLIES[b]
  {
  }

  /** Two draws of different phrases always let the draw end, whatever came before. */
  lemma TwoDifferentDrawsSuffice(draws: seq<nat>, last: Option<string>, i: nat, j: nat)
    requires ValidDraws(draws) && i < |draws| && j < |draws| && draws[i] != draws[j]
    ensures HasFresh(draws, last)
  {
    RepliesDistinct();
    if Some(REPLIES[draws[i]]) == last {
      assert REPLIES[draws[i]] != REPLIES[draws[j]];
    }
  }

  // ----- the listener -----

  class ChromachipStreamListener {
    const twitterId: int
    var lastReply: Option<string>
    var outbox: seq<Post>

    /** The remembered reply is always one of the stock phrases. The source compares
        a drawn phrase with the last one by identity (`is not`); since the stock
        phrases are pairwise different (`RepliesDistinct`), for members of `REPLIES`
        identity and equality agree, and the model compares with `!=`. */
    ghost predicate Valid()
      reads this
    {
      lastReply.Some? ==> lastReply.value in REPLIES
    }

    constructor (twitterId: int)
      ensures Valid()
      ensures this.twitterId == twitterId && lastReply == None && outbox == []
    {
      this.twitterId := twitterId;
      lastReply := None;
      outbox := [];
    }

    /** `get_random_reply`: draw a phrase, and draw again while it is the last reply. */
    method GetRandomReply(draws: seq<nat>) returns (reply: string)
      requires Valid() && ValidDraws(draws) && HasFresh(draws, lastReply)
      modifies this`lastReply
      ensures Valid()
      ensures reply == Pick(draws, old(lastReply)) && lastReply == Some(reply)
      ensures reply in REPLIES && Some(reply) != old(lastReply)
      decreases |draws|
    {
      var drawn := REPLIES[draws[0]];
      if Some(drawn) != lastReply {
        lastReply := Some(drawn);
        reply := drawn;
      } else {
        HasFreshTail(draws, lastReply);
        reply := GetRandomReply(draws[1..]);
      }
    }

    /** `reply_to_status`: compose the reply text and post it with the chip. */
    method ReplyToStatus(replyTo: string, id: int, colours: seq<seq<string>>, mentions: seq<string>,
                         draws: seq<nat>)
      requires Valid() && ValidDraws(draws)
      requires mentions == [] ==> HasFresh(draws, lastReply)
      modifies this`lastReply, this`outbox
      ensures Valid()
      ensures mentions != [] ==>
        lastReply == old(lastReply) &&
        outbox == old(outbox) + [Post(MentionReply(replyTo, mentions), id, colours)]
      ensures mentions == [] ==>
        lastReply == Some(Pick(draws, old(lastReply))) &&
        outbox == old(outbox) + [Post(PhraseReply(replyTo, Pick(draws, old(lastReply))), id, colours)]
      ensures mentions == [] ==>
        var stripped := Replace(outbox[|outbox| - 1].text, "@" + replyTo + " ", "");
        stripped in REPLIES && lastReply == Some(stripped)
    {
      var replyText;
      if mentions != [] {
        replyText := MentionReply(replyTo, mentions);
      } else {
        var phrase := GetRandomReply(draws);
        replyText := PhraseReply(replyTo, phrase);
        PhraseReplyRecovers(replyTo, phrase);
      }
      outbox := outbox + [Post(replyText, id, colours)];
    }

    /** `on_status`: answer a status addressed to the bot that holds colours; keep
        listening in every case. */
    method OnStatus(status: Status, draws: seq<nat>) returns (keepListening: bool)
      requires Valid() && ValidDraws(draws)
      requires (status.inReplyToUserId == twitterId && Chromachipper.Harvest(status.text) != [] &&
                Mentions(status.userMentions, twitterId) == []) ==> HasFresh(draws, lastReply)
      modifies this`lastReply, this`outbox
      ensures Valid() && keepListening
      ensures status.inReplyToUserId != twitterId || Chromachipper.Harvest(status.text) == [] ==>
        lastReply == old(lastReply) && outbox == old(outbox)
      ensures status.inReplyToUserId == twitterId && Chromachipper.Harvest(status.text) != [] ==>
        var mentions := Mentions(status.userMentions, twitterId);
        var colours := Chromachipper.Harvest(status.text);
        if mentions != [] then
          lastReply == old(lastReply) &&
          outbox == old(outbox) + [Post(MentionReply(status.userScreenName, mentions), status.id, colours)]
        else
          lastReply == Some(Pick(draws, old(lastReply))) &&
          outbox == old(outbox) +
            [Post(PhraseReply(status.userScreenName, Pick(draws, old(lastReply))), status.id, colours)]
    {
      if status.inReplyToUserId == twitterId {
        var colours := Chromachipper.GetColoursFromMessage(status.text);
        if colours != [] {
          var replyTo := status.userScreenName;
          var mentions := Mentions(status.userMentions, twitterId);
          ReplyToStatus(replyTo, status.id, colours, mentions, draws);
        }
      }
      keepListening := true;
    }
  }
}
