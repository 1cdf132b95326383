/** The expected replies of the stream-listener tests, and what a caller of the
    listener can rely on across two replies. */
module TwitterExamples {
  import opened Strings
  import opened Twitter

  /** The bot (id 0) is dropped from the mentions; the others keep their order. */
  lemma MentionsOfGift()
    ensures Mentions([UserMention(0, "chromachipper"), UserMention(11111111, "GiftToMe"),
                      UserMention(22222222, "GiftToMeToo")], 0)
            == ["@GiftToMe", "@GiftToMeToo"]
  {
    var ms := [UserMention(0, "chromachipper"), UserMention(11111111, "GiftToMe"),
               UserMention(22222222, "GiftToMeToo")];
    assert ms[2..][1..] == [] && ms[2..][0] == ms[2] && ms[1..][1..] == ms[2..];
    assert "@" + "GiftToMeToo" == "@GiftToMeToo";
    assert "@" + "GiftToMe" == "@GiftToMe";
    assert Mentions(ms[2..], 0) == ["@GiftToMeToo"];
    assert Mentions(ms[1..], 0) == ["@GiftToMe", "@GiftToMeToo"];
  }

  lemma JoinGift()
    ensures Join(["@GiftToMe", "@GiftToMeToo"], " ") == "@GiftToMe @GiftToMeToo"
  {
    var hs := ["@GiftToMe", "@GiftToMeToo"];
    assert hs[1..] == ["@GiftToMeToo"];
    assert Join(hs, " ") == "@GiftToMe" + " " + "@GiftToMeToo";
  }

  /** The reply that lists the mentions. */
  lemma ReplyWithMentions()
    ensures MentionReply("IWantToGive", ["@GiftToMe", "@GiftToMeToo"])
            == "@IWantToGive sent you a Chroma Chip! @GiftToMe @GiftToMeToo"
  {
    JoinGift();
    var head := "@IWantToGive sent you a Chroma Chip! ";
    assert "@" + "IWantToGive" == "@IWantToGive";
    assert "@IWantToGive" + CHIP_SENT == head;
    assert head + "@GiftToMe @GiftToMeToo" == "@IWantToGive sent you a Chroma Chip! @GiftToMe @GiftToMeToo";
  }

  /** Two replies in a row from one listener are stock phrases and differ, whatever
      the draws, as long as each run of draws holds two different indices. */
  method ConsecutiveReplies(twitterId: int, first: seq<nat>, second: seq<nat>, i: nat, j: nat)
    returns (r1: string, r2: string)
    requires ValidDraws(first) && |first| > 0
    requires ValidDraws(second) && i < |second| && j < |second| && second[i] != second[j]
    ensures r1 in REPLIES && r2 in REPLIES && r1 != r2
    ensures r1 == REPLIES[first[0]]
  {
    var listener := new ChromachipStreamListener(twitterId);
    FirstDrawAccepted(first);
    r1 := listener.GetRandomReply(first);
    TwoDifferentDrawsSuffice(second, listener.lastReply, i, j);
    r2 := listener.GetRandomReply(second);
  }
}
