/** The mention-handling rule of the bot: which mentions get a reply, what
    the reply says, and when the idle status is posted instead.

    The clock is abstracted as one time label per run, a mention's age in
    minutes is given with the mention, and the client's `update_status` calls
    are recorded as a sequence of actions. Whether a reply post fails is given
    as the set of mention positions whose post raises an error. */
module TwitterBot {
  import opened TextMatch

  /** Mentions at least this many minutes old are left alone. */
  const IntervalMinutes: int := 10

  datatype Option<T> = None | Some(value: T)

  /** One mention as read from the timeline: its status id, its text, the
      author's handle and its age in minutes. */
  datatype Mention = Mention(id: int, text: string, screenName: string, age: int)

  /** One call of `update_status`: a threaded reply or a top-level status. */
  datatype Action =
    | ReplyTo(inReplyTo: int, text: string)
    | Status(text: string)

  /** Position `i` of the message holds an 'h' or 'H' directly followed by
      an 'i' or 'I'. */
  predicate HiAt(text: string, i: int)
    requires 0 <= i < |text| - 1
  {
    (text[i] == 'h' || text[i] == 'H') && (text[i + 1] == 'i' || text[i + 1] == 'I')
  }

  /** The message says "hi" in any letter case, anywhere, even inside a word. */
  predicate SaysHi(text: string)
  {
    exists i :: 0 <= i < |text| - 1 && HiAt(text, i)
  }

  /** Only 'h' and 'H' lowercase to 'h'; only 'i' and 'I' lowercase to 'i'. */
  lemma LowerCharHi(c: char)
    ensures LowerChar(c) == 'h' <==> c == 'h' || c == 'H'
    ensures LowerChar(c) == 'i' <==> c == 'i' || c == 'I'
  {
  }

  /** The lowercased message contains "hi" exactly when the message has an
      'h' or 'H' directly followed by an 'i' or 'I'. */
  lemma TriggerIsCaseInsensitive(text: string)
    ensures Contains(Lower(text), "hi") <==> SaysHi(text)
  {
    var low := Lower(text);
    forall i | 0 <= i < |text| - 1
      ensures OccursAt(low, "hi", i) <==> HiAt(text, i)
    {
      LowerCharHi(text[i]);
      LowerCharHi(text[i + 1]);
      assert low[i..i + 2] == [low[i], low[i + 1]];
    }
    if SaysHi(text) {
      var i :| 0 <= i < |text| - 1 && HiAt(text, i);
      assert OccursAt(low, "hi", i);
    }
    if Contains(low, "hi") {
      var i :| OccursAt(low, "hi", i);
      assert HiAt(text, i);
    }
  }

  /** The text a reply to `user` carries: "Hi @", the handle, "! " and the
      time label. */
  predicate IsGreeting(s: string, user: string, timeLabel: string)
  {
    |s| == 6 + |user| + |timeLabel|
    && s[..4] == "Hi @"
    && s[4..4 + |user|] == user
    && s[4 + |user|..6 + |user|] == "! "
    && s[6 + |user|..] == IdleText(timeLabel)
  }

  /** The text of the idle status: the time label itself. */
  function IdleText(timeLabel: string): string
  {
    timeLabel
  }

  /** The reply rule: a greeting when the lowercased text contains "hi",
      nothing otherwise. */
  function Reply(m: Mention, timeLabel: string): (r: Option<string>)
    ensures r.Some? <==> SaysHi(m.text)
    ensures r.Some? ==> IsGreeting(r.value, m.screenName, timeLabel)
  {
    TriggerIsCaseInsensitive(m.text);
    if Contains(Lower(m.text), "hi") then
      Some("Hi @" + m.screenName + "! " + timeLabel)
    else
      None
  }

  /** The mention is younger than the polling interval. */
  predicate Recent(m: Mention)
  {
    m.age < IntervalMinutes
  }

  /** The mention gets a reply attempt: it is recent and says "hi". */
  predicate Answered(m: Mention)
  {
    Recent(m) && SaysHi(m.text)
  }

  /** The reply attempt one mention causes, if any. */
  function Answer(m: Mention, timeLabel: string): (r: seq<Action>)
    ensures |r| <= 1
    ensures r != [] <==> Answered(m)
    ensures r != [] ==> r[0].ReplyTo? && r[0].inReplyTo == m.id
                        && IsGreeting(r[0].text, m.screenName, timeLabel)
  {
    if Recent(m) then
      match Reply(m, timeLabel)
      case Some(text) => [ReplyTo(m.id, text)]
      case None => []
    else
      []
  }

  /** The reply attempts of one pass over `ms`, in order. */
  function Replies(ms: seq<Mention>, timeLabel: string): (r: seq<Action>)
    ensures |r| <= |ms|
    ensures forall k :: 0 <= k < |r| ==> r[k].ReplyTo?
  {
    if ms == [] then []
    else Replies(ms[..|ms| - 1], timeLabel) + Answer(ms[|ms| - 1], timeLabel)
  }

  /** Every `update_status` call of one run: the reply attempts, then the idle
      status when there was no reply attempt. */
  function Run(ms: seq<Mention>, timeLabel: string): (r: seq<Action>)
    ensures r != []
    ensures r[|r| - 1].Status? <==> AnsweredPositions(ms) == {}
    ensures r[|r| - 1].Status? ==> r[|r| - 1].text == IdleText(timeLabel)
  {
    RepliesCount(ms, timeLabel);
    var replies := Replies(ms, timeLabel);
    replies + if replies == [] then [Status(IdleText(timeLabel))] else []
  }

  /** The replies that were actually published: the attempts of the
      mentions whose position is not in `failing`. */
  function Delivered(ms: seq<Mention>, timeLabel: string, failing: set<int>): (r: seq<Action>)
    ensures |r| <= |Replies(ms, timeLabel)|
    ensures forall k :: 0 <= k < |r| ==> r[k].ReplyTo?
  {
    if ms == [] then []
    else
      Delivered(ms[..|ms| - 1], timeLabel, failing)
      + if |ms| - 1 in failing then [] else Answer(ms[|ms| - 1], timeLabel)
  }

  /** Every status actually published in one run. */
  function Published(ms: seq<Mention>, timeLabel: string, failing: set<int>): (r: seq<Action>)
    ensures |r| <= |Run(ms, timeLabel)|
    ensures Status(IdleText(timeLabel)) in r <==> AnsweredPositions(ms) == {}
  {
    RepliesCount(ms, timeLabel);
    Delivered(ms, timeLabel, failing)
    + if Replies(ms, timeLabel) == [] then [Status(IdleText(timeLabel))] else []
  }

  /** Positions of the mentions that get a reply attempt. */
  function AnsweredPositions(ms: seq<Mention>): set<int>
  {
    set i | 0 <= i < |ms| && Answered(ms[i])
  }

  /** One pass over the mentions: `calls` are the `update_status` calls in
      the order made, `published` those that succeeded, and `replied` is the
      flag that suppresses the idle status. */
  method Tweet(mentions: seq<Mention>, timeLabel: string, failing: set<int>)
    returns (calls: seq<Action>, published: seq<Action>, replied: bool)
    ensures calls == Run(mentions, timeLabel)
    ensures published == Published(mentions, timeLabel, failing)
    ensures replied <==> AnsweredPositions(mentions) != {}
  {
    replied := false;
    calls, published := [], [];
    for i := 0 to |mentions|
      invariant calls == Replies(mentions[..i], timeLabel)
      invariant published == Delivered(mentions[..i], timeLabel, failing)
      invariant replied <==> calls != []
    {
      var m := mentions[i];
      assert mentions[..i + 1][..i] == mentions[..i];
      if m.age < IntervalMinutes {
        var replyText := Reply(m, timeLabel);
        if replyText.Some? {
          replied := true;
          calls := calls + [ReplyTo(m.id, replyText.value)];
          if i !in failing {
            published := published + [ReplyTo(m.id, replyText.value)];
          }
        }
      }
    }
    assert mentions[..|mentions|] == mentions;
    if !replied {
      calls := calls + [Status(IdleText(timeLabel))];
      published := published + [Status(IdleText(timeLabel))];
    }
    RepliesCount(mentions, timeLabel);
  }

  /** The attempts for a concatenation are those of each part, in order. */
  lemma {:induction false} RepliesAppend(a: seq<Mention>, b: seq<Mention>, timeLabel: string)
    ensures Replies(a + b, timeLabel) == Replies(a, timeLabel) + Replies(b, timeLabel)
    decreases |b|
  {
    if b == [] {
      assert a + b == a;
    } else {
      var b' := b[..|b| - 1];
      assert (a + b)[..|a + b| - 1] == a + b';
      RepliesAppend(a, b', timeLabel);
    }
  }

  /** Mention `i` contributes exactly its own attempt, at the place it has in
      the list: no deduplication, no early exit, and order is kept. */
  lemma RepliesSplit(ms: seq<Mention>, i: int, timeLabel: string)
    requires 0 <= i < |ms|
    ensures Replies(ms, timeLabel)
            == Replies(ms[..i], timeLabel) + Answer(ms[i], timeLabel) + Replies(ms[i + 1..], timeLabel)
  {
    assert ms == ms[..i] + [ms[i]] + ms[i + 1..];
    RepliesAppend(ms[..i] + [ms[i]], ms[i + 1..], timeLabel);
    RepliesAppend(ms[..i], [ms[i]], timeLabel);
    assert Replies([ms[i]], timeLabel) == Answer(ms[i], timeLabel) by {
      assert [ms[i]][..0] == [];
    }
  }

  /** A mention at least `IntervalMinutes` old is never answered: removing
      it leaves the attempts of the run as they were. */
  lemma StaleMentionIgnored(ms: seq<Mention>, i: int, timeLabel: string)
    requires 0 <= i < |ms| && ms[i].age >= IntervalMinutes
    ensures Replies(ms, timeLabel) == Replies(ms[..i] + ms[i + 1..], timeLabel)
  {
    assert !Recent(ms[i]);
    assert Answer(ms[i], timeLabel) == [];
    RepliesSplit(ms, i, timeLabel);
    RepliesAppend(ms[..i], ms[i + 1..], timeLabel);
  }

  /** Whatever a stale mention says, the attempts of the run are the same. */
  lemma StaleTextIrrelevant(ms: seq<Mention>, i: int, timeLabel: string, text: string)
    requires 0 <= i < |ms| && ms[i].age >= IntervalMinutes
    ensures Replies(ms[i := ms[i].(text := text)], timeLabel) == Replies(ms, timeLabel)
  {
    var ms' := ms[i := ms[i].(text := text)];
    assert ms'[..i] == ms[..i] && ms'[i + 1..] == ms[i + 1..];
    StaleMentionIgnored(ms, i, timeLabel);
    StaleMentionIgnored(ms', i, timeLabel);
  }

  /** The number of reply attempts is the number of recent mentions that
      say "hi". */
  lemma {:induction false} RepliesCount(ms: seq<Mention>, timeLabel: string)
    ensures |Replies(ms, timeLabel)| == |AnsweredPositions(ms)|
    decreases |ms|
  {
    if ms != [] {
      var n := |ms| - 1;
      var init := ms[..n];
      RepliesCount(init, timeLabel);
      AnsweredPositionsSnoc(ms);
      assert n !in AnsweredPositions(init);
    }
  }

  /** Appending a mention adds its position exactly when it is answered. */
  lemma AnsweredPositionsSnoc(ms: seq<Mention>)
    requires ms != []
    ensures var n := |ms| - 1;
            AnsweredPositions(ms)
            == AnsweredPositions(ms[..n]) + if Answered(ms[n]) then {n} else {}
  {
  }

  /** The idle status is posted exactly once, as the last call, when no
      recent mention says "hi", and never otherwise; a run makes as many
      calls as there are answered mentions, and one when there are none. */
  lemma IdleStatusRule(ms: seq<Mention>, timeLabel: string)
    ensures var n := |AnsweredPositions(ms)|;
            |Run(ms, timeLabel)| == if n > 0 then n else 1
    ensures AnsweredPositions(ms) == {} ==> Run(ms, timeLabel) == [Status(IdleText(timeLabel))]
    ensures AnsweredPositions(ms) != {} ==>
              forall k :: 0 <= k < |Run(ms, timeLabel)| ==> Run(ms, timeLabel)[k].ReplyTo?
  {
    RepliesCount(ms, timeLabel);
  }

  /** Every answered mention gets one reply addressed to its id, carrying
      the greeting for its author. */
  lemma AnsweredMentionGetsReply(ms: seq<Mention>, i: int, timeLabel: string)
    requires 0 <= i < |ms| && Answered(ms[i])
    ensures var k := |Replies(ms[..i], timeLabel)|;
            k < |Run(ms, timeLabel)|
            && Run(ms, timeLabel)[k].ReplyTo?
            && Run(ms, timeLabel)[k].inReplyTo == ms[i].id
            && IsGreeting(Run(ms, timeLabel)[k].text, ms[i].screenName, timeLabel)
  {
    RepliesSplit(ms, i, timeLabel);
  }

  /** A failed reply post does not change which calls are made, and it
      still suppresses the idle status: when every answered mention's post
      fails, nothing at all is published. */
  lemma {:induction false} FailedRepliesSuppressIdle(ms: seq<Mention>, timeLabel: string, failing: set<int>)
    requires AnsweredPositions(ms) != {} && AnsweredPositions(ms) <= failing
    ensures Run(ms, timeLabel) != []
    ensures Published(ms, timeLabel, failing) == []
  {
    RepliesCount(ms, timeLabel);
    NothingDelivered(ms, timeLabel, failing);
  }

  /** When every answered position fails, no reply is delivered. */
  lemma {:induction false} NothingDelivered(ms: seq<Mention>, timeLabel: string, failing: set<int>)
    requires AnsweredPositions(ms) <= failing
    ensures Delivered(ms, timeLabel, failing) == []
    decreases |ms|
  {
    if ms != [] {
      var n := |ms| - 1;
      assert AnsweredPositions(ms[..n]) <= AnsweredPositions(ms);
      NothingDelivered(ms[..n], timeLabel, failing);
    }
  }

  /** With no failures every attempt is published. */
  lemma {:induction false} NoFailuresDeliverAll(ms: seq<Mention>, timeLabel: string)
    ensures Delivered(ms, timeLabel, {}) == Replies(ms, timeLabel)
    ensures Published(ms, timeLabel, {}) == Run(ms, timeLabel)
    decreases |ms|
  {
    if ms != [] {
      NoFailuresDeliverAll(ms[..|ms| - 1], timeLabel);
    }
  }

  /** A reply post's success or failure depends only on its own position:
      the replies published are those of the answered mentions whose post
      did not fail, however the failures are spread over the run. */
  lemma {:induction false} DeliveredCount(ms: seq<Mention>, timeLabel: string, failing: set<int>)
    ensures |Delivered(ms, timeLabel, failing)| == |AnsweredPositions(ms) - failing|
    decreases |ms|
  {
    if ms != [] {
      var n := |ms| - 1;
      var before := AnsweredPositions(ms[..n]);
      DeliveredCount(ms[..n], timeLabel, failing);
      AnsweredPositionsSnoc(ms);
      assert n !in before;
      if Answered(ms[n]) && n !in failing {
        assert AnsweredPositions(ms) - failing == (before - failing) + {n};
      } else {
        assert AnsweredPositions(ms) - failing == before - failing;
      }
    }
  }

  /** The replies published for a prefix of the mentions begin the replies
      published for the whole list. */
  lemma {:induction false} DeliveredPrefix(ms: seq<Mention>, timeLabel: string, failing: set<int>, j: int)
    requires 0 <= j <= |ms|
    ensures Delivered(ms[..j], timeLabel, failing) <= Delivered(ms, timeLabel, failing)
    decreases |ms| - j
  {
    if j < |ms| {
      var init := ms[..|ms| - 1];
      assert Delivered(ms[..j], timeLabel, failing) <= Delivered(init, timeLabel, failing) by {
        assert init[..j] == ms[..j];
        DeliveredPrefix(init, timeLabel, failing, j);
      }
      assert Delivered(init, timeLabel, failing) <= Delivered(ms, timeLabel, failing);
    } else {
      assert ms[..j] == ms;
    }
  }

  /** An answered mention whose post does not fail is published, at the
      place given by the replies published before it, even when earlier
      posts failed. */
  lemma DeliveredReply(ms: seq<Mention>, i: int, timeLabel: string, failing: set<int>)
    requires 0 <= i < |ms| && Answered(ms[i]) && i !in failing
    ensures var k := |Delivered(ms[..i], timeLabel, failing)|;
            k < |Delivered(ms, timeLabel, failing)|
            && Delivered(ms, timeLabel, failing)[k] == Answer(ms[i], timeLabel)[0]
  {
    assert ms[..i + 1][..i] == ms[..i];
    DeliveredPrefix(ms, timeLabel, failing, i + 1);
  }

  /** An answered mention whose post fails adds nothing to what is
      published. */
  lemma FailedReplyNotDelivered(ms: seq<Mention>, i: int, timeLabel: string, failing: set<int>)
    requires 0 <= i < |ms| && i in failing
    ensures Delivered(ms[..i + 1], timeLabel, failing) == Delivered(ms[..i], timeLabel, failing)
  {
    assert ms[..i + 1][..i] == ms[..i];
  }

  /** The greeting of a reply ends with exactly the idle status text of the
      same label. */
  lemma ReplyEndsWithIdleText(m: Mention, timeLabel: string)
    requires SaysHi(m.text)
    ensures var r := Reply(m, timeLabel).value;
            |r| >= |IdleText(timeLabel)| && r[|r| - |IdleText(timeLabel)|..] == IdleText(timeLabel)
  {
  }

  /** "HI", "hI" and "this" all trigger a reply; "Hello" does not. */
  lemma TriggerExamples(id: int, user: string, timeLabel: string, age: int)
    ensures Reply(Mention(id, "HI", user, age), timeLabel).Some?
    ensures Reply(Mention(id, "hI", user, age), timeLabel).Some?
    ensures Reply(Mention(id, "this", user, age), timeLabel).Some?
    ensures Reply(Mention(id, "Hello", user, age), timeLabel) == None
  {
    assert HiAt("HI", 0);
    assert HiAt("hI", 0);
    assert HiAt("this", 1);
    assert !SaysHi("Hello") by {
      forall i | 0 <= i < 4
        ensures !HiAt("Hello", i)
      {
      }
    }
  }
}
