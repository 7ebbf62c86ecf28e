/** The message service: Send appends a message to its conversation's log and Pull
    reads one page of it.

    Messages are stored as members of the sorted set named by the canonical chat key,
    scored by their send time. A member is the message's JSON text; a member that
    some other writer left under the key may not decode, and then the whole read fails.
 */
module Handler {
  import opened ChatKey
  import opened SortedLog
  import opened Pagination

  /** A chat message as the service sends and returns it. */
  datatype Message = Message(chat: string, sender: string, content: string, sendTime: int)

  datatype Option<T> = None | Some(value: T)

  /** The text stored as a sorted-set member, classified by what JSON decoding makes
      of it: `Json(m)` stands for every text that decodes to `m` without error (the
      service's own encoding of `m`, but also any other object the decoder accepts
      and turns into `m`), `Foreign` for every text the decoder rejects. */
  datatype Member = Json(message: Message) | Foreign(text: string)

  datatype Error = DecodeError

  datatype Result<T> = Ok(value: T) | Err(error: Error)

  datatype SendResponse = SendResponse(code: int, msg: string)

  datatype PullResponse = PullResponse(
    code: int, msg: string, messages: seq<Message>, hasMore: bool, nextCursor: int)

  /** Decoding a member back into a message; foreign text fails. */
  function Decode(x: Member): Option<Message>
  {
    match x
    case Json(m) => Some(m)
    case Foreign(_) => None
  }

  /** Encoding a message as a member; it always decodes back to the same message. */
  function Encode(m: Message): (x: Member)
    ensures Decode(x) == Some(m)
  {
    Json(m)
  }

  /** Every member of the run of entries decodes. */
  predicate AllDecode(es: seq<Entry<Member>>)
  {
    forall i :: 0 <= i < |es| ==> Decode(es[i].member).Some?
  }

  /** `ms` are the members of `es` decoded, one for one and in order. */
  predicate DecodesTo(es: seq<Entry<Member>>, ms: seq<Message>)
  {
    |es| == |ms| && forall i :: 0 <= i < |es| ==> Decode(es[i].member) == Some(ms[i])
  }

  /** A stored entry of a decodable member is scored by its message's send time. */
  predicate ScoredBySendTime(e: Entry<Member>)
  {
    e.member.Json? ==> e.score == e.member.message.sendTime
  }

  /** Every decodable member in the log is scored by its message's send time. The
      service's own writes keep this, so a conversation written only through Send is
      in send-time order; a member stored by another writer with some other score
      breaks it. */
  ghost predicate RankedBySendTime(log: Log<Member>)
    reads log
  {
    forall k, e :: k in log.sets && e in log.sets[k] ==> ScoredBySendTime(e)
  }

  /** Every entry of an insertion is the inserted one or an old one. */
  lemma InsertionKeepsScoring(s: seq<Entry<Member>>, x: Entry<Member>, t: seq<Entry<Member>>)
    requires IsInsertion(s, x, t)
    requires ScoredBySendTime(x) && forall e :: e in s ==> ScoredBySendTime(e)
    ensures forall e :: e in t ==> ScoredBySendTime(e)
  {
    InsertionGrows(s, x, t);
    forall e | e in t ensures ScoredBySendTime(e) {
      assert e in multiset(t);
    }
  }

  /** Stores `message` in the log of the conversation `chatID`, under the canonical
      key, scored by its send time. */
  method SaveMessageToRedis(log: Log<Member>, message: Message, chatID: string)
    requires log.Valid()
    modifies log
    ensures log.Valid()
    ensures IsInsertion(old(log.Entries(Normalise(chatID))),
                        Entry(message.sendTime, Encode(message)),
                        log.Entries(Normalise(chatID)))
    ensures forall k :: k != Normalise(chatID) ==> log.Entries(k) == old(log.Entries(k))
    ensures old(RankedBySendTime(log)) ==> RankedBySendTime(log)
  {
    var key := Normalise(chatID);
    var member := Encode(message);
    ghost var before := log.Entries(key);
    log.Append(key, message.sendTime, member);
    if old(RankedBySendTime(log)) {
      InsertionKeepsScoring(before, Entry(message.sendTime, member), log.Entries(key));
      forall k, e | k in log.sets && e in log.sets[k] ensures ScoredBySendTime(e) {
        assert log.sets[k] == log.Entries(k);
        if k != key {
          assert log.Entries(k) == old(log.Entries(k));
        }
      }
    }
  }

  /** The ranks start..stop (inclusive) of the conversation `chatID`, counted from the
      lowest score or, when `rev` is set, from the highest, decoded into messages.
      One member that does not decode fails the whole read. */
  method GetMessagesFromRedis(log: Log<Member>, chatID: string, start: nat, stop: nat, rev: bool)
    returns (r: Result<seq<Message>>)
    ensures r.Ok? <==> AllDecode(RankWindow(View(log.Entries(Normalise(chatID)), rev), start, stop))
    ensures r.Ok? ==> DecodesTo(RankWindow(View(log.Entries(Normalise(chatID)), rev), start, stop), r.value)
    ensures r.Ok? && log.Valid() && RankedBySendTime(log) ==> InSendTimeOrder(r.value, rev)
    ensures r.Err? ==> r.error == DecodeError
  {
    var key := Normalise(chatID);
    var members := log.Range(key, start, stop, rev);
    ghost var w := RankWindow(View(log.Entries(key), rev), start, stop);
    var messages := [];
    var i := 0;
    while i < |members|
      invariant 0 <= i <= |members|
      invariant |messages| == i
      invariant forall j :: 0 <= j < i ==> Decode(members[j]) == Some(messages[j])
    {
      var decoded := Decode(members[i]);
      if decoded.None? {
        return Err(DecodeError);
      }
      messages := messages + [decoded.value];
      i := i + 1;
    }
    r := Ok(messages);
    if log.Valid() && RankedBySendTime(log) {
      WindowInSendTimeOrder(log, key, start, stop, rev, messages);
    }
  }

  /** The message as stored: a send time of 0 means "now". */
  function Stamped(m: Message, now: int): (s: Message)
    ensures s.chat == m.chat && s.sender == m.sender && s.content == m.content
    ensures m.sendTime != 0 ==> s == m
    ensures m.sendTime == 0 ==> s.sendTime == now
  {
    if m.sendTime == 0 then m.(sendTime := now) else m
  }

  /** A stamped message keeps its time when it is sent again, whatever the clock says. */
  lemma StampedIsStable(m: Message, now: int, later: int)
    requires now != 0
    ensures Stamped(Stamped(m, now), later) == Stamped(m, now)
  {
  }

  /** Handles a send request at time `now`: fills in a missing send time, then stores
      the message under its conversation's canonical key. */
  method Send(log: Log<Member>, req: Message, now: int) returns (resp: SendResponse)
    requires log.Valid()
    modifies log
    ensures log.Valid()
    ensures resp == SendResponse(0, "success")
    ensures IsInsertion(old(log.Entries(Normalise(req.chat))),
                        Entry(Stamped(req, now).sendTime, Encode(Stamped(req, now))),
                        log.Entries(Normalise(req.chat)))
    ensures forall k :: k != Normalise(req.chat) ==> log.Entries(k) == old(log.Entries(k))
    ensures old(RankedBySendTime(log)) ==> RankedBySendTime(log)
  {
    var message := req;
    if message.sendTime == 0 {
      message := message.(sendTime := now);
    }
    SaveMessageToRedis(log, message, message.chat);
    resp := SendResponse(0, "success");
  }

  /** Send times ascend along `ms`, or descend when `rev` is set. */
  predicate InSendTimeOrder(ms: seq<Message>, rev: bool)
  {
    forall i, j :: 0 <= i < j < |ms| ==>
      if rev then ms[i].sendTime >= ms[j].sendTime else ms[i].sendTime <= ms[j].sendTime
  }

  /** Decoded entries of a sorted view carry send times in the view's order. */
  lemma DecodedInScoreOrder(v: seq<Entry<Member>>, p: seq<Entry<Member>>, ms: seq<Message>,
                            cursor: nat, rev: bool)
    requires forall e :: e in v ==> ScoredBySendTime(e)
    requires if rev then SortedDescending(v) else Sorted(v)
    requires |p| == |ms| && (|p| > 0 ==> cursor + |p| <= |v|)
    requires forall i :: 0 <= i < |p| ==> p[i] == v[cursor + i]
    requires forall i :: 0 <= i < |p| ==> Decode(p[i].member) == Some(ms[i])
    ensures InSendTimeOrder(ms, rev)
  {
    forall i, j | 0 <= i < j < |ms|
      ensures if rev then ms[i].sendTime >= ms[j].sendTime else ms[i].sendTime <= ms[j].sendTime
    {
      assert p[i] == v[cursor + i] && p[j] == v[cursor + j];
      assert v[cursor + i] in v && v[cursor + j] in v;
      assert ms[i].sendTime == p[i].score && ms[j].sendTime == p[j].score;
    }
  }

  /** A window read from a log ranked by send time is in send-time order, ascending or,
      when `rev` is set, descending. */
  lemma WindowInSendTimeOrder(log: Log<Member>, key: string, start: nat, stop: nat, rev: bool,
                              ms: seq<Message>)
    requires log.Valid() && RankedBySendTime(log)
    requires DecodesTo(RankWindow(View(log.Entries(key), rev), start, stop), ms)
    ensures InSendTimeOrder(ms, rev)
  {
    var s := log.Entries(key);
    var v := View(s, rev);
    assert forall e :: e in s ==> ScoredBySendTime(e);
    assert forall e :: e in v ==> e in s;
    if rev { ReverseOfSorted(s); }
    DecodedInScoreOrder(v, RankWindow(v, start, stop), ms, start, rev);
  }

  /** Dropping the probe from the decoded window leaves the decoded page, and the
      probe is there exactly when there is more to read. */
  lemma TrimmedPage(v: seq<Entry<Member>>, cursor: nat, limit: nat, ms: seq<Message>)
    requires DecodesTo(RankWindow(v, cursor, cursor + limit), ms)
    ensures (|ms| == limit + 1) == HasMore(|v|, cursor, limit)
    ensures DecodesTo(Page(v, cursor, limit), if |ms| == limit + 1 then ms[..limit] else ms)
    ensures forall rev :: InSendTimeOrder(ms, rev) ==>
      InSendTimeOrder(if |ms| == limit + 1 then ms[..limit] else ms, rev)
    ensures v == [] ==> ms == [] && (if |ms| == limit + 1 then ms[..limit] else ms) == []
  {
    var w := RankWindow(v, cursor, cursor + limit);
    var page := Page(v, cursor, limit);
    TrimmedWindowIsPage(v, cursor, limit);
    if |ms| == limit + 1 {
      assert w[..limit] == page;
      forall i | 0 <= i < |page| ensures Decode(page[i].member) == Some(ms[..limit][i]) {
        assert page[i] == w[i];
      }
    } else {
      assert w == page;
    }
  }

  /** Handles a pull request: one page of `limit` messages from rank `cursor`, counted
      from the oldest or, when `rev` is set, from the newest message. */
  method Pull(log: Log<Member>, chat: string, cursor: nat, limit: nat, rev: bool)
    returns (r: Result<PullResponse>)
    ensures r.Ok? <==> AllDecode(RankWindow(View(log.Entries(Normalise(chat)), rev), cursor, cursor + limit))
    ensures r.Ok? ==>
      var v := View(log.Entries(Normalise(chat)), rev);
      && r.value.code == 0 && r.value.msg == "success"
      && r.value.nextCursor == cursor + limit
      && r.value.hasMore == HasMore(|v|, cursor, limit)
      && DecodesTo(Page(v, cursor, limit), r.value.messages)
    ensures r.Ok? && log.Valid() && RankedBySendTime(log) ==> InSendTimeOrder(r.value.messages, rev)
    ensures log.Entries(Normalise(chat)) == [] ==>
      r == Ok(PullResponse(0, "success", [], false, cursor + limit))
  {
    var start := cursor;
    var stop := start + limit;
    var got := GetMessagesFromRedis(log, chat, start, stop, rev);
    if got.Err? {
      return Err(got.error);
    }
    var messages := got.value;
    ghost var v := View(log.Entries(Normalise(chat)), rev);
    TrimmedPage(v, cursor, limit, messages);
    if log.Entries(Normalise(chat)) == [] {
      assert v == [];
    }
    var hasMore := false;
    if |messages| == limit + 1 {
      hasMore := true;
      messages := messages[..|messages| - 1];
    }
    var nextCursor := stop;
    r := Ok(PullResponse(0, "success", messages, hasMore, nextCursor));
  }

  /** Sending a message later than everything in its conversation appends it at the
      top rank, so every page that was already full reads the same afterwards. The
      message carries its send time, so the clock is not read. */
  method SendLatest(log: Log<Member>, m: Message)
    requires log.Valid() && RankedBySendTime(log)
    requires m.sendTime != 0
    requires forall e :: e in log.Entries(Normalise(m.chat)) ==> e.score < m.sendTime
    modifies log
    ensures log.Valid() && RankedBySendTime(log)
    ensures log.Entries(Normalise(m.chat)) == old(log.Entries(Normalise(m.chat))) + [Entry(m.sendTime, Json(m))]
    ensures forall k :: k != Normalise(m.chat) ==> log.Entries(k) == old(log.Entries(k))
    ensures forall cursor: nat, limit: nat :: cursor + limit <= |old(log.Entries(Normalise(m.chat)))| ==>
              Page(log.Entries(Normalise(m.chat)), cursor, limit) == Page(old(log.Entries(Normalise(m.chat))), cursor, limit)
  {
    ghost var before := log.Entries(Normalise(m.chat));
    var ack := Send(log, m, 0);
    InsertAboveAll(before, Entry(m.sendTime, Json(m)), log.Entries(Normalise(m.chat)));
    forall cursor: nat, limit: nat | cursor + limit <= |before|
      ensures Page(log.Entries(Normalise(m.chat)), cursor, limit) == Page(before, cursor, limit)
    {
      AppendKeepsPage(before, [Entry(m.sendTime, Json(m))], cursor, limit);
    }
  }

  /** Three messages sent to one conversation, each later than the one before. */
  method SendThree(chat: string, m1: Message, m2: Message, m3: Message) returns (log: Log<Member>)
    requires m1.chat == chat && m2.chat == chat && m3.chat == chat
    requires 0 < m1.sendTime < m2.sendTime < m3.sendTime
    ensures log.Valid() && RankedBySendTime(log)
    ensures log.Entries(Normalise(chat))
         == [Entry(m1.sendTime, Json(m1)), Entry(m2.sendTime, Json(m2)), Entry(m3.sendTime, Json(m3))]
    ensures forall k :: k != Normalise(chat) ==> log.Entries(k) == []
  {
    log := new Log<Member>();
    SendLatest(log, m1);
    SendLatest(log, m2);
    SendLatest(log, m3);
  }

  /** The first page of two: the two oldest messages, with more to come. */
  method FirstPageOfTwo(log: Log<Member>, chat: string, m1: Message, m2: Message, m3: Message)
    requires log.Entries(Normalise(chat))
          == [Entry(m1.sendTime, Json(m1)), Entry(m2.sendTime, Json(m2)), Entry(m3.sendTime, Json(m3))]
  {
    var first := Pull(log, chat, 0, 2, false);
    assert first.Ok?;
    assert first.value.messages == [m1, m2];
    assert first.value.hasMore && first.value.nextCursor == 2;
  }

  /** The second page of two, at the first page's next cursor: the last message alone. */
  method SecondPageOfTwo(log: Log<Member>, chat: string, m1: Message, m2: Message, m3: Message)
    requires log.Entries(Normalise(chat))
          == [Entry(m1.sendTime, Json(m1)), Entry(m2.sendTime, Json(m2)), Entry(m3.sendTime, Json(m3))]
  {
    var second := Pull(log, chat, 2, 2, false);
    assert second.Ok?;
    assert second.value.messages == [m3];
    assert !second.value.hasMore && second.value.nextCursor == 4;
  }

  /** Newest first, one message: the last one sent, with more to come. */
  method NewestFirst(log: Log<Member>, chat: string, m1: Message, m2: Message, m3: Message)
    requires log.Entries(Normalise(chat))
          == [Entry(m1.sendTime, Json(m1)), Entry(m2.sendTime, Json(m2)), Entry(m3.sendTime, Json(m3))]
  {
    var newest := Pull(log, chat, 0, 1, true);
    assert newest.Ok? && newest.value.messages == [m3] && newest.value.hasMore;
  }

  /** A conversation never written reads as an empty page, without error. */
  method EmptyConversation(log: Log<Member>, chat: string)
    requires log.Entries(Normalise(chat)) == []
  {
    var none := Pull(log, chat, 0, 10, false);
    assert none == Ok(PullResponse(0, "success", [], false, 10));
  }

  /** Three sends, then the reads above. With "alice:bob" and "bob:alice" (one key, by
      TwoPartyExample) and send times 100, 200, 300, the first page holds the messages
      at 100 and 200 with has_more set and next cursor 2, and the second page, asked for
      as "bob:alice", holds the message at 300 with has_more unset and next cursor 4. */
  method ConversationScenario(chat: string, sameChat: string, otherChat: string,
                              m1: Message, m2: Message, m3: Message)
    requires m1.chat == chat && m2.chat == chat && m3.chat == chat
    requires 0 < m1.sendTime < m2.sendTime < m3.sendTime
    requires Normalise(sameChat) == Normalise(chat) && Normalise(otherChat) != Normalise(chat)
  {
    var log := SendThree(chat, m1, m2, m3);
    FirstPageOfTwo(log, chat, m1, m2, m3);
    SecondPageOfTwo(log, sameChat, m1, m2, m3);
    NewestFirst(log, sameChat, m1, m2, m3);
    EmptyConversation(log, otherChat);
  }
}
