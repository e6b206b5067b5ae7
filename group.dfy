/**
 * The chat group of practice-4/group.h: the flooding rule of broadcast
 * (decrement the time to live, drop what is exhausted, already seen or
 * blacklisted, otherwise remember it and send it on), the member set, and
 * the bounded list of recent messages replayed to members who join.  Each
 * member's `send` is modelled as appending to that member's outbox; the
 * client, when attached, has an outbox of its own.
 */
module ChatGroup {
  import opened ChatMessage

  const MAX_RECENT_MSG_NUM: nat := 20

  /** What send has delivered to member k so far. */
  function Outbox(sent: map<nat, seq<Message>>, k: nat): seq<Message>
  {
    if k in sent then sent[k] else []
  }

  /** Every member in `to` receives m once more; every other outbox stays as it was. */
  function Deliver(sent: map<nat, seq<Message>>, to: set<nat>, m: Message): map<nat, seq<Message>>
  {
    map k | k in sent.Keys + to :: if k in to then Outbox(sent, k) + [m] else sent[k]
  }

  /** After Deliver, member k's outbox has m appended when k is in `to`, and is unchanged otherwise. */
  lemma DeliverOutbox(sent: map<nat, seq<Message>>, to: set<nat>, m: Message, k: nat)
    ensures k in to ==> Outbox(Deliver(sent, to, m), k) == Outbox(sent, k) + [m]
    ensures k !in to ==> Outbox(Deliver(sent, to, m), k) == Outbox(sent, k)
  {
  }

  /** Delivering to one more member is one more send. */
  lemma DeliverOneMore(sent: map<nat, seq<Message>>, done: set<nat>, x: nat, m: Message)
    requires x !in done
    ensures var d := Deliver(sent, done, m);
            d[x := Outbox(d, x) + [m]] == Deliver(sent, done + {x}, m)
  {
    var d := Deliver(sent, done, m);
    var l := d[x := Outbox(d, x) + [m]];
    var r := Deliver(sent, done + {x}, m);
    assert l.Keys == r.Keys;
    forall k | k in l.Keys
      ensures l[k] == r[k]
    {
      DeliverOutbox(sent, done, m, k);
      DeliverOutbox(sent, done + {x}, m, k);
      assert Outbox(l, k) == Outbox(r, k);
    }
  }

  /** The lambda find_in_black_list: the address equals, by operator ==, some blacklisted one. */
  predicate InBlackList(blackList: seq<Address>, addr: Address)
  {
    exists i | 0 <= i < |blackList| :: AddrEq(addr, blackList[i])
  }

  /** The message broadcast sends on: the same message with one less time to live. */
  function Forwarded(msg: Message): Message
    requires msg.ttl as int > INT_MIN
  {
    msg.(ttl := msg.ttl - 1)
  }

  /** The guard of broadcast: time to live exhausted after the decrement, already cached, or blacklisted. */
  predicate Blocked(cache: seq<Message>, blackList: seq<Address>, msg: Message)
  {
    msg.ttl as int - 1 <= 0 || Cached(cache, msg) || InBlackList(blackList, msg.addr)
  }

  /**
   * Once a message is forwarded, a message with the same address and id is
   * blocked, however it differs otherwise: the same key is forwarded at most
   * once while the cache still holds it.
   */
  lemma ForwardedOnce(cache: seq<Message>, blackList: seq<Address>, msg: Message, again: Message)
    requires |cache| <= MAX_CACHE_SIZE && msg.ttl as int > INT_MIN
    requires SameKey(msg, again)
    ensures Blocked(CacheAdd(cache, Forwarded(msg)), blackList, again)
  {
    CacheAddHits(cache, Forwarded(msg));
    var c := CacheAdd(cache, Forwarded(msg));
    var i :| 0 <= i < |c| && SameKey(c[i], Forwarded(msg));
    assert SameKey(c[i], again);
  }

  /** After a broadcast the recent list holds at most 20 messages, the newest last, the oldest dropped first. */
  lemma RecentWindow(recent: seq<Message>, m: Message)
    ensures var r := Trimmed(recent + [m], MAX_RECENT_MSG_NUM);
            && |r| <= MAX_RECENT_MSG_NUM && r[|r| - 1] == m
            && (|recent| < MAX_RECENT_MSG_NUM ==> r == recent + [m])
            && (|recent| >= MAX_RECENT_MSG_NUM ==> r == recent[|recent| + 1 - MAX_RECENT_MSG_NUM..] + [m])
  {
  }

  class Group {
    /** recent_msg. */
    var recent: seq<Message>
    const cache: MessageCache
    /** The members, by identity. */
    var members: set<nat>
    /** Whether a client is attached (the pointer is non-null). */
    var client: bool
    const blackList: seq<Address>
    /** Every member's outbox. */
    var sent: map<nat, seq<Message>>
    /** The client's outbox. */
    var clientSent: seq<Message>

    ghost predicate Valid()
      reads this, cache
    {
      cache.Valid() && |recent| <= MAX_RECENT_MSG_NUM
    }

    /** The group with a blacklist already read, and the client pointer the program sets. */
    constructor (blackList: seq<Address>, client: bool)
      ensures Valid() && fresh(cache)
      ensures this.blackList == blackList && this.client == client
      ensures recent == [] && cache.cache == [] && members == {} && sent == map[] && clientSent == []
    {
      this.blackList := blackList;
      this.client := client;
      recent := [];
      cache := new MessageCache();
      members := {};
      sent := map[];
      clientSent := [];
    }

    /** Group::join: insert the member, then send it every recent message in order. */
    method Join(x: nat)
      modifies this
      ensures members == old(members) + {x}
      ensures sent == old(sent)[x := Outbox(old(sent), x) + recent]
      ensures recent == old(recent) && clientSent == old(clientSent) && client == old(client)
    {
      members := members + {x};
      var box := Outbox(sent, x);
      var replay := recent;
      sent := sent[x := box];
      assert box + replay[..0] == box;
      for i := 0 to |replay|
        invariant recent == replay == old(recent)
        invariant sent == old(sent)[x := box + replay[..i]]
        invariant members == old(members) + {x}
        invariant clientSent == old(clientSent) && client == old(client)
      {
        assert Outbox(sent, x) == box + replay[..i];
        assert (box + replay[..i]) + [replay[i]] == box + replay[..i + 1];
        sent := sent[x := Outbox(sent, x) + [replay[i]]];
      }
      assert replay[..|replay|] == replay;
    }

    /** Group::leave: remove only that member. */
    method Leave(x: nat)
      modifies this
      ensures members == old(members) - {x}
      ensures sent == old(sent) && recent == old(recent) && clientSent == old(clientSent) && client == old(client)
    {
      members := members - {x};
    }

    /** The loop of find_in_black_list. */
    method FindInBlackList(addr: Address) returns (r: bool)
      ensures r <==> InBlackList(blackList, addr)
    {
      for i := 0 to |blackList|
        invariant forall k | 0 <= k < i :: !AddrEq(addr, blackList[k])
      {
        if addr == blackList[i] {
          return true;
        }
      }
      return false;
    }

    /**
     * Group::broadcast.  A blocked message changes nothing.  Otherwise the
     * forwarded copy is added to the cache, sent once to every member and to
     * the client if there is one, and appended to the recent list, which is
     * then cut back to its 20 newest entries.
     */
    method Broadcast(msg: Message) returns (forwarded: bool)
      requires Valid() && msg.ttl as int > INT_MIN
      modifies this, cache
      ensures Valid()
      ensures forwarded <==> !Blocked(old(cache.cache), blackList, msg)
      ensures !forwarded ==> cache.cache == old(cache.cache) && sent == old(sent)
                             && clientSent == old(clientSent) && recent == old(recent)
      ensures forwarded ==> cache.cache == CacheAdd(old(cache.cache), Forwarded(msg))
                            && sent == Deliver(old(sent), members, Forwarded(msg))
                            && clientSent == old(clientSent) + (if client then [Forwarded(msg)] else [])
                            && recent == Trimmed(old(recent) + [Forwarded(msg)], MAX_RECENT_MSG_NUM)
      ensures members == old(members) && client == old(client)
    {
      var sendMsg := msg.(ttl := msg.ttl - 1);
      var hit := cache.Hit(msg);
      var listed := FindInBlackList(msg.addr);
      if sendMsg.ttl <= 0 || hit || listed {
        return false;
      }
      Forward(sendMsg);
      return true;
    }

    /** The unblocked half of broadcast: remember the message, send it to everyone, keep it as recent. */
    method Forward(sendMsg: Message)
      requires Valid()
      modifies this, cache
      ensures Valid()
      ensures cache.cache == CacheAdd(old(cache.cache), sendMsg)
      ensures sent == Deliver(old(sent), members, sendMsg)
      ensures clientSent == old(clientSent) + (if client then [sendMsg] else [])
      ensures recent == Trimmed(old(recent) + [sendMsg], MAX_RECENT_MSG_NUM)
      ensures members == old(members) && client == old(client)
    {
      cache.Add(sendMsg);
      SendToMembers(sendMsg);
      if client {
        clientSent := clientSent + [sendMsg];
      }
      PushRecent(sendMsg);
    }

    /** The loop `for (auto &member: members) member->send(send_msg)`, in the set's order. */
    method SendToMembers(m: Message)
      modifies this
      ensures sent == Deliver(old(sent), members, m)
      ensures members == old(members) && recent == old(recent)
      ensures clientSent == old(clientSent) && client == old(client)
    {
      ghost var sent0 := sent;
      var todo := members;
      ghost var done: set<nat> := {};
      while todo != {}
        invariant done + todo == members && done !! todo
        invariant sent == Deliver(sent0, done, m)
        invariant members == old(members) && recent == old(recent)
        invariant clientSent == old(clientSent) && client == old(client)
        decreases todo
      {
        var x :| x in todo;
        DeliverOneMore(sent0, done, x, m);
        sent := sent[x := Outbox(sent, x) + [m]];
        todo := todo - {x};
        done := done + {x};
      }
    }

    /** push_back, then pop_front while more than 20 messages are held. */
    method PushRecent(m: Message)
      modifies this
      ensures recent == Trimmed(old(recent) + [m], MAX_RECENT_MSG_NUM)
      ensures members == old(members) && sent == old(sent)
      ensures clientSent == old(clientSent) && client == old(client)
    {
      recent := recent + [m];
      ghost var pushed := recent;
      while |recent| > MAX_RECENT_MSG_NUM
        invariant |recent| <= |pushed| && recent == pushed[|pushed| - |recent|..]
        invariant |pushed| > MAX_RECENT_MSG_NUM ==> |recent| >= MAX_RECENT_MSG_NUM
        invariant |pushed| <= MAX_RECENT_MSG_NUM ==> recent == pushed
        invariant members == old(members) && sent == old(sent)
        invariant clientSent == old(clientSent) && client == old(client)
        decreases |recent|
      {
        recent := recent[1..];
      }
    }
  }
}
