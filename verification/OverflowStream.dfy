/**
  The coalescing back-pressure buffer of an account stream: updates go straight into a bounded
  channel while it has room, and into a map keyed by account while it does not.
 */
module OverflowStream {
  import opened OverflowHistory

  const OVERFLOW_FLUSH_BATCH_SIZE: nat := 1024

  /** A message of the stream; only account messages carry an update. */
  datatype Message = Other | Account(pubkey: string, slot: nat, data: seq<bv8>, isStartup: bool)

  datatype SendOutcome = Accepted | Full | Closed

  datatype Ending = StreamEnded | ReceiverClosed

  /** A bounded first-in first-out channel whose consumer runs whenever it likes. */
  class Channel {
    const capacity: nat
    var queue: seq<AccountUpdate>
    var open: bool
    ghost var sent: seq<AccountUpdate>
    ghost var delivered: seq<AccountUpdate>
    ghost var refusals: nat

    ghost predicate Valid()
      reads this
    {
      && |queue| <= capacity
      && sent == delivered + queue
    }

    constructor (capacity: nat)
      ensures Valid() && open && sent == [] && this.capacity == capacity
    {
      this.capacity := capacity;
      queue := [];
      open := true;
      sent := [];
      delivered := [];
      refusals := 0;
    }

    /** The consumer takes any number of updates from the front, and may drop its end for good. */
    method ConsumerRuns()
      requires Valid()
      modifies this`queue, this`open, this`delivered
      ensures Valid()
      ensures old(delivered) <= delivered
      ensures open ==> old(open)
    {
      var n :| 0 <= n <= |queue|;
      delivered := delivered + queue[..n];
      queue := queue[n..];
      if * { open := false; }
    }

    /** Never waits: the update is accepted, or handed back because the channel is full or closed. */
    method TrySend(update: AccountUpdate) returns (outcome: SendOutcome)
      requires Valid()
      modifies this
      ensures Valid()
      ensures old(delivered) <= delivered
      ensures sent == if outcome.Accepted? then old(sent) + [update] else old(sent)
      ensures outcome.Full? ==> open && |queue| == capacity
      ensures refusals == old(refusals) + if outcome.Full? then 1 else 0
      ensures outcome.Closed? <==> !open
    {
      ConsumerRuns();
      if !open { return Closed; }
      if |queue| == capacity {
        refusals := refusals + 1;
        return Full;
      }
      queue := queue + [update];
      sent := sent + [update];
      return Accepted;
    }
  }

  class Stream {
    const kinds: map<string, AccountKind>
    const channel: Channel
    var overflow: map<string, AccountUpdate>
    var received: nat
    var sentCount: nat
    var dropped: nat
    var buffered: nat

    // The history of this stream, and the counters and channel contents it started from.
    ghost var history: History
    ghost const sentBefore: seq<AccountUpdate>
    ghost const sentCountBefore: nat
    ghost const droppedBefore: nat
    ghost var released: nat

    /** What holds whatever happens, also after the receiver has gone. */
    ghost predicate Consistent()
      reads this, channel
    {
      && channel.Valid()
      && channel.sent == sentBefore + history.sent
      && sentCount == sentCountBefore + |history.sent|
      && InOrder(history)
    }

    ghost predicate Valid()
      reads this, channel
    {
      && Consistent()
      && history.held == overflow
      && Faithful(history)
      && overflow.Keys <= kinds.Keys
      && dropped == droppedBefore + released + |overflow| + history.overwritten
    }

    constructor (
      kinds: map<string, AccountKind>, channel: Channel, received: nat, sentCount: nat, dropped: nat, buffered: nat)
      requires channel.Valid()
      ensures Valid() && this.kinds == kinds && this.channel == channel
      ensures history == NO_HISTORY && sentBefore == channel.sent
      ensures this.received == received && this.sentCount == sentCount
      ensures this.dropped == dropped && this.buffered == buffered
    {
      this.kinds := kinds;
      this.channel := channel;
      this.overflow := map[];
      this.received := received;
      this.sentCount := sentCount;
      this.dropped := dropped;
      this.buffered := buffered;
      this.history := NO_HISTORY;
      this.sentBefore := channel.sent;
      this.sentCountBefore := sentCount;
      this.droppedBefore := dropped;
      this.released := 0;
    }

    /** Some of the keys of the overflow map, in whatever order the map yields them. */
    method FirstKeys() returns (keys: seq<string>)
      ensures |keys| == if |overflow| < 1024 then |overflow| else 1024
      ensures forall i :: 0 <= i < |keys| ==> keys[i] in overflow
      ensures forall i, j :: 0 <= i < j < |keys| ==> keys[i] != keys[j]
    {
      keys := [];
      var left := overflow.Keys;
      while |keys| < OVERFLOW_FLUSH_BATCH_SIZE && left != {}
        invariant |keys| <= OVERFLOW_FLUSH_BATCH_SIZE && |keys| + |left| == |overflow.Keys|
        invariant left <= overflow.Keys
        invariant forall i :: 0 <= i < |keys| ==> keys[i] in overflow && keys[i] !in left
        invariant forall i, j :: 0 <= i < j < |keys| ==> keys[i] != keys[j]
        decreases left
      {
        var key :| key in left;
        keys := keys + [key];
        left := left - {key};
      }
    }

    /** Sends held updates until a batch is done, the channel is full, or the receiver has gone. */
    method FlushOverflow() returns (running: bool)
      requires Valid()
      modifies this`overflow, this`sentCount, this`buffered, this`history, this`released, channel
      ensures running ==> Valid()
      ensures !running ==> !channel.open && old(overflow) != map[]
      ensures Consistent()
      ensures history.arrivals == old(history.arrivals)
      ensures old(history.sent) <= history.sent
      ensures history.overwritten == old(history.overwritten)
      ensures running && old(overflow) != map[] ==> buffered == |overflow|
      ensures old(channel.refusals) <= channel.refusals
      ensures running && channel.refusals == old(channel.refusals) ==>
                |overflow| == if old(|overflow|) < 1024 then 0 else old(|overflow|) - 1024
      ensures running && |channel.queue| < channel.capacity ==>
                |overflow| == if old(|overflow|) < 1024 then 0 else old(|overflow|) - 1024
    {
      hide Faithful, InOrder, Released;
      if overflow == map[] { return true; }
      var keys := FirstKeys();
      for i := 0 to |keys|
        invariant Valid()
        invariant history.arrivals == old(history.arrivals)
        invariant old(history.sent) <= history.sent
        invariant history.overwritten == old(history.overwritten)
        invariant channel.refusals == old(channel.refusals)
        invariant |overflow| == old(|overflow|) - i
        invariant forall j :: i <= j < |keys| ==> keys[j] in overflow
      {
        Removed(overflow, keys[i]);
        var outcome := Release(keys[i]);
        match outcome {
          case Accepted =>
          case Full =>
            CountBuffered();
            return true;
          case Closed =>
            return false;
        }
      }
      CountBuffered();
      return true;
    }

    method CountBuffered()
      requires Valid()
      modifies this`buffered
      ensures Valid() && Consistent()
      ensures buffered == |overflow|
    {
      buffered := |overflow|;
    }

    /**
      Takes one update out of the overflow map and tries to send it. An update handed back is held
      again; one refused by a closed channel is gone with the stream.
     */
    method Release(key: string) returns (outcome: SendOutcome)
      requires Valid() && key in overflow
      modifies this`overflow, this`sentCount, this`history, this`released, channel
      ensures Consistent()
      ensures !outcome.Closed? ==> Valid()
      ensures outcome.Closed? ==> !channel.open
      ensures outcome.Accepted? ==>
                && key in old(history).held && key in old(history).heldAt
                && history == Released(old(history), key)
                && overflow == old(overflow) - {key}
      ensures !outcome.Accepted? ==> history == old(history)
      ensures history.arrivals == old(history).arrivals && history.overwritten == old(history).overwritten
      ensures old(history).sent <= history.sent
      ensures outcome.Full? ==> overflow == old(overflow) && |channel.queue| == channel.capacity
      ensures channel.refusals == old(channel.refusals) + if outcome.Full? then 1 else 0
    {
      hide InOrder, Faithful;
      var update := overflow[key];
      overflow := overflow - {key};
      outcome := channel.TrySend(update);
      if outcome.Closed? { return; }
      if outcome.Full? {
        overflow := overflow[key := update];
        assert overflow == history.held;
        return;
      }
      sentCount := sentCount + 1;
      NoteReleased(key);
    }

    /** Brings the history up to date with an update that has just been sent. */
    ghost method NoteReleased(key: string)
      requires key in history.held && Faithful(history)
      requires channel.Valid() && channel.sent == sentBefore + history.sent + [history.held[key]]
      requires sentCount == sentCountBefore + |history.sent| + 1
      requires overflow == history.held - {key} && history.held.Keys <= kinds.Keys
      requires dropped == droppedBefore + released + |history.held| + history.overwritten
      modifies this`history, this`released
      ensures Valid()
      ensures key in old(history).heldAt && history == Released(old(history), key)
    {
      hide InOrder, HoldsNewest, NewestSent;
      ReleasedFaithful(history, key);
      Removed(history.held, key);
      history := Released(history, key);
      released := released + 1;
      assert channel.sent == sentBefore + history.sent;
      assert overflow.Keys <= kinds.Keys;
    }

    /** Takes one message: an update of a subscribed account is sent, or held while others are. */
    method Receive(message: Message) returns (running: bool)
      requires Valid()
      modifies this`received, this`overflow, this`sentCount, this`dropped, this`buffered, this`history, channel
      ensures running ==> Valid()
      ensures !running ==> !channel.open
      ensures Consistent()
      ensures history.arrivals == old(history.arrivals) + if running then Update(kinds, message) else []
      ensures old(history.sent) <= history.sent
      ensures received == old(received) + if message.Account? then 1 else 0
      ensures old(channel.refusals) <= channel.refusals
      ensures running && channel.refusals == old(channel.refusals) && old(overflow) == map[] ==> overflow == map[]
      ensures Update(kinds, message) == [] || old(overflow) != map[] ==> running
      ensures running && Update(kinds, message) == [] ==> history == old(history)
      ensures running && Update(kinds, message) != [] ==>
                var update := Update(kinds, message)[0];
                || (history == HeldBack(old(history), update)
                    && buffered == |overflow|
                    && (old(overflow) != map[] || |channel.queue| == channel.capacity))
                || (history == SentAtOnce(old(history), update) && old(overflow) == map[])
    {
      hide InOrder, HoldsNewest, NewestSent;
      if message.Other? { return true; }
      received := received + 1;
      if message.pubkey !in kinds { return true; }
      var update := AccountUpdate(message.pubkey, kinds[message.pubkey], message.slot, message.data, message.isStartup);
      if overflow == map[] {
        var outcome := channel.TrySend(update);
        match outcome {
          case Accepted =>
            sentCount := sentCount + 1;
            SentAtOnceFaithful(history, update);
            history := SentAtOnce(history, update);
            return true;
          case Full =>
            Hold(update);
          case Closed =>
            return false;
        }
      } else {
        Hold(update);
      }
      buffered := |overflow|;
      return true;
    }

    method Hold(update: AccountUpdate)
      requires Valid() && update.pubkey in kinds
      modifies this`dropped, this`overflow, this`history
      ensures Valid()
      ensures overflow == old(overflow)[update.pubkey := update]
      ensures history == HeldBack(old(history), update)
    {
      hide InOrder, HoldsNewest, NewestSent;
      dropped := dropped + 1;
      overflow := overflow[update.pubkey := update];
      HeldBackFaithful(history, update);
      Inserted(history.held, update.pubkey, update);
      history := HeldBack(history, update);
    }

    /**
      One turn of the stream: what is held is flushed, then a message is taken. Unless the channel refused
      an update during the turn, or more than a batch was waiting, nothing is held after it.
     */
    method Turn(message: Message) returns (running: bool)
      requires Valid()
      modifies this`received, this`overflow, this`sentCount, this`dropped, this`buffered, this`history, this`released,
        channel
      ensures running ==> Valid()
      ensures !running ==> !channel.open
      ensures Consistent()
      ensures history.arrivals == old(history.arrivals) + if running then Update(kinds, message) else []
      ensures old(history.sent) <= history.sent
      ensures old(channel.refusals) <= channel.refusals
      ensures running && channel.refusals == old(channel.refusals) && |old(overflow)| <= 1024 ==> overflow == map[]
    {
      hide Faithful, InOrder;
      running := FlushOverflow();
      if !running { return; }
      running := Receive(message);
    }

    /**
      A whole stream: a turn for every message, and a last flush. Where a batch holds all accounts, a stream
      that ends with room in the channel holds nothing back. A receiver that goes away cuts the stream short
      after some of the messages.
     */
    method Serve(messages: seq<Message>) returns (ending: Ending)
      requires Valid() && history == NO_HISTORY
      modifies this`received, this`overflow, this`sentCount, this`dropped, this`buffered, this`history, this`released,
        channel
      ensures Consistent()
      ensures ending.StreamEnded? ==> Valid() && history.arrivals == Updates(kinds, messages) && |overflow| <= |kinds|
      ensures ending.StreamEnded? && |kinds| <= 1024 && |channel.queue| < channel.capacity ==> overflow == map[]
      ensures ending.ReceiverClosed? ==> !channel.open
      ensures ending.ReceiverClosed? ==>
                exists n :: 0 <= n <= |messages| && history.arrivals == Updates(kinds, messages[..n])
    {
      hide Faithful, InOrder;
      for i := 0 to |messages|
        invariant Valid()
        invariant history.arrivals == Updates(kinds, messages[..i])
      {
        var running := Turn(messages[i]);
        assert messages[..i + 1][..i] == messages[..i];
        if !running { return ReceiverClosed; }
      }
      HeldWithinSubscribed(overflow, kinds);
      var running := FlushOverflow();
      assert messages[..|messages|] == messages;
      if running { HeldWithinSubscribed(overflow, kinds); }
      return if running then StreamEnded else ReceiverClosed;
    }
  }

  /** No more updates are held than accounts are subscribed. */
  lemma HeldWithinSubscribed(held: map<string, AccountUpdate>, kinds: map<string, AccountKind>)
    requires held.Keys <= kinds.Keys
    ensures |held| <= |kinds|
  {
    assert kinds.Keys == held.Keys + (kinds.Keys - held.Keys);
    assert |held| == |held.Keys| && |kinds| == |kinds.Keys|;
  }

  /** The update a message carries for a subscribed account, if any. */
  function Update(kinds: map<string, AccountKind>, message: Message): seq<AccountUpdate> {
    if message.Account? && message.pubkey in kinds
    then [AccountUpdate(message.pubkey, kinds[message.pubkey], message.slot, message.data, message.isStartup)]
    else []
  }

  function Updates(kinds: map<string, AccountKind>, messages: seq<Message>): seq<AccountUpdate> {
    if messages == [] then []
    else Updates(kinds, messages[..|messages| - 1]) + Update(kinds, messages[|messages| - 1])
  }
}
