/** The meeting point of the publisher and the stream clients (server/stream.go). Each method holds
    the hub's lock, so it is one step towards the other holders of the lock; what it does to one
    client is the moves of Stream. */
module Hub {
  import opened Timeline
  import opened Queries
  import S = Stream

  datatype Channel = Channel(buffer: seq<Event>, open: bool, overflow: bool)

  /** What publishing an event does to the channel of one client. */
  function Delivered(c: Channel, e: Event, q: Query, lower: Folding): Channel {
    if !Match(e, q, lower) then c
    else if |c.buffer| < S.CLIENT_BUFFER then c.(buffer := c.buffer + [e])
    else c.(overflow := true)
  }

  function ChannelOf(s: S.State): Channel {
    Channel(s.buffer, s.open, s.overflow)
  }

  /** Publishing is an offer to each client and, after a drop, the raising of its flag. */
  lemma PublishIsMoves(s: S.State, e: Event, q: Query, lower: Folding)
    requires S.Valid(s) && s.subscribed && !s.dropping
    ensures var t := S.Next(s, S.Offer(e), q, lower);
            ChannelOf(if t.dropping then S.Next(t, S.Raise, q, lower) else t) == Delivered(ChannelOf(s), e, q, lower)
  {
    hide Match;
  }

  /** Closing the hub closes the channel of a registered client. */
  lemma CloseIsMove(s: S.State, q: Query, lower: Folding)
    requires S.Valid(s) && s.subscribed && !s.dropping
    ensures ChannelOf(S.Next(s, S.Close, q, lower)) == ChannelOf(s).(open := false)
    ensures ChannelOf(S.Subscribed(s.hubClosed)) == Channel([], !s.hubClosed, false)
  {}

  class Client {
    const q: Query
    var buffer: seq<Event>
    var open: bool
    var overflow: bool

    constructor (q: Query)
      ensures this.q == q && View() == Channel([], true, false)
    {
      this.q := q;
      buffer, open, overflow := [], true, false;
    }

    function View(): Channel
      reads this
    {
      Channel(buffer, open, overflow)
    }

    /** A send that fails when the channel is full. */
    method TrySend(e: Event) returns (sent: bool)
      requires open
      modifies `buffer
      ensures sent == (|old(buffer)| < S.CLIENT_BUFFER)
      ensures buffer == if sent then old(buffer) + [e] else old(buffer)
    {
      sent := |buffer| < S.CLIENT_BUFFER;
      if sent {
        buffer := buffer + [e];
      }
    }

    method CloseChannel()
      requires open
      modifies `open
      ensures !open
    {
      open := false;
    }
  }

  class Hub {
    const lower: Folding
    var clients: set<Client>
    var closed: bool

    /** Every registered channel is open, and a closed hub has none, so no send and no close ever
        meets a closed channel. */
    ghost predicate Valid()
      reads this, clients
    {
      (forall c | c in clients :: c.open) && (closed ==> clients == {})
    }

    constructor (lower: Folding)
      ensures Valid() && clients == {} && !closed && this.lower == lower
    {
      this.lower := lower;
      clients, closed := {}, false;
    }

    method Publish(e: Event)
      requires Valid()
      modifies clients
      ensures Valid()
      ensures forall c | c in clients :: c.View() == Delivered(old(c.View()), e, c.q, lower)
    {
      hide Match;
      if closed {
        return;
      }
      var todo := clients;
      while todo != {}
        invariant todo <= clients && Valid()
        invariant forall c | c in todo :: c.View() == old(c.View())
        invariant forall c | c in clients - todo :: c.View() == Delivered(old(c.View()), e, c.q, lower)
        decreases |todo|
      {
        var c :| c in todo;
        todo := todo - {c};
        if !Match(e, c.q, lower) {
          continue;
        }
        var sent := c.TrySend(e);
        if !sent {
          c.overflow := true;
        }
      }
    }

    method Subscribe(q: Query) returns (c: Client)
      requires Valid()
      modifies `clients
      ensures Valid() && fresh(c) && c.q == q
      ensures c.View() == Channel([], !closed, false)
      ensures clients == if closed then old(clients) else old(clients) + {c}
    {
      c := new Client(q);
      if closed {
        c.CloseChannel();
      } else {
        clients := clients + {c};
      }
    }

    method Unsubscribe(c: Client)
      requires Valid()
      modifies `clients
      ensures Valid() && clients == old(clients) - {c}
    {
      clients := clients - {c};
    }

    /** Closes the channels of all clients and forgets them. */
    method Close()
      requires Valid()
      modifies this, clients
      ensures Valid() && closed && clients == {}
      ensures forall c | c in old(clients) :: c.View() == old(c.View()).(open := false)
    {
      closed := true;
      var todo := clients;
      while todo != {}
        invariant todo == clients <= old(clients) && closed
        invariant forall c | c in todo :: c.View() == old(c.View()) && c.open
        invariant forall c | c in old(clients) - todo :: c.View() == old(c.View()).(open := false)
        decreases |todo|
      {
        var c :| c in todo;
        todo := todo - {c};
        c.CloseChannel();
        clients := clients - {c};
      }
    }
  }
}
