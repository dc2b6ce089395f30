/** The handlers of the event loop, over the node's own store and shared state. */
module Node {
  import opened Wrappers
  import opened Octets
  import opened StoreSpec
  import opened RecordStore
  import opened EventLoop

  datatype SwarmCommand =
    | PutRecord(key: Key, value: Bytes, reply: Channel)
    | GetRecord(key: Key, reply: Channel)

  class NodeState {
    const store: CardRecordStore
    var pendingQueries: map<QueryId, Channel>
    var sent: seq<Reply>
    var storedRecords: nat

    ghost function State(): (s: Loop)
      reads this, store
    {
      Loop(store.State(), pendingQueries, sent, storedRecords)
    }

    constructor (store: CardRecordStore)
      ensures this.store == store && State() == Initial(store.State())
    {
      this.store := store;
      pendingQueries, sent, storedRecords := map[], [], 0;
    }

    /** The channel is one-shot; a receiver that is gone is not told. */
    method SendReply(c: Channel, result: QueryResult)
      modifies this
      ensures State() == Send(old(State()), c, result)
    {
      sent := sent + [Reply(c, result)];
    }

    /**
     `io` says whether the store's write succeeds, `started` and `query` are what Kademlia
     returns when asked to put or to get a record.
     */
    method HandleCommand(cmd: SwarmCommand, io: bool, started: Option<QueryId>, query: QueryId)
      modifies this, store
      ensures State() == match cmd
                         case PutRecord(k, v, c) => Next(Admit(store.env), old(State()), PutCommand(k, v, c, io, started))
                         case GetRecord(k, c) => Next(Admit(store.env), old(State()), GetCommand(k, c, query))
    {
      match cmd
      case PutRecord(key, value, reply) =>
        var result := store.Put(Record(key, value, None, None), io);
        match result {
          case Ok(_) =>
            storedRecords := storedRecords + 1;
            match started {
              case Some(id) =>
                pendingQueries := pendingQueries[id := reply];
              case None =>
                SendReply(reply, PutOk);
            }
          case Err(e) =>
            SendReply(reply, Error(e));
        }
      case GetRecord(key, reply) =>
        var held := store.Get(key);
        if held.Some? {
          SendReply(reply, Found(held.value.value));
          return;
        }
        pendingQueries := pendingQueries[query := reply];
    }

    method Resolve(id: QueryId, result: QueryResult)
      modifies this
      ensures State() == if id in old(pendingQueries)
                         then Send(old(State()).(pending := old(pendingQueries) - {id}), old(pendingQueries)[id], result)
                         else old(State())
    {
      if id in pendingQueries {
        var reply := pendingQueries[id];
        pendingQueries := pendingQueries - {id};
        SendReply(reply, result);
      }
    }

    method HandleKadEvent(id: QueryId, progress: Progress)
      modifies this
      ensures State() == Next(Admit(store.env), old(State()), Progressed(id, progress))
    {
      match progress
      case FoundRecord(value) => Resolve(id, Found(value));
      case FinishedWithNoAdditionalRecord => Resolve(id, NotFound);
      case GetFailed => Resolve(id, NotFound);
      case PutDone => Resolve(id, PutOk);
      case PutFailed => Resolve(id, PutOk);
      case OtherProgress =>
    }
  }
}
