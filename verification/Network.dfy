/**
 Many nodes that forward what they hold over a network which may lose, repeat and reorder
 messages. Nodes may restart from their own disks, and writes to these may fail. No node
 removes records.
 */
module Network {
  import opened Wrappers
  import opened Octets
  import opened StoreSpec
  import opened StoreRuns
  import opened StoreDisk

  type Message = (Key, Bytes)

  /** `published` remembers every address and value that ever entered a store, from a client or from its disk. */
  datatype Net = Net(nodes: seq<Store>, inFlight: set<Message>, published: set<Message>)

  datatype Event =
    | Publish(node: nat, record: Record, io: bool)  // a client's put, of an acceptable record or not
    | Forward(node: nat, key: Key)                  // a node sends what it holds
    | Deliver(node: nat, message: Message, publisher: Option<Bytes>, expires: Option<nat>, io: bool)
    | Lose(message: Message)
    | Restart(node: nat, cards: seq<DiskEntry>, weights: seq<DiskEntry>)  // with what its disk's trees yield

  /** What a node holds after a restart; without a disk, nothing. */
  function Restarted(admit: Admission, st: Store, cards: seq<DiskEntry>, weights: seq<DiskEntry>): (st': Store)
  {
    Load(admit, st.maxRecords, st.disk, cards, weights)
  }

  /** The entries are of the store's disk; some of it may be unreadable. */
  ghost predicate Readable(st: Store, cards: seq<DiskEntry>, weights: seq<DiskEntry>)
  {
    st.disk.Some? ==> Entries(cards, st.disk.value.cards) && Entries(weights, st.disk.value.weights)
  }

  function Messages(st: Store): (ms: set<Message>)
  {
    set k | k in st.records :: (k, st.records[k].value)
  }

  /** Delivering leaves a message in flight: it may arrive again, and in any order. */
  ghost function Next(admit: Admission, net: Net, e: Event): (net': Net)
  {
    match e
    case Publish(i, r, io) =>
      if i >= |net.nodes| then net
      else net.(nodes := net.nodes[i := Put(admit, net.nodes[i], r, io)],
                published := net.published + {(r.key, r.value)})
    case Forward(i, k) =>
      if i >= |net.nodes| || k !in net.nodes[i].records then net
      else net.(inFlight := net.inFlight + {(k, net.nodes[i].records[k].value)})
    case Deliver(i, m, p, x, io) =>
      if i >= |net.nodes| || m !in net.inFlight then net
      else net.(nodes := net.nodes[i := Put(admit, net.nodes[i], Record(m.0, m.1, p, x), io)])
    case Lose(m) =>
      net.(inFlight := net.inFlight - {m})
    case Restart(i, cards, weights) =>
      if i >= |net.nodes| || !Readable(net.nodes[i], cards, weights) then net
      else
        var st := Restarted(admit, net.nodes[i], cards, weights);
        net.(nodes := net.nodes[i := st], published := net.published + Messages(st))
  }

  ghost function NetRun(admit: Admission, net: Net, events: seq<Event>): (net': Net)
  {
    if events == [] then net
    else Next(admit, NetRun(admit, net, events[..|events| - 1]), events[|events| - 1])
  }

  ghost predicate Initial(net: Net)
  {
    && net.inFlight == {} && net.published == {}
    && forall i :: 0 <= i < |net.nodes| ==> net.nodes[i] == Empty(net.nodes[i].maxRecords, net.nodes[i].disk)
  }

  /** The addresses of the acceptable ones among some messages. */
  ghost function Addresses(admit: Admission, ms: set<Message>): (s: set<Key>)
  {
    set m | m in ms && admit(m.0, m.1).Some? :: m.0
  }

  /** Every node has room for all acceptable addresses that were published. */
  ghost predicate Fits(admit: Admission, net: Net, ms: set<Message>)
  {
    forall i :: 0 <= i < |net.nodes| ==> |Addresses(admit, ms)| <= net.nodes[i].maxRecords
  }

  /** `st` holds something at `m`'s address that is at least as new as `m`. */
  ghost predicate Covers(admit: Admission, st: Store, m: Message)
    requires admit(m.0, m.1).Some?
  {
    m.0 in st.records && m.0 in st.seqCache && admit(m.0, m.1).value <= st.seqCache[m.0]
  }

  ghost predicate HoldsPublished(st: Store, published: set<Message>)
  {
    forall k :: k in st.records ==> (k, st.records[k].value) in published
  }

  ghost predicate NodesHold(admit: Admission, nodes: seq<Store>, published: set<Message>)
  {
    forall i :: 0 <= i < |nodes| ==> Coherent(admit, nodes[i]) && HoldsPublished(nodes[i], published)
  }

  ghost predicate CoveredSomewhere(admit: Admission, nodes: seq<Store>, m: Message)
    requires admit(m.0, m.1).Some?
  {
    exists i :: 0 <= i < |nodes| && Covers(admit, nodes[i], m)
  }

  ghost predicate AllCovered(admit: Admission, nodes: seq<Store>, published: set<Message>)
  {
    forall m :: m in published && admit(m.0, m.1).Some? ==> CoveredSomewhere(admit, nodes, m)
  }

  /** What every reachable state satisfies, even if some store is too small. */
  ghost predicate NetCoherent(admit: Admission, net: Net)
  {
    net.inFlight <= net.published && NodesHold(admit, net.nodes, net.published)
  }

  /** What every reachable state satisfies while every store has room. */
  ghost predicate NetInv(admit: Admission, net: Net)
  {
    NetCoherent(admit, net) && AllCovered(admit, net.nodes, net.published)
  }

  /** A put never uncovers a message, and covers its own if there is room. */
  lemma PutCovers(admit: Admission, st: Store, r: Record, io: bool, m: Message)
    requires Coherent(admit, st) && admit(m.0, m.1).Some?
    ensures Covers(admit, st, m) ==> Covers(admit, Put(admit, st, r, io), m)
    ensures m == (r.key, r.value) && (r.key in st.records || |st.records| < st.maxRecords)
            ==> Covers(admit, Put(admit, st, r, io), m)
  {
  }

  lemma PutHoldsPublished(admit: Admission, st: Store, r: Record, io: bool, published: set<Message>)
    requires HoldsPublished(st, published) && (r.key, r.value) in published
    ensures HoldsPublished(Put(admit, st, r, io), published)
  {
  }

  lemma AddressesGrow(admit: Admission, a: set<Message>, b: set<Message>)
    requires a <= b
    ensures Addresses(admit, a) <= Addresses(admit, b) && |Addresses(admit, a)| <= |Addresses(admit, b)|
  {
    SubsetSize(Addresses(admit, a), Addresses(admit, b));
  }

  lemma RoomForPublished(admit: Admission, st: Store, published: set<Message>, m: Message)
    requires Coherent(admit, st) && HoldsPublished(st, published)
    requires m in published && admit(m.0, m.1).Some? && |Addresses(admit, published)| <= st.maxRecords
    ensures m.0 in st.records || |st.records| < st.maxRecords
  {
    if m.0 !in st.records {
      forall k | k in st.records.Keys + {m.0} ensures k in Addresses(admit, published) {
        var v := if k == m.0 then m.1 else st.records[k].value;
        assert (k, v) in published && admit(k, v).Some?;
      }
      SubsetSize(st.records.Keys + {m.0}, Addresses(admit, published));
      KeysSize(st.records);
    }
  }

  lemma PutAtHolds(admit: Admission, nodes: seq<Store>, i: nat, r: Record, io: bool,
                   published: set<Message>, published': set<Message>)
    requires i < |nodes| && NodesHold(admit, nodes, published) && published <= published'
    requires (r.key, r.value) in published'
    ensures NodesHold(admit, nodes[i := Put(admit, nodes[i], r, io)], published')
  {
    PutKeepsInvariant(admit, nodes[i], r, io);
    assert HoldsPublished(nodes[i], published');
    PutHoldsPublished(admit, nodes[i], r, io, published');
  }

  lemma PutAtCovers(admit: Admission, nodes: seq<Store>, i: nat, r: Record, io: bool, m: Message)
    requires i < |nodes| && Coherent(admit, nodes[i]) && admit(m.0, m.1).Some?
    requires CoveredSomewhere(admit, nodes, m)
          || (m == (r.key, r.value) && (r.key in nodes[i].records || |nodes[i].records| < nodes[i].maxRecords))
    ensures CoveredSomewhere(admit, nodes[i := Put(admit, nodes[i], r, io)], m)
  {
    PutCovers(admit, nodes[i], r, io, m);
    var nodes' := nodes[i := Put(admit, nodes[i], r, io)];
    if CoveredSomewhere(admit, nodes, m) {
      var j :| 0 <= j < |nodes| && Covers(admit, nodes[j], m);
      assert Covers(admit, nodes'[j], m);
    } else {
      assert Covers(admit, nodes'[i], m);
    }
  }

  lemma NextKeepsCoherent(admit: Admission, net: Net, e: Event)
    requires NetCoherent(admit, net)
    ensures NetCoherent(admit, Next(admit, net, e))
  {
    match e
    case Publish(i, r, io) =>
      if i < |net.nodes| {
        PutAtHolds(admit, net.nodes, i, r, io, net.published, net.published + {(r.key, r.value)});
      }
    case Forward(i, k) =>
    case Deliver(i, m, p, x, io) =>
      if i < |net.nodes| && m in net.inFlight {
        var r := Record(m.0, m.1, p, x);
        assert (r.key, r.value) == m;
        PutAtHolds(admit, net.nodes, i, r, io, net.published, net.published);
      }
    case Lose(m) =>
    case Restart(i, cards, weights) =>
      if i < |net.nodes| && Readable(net.nodes[i], cards, weights) {
        RestartedHolds(admit, net.nodes[i], cards, weights, net.published);
      }
  }

  lemma RestartedHolds(admit: Admission, st: Store, cards: seq<DiskEntry>, weights: seq<DiskEntry>,
                       published: set<Message>)
    requires Readable(st, cards, weights)
    ensures var st' := Restarted(admit, st, cards, weights);
            Coherent(admit, st') && HoldsPublished(st', published + Messages(st')) && st'.maxRecords == st.maxRecords
  {
    LoadIsCoherent(admit, st.maxRecords, st.disk, cards, weights);
    LoadKeepsRest(admit, st.maxRecords, st.disk, cards, weights);
    var st' := Restarted(admit, st, cards, weights);
    forall k | k in st'.records ensures (k, st'.records[k].value) in Messages(st') {
    }
  }

  lemma PublishKeepsCovered(admit: Admission, net: Net, e: Event)
    requires NetInv(admit, net) && e.Publish? && e.node < |net.nodes|
    requires Fits(admit, net, Next(admit, net, e).published)
    ensures AllCovered(admit, Next(admit, net, e).nodes, Next(admit, net, e).published)
  {
    var published' := net.published + {(e.record.key, e.record.value)};
    forall m | m in published' && admit(m.0, m.1).Some?
      ensures CoveredSomewhere(admit, Next(admit, net, e).nodes, m)
    {
      if m !in net.published {
        assert HoldsPublished(net.nodes[e.node], published');
        RoomForPublished(admit, net.nodes[e.node], published', m);
      }
      PutAtCovers(admit, net.nodes, e.node, e.record, e.io, m);
    }
  }

  lemma DeliverKeepsCovered(admit: Admission, net: Net, e: Event)
    requires NetInv(admit, net) && e.Deliver? && e.node < |net.nodes| && e.message in net.inFlight
    ensures AllCovered(admit, Next(admit, net, e).nodes, net.published)
  {
    var r := Record(e.message.0, e.message.1, e.publisher, e.expires);
    forall m | m in net.published && admit(m.0, m.1).Some?
      ensures CoveredSomewhere(admit, Next(admit, net, e).nodes, m)
    {
      PutAtCovers(admit, net.nodes, e.node, r, e.io, m);
    }
  }

  /** Whatever the first store holds the second holds too, at least as new. */
  ghost predicate Keeps(st: Store, st': Store)
  {
    forall k :: k in st.records && k in st.seqCache ==> KeepsAt(st, st', k)
  }

  ghost predicate KeepsAt(st: Store, st': Store, k: Key)
    requires k in st.seqCache
  {
    k in st'.records && k in st'.seqCache && st.seqCache[k] <= st'.seqCache[k]
  }

  /** If the event is a restart, the node is not set back by it. */
  ghost predicate Recovers(admit: Admission, net: Net, e: Event)
  {
    e.Restart? && e.node < |net.nodes| && Readable(net.nodes[e.node], e.cards, e.weights) ==>
      Keeps(net.nodes[e.node], Restarted(admit, net.nodes[e.node], e.cards, e.weights))
  }

  lemma OwnIsCovered(admit: Admission, st: Store, m: Message)
    requires Coherent(admit, st) && m in Messages(st) && admit(m.0, m.1).Some?
    ensures Covers(admit, st, m)
  {
  }

  lemma KeptIsCovered(admit: Admission, st: Store, st': Store, m: Message)
    requires admit(m.0, m.1).Some? && Covers(admit, st, m) && Keeps(st, st')
    ensures Covers(admit, st', m)
  {
    assert KeepsAt(st, st', m.0);
  }

  lemma RestartKeepsCovered(admit: Admission, net: Net, e: Event)
    requires NetInv(admit, net) && e.Restart? && e.node < |net.nodes| && Recovers(admit, net, e)
    requires Readable(net.nodes[e.node], e.cards, e.weights)
    ensures AllCovered(admit, Next(admit, net, e).nodes, Next(admit, net, e).published)
  {
    var before, st := net.nodes[e.node], Restarted(admit, net.nodes[e.node], e.cards, e.weights);
    RestartedHolds(admit, before, e.cards, e.weights, net.published);
    var nodes := net.nodes[e.node := st];
    forall m | m in net.published + Messages(st) && admit(m.0, m.1).Some? ensures CoveredSomewhere(admit, nodes, m) {
      if m in Messages(st) {
        OwnIsCovered(admit, st, m);
        assert Covers(admit, nodes[e.node], m);
      } else {
        var j :| 0 <= j < |net.nodes| && Covers(admit, net.nodes[j], m);
        if j == e.node { KeptIsCovered(admit, before, st, m); }
        assert Covers(admit, nodes[j], m);
      }
    }
  }

  lemma NextKeepsInv(admit: Admission, net: Net, e: Event)
    requires NetInv(admit, net) && Fits(admit, net, Next(admit, net, e).published) && Recovers(admit, net, e)
    ensures NetInv(admit, Next(admit, net, e))
  {
    NextKeepsCoherent(admit, net, e);
    match e
    case Publish(i, r, io) =>
      if i < |net.nodes| { PublishKeepsCovered(admit, net, e); }
    case Forward(i, k) =>
    case Deliver(i, m, p, x, io) =>
      if i < |net.nodes| && m in net.inFlight { DeliverKeepsCovered(admit, net, e); }
    case Lose(m) =>
    case Restart(i, cards, weights) =>
      if i < |net.nodes| && Readable(net.nodes[i], cards, weights) { RestartKeepsCovered(admit, net, e); }
  }

  lemma PublishedGrows(admit: Admission, net: Net, e: Event)
    ensures net.published <= Next(admit, net, e).published
    ensures |Next(admit, net, e).nodes| == |net.nodes|
    ensures forall i :: 0 <= i < |net.nodes| ==> Next(admit, net, e).nodes[i].maxRecords == net.nodes[i].maxRecords
  {
    if e.Restart? && e.node < |net.nodes| && Readable(net.nodes[e.node], e.cards, e.weights) {
      RestartedHolds(admit, net.nodes[e.node], e.cards, e.weights, net.published);
    }
  }

  lemma {:induction false} RunKeepsRoom(admit: Admission, net: Net, events: seq<Event>)
    ensures |NetRun(admit, net, events).nodes| == |net.nodes|
    ensures forall i :: 0 <= i < |net.nodes| ==>
              NetRun(admit, net, events).nodes[i].maxRecords == net.nodes[i].maxRecords
  {
    if events == [] {
    } else {
      RunKeepsRoom(admit, net, events[..|events| - 1]);
      PublishedGrows(admit, NetRun(admit, net, events[..|events| - 1]), events[|events| - 1]);
    }
  }

  /** No restart in the run sets its node back. */
  ghost predicate Recovering(admit: Admission, net: Net, events: seq<Event>)
  {
    forall n: nat :: n < |events| ==> RecoversAt(admit, net, events, n)
  }

  ghost predicate RecoversAt(admit: Admission, net: Net, events: seq<Event>, n: nat)
    requires n < |events|
  {
    Recovers(admit, NetRun(admit, net, events[..n]), events[n])
  }

  lemma RecoveringPrefix(admit: Admission, net: Net, events: seq<Event>, n: nat)
    requires n <= |events| && Recovering(admit, net, events)
    ensures Recovering(admit, net, events[..n])
  {
    forall m: nat | m < n ensures RecoversAt(admit, net, events[..n], m) {
      assert events[..n][..m] == events[..m];
      assert RecoversAt(admit, net, events, m);
    }
  }

  lemma {:induction false} NetRunKeepsCoherent(admit: Admission, net: Net, events: seq<Event>)
    requires NetCoherent(admit, net)
    ensures NetCoherent(admit, NetRun(admit, net, events))
    ensures |NetRun(admit, net, events).nodes| == |net.nodes|
  {
    if events == [] {
    } else {
      var n := |events| - 1;
      var mid := NetRun(admit, net, events[..n]);
      NetRunKeepsCoherent(admit, net, events[..n]);
      NextKeepsCoherent(admit, mid, events[n]);
      PublishedGrows(admit, mid, events[n]);
    }
  }

  /** Every reachable state satisfies the invariant, if every node has room and no restart sets one back. */
  lemma {:induction false} NetRunKeepsInv(admit: Admission, net: Net, events: seq<Event>)
    requires Initial(net) && Fits(admit, net, NetRun(admit, net, events).published) && Recovering(admit, net, events)
    ensures NetInv(admit, NetRun(admit, net, events))
    ensures |NetRun(admit, net, events).nodes| == |net.nodes|
    ensures forall i :: 0 <= i < |net.nodes| ==>
              NetRun(admit, net, events).nodes[i].maxRecords == net.nodes[i].maxRecords
  {
    if events == [] {
    } else {
      var n := |events| - 1;
      var mid := NetRun(admit, net, events[..n]);
      PublishedGrows(admit, mid, events[n]);
      AddressesGrow(admit, mid.published, NetRun(admit, net, events).published);
      RecoveringPrefix(admit, net, events, n);
      NetRunKeepsInv(admit, net, events[..n]);
      assert RecoversAt(admit, net, events, n);
      NextKeepsInv(admit, mid, events[n]);
    }
  }

  // --- quiescence --------------------------------------------------------

  /** No node can teach another anything: forwarding what it holds would change no store. */
  ghost predicate Quiescent(admit: Admission, net: Net)
  {
    forall i, j, k :: 0 <= i < |net.nodes| && 0 <= j < |net.nodes| && k in net.nodes[i].records ==>
      Put(admit, net.nodes[j], net.nodes[i].records[k], true) == net.nodes[j]
  }

  lemma QuiescentCovers(admit: Admission, net: Net, j: nat, m: Message)
    requires NetInv(admit, net) && Quiescent(admit, net) && Fits(admit, net, net.published) && j < |net.nodes|
    requires m in net.published && admit(m.0, m.1).Some?
    ensures Covers(admit, net.nodes[j], m)
  {
    var i :| 0 <= i < |net.nodes| && Covers(admit, net.nodes[i], m);
    var r := net.nodes[i].records[m.0];
    var own := (r.key, r.value);
    assert own in net.published;
    assert Put(admit, net.nodes[j], r, true) == net.nodes[j];
    RoomForPublished(admit, net.nodes[j], net.published, own);
    PutCovers(admit, net.nodes[j], r, true, own);
  }

  lemma HeldIsNewest(admit: Admission, net: Net, j: nat, k: Key)
    requires NetInv(admit, net) && Quiescent(admit, net) && Fits(admit, net, net.published) && j < |net.nodes|
    requires k in net.nodes[j].records
    ensures Newest(admit, net.published, (k, net.nodes[j].records[k].value))
  {
    forall q | q in net.published && q.0 == k && admit(q.0, q.1).Some?
      ensures admit(q.0, q.1).value <= net.nodes[j].seqCache[k] {
      QuiescentCovers(admit, net, j, q);
    }
  }

  lemma HeldIffPublished(admit: Admission, net: Net, j: nat, k: Key)
    requires NetInv(admit, net) && Quiescent(admit, net) && Fits(admit, net, net.published) && j < |net.nodes|
    ensures k in net.nodes[j].records <==> k in Addresses(admit, net.published)
  {
    if k in net.nodes[j].records {
      var m: Message := (k, net.nodes[j].records[k].value);
      assert m in net.published && admit(m.0, m.1).Some?;
    }
    if k in Addresses(admit, net.published) {
      var m :| m in net.published && admit(m.0, m.1).Some? && m.0 == k;
      QuiescentCovers(admit, net, j, m);
    }
  }

  lemma NodeHoldsNewest(admit: Admission, net: Net, j: nat)
    requires NetInv(admit, net) && Quiescent(admit, net) && Fits(admit, net, net.published) && j < |net.nodes|
    ensures forall k :: k in net.nodes[j].records <==> k in Addresses(admit, net.published)
    ensures forall k :: k in net.nodes[j].records ==> Newest(admit, net.published, (k, net.nodes[j].records[k].value))
  {
    forall k ensures k in net.nodes[j].records <==> k in Addresses(admit, net.published) {
      HeldIffPublished(admit, net, j, k);
    }
    forall k | k in net.nodes[j].records ensures Newest(admit, net.published, (k, net.nodes[j].records[k].value)) {
      HeldIsNewest(admit, net, j, k);
    }
  }

  /**
   A quiescent network. Every node holds something at exactly the addresses for which anything
   acceptable was ever published, and what it holds there is a newest value, whatever was lost,
   repeated or reordered on the way and whatever unacceptable records were published.
   */
  lemma QuiescentNodesHoldNewest(admit: Admission, net: Net, events: seq<Event>, j: nat)
    requires Initial(net) && Fits(admit, net, NetRun(admit, net, events).published)
    requires Recovering(admit, net, events)
    requires Quiescent(admit, NetRun(admit, net, events)) && j < |NetRun(admit, net, events).nodes|
    ensures var end := NetRun(admit, net, events);
            && (forall k :: k in end.nodes[j].records <==> k in Addresses(admit, end.published))
            && (forall k :: k in end.nodes[j].records ==>
                  Newest(admit, end.published, (k, end.nodes[j].records[k].value)))
  {
    NetRunKeepsInv(admit, net, events);
    NodeHoldsNewest(admit, NetRun(admit, net, events), j);
  }

  /** No two acceptable values tie for the greatest seq at an address; unacceptable ones do not matter. */
  ghost predicate NoTies(admit: Admission, published: set<Message>)
  {
    forall k :: UniqueNewest(admit, published, k)
  }

  /**
   Agreement. Without ties, every node of a quiescent network holds exactly the newest
   acceptable value ever published at each address.
   */
  lemma QuiescentNodesAgree(admit: Admission, net: Net, events: seq<Event>, j: nat)
    requires Initial(net) && Fits(admit, net, NetRun(admit, net, events).published)
    requires Recovering(admit, net, events)
    requires var end := NetRun(admit, net, events);
             Quiescent(admit, end) && NoTies(admit, end.published) && j < |end.nodes|
    ensures HoldsExactlyNewest(admit, NetRun(admit, net, events), j)
  {
    var end := NetRun(admit, net, events);
    QuiescentNodesHoldNewest(admit, net, events, j);
    forall m: Message
      ensures Newest(admit, end.published, m) <==> m.0 in Values(end.nodes[j]) && Values(end.nodes[j])[m.0] == m.1 {
      if Newest(admit, end.published, m) {
        assert m.0 in Addresses(admit, end.published) && UniqueNewest(admit, end.published, m.0);
        assert Newest(admit, end.published, (m.0, m.1));
      }
    }
  }

  ghost predicate HoldsExactlyNewest(admit: Admission, net: Net, j: nat)
    requires j < |net.nodes|
  {
    forall m: Message :: Newest(admit, net.published, m) <==>
      m.0 in Values(net.nodes[j]) && Values(net.nodes[j])[m.0] == m.1
  }

  lemma SameNewest(admit: Admission, net: Net, i: nat, j: nat)
    requires i < |net.nodes| && j < |net.nodes| && HoldsExactlyNewest(admit, net, i) && HoldsExactlyNewest(admit, net, j)
    ensures Values(net.nodes[i]) == Values(net.nodes[j])
  {
    var a, b := Values(net.nodes[i]), Values(net.nodes[j]);
    forall k | k in a ensures k in b && b[k] == a[k] { assert Newest(admit, net.published, (k, a[k])); }
    forall k | k in b ensures k in a { assert Newest(admit, net.published, (k, b[k])); }
  }

  /** Hence any two nodes of a quiescent network hold the same values. */
  lemma QuiescentNodesEqual(admit: Admission, net: Net, events: seq<Event>, i: nat, j: nat)
    requires Initial(net) && Fits(admit, net, NetRun(admit, net, events).published)
    requires Recovering(admit, net, events)
    requires var end := NetRun(admit, net, events);
             Quiescent(admit, end) && NoTies(admit, end.published) && i < |end.nodes| && j < |end.nodes|
    ensures var end := NetRun(admit, net, events); Values(end.nodes[i]) == Values(end.nodes[j])
  {
    QuiescentNodesAgree(admit, net, events, i);
    QuiescentNodesAgree(admit, net, events, j);
    SameNewest(admit, NetRun(admit, net, events), i, j);
  }

  // --- how often a store can change --------------------------------------

  ghost function Acceptable(admit: Admission, ms: set<Message>): (s: set<Message>)
  {
    set m | m in ms && admit(m.0, m.1).Some?
  }

  /** The acceptable messages that a store covers. */
  ghost function Covered(admit: Admission, st: Store, ms: set<Message>): (s: set<Message>)
  {
    set m | m in ms && admit(m.0, m.1).Some? && Covers(admit, st, m)
  }

  /** The event puts a record in node `i` that changes what it holds. */
  ghost predicate Changes(admit: Admission, net: Net, e: Event, i: nat)
    requires i < |net.nodes| == |Next(admit, net, e).nodes|
  {
    !e.Restart? && Next(admit, net, e).nodes[i].records != net.nodes[i].records
  }

  /** How many of the events changed what node `i` holds, restarts apart. */
  ghost function ChangeCount(admit: Admission, net: Net, events: seq<Event>, i: nat): (n: nat)
    requires i < |net.nodes|
    ensures |NetRun(admit, net, events).nodes| == |net.nodes|
  {
    if events == [] then 0 else
    var front := events[..|events| - 1];
    var n := ChangeCount(admit, net, front, i);
    PublishedGrows(admit, NetRun(admit, net, front), events[|events| - 1]);
    n + if Changes(admit, NetRun(admit, net, front), events[|events| - 1], i) then 1 else 0
  }

  function RestartCount(events: seq<Event>, i: nat): (n: nat)
  {
    if events == [] then 0 else
    var e := events[|events| - 1];
    RestartCount(events[..|events| - 1], i) + if e.Restart? && e.node == i then 1 else 0
  }

  lemma PutGrowsCovered(admit: Admission, st: Store, r: Record, io: bool, ms: set<Message>)
    requires Coherent(admit, st) && (r.key, r.value) in ms
    ensures Covered(admit, st, ms) <= Covered(admit, Put(admit, st, r, io), ms)
    ensures Put(admit, st, r, io).records != st.records ==>
              |Covered(admit, Put(admit, st, r, io), ms)| >= |Covered(admit, st, ms)| + 1
  {
    var st' := Put(admit, st, r, io);
    forall m | m in Covered(admit, st, ms) ensures m in Covered(admit, st', ms) {
      PutCovers(admit, st, r, io, m);
    }
    if st'.records != st.records {
      SubsetSize(Covered(admit, st, ms) + {(r.key, r.value)}, Covered(admit, st', ms));
    }
  }

  /** An event other than the node's own restart leaves its store alone or puts one record in it. */
  lemma NextAt(admit: Admission, net: Net, e: Event, i: nat) returns (put: bool, r: Record, io: bool)
    requires i < |net.nodes| && net.inFlight <= net.published && !(e.Restart? && e.node == i)
    ensures |Next(admit, net, e).nodes| == |net.nodes|
    ensures !put ==> Next(admit, net, e).nodes[i] == net.nodes[i]
    ensures put ==> && Next(admit, net, e).nodes[i] == Put(admit, net.nodes[i], r, io)
                    && (r.key, r.value) in Next(admit, net, e).published
  {
    put, r, io := false, Record([], [], None, None), false;
    match e
    case Publish(n, rec, w) =>
      if n == i { put, r, io := true, rec, w; }
    case Deliver(n, m, p, x, w) =>
      if n == i && m in net.inFlight {
        put, r, io := true, Record(m.0, m.1, p, x), w;
        assert (r.key, r.value) == m;
      }
    case Forward(_, _) =>
    case Lose(_) =>
    case Restart(_, _, _) =>
  }

  lemma NextGrowsCovered(admit: Admission, net: Net, e: Event, i: nat, all: set<Message>)
    requires NetCoherent(admit, net) && i < |net.nodes| && Next(admit, net, e).published <= all
    requires !(e.Restart? && e.node == i)
    ensures |Next(admit, net, e).nodes| == |net.nodes|
    ensures |Covered(admit, Next(admit, net, e).nodes[i], all)|
         >= |Covered(admit, net.nodes[i], all)| + if Changes(admit, net, e, i) then 1 else 0
  {
    var put, r, io := NextAt(admit, net, e, i);
    if put {
      PutGrowsCovered(admit, net.nodes[i], r, io, all);
    }
  }

  lemma CoveredBounded(admit: Admission, st: Store, ms: set<Message>)
    ensures |Covered(admit, st, ms)| <= |Acceptable(admit, ms)|
  {
    SubsetSize(Covered(admit, st, ms), Acceptable(admit, ms));
  }

  /** The number of changes is within what the restarts and the messages covered since allow. */
  ghost predicate Allowed(changes: nat, restarts: nat, all: nat, covered: nat)
  {
    changes <= restarts * all + covered
  }

  /** A restart may lose all that the changes before it had gained. */
  lemma RestartAllows(changes: nat, restarts: nat, all: nat, covered: nat, after: nat)
    requires Allowed(changes, restarts, all, covered) && covered <= all
    ensures Allowed(changes, restarts + 1, all, after)
  {
    assert (restarts + 1) * all == restarts * all + all;
  }

  lemma ChangeAllowed(changes: nat, restarts: nat, all: nat, covered: nat, more: nat, after: nat)
    requires Allowed(changes, restarts, all, covered) && covered + more <= after
    ensures Allowed(changes + more, restarts, all, after)
  {
  }

  /** What one event adds to the two counts. */
  lemma CountsStep(admit: Admission, net: Net, events: seq<Event>, i: nat)
    requires i < |net.nodes| && events != []
    ensures var n := |events| - 1;
            var mid, e := NetRun(admit, net, events[..n]), events[n];
            && |mid.nodes| == |net.nodes| == |Next(admit, mid, e).nodes|
            && ChangeCount(admit, net, events, i)
                 == ChangeCount(admit, net, events[..n], i) + (if Changes(admit, mid, e, i) then 1 else 0)
            && RestartCount(events, i) == RestartCount(events[..n], i) + (if e.Restart? && e.node == i then 1 else 0)
  {
    var n := |events| - 1;
    RunKeepsRoom(admit, net, events[..n]);
    PublishedGrows(admit, NetRun(admit, net, events[..n]), events[n]);
  }

  lemma {:induction false} ChangesMeetCovered(admit: Admission, net: Net, events: seq<Event>, i: nat, all: set<Message>)
    requires Initial(net) && i < |net.nodes|
    requires NetRun(admit, net, events).published <= all
    ensures |NetRun(admit, net, events).nodes| == |net.nodes|
    ensures Allowed(ChangeCount(admit, net, events, i), RestartCount(events, i), |Acceptable(admit, all)|,
                    |Covered(admit, NetRun(admit, net, events).nodes[i], all)|)
  {
    if events == [] {
    } else {
      var n := |events| - 1;
      var e, mid := events[n], NetRun(admit, net, events[..n]);
      PublishedGrows(admit, mid, e);
      CountsStep(admit, net, events, i);
      ChangesMeetCovered(admit, net, events[..n], i, all);
      NetRunKeepsCoherent(admit, net, events[..n]);
      var changes, restarts := ChangeCount(admit, net, events[..n], i), RestartCount(events[..n], i);
      var covered, after := |Covered(admit, mid.nodes[i], all)|, |Covered(admit, Next(admit, mid, e).nodes[i], all)|;
      if e.Restart? && e.node == i {
        CoveredBounded(admit, mid.nodes[i], all);
        RestartAllows(changes, restarts, |Acceptable(admit, all)|, covered, after);
      } else {
        NextGrowsCovered(admit, mid, e, i, all);
        ChangeAllowed(changes, restarts, |Acceptable(admit, all)|, covered, if Changes(admit, mid, e, i) then 1 else 0, after);
      }
    }
  }

  /**
   A node's store changes at most once per acceptable message ever published, and as often
   again for each of its restarts, however often messages are repeated, however small the
   stores and whatever the restarts lost: gossip cannot go on for ever.
   */
  lemma ChangesAreBounded(admit: Admission, net: Net, events: seq<Event>, i: nat)
    requires Initial(net) && i < |net.nodes|
    ensures ChangeCount(admit, net, events, i)
         <= (RestartCount(events, i) + 1) * |Acceptable(admit, NetRun(admit, net, events).published)|
  {
    var all := NetRun(admit, net, events).published;
    ChangesMeetCovered(admit, net, events, i, all);
    CoveredBounded(admit, NetRun(admit, net, events).nodes[i], all);
    RestartAllows(ChangeCount(admit, net, events, i), RestartCount(events, i), |Acceptable(admit, all)|,
                  |Covered(admit, NetRun(admit, net, events).nodes[i], all)|, 0);
  }

  // --- quiescence can always be reached ----------------------------------

  /** How much the first `n` nodes have yet to learn. */
  ghost function Missing(admit: Admission, nodes: seq<Store>, ms: set<Message>, n: nat): (r: nat)
    requires n <= |nodes|
  {
    if n == 0 then 0 else Missing(admit, nodes, ms, n - 1) + Lacks(admit, nodes[n - 1], ms)
  }

  ghost function Lacks(admit: Admission, st: Store, ms: set<Message>): (r: nat)
  {
    SubsetSize(Covered(admit, st, ms), Acceptable(admit, ms));
    |Acceptable(admit, ms)| - |Covered(admit, st, ms)|
  }

  /** What one node learns, the network has less to learn. */
  lemma {:induction false} LearningCounts(
      admit: Admission, nodes: seq<Store>, ms: set<Message>, j: nat, st: Store, n: nat)
    requires j < |nodes| && n <= |nodes| && Lacks(admit, st, ms) < Lacks(admit, nodes[j], ms)
    ensures Missing(admit, nodes[j := st], ms, n) + (if j < n then 1 else 0) <= Missing(admit, nodes, ms, n)
  {
    if n == 0 {
    } else {
      LearningCounts(admit, nodes, ms, j, st, n - 1);
    }
  }

  ghost predicate Gossip(events: seq<Event>)
  {
    forall i :: 0 <= i < |events| ==> events[i].Forward? || events[i].Deliver?
  }

  /** A node's record reaches another node. */
  lemma Exchange(admit: Admission, net: Net, i: nat, j: nat, k: Key) returns (two: seq<Event>)
    requires i < |net.nodes| && j < |net.nodes| && k in net.nodes[i].records && net.nodes[i].records[k].key == k
    ensures Gossip(two)
    ensures NetRun(admit, net, two).nodes == net.nodes[j := Put(admit, net.nodes[j], net.nodes[i].records[k], true)]
    ensures NetRun(admit, net, two).published == net.published
  {
    var r := net.nodes[i].records[k];
    two := [Forward(i, k), Deliver(j, (k, r.value), r.publisher, r.expires, true)];
    assert two[..1] == [two[0]] && [two[0]][..0] == [];
    assert NetRun(admit, net, two[..1]) == Next(admit, net, two[0]);
    assert r == Record(k, r.value, r.publisher, r.expires);
  }

  lemma ExchangeTeaches(admit: Admission, net: Net, i: nat, j: nat, k: Key) returns (two: seq<Event>)
    requires NetCoherent(admit, net) && i < |net.nodes| && j < |net.nodes| && k in net.nodes[i].records
    requires Put(admit, net.nodes[j], net.nodes[i].records[k], true) != net.nodes[j]
    ensures Gossip(two) && NetRun(admit, net, two).published == net.published
    ensures |NetRun(admit, net, two).nodes| == |net.nodes|
    ensures Missing(admit, NetRun(admit, net, two).nodes, net.published, |net.nodes|)
          < Missing(admit, net.nodes, net.published, |net.nodes|)
  {
    var r := net.nodes[i].records[k];
    two := Exchange(admit, net, i, j, k);
    assert (r.key, r.value) in net.published;
    PutLessens(admit, net.nodes[j], r, net.published);
    LearningCounts(admit, net.nodes, net.published, j, Put(admit, net.nodes[j], r, true), |net.nodes|);
  }

  /** In a network that is not quiescent some node can be taught something. */
  lemma Teachable(admit: Admission, net: Net) returns (two: seq<Event>)
    requires NetCoherent(admit, net) && !Quiescent(admit, net)
    ensures Gossip(two) && NetRun(admit, net, two).published == net.published
    ensures |NetRun(admit, net, two).nodes| == |net.nodes|
    ensures Missing(admit, NetRun(admit, net, two).nodes, net.published, |net.nodes|)
          < Missing(admit, net.nodes, net.published, |net.nodes|)
  {
    var i: nat, j: nat, k :| i < |net.nodes| && j < |net.nodes| && k in net.nodes[i].records
                             && Put(admit, net.nodes[j], net.nodes[i].records[k], true) != net.nodes[j];
    two := ExchangeTeaches(admit, net, i, j, k);
  }

  lemma PutLessens(admit: Admission, st: Store, r: Record, ms: set<Message>)
    requires Coherent(admit, st) && (r.key, r.value) in ms && Put(admit, st, r, true) != st
    ensures Lacks(admit, Put(admit, st, r, true), ms) < Lacks(admit, st, ms)
  {
    PutGrowsCovered(admit, st, r, true, ms);
    assert Put(admit, st, r, true).seqCache[r.key] == admit(r.key, r.value).value;
    assert r.key in st.seqCache ==> st.seqCache[r.key] != admit(r.key, r.value).value;
    assert r.key in st.records ==> st.records[r.key] != r;
  }

  lemma {:induction false} NetRunConcat(admit: Admission, net: Net, a: seq<Event>, b: seq<Event>)
    ensures NetRun(admit, net, a + b) == NetRun(admit, NetRun(admit, net, a), b)
  {
    if b == [] {
      assert a + b == a;
    } else {
      NetRunConcat(admit, net, a, b[..|b| - 1]);
      assert (a + b)[..|a + b| - 1] == a + b[..|b| - 1];
    }
  }

  /** From every coherent state some finite exchange of forwarded records makes the network quiescent. */
  lemma {:induction false} QuiescenceReachable(admit: Admission, net: Net) returns (events: seq<Event>)
    requires NetCoherent(admit, net)
    ensures Gossip(events) && Quiescent(admit, NetRun(admit, net, events))
    ensures NetRun(admit, net, events).published == net.published
    decreases Missing(admit, net.nodes, net.published, |net.nodes|)
  {
    if Quiescent(admit, net) {
      events := [];
    } else {
      var two := Teachable(admit, net);
      NetRunKeepsCoherent(admit, net, two);
      var rest := QuiescenceReachable(admit, NetRun(admit, net, two));
      events := two + rest;
      NetRunConcat(admit, net, two, rest);
    }
  }

  lemma GossipRecovers(admit: Admission, net: Net, events: seq<Event>, gossip: seq<Event>)
    requires Recovering(admit, net, events) && Gossip(gossip)
    ensures Recovering(admit, net, events + gossip)
  {
    var all := events + gossip;
    forall n: nat | n < |all| ensures RecoversAt(admit, net, all, n) {
      if n < |events| {
        assert all[..n] == events[..n] && all[n] == events[n];
        assert RecoversAt(admit, net, events, n);
      } else {
        assert all[n] == gossip[n - |events|];
      }
    }
  }

  /**
   Agreement stays within reach. Whatever happened to a network whose nodes have room and whose
   restarts set none back, and whatever was lost on the way, some finite gossip from there on
   leaves every node with exactly the newest acceptable value ever published at each address,
   if there are no ties.
   */
  lemma AgreementReachable(admit: Admission, net: Net, events: seq<Event>) returns (gossip: seq<Event>)
    requires Initial(net) && Fits(admit, net, NetRun(admit, net, events).published)
    requires Recovering(admit, net, events) && NoTies(admit, NetRun(admit, net, events).published)
    ensures Gossip(gossip)
    ensures var end := NetRun(admit, net, events + gossip);
            && end.published == NetRun(admit, net, events).published
            && forall j :: 0 <= j < |end.nodes| ==> HoldsExactlyNewest(admit, end, j)
  {
    NetRunKeepsCoherent(admit, net, events);
    gossip := QuiescenceReachable(admit, NetRun(admit, net, events));
    NetRunConcat(admit, net, events, gossip);
    GossipRecovers(admit, net, events, gossip);
    var end := NetRun(admit, net, events + gossip);
    forall j | 0 <= j < |end.nodes| ensures HoldsExactlyNewest(admit, end, j) {
      QuiescentNodesAgree(admit, net, events + gossip, j);
    }
  }

  // --- restarts ----------------------------------------------------------

  lemma TaughtIsCovered(admit: Admission, net: Net, i: nat, j: nat, k: Key)
    requires NetCoherent(admit, net) && Quiescent(admit, net) && Fits(admit, net, net.published)
    requires i < |net.nodes| && j < |net.nodes| && k in net.nodes[i].records
    ensures k in net.nodes[i].seqCache && k in net.nodes[j].records && k in net.nodes[j].seqCache
    ensures net.nodes[i].seqCache[k] <= net.nodes[j].seqCache[k]
  {
    var r := net.nodes[i].records[k];
    var own: Message := (r.key, r.value);
    assert own in net.published;
    assert Put(admit, net.nodes[j], r, true) == net.nodes[j];
    RoomForPublished(admit, net.nodes[j], net.published, own);
    PutCovers(admit, net.nodes[j], r, true, own);
  }

  lemma SeqsEqual(admit: Admission, net: Net, i: nat, j: nat)
    requires NetCoherent(admit, net) && Quiescent(admit, net) && Fits(admit, net, net.published)
    requires i < |net.nodes| && j < |net.nodes|
    ensures net.nodes[i].seqCache == net.nodes[j].seqCache
  {
    SeqsBelow(admit, net, i, j);
    SeqsBelow(admit, net, j, i);
    SameMaps(net.nodes[i].seqCache, net.nodes[j].seqCache);
  }

  ghost predicate Below(a: map<Key, u64>, b: map<Key, u64>)
  {
    forall k :: k in a ==> k in b && a[k] <= b[k]
  }

  lemma SeqsBelow(admit: Admission, net: Net, i: nat, j: nat)
    requires NetCoherent(admit, net) && Quiescent(admit, net) && Fits(admit, net, net.published)
    requires i < |net.nodes| && j < |net.nodes|
    ensures Below(net.nodes[i].seqCache, net.nodes[j].seqCache)
  {
    assert net.nodes[i].seqCache.Keys == net.nodes[i].records.Keys;
    forall k | k in net.nodes[i].records
      ensures k in net.nodes[j].seqCache && net.nodes[i].seqCache[k] <= net.nodes[j].seqCache[k] {
      TaughtIsCovered(admit, net, i, j, k);
    }
  }

  lemma SameMaps(a: map<Key, u64>, b: map<Key, u64>)
    requires Below(a, b) && Below(b, a)
    ensures a == b
  {
  }

  /**
   Whatever restarts lost, and ties or not: in a quiescent network whose nodes have room, all
   nodes hold the same addresses with the same sequence numbers.
   */
  lemma QuiescentSeqsEqual(admit: Admission, net: Net, events: seq<Event>, i: nat, j: nat)
    requires Initial(net) && Fits(admit, net, NetRun(admit, net, events).published)
    requires Quiescent(admit, NetRun(admit, net, events))
    requires i < |NetRun(admit, net, events).nodes| && j < |NetRun(admit, net, events).nodes|
    ensures NetRun(admit, net, events).nodes[i].seqCache == NetRun(admit, net, events).nodes[j].seqCache
  {
    var end := NetRun(admit, net, events);
    NetRunKeepsCoherent(admit, net, events);
    RunKeepsRoom(admit, net, events);
    SeqsEqual(admit, end, i, j);
  }

  /** Memory and disk of the store agree at every address. */
  ghost predicate CardsAgree(admit: Admission, st: Store)
  {
    st.disk.Some? && forall k :: AgreesAt(admit, st, k)
  }

  /** The event's write succeeds, and a restart can read the whole disk. */
  ghost predicate Durable(net: Net, e: Event)
  {
    match e
    case Publish(_, _, io) => io
    case Deliver(_, _, _, _, io) => io
    case Restart(i, cards, weights) => i < |net.nodes| ==> ListsDisk(net.nodes[i], cards, weights)
    case _ => true
  }

  ghost predicate DurableAt(admit: Admission, net: Net, events: seq<Event>, n: nat)
    requires n < |events|
  {
    Durable(NetRun(admit, net, events[..n]), events[n])
  }

  ghost predicate DurableRun(admit: Admission, net: Net, events: seq<Event>)
  {
    forall n: nat :: n < |events| ==> DurableAt(admit, net, events, n)
  }

  ghost predicate AllAgree(admit: Admission, net: Net)
  {
    forall i :: 0 <= i < |net.nodes| ==> CardsAgree(admit, net.nodes[i])
  }

  lemma PutAgrees(admit: Admission, st: Store, r: Record)
    requires Coherent(admit, st) && CardsAgree(admit, st)
    ensures CardsAgree(admit, Put(admit, st, r, true))
  {
    var st' := Put(admit, st, r, true);
    forall k ensures AgreesAt(admit, st', k) {
      assert Standing(admit, st, k, true);
      PutStanding(admit, st, r, true, k, true);
    }
  }

  /** A restart that reads the whole of an agreeing disk sets nothing back. */
  lemma RestartAgrees(admit: Admission, st: Store, cards: seq<DiskEntry>, weights: seq<DiskEntry>)
    requires Coherent(admit, st) && CardsAgree(admit, st) && ListsDisk(st, cards, weights)
    ensures Readable(st, cards, weights)
    ensures CardsAgree(admit, Restarted(admit, st, cards, weights)) && Keeps(st, Restarted(admit, st, cards, weights))
  {
    LoadIsLoaded(admit, st.maxRecords, st.disk.value, cards, weights);
    var st' := Restarted(admit, st, cards, weights);
    forall k ensures AgreesAt(admit, st', k) {
      assert AgreesAt(admit, st, k);
    }
    forall k | k in st.records && k in st.seqCache ensures KeepsAt(st, st', k) {
      assert AgreesAt(admit, st, k);
    }
  }

  lemma NextAgrees(admit: Admission, net: Net, e: Event)
    requires NetCoherent(admit, net) && AllAgree(admit, net) && Durable(net, e)
    ensures AllAgree(admit, Next(admit, net, e)) && Recovers(admit, net, e)
  {
    match e
    case Publish(i, r, io) =>
      if i < |net.nodes| { PutAgrees(admit, net.nodes[i], r); }
    case Deliver(i, m, p, x, io) =>
      if i < |net.nodes| { PutAgrees(admit, net.nodes[i], Record(m.0, m.1, p, x)); }
    case Restart(i, cards, weights) =>
      if i < |net.nodes| { RestartAgrees(admit, net.nodes[i], cards, weights); }
    case Forward(_, _) =>
    case Lose(_) =>
  }

  /** When every write succeeds and disks can be read, no restart sets its node back. */
  lemma {:induction false} DurableRunRecovers(admit: Admission, net: Net, events: seq<Event>)
    requires Initial(net) && AllAgree(admit, net) && DurableRun(admit, net, events)
    ensures Recovering(admit, net, events) && AllAgree(admit, NetRun(admit, net, events))
  {
    if events == [] {
    } else {
      var n := |events| - 1;
      var front := events[..n];
      forall m: nat | m < n ensures DurableAt(admit, net, front, m) {
        assert front[..m] == events[..m] && DurableAt(admit, net, events, m);
      }
      DurableRunRecovers(admit, net, front);
      NetRunKeepsCoherent(admit, net, front);
      assert DurableAt(admit, net, events, n);
      NextAgrees(admit, NetRun(admit, net, front), events[n]);
      forall m: nat | m < |events| ensures RecoversAt(admit, net, events, m) {
        if m < n { assert front[..m] == events[..m] && RecoversAt(admit, net, front, m); }
      }
    }
  }

  /**
   Crashes do not stand in the way of agreement: with writes that succeed and disks that can be
   read, nodes may restart at any time and as often as they like, and still some finite gossip
   leaves every node with exactly the newest acceptable value ever published at each address.
   */
  lemma AgreementSurvivesRestarts(admit: Admission, net: Net, events: seq<Event>) returns (gossip: seq<Event>)
    requires Initial(net) && AllAgree(admit, net) && DurableRun(admit, net, events)
    requires Fits(admit, net, NetRun(admit, net, events).published) && NoTies(admit, NetRun(admit, net, events).published)
    ensures Gossip(gossip)
    ensures var end := NetRun(admit, net, events + gossip);
            && end.published == NetRun(admit, net, events).published
            && forall j :: 0 <= j < |end.nodes| ==> HoldsExactlyNewest(admit, end, j)
  {
    DurableRunRecovers(admit, net, events);
    gossip := AgreementReachable(admit, net, events);
  }
}
