/**
 * Life of AF_XDP sockets, their UMEM and its memory when any remote call may fail (net-drv-ts/rss/common_rss.c).
 */
module XdpSocks {

  /** What a socket on the agent is bound to, and whether the fill ring of the UMEM had buffers for the queue then. */
  datatype Binding = Binding(umem: nat, queue: nat, fd: int, filled: bool)

  /** The live objects on the agent: memory, UMEMs over memory, and sockets over UMEMs. Handles are never zero. */
  datatype Ledger = Ledger(mems: set<nat>, umems: map<nat, nat>, socks: map<nat, Binding>)

  /** The socket structure; zero is the null handle. */
  datatype Sock = Sock(queueId: nat, txCapable: bool, mem: nat, umem: nat, sock: nat, fd: int)

  const SOCK_INIT: Sock := Sock(0, false, 0, 0, 0, -1)

  const OK: int := 0
  const EFAIL: int := 1
  const EINVAL: int := 22

  // ---------------------------------------------------------------- the agent

  class Agent {
    const rxChannels: int
    const txChannels: int
    const combinedChannels: int
    var mems: set<nat>
    var umems: map<nat, nat>
    var socks: map<nat, Binding>
    /** The queues for which buffers were put into the fill rings of UMEMs. */
    var filled: map<nat, nat>
    /** The XSK map of the XDP program: file descriptors by queue. */
    var xskMap: map<nat, int>
    /** The errors of the deletions that were refused. */
    ghost var refusals: seq<int>
    /** How many of the other calls failed. */
    ghost var faults: nat

    ghost function Live(): Ledger
      reads this
    {
      Ledger(mems, umems, socks)
    }

    method GetChannels(n: int) returns (rc: int, v: int)
      modifies this`faults
      ensures rc == OK ==> v == n
      ensures faults == old(faults) + if rc == OK then 0 else 1
    {
      if * {
        faults := faults + 1;
        return EFAIL, 0;
      }
      return OK, n;
    }

    method PosixMemalign() returns (rc: int, ptr: nat)
      modifies this`mems, this`faults
      ensures faults == old(faults) + if rc < 0 then 1 else 0
      ensures rc < 0 ==> ptr == 0 && mems == old(mems)
      ensures rc >= 0 ==> ptr != 0 && ptr !in old(mems) && mems == old(mems) + {ptr}
    {
      ptr := *;
      if ptr == 0 || ptr in mems {
        faults := faults + 1;
        return -1, 0;
      }
      mems := mems + {ptr};
      rc := 0;
    }

    method UmemCreate(mem: nat) returns (rc: int, ptr: nat)
      requires mem in mems
      modifies this`umems, this`filled, this`faults
      ensures faults == old(faults) + if rc < 0 then 1 else 0
      ensures rc < 0 ==> ptr == 0 && umems == old(umems)
      ensures rc >= 0 ==> ptr != 0 && ptr !in old(umems) && umems == old(umems)[ptr := mem] && ptr !in filled
    {
      ptr := *;
      if ptr == 0 || ptr in umems {
        faults := faults + 1;
        return -1, 0;
      }
      umems, filled := umems[ptr := mem], filled - {ptr};
      rc := 0;
    }

    /** Number of buffers put into the fill ring, or a failure; none at all counts as one. */
    method RxFillSimple(umem: nat, queue: nat) returns (rc: int)
      requires umem in umems
      modifies this`filled, this`faults
      ensures faults == old(faults) + if rc <= 0 then 1 else 0
      ensures filled == if rc <= 0 then old(filled) else old(filled)[umem := queue]
    {
      rc := *;
      if rc <= 0 {
        faults := faults + 1;
      } else {
        filled := filled[umem := queue];
      }
    }

    method SocketCreate(umem: nat, queue: nat) returns (rc: int, ptr: nat)
      requires umem in umems
      modifies this`socks, this`faults
      ensures faults == old(faults) + if rc < 0 then 1 else 0
      ensures rc < 0 ==> ptr == 0 && socks == old(socks)
      ensures rc >= 0 ==> ptr != 0 && ptr !in old(socks)
      ensures rc >= 0 ==> socks == old(socks)[ptr := Binding(umem, queue, rc, IsFilled(filled, umem, queue))]
    {
      rc, ptr := *, *;
      if rc < 0 || ptr == 0 || ptr in socks {
        faults := faults + 1;
        return -1, 0;
      }
      socks := socks[ptr := Binding(umem, queue, rc, IsFilled(filled, umem, queue))];
    }

    method MapSet(queue: nat, fd: int) returns (rc: int)
      modifies this`xskMap, this`faults
      ensures faults == old(faults) + if rc < 0 then 1 else 0
      ensures xskMap == if rc < 0 then old(xskMap) else old(xskMap)[queue := fd]
    {
      if * {
        faults := faults + 1;
        return -1;
      }
      xskMap := xskMap[queue := fd];
      rc := 0;
    }

    /** Only a live socket may be deleted. */
    method SocketDelete(s: nat) returns (rc: int, errno: int)
      requires s in socks
      modifies this`socks, this`refusals
      ensures socks == if rc < 0 then old(socks) else old(socks) - {s}
      ensures refusals == old(refusals) + if rc < 0 then [errno] else []
      ensures rc < 0 ==> errno != OK
    {
      errno := *;
      if errno != OK {
        refusals := refusals + [errno];
        return -1, errno;
      }
      socks := socks - {s};
      rc := 0;
    }

    /** Only a live UMEM may be deleted, and only when no socket uses it. */
    method UmemDelete(u: nat) returns (rc: int, errno: int)
      requires u in umems && forall s :: s in socks ==> socks[s].umem != u
      modifies this`umems, this`refusals
      ensures umems == if rc < 0 then old(umems) else old(umems) - {u}
      ensures refusals == old(refusals) + if rc < 0 then [errno] else []
      ensures rc < 0 ==> errno != OK
    {
      errno := *;
      if errno != OK {
        refusals := refusals + [errno];
        return -1, errno;
      }
      umems := umems - {u};
      rc := 0;
    }

    /** Only allocated memory may be freed, and only when no UMEM is over it. */
    method Free(m: nat)
      requires m in mems && forall u :: u in umems ==> umems[u] != m
      modifies this`mems
      ensures mems == old(mems) - {m}
    {
      mems := mems - {m};
    }
  }

  predicate IsFilled(filled: map<nat, nat>, umem: nat, queue: nat) {
    umem in filled && filled[umem] == queue
  }

  // ---------------------------------------------------------------- handles and live objects

  /**
   * The non-null handles of the structure are live objects of the agent, each built on the one before, and nothing
   * else is built on them.
   */
  ghost predicate Holds(l: Ledger, h: Sock) {
    && (h.sock != 0 ==> h.umem != 0) && (h.umem != 0 ==> h.mem != 0)
    && (h.mem != 0 ==> h.mem in l.mems && forall u :: u in l.umems && l.umems[u] == h.mem ==> u == h.umem)
    && (h.umem != 0 ==>
          && h.umem in l.umems && l.umems[h.umem] == h.mem
          && forall s :: s in l.socks && l.socks[s].umem == h.umem ==> s == h.sock)
    && (h.sock != 0 ==> h.sock in l.socks && l.socks[h.sock].umem == h.umem)
  }

  /** Every UMEM is over live memory and every socket over a live UMEM; the null handle is no object. */
  ghost predicate WellFounded(l: Ledger) {
    && 0 !in l.mems && 0 !in l.umems && 0 !in l.socks
    && (forall u :: u in l.umems ==> l.umems[u] in l.mems)
    && (forall s :: s in l.socks ==> l.socks[s].umem in l.umems)
  }

  /** The objects that do not belong to the structure. */
  ghost function Without(l: Ledger, h: Sock): Ledger {
    Ledger(l.mems - {h.mem}, l.umems - {h.umem}, l.socks - {h.sock})
  }

  predicate Empty(h: Sock) {
    h.mem == 0 && h.umem == 0 && h.sock == 0
  }

  lemma WithoutEmpty(l: Ledger, h: Sock)
    requires WellFounded(l) && Empty(h)
    ensures Without(l, h) == l
  {
  }

  /** The socket uses its own queue: it is bound to it with buffers to fill, and the XSK map points to it. */
  ghost predicate BoundTo(l: Ledger, xskMap: map<nat, int>, h: Sock, queue: nat) {
    && h.queueId == queue && h.mem != 0 && h.umem != 0 && h.sock != 0
    && h.sock in l.socks && l.socks[h.sock] == Binding(h.umem, queue, h.fd, true)
    && queue in xskMap && xskMap[queue] == h.fd
  }

  /** The numbers of channels make sense. */
  predicate ChannelsOk(agent: Agent) {
    agent.rxChannels >= 0 && agent.txChannels >= 0 && agent.combinedChannels >= 0
  }

  function RxQueues(agent: Agent): int {
    agent.rxChannels + agent.combinedChannels
  }

  function TxQueues(agent: Agent): int {
    agent.txChannels + agent.combinedChannels
  }

  method GetQueuesNum(agent: Agent) returns (rc: int, rxQueues: nat, txQueues: nat)
    modifies agent`faults
    ensures agent.faults >= old(agent.faults)
    ensures rc == OK <==> agent.faults == old(agent.faults) && ChannelsOk(agent)
    ensures rc == OK ==> rxQueues == RxQueues(agent) && txQueues == TxQueues(agent)
  {
    rxQueues, txQueues := 0, 0;
    var rx, tx, combined;
    rc, rx := agent.GetChannels(agent.rxChannels);
    if rc != OK { return; }
    rc, tx := agent.GetChannels(agent.txChannels);
    if rc != OK { return; }
    rc, combined := agent.GetChannels(agent.combinedChannels);
    if rc != OK { return; }
    if rx < 0 || tx < 0 || combined < 0 {
      rc := EINVAL;
      return;
    }
    rxQueues, txQueues := rx + combined, tx + combined;
  }

  /**
   * Releasing what the structure holds, top down. On a failure it still holds exactly what is left, so the call can
   * be repeated; the other objects of the agent are never touched.
   */
  method DestroySock(agent: Agent, sock: Sock) returns (rc: int, left: Sock)
    requires WellFounded(agent.Live()) && Holds(agent.Live(), sock)
    modifies agent`mems, agent`umems, agent`socks, agent`refusals
    ensures WellFounded(agent.Live()) && Holds(agent.Live(), left)
    ensures Without(agent.Live(), left) == Without(old(agent.Live()), sock)
    ensures old(agent.refusals) <= agent.refusals
    ensures agent.refusals == old(agent.refusals) + if rc == OK then [] else [rc]
    ensures rc == OK <==> Empty(left)
    ensures left == if left.sock == sock.sock then sock.(umem := left.umem, mem := left.mem)
                    else Sock(0, false, left.mem, left.umem, 0, -1)
    ensures left.mem in {0, sock.mem} && left.umem in {0, sock.umem} && left.sock in {0, sock.sock}
  {
    left := sock;
    if left.sock != 0 {
      var errno;
      rc, errno := agent.SocketDelete(left.sock);
      if rc < 0 { return errno, left; }
      left := left.(sock := 0, fd := -1, queueId := 0, txCapable := false);
    }
    if left.umem != 0 {
      var errno;
      rc, errno := agent.UmemDelete(left.umem);
      if rc < 0 { return errno, left; }
      left := left.(umem := 0);
    }
    if left.mem != 0 {
      agent.Free(left.mem);
      left := left.(mem := 0);
    }
    rc := OK;
  }

  lemma MemAdded(l: Ledger, h: Sock, m: nat)
    requires WellFounded(l) && Empty(h) && m != 0 && m !in l.mems
    ensures var l', h' := l.(mems := l.mems + {m}), h.(mem := m);
      WellFounded(l') && Holds(l', h') && Without(l', h') == l
  {
  }

  lemma UmemAdded(l: Ledger, h: Sock, u: nat)
    requires WellFounded(l) && Holds(l, h) && h.mem != 0 && h.umem == 0 && u != 0 && u !in l.umems
    ensures var l', h' := l.(umems := l.umems[u := h.mem]), h.(umem := u);
      WellFounded(l') && Holds(l', h') && Without(l', h') == Without(l, h)
  {
  }

  lemma SockAdded(l: Ledger, h: Sock, s: nat, b: Binding)
    requires WellFounded(l) && Holds(l, h) && h.umem != 0 && h.sock == 0 && s != 0 && s !in l.socks && b.umem == h.umem
    ensures var l', h' := l.(socks := l.socks[s := b]), h.(sock := s, fd := b.fd);
      WellFounded(l') && Holds(l', h') && Without(l', h') == Without(l, h)
  {
  }

  /** The steps of creating a socket, up to the first that fails. */
  method BuildSock(agent: Agent, queueId: nat, txCapable: bool) returns (success: bool, sock: Sock)
    requires WellFounded(agent.Live())
    modifies agent`mems, agent`umems, agent`socks, agent`filled, agent`xskMap, agent`faults
    ensures agent.faults == old(agent.faults) + if success then 0 else 1
    ensures WellFounded(agent.Live()) && Holds(agent.Live(), sock)
    ensures Without(agent.Live(), sock) == old(agent.Live())
    ensures success ==> BoundTo(agent.Live(), agent.xskMap, sock, queueId) && sock.txCapable == txCapable
    ensures forall q :: q != queueId ==>
      (q in agent.xskMap <==> q in old(agent.xskMap)) && (q in agent.xskMap ==> agent.xskMap[q] == old(agent.xskMap)[q])
  {
    success := false;
    sock := SOCK_INIT.(queueId := queueId, txCapable := txCapable);
    ghost var l := agent.Live();
    WithoutEmpty(l, sock);
    var rc, ptr;
    rc, ptr := agent.PosixMemalign();
    if rc < 0 { return; }
    MemAdded(l, sock, ptr);
    sock := sock.(mem := ptr);
    l := agent.Live();
    rc, ptr := agent.UmemCreate(sock.mem);
    if rc < 0 { return; }
    UmemAdded(l, sock, ptr);
    sock := sock.(umem := ptr);
    l := agent.Live();
    rc := agent.RxFillSimple(sock.umem, queueId);
    if rc <= 0 { return; }
    rc, ptr := agent.SocketCreate(sock.umem, queueId);
    if rc < 0 { return; }
    SockAdded(l, sock, ptr, Binding(sock.umem, queueId, rc, true));
    sock := sock.(sock := ptr, fd := rc);
    rc := agent.MapSet(queueId, sock.fd);
    if rc < 0 { return; }
    success := true;
  }

  /**
   * Creating a socket. Whatever fails, the live objects are the old ones and those the structure holds; a failure
   * leaves something behind only if a deletion was refused.
   */
  method CreateSock(agent: Agent, queueId: nat) returns (rc: int, sock: Sock)
    requires WellFounded(agent.Live())
    modifies agent
    ensures WellFounded(agent.Live()) && Holds(agent.Live(), sock)
    ensures Without(agent.Live(), sock) == old(agent.Live())
    ensures rc == OK ==> BoundTo(agent.Live(), agent.xskMap, sock, queueId)
    ensures agent.faults >= old(agent.faults)
    ensures rc == OK <==> agent.faults == old(agent.faults) && ChannelsOk(agent) && queueId < RxQueues(agent)
    ensures rc == OK ==> agent.refusals == old(agent.refusals)
    ensures rc == OK ==> (sock.txCapable <==> queueId < TxQueues(agent))
    ensures rc != OK ==> (Empty(sock) <==> agent.refusals == old(agent.refusals))
    ensures rc != OK && agent.refusals == old(agent.refusals) ==> agent.Live() == old(agent.Live())
    ensures old(agent.refusals) <= agent.refusals
    ensures forall q :: q != queueId ==>
      (q in agent.xskMap <==> q in old(agent.xskMap)) && (q in agent.xskMap ==> agent.xskMap[q] == old(agent.xskMap)[q])
  {
    sock := SOCK_INIT.(queueId := queueId);
    WithoutEmpty(agent.Live(), sock);
    var rxQueues, txQueues;
    rc, rxQueues, txQueues := GetQueuesNum(agent);
    if rc != OK { return; }
    if queueId >= rxQueues {
      rc := EINVAL;
      return;
    }
    var success;
    success, sock := BuildSock(agent, queueId, queueId < txQueues);
    if !success {
      rc, sock := DestroySock(agent, sock);
      if rc == OK {
        WithoutEmpty(agent.Live(), sock);
      }
      rc := EFAIL;
      return;
    }
    rc := OK;
  }

  // ---------------------------------------------------------------- many sockets

  /** The objects that belong to none of the structures. */
  ghost function WithoutAll(l: Ledger, hs: seq<Sock>): Ledger {
    Ledger(l.mems - (set h | h in hs :: h.mem), l.umems - (set h | h in hs :: h.umem),
           l.socks - (set h | h in hs :: h.sock))
  }

  predicate Apart(h: Sock, g: Sock) {
    (h.mem == 0 || h.mem != g.mem) && (h.umem == 0 || h.umem != g.umem) && (h.sock == 0 || h.sock != g.sock)
  }

  /** All the structures hold live objects, no two the same. */
  ghost predicate HoldAll(l: Ledger, hs: seq<Sock>) {
    && (forall i :: 0 <= i < |hs| ==> Holds(l, hs[i]))
    && (forall i, j :: 0 <= i < |hs| && 0 <= j < |hs| && i != j ==> Apart(hs[i], hs[j]))
  }

  /** What equal remainders say about single objects. */
  lemma SameRest(l: Ledger, l': Ledger, g: Sock, g': Sock)
    requires Without(l', g') == Without(l, g)
    ensures forall m :: m in l.mems && m != g.mem <==> m in l'.mems && m != g'.mem
    ensures forall u :: u in l.umems && u != g.umem <==> u in l'.umems && u != g'.umem
    ensures forall u :: u in l.umems && u != g.umem ==> u in l'.umems && l'.umems[u] == l.umems[u]
    ensures forall s :: s in l.socks && s != g.sock <==> s in l'.socks && s != g'.sock
    ensures forall s :: s in l.socks && s != g.sock ==> s in l'.socks && l'.socks[s] == l.socks[s]
  {
    var r, r' := Without(l, g), Without(l', g');
    assert forall m :: m in l.mems && m != g.mem <==> m in r.mems;
    assert forall m :: m in l'.mems && m != g'.mem <==> m in r'.mems;
    assert forall u :: u in l.umems && u != g.umem <==> u in r.umems;
    assert forall u :: u in l'.umems && u != g'.umem <==> u in r'.umems;
    assert forall u :: u in r.umems ==> r.umems[u] == l.umems[u] == l'.umems[u];
    assert forall s :: s in l.socks && s != g.sock <==> s in r.socks;
    assert forall s :: s in l'.socks && s != g'.sock <==> s in r'.socks;
    assert forall s :: s in r.socks ==> r.socks[s] == l.socks[s] == l'.socks[s];
  }

  /** New objects do not disturb the structures there are. */
  lemma HoldsGrows(l: Ledger, l': Ledger, h: Sock, g: Sock)
    requires WellFounded(l) && WellFounded(l') && Without(l', g) == l && Holds(l', g) && Holds(l, h)
    ensures Holds(l', h) && Apart(h, g) && Apart(g, h)
  {
    WithoutEmpty(l, SOCK_INIT);
    SameRest(l, l', SOCK_INIT, g);
  }

  /** Releasing one structure does not disturb the others. */
  lemma HoldsShrinks(l: Ledger, l': Ledger, h: Sock, g: Sock, g': Sock)
    requires WellFounded(l) && WellFounded(l') && Holds(l, h) && Holds(l, g) && Apart(h, g)
    requires Without(l', g') == Without(l, g) && Holds(l', g')
    requires g'.mem in {0, g.mem} && g'.umem in {0, g.umem} && g'.sock in {0, g.sock}
    ensures Holds(l', h) && Apart(h, g') && (Apart(g, h) ==> Apart(g', h))
  {
    SameRest(l, l', g, g');
  }

  lemma ReplaceHolder(l: Ledger, l': Ledger, hs: seq<Sock>, i: nat, g': Sock)
    requires i < |hs| && WellFounded(l) && WellFounded(l') && HoldAll(l, hs) && Holds(l', g')
    requires Without(l', g') == Without(l, hs[i])
    requires g'.mem in {0, hs[i].mem} && g'.umem in {0, hs[i].umem} && g'.sock in {0, hs[i].sock}
    ensures HoldAll(l', hs[i := g']) && WithoutAll(l', hs[i := g']) == WithoutAll(l, hs)
  {
    var hs', g := hs[i := g'], hs[i];
    forall j | 0 <= j < |hs| && j != i ensures Holds(l', hs[j]) && Apart(hs[j], g') && Apart(g', hs[j]) {
      HoldsShrinks(l, l', hs[j], g, g');
    }
    OthersSame(l, l', hs, i, g');
  }

  /** The structures but one. */
  ghost function Others(hs: seq<Sock>, i: nat): set<Sock>
    requires i < |hs|
  {
    set j | 0 <= j < |hs| && j != i :: hs[j]
  }

  lemma Members(hs: seq<Sock>, i: nat, g: Sock)
    requires i < |hs|
    ensures forall h :: h in hs[i := g] <==> h == g || h in Others(hs, i)
  {
    var hs' := hs[i := g];
    assert hs'[i] == g;
    forall h ensures h in hs' <==> h == g || h in Others(hs, i) {
      if h in hs' {
        var j :| 0 <= j < |hs'| && hs'[j] == h;
        assert j != i ==> hs[j] in Others(hs, i);
      }
      if h in Others(hs, i) {
        var j :| 0 <= j < |hs| && j != i && hs[j] == h;
        assert hs'[j] == h;
      }
    }
  }

  /** Removing the objects of all structures is removing those of one and then those of the others. */
  lemma OneAndOthers(l: Ledger, hs: seq<Sock>, i: nat, g: Sock)
    requires i < |hs|
    ensures var r, o := Without(l, g), Others(hs, i);
      WithoutAll(l, hs[i := g]) == Ledger(r.mems - (set h | h in o :: h.mem), r.umems - (set h | h in o :: h.umem),
                                          r.socks - (set h | h in o :: h.sock))
  {
    var hs', o := hs[i := g], Others(hs, i);
    Members(hs, i, g);
    assert (set h | h in hs' :: h.mem) == (set h | h in o :: h.mem) + {g.mem};
    assert (set h | h in hs' :: h.umem) == (set h | h in o :: h.umem) + {g.umem};
    assert (set h | h in hs' :: h.sock) == (set h | h in o :: h.sock) + {g.sock};
    RemoveTwice(l.umems, set h | h in o :: h.umem, g.umem);
    RemoveTwice(l.socks, set h | h in o :: h.sock, g.sock);
  }

  lemma RemoveTwice<T>(m: map<nat, T>, s: set<nat>, x: nat)
    ensures m - (s + {x}) == m - {x} - s
  {
  }

  lemma OthersSame(l: Ledger, l': Ledger, hs: seq<Sock>, i: nat, g': Sock)
    requires i < |hs| && Without(l', g') == Without(l, hs[i])
    ensures WithoutAll(l', hs[i := g']) == WithoutAll(l, hs)
  {
    OneAndOthers(l, hs, i, hs[i]);
    OneAndOthers(l', hs, i, g');
    assert hs[i := hs[i]] == hs;
  }

  /** A structure that held nothing takes new objects. */
  lemma FillHolder(l: Ledger, l': Ledger, hs: seq<Sock>, i: nat, g: Sock)
    requires i < |hs| && WellFounded(l) && WellFounded(l') && HoldAll(l, hs) && Empty(hs[i])
    requires Without(l', g) == l && Holds(l', g)
    ensures HoldAll(l', hs[i := g]) && WithoutAll(l', hs[i := g]) == WithoutAll(l, hs)
  {
    forall j | 0 <= j < |hs| && j != i ensures Holds(l', hs[j]) && Apart(hs[j], g) && Apart(g, hs[j]) {
      HoldsGrows(l, l', hs[j], g);
    }
    WithoutEmpty(l, hs[i]);
    OthersSame(l, l', hs, i, g);
  }

  lemma BoundGrows(l: Ledger, l': Ledger, xskMap: map<nat, int>, xskMap': map<nat, int>, h: Sock, g: Sock, queue: nat)
    requires Without(l', g) == l && BoundTo(l, xskMap, h, queue)
    requires queue in xskMap' && xskMap'[queue] == xskMap[queue]
    ensures BoundTo(l', xskMap', h, queue)
  {
    assert h.sock in Without(l', g).socks;
  }

  lemma AllEmpty(l: Ledger, hs: seq<Sock>)
    requires WellFounded(l) && forall i :: 0 <= i < |hs| ==> Empty(hs[i])
    ensures WithoutAll(l, hs) == l
  {
    forall h | h in hs ensures Empty(h) {
      var i :| 0 <= i < |hs| && hs[i] == h;
    }
  }

  /** The first error that was added to a list, if any. */
  function FirstNew(before: seq<int>, after: seq<int>): int {
    if |before| < |after| then after[|before|] else OK
  }

  /** As long as one structure is not empty there are objects beyond those of nobody. */
  lemma SomeLeft(l: Ledger, hs: seq<Sock>, i: nat)
    requires i < |hs| && HoldAll(l, hs) && !Empty(hs[i])
    ensures WithoutAll(l, hs) != l
  {
    assert Holds(l, hs[i]);
    assert hs[i].mem in l.mems && hs[i] in hs;
    assert hs[i].mem !in WithoutAll(l, hs).mems;
  }

  /**
   * Releasing the first num structures of an array, going on after a failure and reporting the first. If no deletion
   * is refused all of them end up empty, otherwise not.
   */
  method DestroyFirst(agent: Agent, socks: array<Sock>, num: nat) returns (res: int)
    requires num <= socks.Length && WellFounded(agent.Live()) && HoldAll(agent.Live(), socks[..])
    modifies agent`mems, agent`umems, agent`socks, agent`refusals, socks
    ensures WellFounded(agent.Live()) && HoldAll(agent.Live(), socks[..])
    ensures WithoutAll(agent.Live(), socks[..]) == WithoutAll(old(agent.Live()), old(socks[..]))
    ensures old(agent.refusals) <= agent.refusals
    ensures res == FirstNew(old(agent.refusals), agent.refusals)
    ensures res == OK <==> agent.refusals == old(agent.refusals)
    ensures res == OK <==> forall i :: 0 <= i < num ==> Empty(socks[i])
    ensures forall i :: num <= i < socks.Length ==> socks[i] == old(socks[i])
  {
    res := OK;
    ghost var bad: nat := 0;
    for i := 0 to num
      invariant WellFounded(agent.Live()) && HoldAll(agent.Live(), socks[..])
      invariant WithoutAll(agent.Live(), socks[..]) == WithoutAll(old(agent.Live()), old(socks[..]))
      invariant old(agent.refusals) <= agent.refusals
      invariant res == FirstNew(old(agent.refusals), agent.refusals)
      invariant res == OK <==> agent.refusals == old(agent.refusals)
      invariant res == OK ==> forall j :: 0 <= j < i ==> Empty(socks[j])
      invariant res != OK ==> bad < i && !Empty(socks[bad])
      invariant forall j :: i <= j < socks.Length ==> socks[j] == old(socks[j])
    {
      ghost var l, hs := agent.Live(), socks[..];
      assert Holds(l, hs[i]);
      var rc, left := DestroySock(agent, socks[i]);
      ReplaceHolder(l, agent.Live(), hs, i, left);
      socks[i] := left;
      assert socks[..] == hs[i := left];
      if res == OK {
        res, bad := rc, i;
      }
    }
  }

  /** The sockets before number n are bound to their queues, the structures from there on are empty. */
  ghost predicate Filled(l: Ledger, xskMap: map<nat, int>, hs: seq<Sock>, n: nat) {
    && n <= |hs| && HoldAll(l, hs)
    && (forall j :: 0 <= j < n ==> BoundTo(l, xskMap, hs[j], j))
    && (forall j :: n <= j < |hs| ==> Empty(hs[j]))
  }

  /** Creating socket number i of an array; a failure leaves it empty unless a deletion was refused. */
  method CreateNext(agent: Agent, socks: array<Sock>, i: nat) returns (rc: int)
    requires i < socks.Length && WellFounded(agent.Live()) && Filled(agent.Live(), agent.xskMap, socks[..], i)
    modifies agent, socks
    ensures WellFounded(agent.Live()) && HoldAll(agent.Live(), socks[..])
    ensures WithoutAll(agent.Live(), socks[..]) == WithoutAll(old(agent.Live()), old(socks[..]))
    ensures agent.faults >= old(agent.faults) && old(agent.refusals) <= agent.refusals
    ensures rc == OK <==> agent.faults == old(agent.faults) && ChannelsOk(agent) && i < RxQueues(agent)
    ensures rc == OK ==> agent.refusals == old(agent.refusals)
    ensures rc == OK ==> Filled(agent.Live(), agent.xskMap, socks[..], i + 1)
    ensures forall j :: i < j < socks.Length ==> Empty(socks[j])
    ensures rc != OK ==> (Empty(socks[i]) <==> agent.refusals == old(agent.refusals))
  {
    ghost var l, hs, xskMap := agent.Live(), socks[..], agent.xskMap;
    var sock;
    rc, sock := CreateSock(agent, i);
    FillHolder(l, agent.Live(), hs, i, sock);
    socks[i] := sock;
    assert socks[..] == hs[i := sock];
    forall j | 0 <= j < i && rc == OK ensures BoundTo(agent.Live(), agent.xskMap, socks[j], j) {
      assert BoundTo(l, xskMap, hs[j], j);
      BoundGrows(l, agent.Live(), xskMap, agent.xskMap, hs[j], sock, j);
    }
  }

  /**
   * Creating sockets for queues 0 to num - 1. It succeeds exactly when no call fails and there are as many
   * queues. On success socket i is bound to queue i and entry i of the XSK map is its
   * file descriptor. On failure no object is left behind if and only if no deletion was refused.
   */
  method CreateSocks(agent: Agent, num: nat) returns (success: bool, socks: array<Sock>)
    requires WellFounded(agent.Live())
    modifies agent
    ensures WellFounded(agent.Live()) && fresh(socks)
    ensures success <==>
      agent.faults == old(agent.faults) && (num == 0 || (ChannelsOk(agent) && num <= RxQueues(agent)))
    ensures success ==> socks.Length == num && Filled(agent.Live(), agent.xskMap, socks[..], num)
    ensures success ==> WithoutAll(agent.Live(), socks[..]) == old(agent.Live())
    ensures !success ==> (agent.Live() == old(agent.Live()) <==> agent.refusals == old(agent.refusals))
  {
    socks := new Sock[num](_ => Sock(0, false, 0, 0, 0, 0));
    success := true;
    AllEmpty(agent.Live(), socks[..]);
    var i := 0;
    while i < num
      invariant 0 <= i <= num
      invariant WellFounded(agent.Live()) && Filled(agent.Live(), agent.xskMap, socks[..], i)
      invariant WithoutAll(agent.Live(), socks[..]) == old(agent.Live())
      invariant agent.refusals == old(agent.refusals) && agent.faults == old(agent.faults) && success
      invariant i > 0 ==> ChannelsOk(agent) && i <= RxQueues(agent)
    {
      var rc := CreateNext(agent, socks, i);
      if rc != OK {
        success := false;
        break;
      }
      i := i + 1;
    }
    if !success {
      ghost var refusals := agent.refusals;
      var res := DestroyFirst(agent, socks, i);
      if agent.refusals == old(agent.refusals) {
        AllEmpty(agent.Live(), socks[..]);
      } else if refusals != old(agent.refusals) {
        SomeLeft(agent.Live(), socks[..], i);
      } else {
        var j :| 0 <= j < i && !Empty(socks[j]);
        SomeLeft(agent.Live(), socks[..], j);
      }
    }
  }

  /** Releasing all sockets of an array; nothing of theirs is left if and only if no deletion is refused. */
  method DestroySocks(agent: Agent, socks: array<Sock>) returns (res: int)
    requires WellFounded(agent.Live()) && HoldAll(agent.Live(), socks[..])
    modifies agent`mems, agent`umems, agent`socks, agent`refusals, socks
    ensures WellFounded(agent.Live()) && HoldAll(agent.Live(), socks[..])
    ensures WithoutAll(agent.Live(), socks[..]) == WithoutAll(old(agent.Live()), old(socks[..]))
    ensures res == FirstNew(old(agent.refusals), agent.refusals)
    ensures res == OK <==> agent.Live() == WithoutAll(old(agent.Live()), old(socks[..]))
  {
    res := DestroyFirst(agent, socks, socks.Length);
    if res == OK {
      AllEmpty(agent.Live(), socks[..]);
    } else {
      var j :| 0 <= j < socks.Length && !Empty(socks[j]);
      SomeLeft(agent.Live(), socks[..], j);
    }
  }
}
