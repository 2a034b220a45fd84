/** Which connections a daemon with a pool of workers takes: its own limit, each worker's and each address's. */
module Admission {
  import opened Common

  // ---------------------------------------------------------------------------------------------
  // Dividing the limit among the workers.

  ghost function Sum(s: seq<nat>): nat {
    if s == [] then 0 else Sum(s[..|s| - 1]) + s[|s| - 1]
  }

  /** The limit of each worker: an equal share, and one more for the first leftover workers. */
  method DivideLimit(limit: nat, workers: nat) returns (limits: seq<nat>)
    requires workers > 0
    ensures |limits| == workers && Sum(limits) == limit
    ensures forall i, j :: 0 <= i < j < workers ==> limits[j] <= limits[i] <= limits[j] + 1
  {
    var share, leftover := limit / workers, limit % workers;
    limits := [];
    var i := 0;
    while i < workers
      invariant i == |limits| <= workers && Shares(limits, share, leftover)
    {
      var own := share;
      if i < leftover { own := own + 1; }
      limits := limits + [own];
      i := i + 1;
    }
    SharesAddUp(limit, workers);
  }

  /** The first shares, and what they add up to. */
  ghost predicate Shares(limits: seq<nat>, share: nat, leftover: nat) {
    && Sum(limits) == Times(share, |limits|) + (if |limits| < leftover then |limits| else leftover)
    && forall k :: 0 <= k < |limits| ==> limits[k] == if k < leftover then share + 1 else share
  }

  lemma SharesAddUp(limit: nat, workers: nat)
    requires workers > 0
    ensures Times(limit / workers, workers) + limit % workers == limit && limit % workers < workers
  {
    TimesIs(limit / workers, workers);
  }

  ghost function Times(share: nat, n: nat): nat {
    if n == 0 then 0 else Times(share, n - 1) + share
  }

  lemma TimesIs(share: nat, n: nat)
    ensures Times(share, n) == share * n
  {
  }

  // ---------------------------------------------------------------------------------------------
  // The order in which the workers are asked.

  /** The worker asked at one step: the sum wraps around before the remainder is taken. */
  function Asked(step: nat, socket: nat, workers: nat): nat
    requires workers > 0
  {
    (step + socket) % UINT_MODULUS % workers
  }

  ghost predicate EveryoneAsked(socket: nat, workers: nat)
    requires workers > 0
  {
    forall w: nat :: w < workers ==> IsAsked(w, socket, workers)
  }

  ghost predicate IsAsked(w: nat, socket: nat, workers: nat)
    requires workers > 0
  {
    exists step: nat :: step < workers && Asked(step, socket, workers) == w
  }

  lemma Multiples(d: int, n: nat)
    ensures (d >= 1 ==> d * n >= n) && (d <= -1 ==> d * n <= -(n as int))
  {
  }

  lemma ModuloIs(a: nat, n: nat, q: int, r: nat)
    requires n > 0 && a == q * n + r && r < n
    ensures a % n == r
  {
    var d := a / n - q;
    assert d * n == (a / n) * n - q * n;
    Multiples(d, n);
  }

  /** Some number in any window of n consecutive ones has a given remainder. */
  lemma InWindow(from: nat, n: nat, w: nat) returns (k: nat)
    requires n > 0 && w < n
    ensures k < n && (from + k) % n == w
  {
    var r := from % n;
    assert from == (from / n) * n + r;
    if w >= r {
      k := w - r;
      ModuloIs(from + k, n, from / n, w);
    } else {
      k := w + n - r;
      ModuloIs(from + k, n, from / n + 1, w);
    }
  }

  /** Every worker is asked unless the sum wraps around at a point that is not a multiple of their number. */
  lemma EveryoneAskedIff(socket: nat, workers: nat)
    requires 0 < workers < UINT_MODULUS && socket < UINT_MODULUS
    ensures EveryoneAsked(socket, workers) <==> socket + workers <= UINT_MODULUS || UINT_MODULUS % workers == 0
  {
    if socket + workers <= UINT_MODULUS || UINT_MODULUS % workers == 0 {
      forall w: nat | w < workers ensures IsAsked(w, socket, workers) {
        var k := InWindow(socket, workers, w);
        WrapKeepsRemainder(k + socket, workers);
        assert Asked(k, socket, workers) == w;
      }
    } else {
      SomeoneMissed(socket, workers);
    }
  }

  lemma WrapKeepsRemainder(a: nat, n: nat)
    requires 0 < n && a < 2 * UINT_MODULUS && (a < UINT_MODULUS || UINT_MODULUS % n == 0)
    ensures a % UINT_MODULUS % n == a % n
  {
    if a >= UINT_MODULUS {
      var b, q := a - UINT_MODULUS, UINT_MODULUS / n;
      assert a % UINT_MODULUS == b;
      assert UINT_MODULUS == q * n;
      assert a == (q + b / n) * n + b % n;
      ModuloIs(a, n, q + b / n, b % n);
    }
  }

  /** Who is asked at a step: counting up from 0 after the wrap, down from the remainder before it. */
  lemma AskedAt(step: nat, socket: nat, n: nat, q: nat, r: nat)
    requires 0 < n < UINT_MODULUS && socket < UINT_MODULUS && step < n && socket + n > UINT_MODULUS
    requires UINT_MODULUS == q * n + r && r < n
    ensures var back := UINT_MODULUS - socket - step;
      Asked(step, socket, n) == if back <= 0 then -back else if back <= r then r - back else n + r - back
  {
    var back := UINT_MODULUS - socket - step;
    if back <= 0 {
      Wraps(UINT_MODULUS - back, -back, n);
    } else {
      var a: nat := UINT_MODULUS - back;
      if back <= r { ModuloIs(a, n, q, r - back); } else { OneLess(q, n); ModuloIs(a, n, q - 1, n + r - back); }
    }
  }

  lemma Wraps(a: nat, b: nat, n: nat)
    requires a == UINT_MODULUS + b && b < n < UINT_MODULUS
    ensures a % UINT_MODULUS % n == b
  {
    ModuloIs(a, UINT_MODULUS, 1, b);
    ModuloIs(b, n, 0, b);
  }

  lemma OneLess(q: int, n: int)
    ensures (q - 1) * n == q * n - n
  {
  }

  lemma SomeoneMissed(socket: nat, workers: nat)
    requires 0 < workers < UINT_MODULUS && socket < UINT_MODULUS
    requires socket + workers > UINT_MODULUS && UINT_MODULUS % workers != 0
    ensures !EveryoneAsked(socket, workers)
  {
    var n := workers;
    var before := UINT_MODULUS - socket;
    var after := n - before;
    var r, q := UINT_MODULUS % n, UINT_MODULUS / n;
    assert UINT_MODULUS == q * n + r;
    var missed := if before <= r then n - 1 else if after > r then after else r;
    forall step: nat | step < n ensures Asked(step, socket, n) != missed {
      AskedAt(step, socket, n, q, r);
    }
    assert missed < workers && !IsAsked(missed, socket, workers);
  }

  /** Sockets are numbers of an int that are not negative. */
  const SOCKET_BOUND: nat := 0x8000_0000

  /** A daemon starts with this many workers: their array must not exceed an unsigned number of bytes. */
  predicate PoolAllowed(workers: nat, sizeofDaemon: nat)
    requires sizeofDaemon > 0
  {
    workers < (UINT_MODULUS - 1) / sizeofDaemon
  }

  /** The worker that is k places behind the one that the socket's number falls on. */
  function Turn(socket: nat, k: nat, workers: nat): (w: nat)
    requires workers > 0
    ensures w < workers
  {
    (socket + k) % workers
  }

  lemma AskedIsTurn(step: nat, socket: nat, workers: nat)
    requires workers > 0 && step + socket < UINT_MODULUS
    ensures Asked(step, socket, workers) == Turn(socket, step, workers)
  {
    ModuloIs(step + socket, UINT_MODULUS, 0, step + socket);
  }

  lemma HalfOf(n: nat, d: nat)
    requires d >= 2
    ensures 2 * (n / d) <= n
  {
    var q := n / d;
    assert n == q * d + n % d;
    assert q * d == q * 2 + q * (d - 2);
    Multiples(q, d - 2);
  }

  /** So the sum never wraps around in a daemon that runs: every worker is asked. */
  lemma EveryoneIsAsked(socket: nat, workers: nat, sizeofDaemon: nat)
    requires socket < SOCKET_BOUND && sizeofDaemon >= 2
    requires workers == 1 || (0 < workers && PoolAllowed(workers, sizeofDaemon))
    ensures EveryoneAsked(socket, workers)
  {
    EveryoneAskedIff(socket, workers);
  }

  // ---------------------------------------------------------------------------------------------
  // Addresses.

  const SIZEOF_SOCKADDR_IN: nat := 16
  const SIZEOF_SOCKADDR_IN6: nat := 28

  datatype SockAddr = SockAddr(length: nat, in4: nat, in6: nat)
  datatype Key = Inet(in4: nat) | Inet6(in6: nat)

  /** Only the length tells the family. */
  function AddrToKey(a: SockAddr): Option<Key> {
    if a.length == SIZEOF_SOCKADDR_IN then Some(Inet(a.in4))
    else if a.length == SIZEOF_SOCKADDR_IN6 then Some(Inet6(a.in6))
    else None
  }

  /** The addresses that are counted, with multiplicity. */
  ghost function KeysOf(a: SockAddr): multiset<Key> {
    match AddrToKey(a) case None => multiset{} case Some(k) => multiset{k}
  }

  ghost function KeysOn(s: seq<SockAddr>): multiset<Key> {
    if s == [] then multiset{} else KeysOf(s[0]) + KeysOn(s[1..])
  }

  ghost function Keys(live: seq<seq<SockAddr>>): multiset<Key> {
    if live == [] then multiset{} else KeysOn(live[0]) + Keys(live[1..])
  }

  // Connections from the same address.

  predicate HasIp(a: SockAddr) { a.length == SIZEOF_SOCKADDR_IN || a.length == SIZEOF_SOCKADDR_IN6 }

  /** Both are version 4, or both are version 6, and the address is the same; ports do not matter. */
  predicate SameIp(a: SockAddr, b: SockAddr) {
    || (a.length == b.length == SIZEOF_SOCKADDR_IN && a.in4 == b.in4)
    || (a.length == b.length == SIZEOF_SOCKADDR_IN6 && a.in6 == b.in6)
  }

  ghost function PeersOn(s: seq<SockAddr>, a: SockAddr): nat {
    if s == [] then 0 else (if SameIp(s[0], a) then 1 else 0) + PeersOn(s[1..], a)
  }

  /** How many connections of all workers come from the address. */
  ghost function Peers(live: seq<seq<SockAddr>>, a: SockAddr): nat {
    if live == [] then 0 else PeersOn(live[0], a) + Peers(live[1..], a)
  }

  /** Two addresses are counted together exactly if they are the same. */
  lemma KeysApart(a: SockAddr, b: SockAddr)
    requires HasIp(a)
    ensures AddrToKey(a).Some? && KeysOf(a) == multiset{AddrToKey(a).value}
    ensures KeysOf(b)[AddrToKey(a).value] == if SameIp(b, a) then 1 else 0
  {
  }

  lemma {:induction false} KeysOnCount(s: seq<SockAddr>, a: SockAddr)
    requires HasIp(a)
    ensures AddrToKey(a).Some? && KeysOn(s)[AddrToKey(a).value] == PeersOn(s, a)
  {
    if s != [] {
      KeysApart(a, s[0]);
      KeysOnCount(s[1..], a);
    }
  }

  /** What is counted for an address is the connections from it. */
  lemma {:induction false} KeysCount(live: seq<seq<SockAddr>>, a: SockAddr)
    requires HasIp(a)
    ensures AddrToKey(a).Some? && Keys(live)[AddrToKey(a).value] == Peers(live, a)
  {
    if live != [] {
      KeysOnCount(live[0], a);
      KeysCount(live[1..], a);
    }
  }

  lemma {:induction false} KeysOnWithout(s: seq<SockAddr>, i: nat, k: Key)
    requires i < |s|
    ensures KeysOn(s)[k] == KeysOn(s[..i] + s[i + 1..])[k] + KeysOf(s[i])[k]
  {
    var t := s[..i] + s[i + 1..];
    if i == 0 {
      assert t == s[1..];
    } else {
      KeysOnWithout(s[1..], i - 1, k);
      WithoutBehind(s, i);
    }
  }

  lemma WithoutBehind(s: seq<SockAddr>, i: nat)
    requires 0 < i < |s|
    ensures s[..i] + s[i + 1..] == [s[0]] + (s[1..][..i - 1] + s[1..][i..])
    ensures KeysOn(s[..i] + s[i + 1..]) == KeysOf(s[0]) + KeysOn(s[1..][..i - 1] + s[1..][i..])
  {
    var t := s[..i] + s[i + 1..];
    assert t[1..] == s[1..][..i - 1] + s[1..][i..];
  }

  lemma {:induction false} KeysChanged(live: seq<seq<SockAddr>>, w: nat, s: seq<SockAddr>, k: Key)
    requires w < |live|
    ensures Keys(live[w := s])[k] + KeysOn(live[w])[k] == Keys(live)[k] + KeysOn(s)[k]
  {
    var t := live[w := s];
    assert Keys(t)[k] == KeysOn(t[0])[k] + Keys(t[1..])[k];
    if w == 0 {
      assert t[1..] == live[1..];
    } else {
      KeysChanged(live[1..], w - 1, s, k);
      assert t[1..] == live[1..][w - 1 := s];
    }
  }

  // ---------------------------------------------------------------------------------------------
  // The count of each address, kept by the master daemon.

  class IpLimits {
    const limit: nat
    var counts: map<Key, nat>

    constructor (limit: nat)
      ensures this.limit == limit && Matches(multiset{})
    {
      this.limit := limit;
      counts := map[];
    }

    /** With a limit set, the stored counts are those of the live connections, each within 1 .. limit. */
    ghost predicate Matches(live: multiset<Key>)
      reads this
    {
      if limit == 0 then counts == map[] else
        && (forall k :: k in counts ==> 1 <= counts[k] <= limit && counts[k] == live[k])
        && (forall k :: k in live ==> k in counts)
    }

    method Add(addr: SockAddr, memory: bool, ghost live: multiset<Key>) returns (ok: bool)
      requires Matches(live)
      modifies this
      ensures Matches(if ok then live + KeysOf(addr) else live)
      ensures limit == 0 ==> ok
      ensures limit > 0 ==> (ok <==> memory && forall k :: k in KeysOf(addr) ==> live[k] < limit)
    {
      if limit == 0 { return true; }
      if !memory { return false; }
      var key := AddrToKey(addr);
      if key == None { return true; }
      var k := key.value;
      // tsearch: find the node or insert one with count 0.
      var count := if k in counts then counts[k] else 0;
      ok := count < limit;
      if ok { count := count + 1; }
      counts := counts[k := count];
    }

    /** Neither panic branch is taken for an address that was added and not yet deleted. */
    method Del(addr: SockAddr, ghost live: multiset<Key>) returns (panicked: bool)
      requires Matches(live + KeysOf(addr))
      modifies this
      ensures Matches(live) && !panicked
    {
      if limit == 0 { return false; }
      var key := AddrToKey(addr);
      if key == None { return false; }
      var k := key.value;
      if k !in counts { return true; }
      if counts[k] == 0 { return true; }
      counts := counts[k := counts[k] - 1];
      if counts[k] == 0 { counts := map j | j in counts && j != k :: counts[j]; }
      panicked := false;
    }
  }

  // ---------------------------------------------------------------------------------------------
  // Starting a daemon.

  /** The sockets that select() can watch. */
  const FD_SETSIZE: nat := 1024

  /** A pool that is too big is refused. */
  method StartDaemon(limit: nat, poolSize: nat, perIp: nat, selects: bool, sizeofDaemon: nat) returns (d: Server?)
    requires sizeofDaemon >= 2
    ensures d == null <==> !PoolAllowed(poolSize, sizeofDaemon)
    ensures d != null ==>
      (fresh(d) && fresh(d.limits) && d.Valid() && d.connectionLimit == limit && d.limits.limit == perIp)
    ensures d != null ==> |d.workerLimits| == if poolSize > 0 then poolSize else 1
  {
    if poolSize >= (UINT_MODULUS - 1) / sizeofDaemon { return null; }
    d := new Server(limit, poolSize, perIp, selects, sizeofDaemon);
  }

  // ---------------------------------------------------------------------------------------------
  // The daemon and its workers; a daemon without a pool is its own only worker.

  class Server {
    const connectionLimit: nat
    const workerLimits: seq<nat>
    const limits: IpLimits
    /** Does it use select(), which cannot watch sockets from FD_SETSIZE on? */
    const selects: bool
    /** How many bytes the record of a daemon takes. */
    const sizeofDaemon: nat
    /** The addresses of the connections of each worker that are not yet freed, the newest first. */
    var live: seq<seq<SockAddr>>

    constructor (limit: nat, poolSize: nat, perIp: nat, selects: bool, sizeofDaemon: nat)
      requires sizeofDaemon >= 2 && PoolAllowed(poolSize, sizeofDaemon)
      ensures Valid() && connectionLimit == limit && limits.limit == perIp && fresh(limits) && this.selects == selects
      ensures |workerLimits| == if poolSize > 0 then poolSize else 1
      ensures forall w :: 0 <= w < |live| ==> live[w] == []
    {
      connectionLimit := limit;
      this.selects, this.sizeofDaemon := selects, sizeofDaemon;
      var shares := [limit];
      if poolSize > 0 {
        shares := DivideLimit(limit, poolSize);
      } else {
        assert shares[..0] == [] && Sum(shares[..0]) == 0;
      }
      workerLimits := shares;
      limits := new IpLimits(perIp);
      live := seq(|shares|, _ => []);
      new;
      NoKeys(live);
    }

    /** No worker is over its limit, the limits add up, and every address is counted over all workers. */
    ghost predicate Valid()
      reads this, limits
    {
      && |live| == |workerLimits| && Sum(workerLimits) == connectionLimit
      && sizeofDaemon >= 2 && (|live| == 1 || (0 < |live| && PoolAllowed(|live|, sizeofDaemon)))
      && (forall w :: 0 <= w < |live| ==> |live[w]| <= workerLimits[w])
      && limits.Matches(Keys(live))
    }

    predicate Full(w: nat)
      requires w < |live| && w < |workerLimits|
      reads this
    {
      |live[w]| == workerLimits[w]
    }

    predicate Watchable(socket: nat) { selects ==> socket < FD_SETSIZE }

    /** No limit is set, or fewer connections come from the address and the table can still grow. */
    ghost predicate Countable(addr: SockAddr, memory: bool)
      reads this, limits
    {
      limits.limit > 0 ==> memory && (HasIp(addr) ==> Peers(live, addr) < limits.limit)
    }

    lemma CountableKeys(addr: SockAddr)
      ensures (HasIp(addr) ==> Peers(live, addr) < limits.limit)
        <==> forall k :: k in KeysOf(addr) ==> Keys(live)[k] < limits.limit
    {
      if HasIp(addr) {
        KeysApart(addr, addr);
        KeysCount(live, addr);
      }
    }

    /** With a limit set, no more connections than that come from any address. */
    lemma PeersWithinLimit(addr: SockAddr)
      requires Valid() && limits.limit > 0 && HasIp(addr)
      ensures Peers(live, addr) <= limits.limit
    {
      KeysCount(live, addr);
    }

    /** Each later failure gives back the count taken from the address. */
    method AddTo(w: nat, socket: nat, addr: SockAddr, memory: bool, allowed: bool, resources: bool, started: bool)
      returns (ok: bool, panicked: bool)
      requires Valid() && w < |live|
      modifies this, limits
      ensures Valid() && !panicked
      ensures live == if ok then old(live)[w := [addr] + old(live[w])] else old(live)
      ensures ok
        <==> Watchable(socket) && !old(Full(w)) && old(Countable(addr, memory)) && allowed && resources && started
    {
      ok, panicked := false, false;
      if selects && socket >= FD_SETSIZE { return; }
      if |live[w]| == workerLimits[w] { return; }
      ok, panicked := Count(addr, memory, allowed && resources && started);
      if ok { Push(w, addr); }
    }

    /** The count of the address goes up, and down again if what comes after it fails. */
    method Count(addr: SockAddr, memory: bool, succeeds: bool) returns (ok: bool, panicked: bool)
      requires limits.Matches(Keys(live))
      modifies limits
      ensures limits.Matches(if ok then Keys(live) + KeysOf(addr) else Keys(live)) && !panicked
      ensures ok <==> old(Countable(addr, memory)) && succeeds
    {
      ghost var keys := Keys(live);
      panicked := false;
      CountableKeys(addr);
      ok := limits.Add(addr, memory, keys);
      if ok && !succeeds {
        panicked := limits.Del(addr, keys);
        ok := false;
      }
    }

    method Push(w: nat, addr: SockAddr)
      requires w < |live|
      modifies this`live
      ensures live == old(live)[w := [addr] + old(live[w])] && Keys(live) == old(Keys(live)) + KeysOf(addr)
    {
      KeysPushed(live, w, addr);
      live := live[w := [addr] + live[w]];
    }

    method Drop(w: nat, i: nat)
      requires w < |live| && i < |live[w]|
      modifies this`live
      ensures live == old(live)[w := old(live[w])[..i] + old(live[w])[i + 1..]]
      ensures Keys(live) + KeysOf(old(live[w][i])) == old(Keys(live))
    {
      KeysRemoved(live, w, i);
      live := live[w := live[w][..i] + live[w][i + 1..]];
    }

    /** From the worker that the socket's number falls on, one after the other and around, it is the first with room. */
    ghost predicate FirstWithRoom(socket: nat, w: nat)
      requires |live| == |workerLimits|
      reads this
    {
      exists k: nat :: k < |live| && w == Turn(socket, k, |live|)
        && forall j: nat :: j < k ==> Full(Turn(socket, j, |live|))
    }

    lemma InTurn(socket: nat, i: nat)
      requires Valid() && socket < SOCKET_BOUND && i < |live|
      requires forall step: nat :: step < i ==> Full(Asked(step, socket, |live|))
      ensures FirstWithRoom(socket, Asked(i, socket, |live|))
    {
      AskedIsTurn(i, socket, |live|);
      forall j: nat | j < i ensures Full(Turn(socket, j, |live|)) {
        AskedIsTurn(j, socket, |live|);
      }
    }

    /**
     * From the master: the first worker with room, starting from the socket's number, gets the connection. It is
     * refused without being tried exactly if every worker is full.
     */
    method AddConnection(socket: nat, addr: SockAddr, memory: bool, allowed: bool, resources: bool, started: bool)
      returns (ok: bool, worker: Option<nat>, panicked: bool)
      requires Valid() && socket < SOCKET_BOUND
      modifies this, limits
      ensures Valid() && !panicked
      ensures worker.None? <==> forall w: nat :: w < old(|live|) ==> old(Full(w))
      ensures worker.Some? ==> worker.value < |live| && !old(Full(worker.value))
      ensures worker.Some? ==> old(FirstWithRoom(socket, worker.value))
      ensures worker.Some? ==>
        live == if ok then old(live)[worker.value := [addr] + old(live[worker.value])] else old(live)
      ensures worker.Some? ==>
        (ok <==> Watchable(socket) && old(Countable(addr, memory)) && allowed && resources && started)
      ensures worker.None? ==> !ok && live == old(live)
    {
      ok, worker, panicked := false, None, false;
      var i := 0;
      while i < |live|
        invariant i <= |live| && unchanged(this, limits)
        invariant forall step: nat :: step < i ==> Full(Asked(step, socket, |live|))
      {
        var w := Asked(i, socket, |live|);
        InTurn(socket, i);
        if |live[w]| < workerLimits[w] {
          worker := Some(w);
          assert !Full(w) && old(FirstWithRoom(socket, w));
          ok, panicked := AddTo(w, socket, addr, memory, allowed, resources, started);
          assert !old(Full(w));
          return;
        }
        i := i + 1;
      }
      EveryoneIsAsked(socket, |live|, sizeofDaemon);
      forall w: nat | w < |live| ensures old(Full(w)) {
        assert IsAsked(w, socket, |live|);
        var step: nat :| step < |live| && Asked(step, socket, |live|) == w;
        assert Full(Asked(step, socket, |live|));
      }
    }

    /** A connection of a worker is freed. */
    method Cleanup(w: nat, i: nat) returns (panicked: bool)
      requires Valid() && w < |live| && i < |live[w]|
      modifies this, limits
      ensures Valid() && !panicked
      ensures live == old(live)[w := old(live[w])[..i] + old(live[w])[i + 1..]]
    {
      var addr := live[w][i];
      Drop(w, i);
      panicked := limits.Del(addr, Keys(live));
    }

    /** All workers together never hold more connections than the daemon's limit. */
    lemma TotalWithinLimit()
      requires Valid()
      ensures Total(live) <= connectionLimit
    {
      TotalBounded(live, workerLimits);
    }
  }

  ghost function Total(live: seq<seq<SockAddr>>): nat {
    if live == [] then 0 else Total(live[..|live| - 1]) + |live[|live| - 1]|
  }

  lemma {:induction false} TotalBounded(live: seq<seq<SockAddr>>, bounds: seq<nat>)
    requires |live| == |bounds| && forall w :: 0 <= w < |live| ==> |live[w]| <= bounds[w]
    ensures Total(live) <= Sum(bounds)
  {
    if live != [] {
      TotalBounded(live[..|live| - 1], bounds[..|bounds| - 1]);
    }
  }

  lemma {:induction false} NoKeys(live: seq<seq<SockAddr>>)
    requires forall w :: 0 <= w < |live| ==> live[w] == []
    ensures Keys(live) == multiset{}
  {
    if live != [] {
      NoKeys(live[1..]);
    }
  }

  lemma KeysPushed(live: seq<seq<SockAddr>>, w: nat, addr: SockAddr)
    requires w < |live|
    ensures Keys(live[w := [addr] + live[w]]) == Keys(live) + KeysOf(addr)
  {
    var t := [addr] + live[w];
    forall k ensures Keys(live[w := t])[k] == (Keys(live) + KeysOf(addr))[k] {
      KeysChanged(live, w, t, k);
      assert t[1..] == live[w];
    }
  }

  lemma KeysRemoved(live: seq<seq<SockAddr>>, w: nat, i: nat)
    requires w < |live| && i < |live[w]|
    ensures Keys(live[w := live[w][..i] + live[w][i + 1..]]) + KeysOf(live[w][i]) == Keys(live)
  {
    var s := live[w];
    var t := s[..i] + s[i + 1..];
    forall k ensures (Keys(live[w := t]) + KeysOf(s[i]))[k] == Keys(live)[k] {
      KeysChanged(live, w, t, k);
      KeysOnWithout(s, i, k);
    }
  }
}
