/** The daemon's bookkeeping: every connection is a node of two intrusive doubly linked lists. */
module ConnectionLists {
  import opened Common

  class Connection {
    var next: Connection?
    var prev: Connection?
    var nextX: Connection?
    var prevX: Connection?
    var suspended: bool
    var resuming: bool
    var connectionTimeout: nat
    var lastActivity: nat

    constructor (timeout: nat, now: nat)
      ensures next == null == prev && nextX == null == prevX && !suspended && !resuming
      ensures connectionTimeout == timeout && lastActivity == now
    {
      next, prev, nextX, prevX := null, null, null, null;
      suspended, resuming, connectionTimeout, lastActivity := false, false, timeout, now;
    }
  }

  ghost predicate Distinct<T>(s: seq<T>) { forall i, j :: 0 <= i < j < |s| ==> s[i] != s[j] }

  /** The list without one of its elements. */
  ghost function Without<T>(s: seq<T>, e: T): (r: seq<T>) {
    if s == [] then [] else if s[0] == e then s[1..] else [s[0]] + Without(s[1..], e)
  }

  lemma {:induction false} WithoutAt<T>(s: seq<T>, k: nat)
    requires k < |s| && Distinct(s)
    ensures Without(s, s[k]) == s[..k] + s[k + 1..]
  {
    if k > 0 {
      assert s[1..][k - 1] == s[k];
      WithoutAt(s[1..], k - 1);
      assert s[..k] == [s[0]] + s[1..][..k - 1];
    }
  }

  /** Where the elements of the shorter list were. */
  lemma WithoutIndex<T>(s: seq<T>, k: nat)
    requires k < |s| && Distinct(s)
    ensures var r := Without(s, s[k]);
      && |r| == |s| - 1 && Distinct(r)
      && (forall i {:trigger r[i]} :: 0 <= i < k ==> r[i] == s[i])
      && (forall i {:trigger r[i]} :: k <= i < |r| ==> r[i] == s[i + 1])
  {
    WithoutAt(s, k);
  }

  /** The elements outside a set, in order. */
  ghost function Kept<T>(s: seq<T>, out: set<T>): seq<T> {
    if s == [] then [] else
      var e := s[|s| - 1];
      Kept(s[..|s| - 1], out) + if e in out then [] else [e]
  }

  /** The elements inside a set, the last one first. */
  ghost function Revived<T>(s: seq<T>, out: set<T>): seq<T> {
    if s == [] then [] else
      var e := s[|s| - 1];
      (if e in out then [e] else []) + Revived(s[..|s| - 1], out)
  }

  lemma {:induction false} NothingWanted<T>(s: seq<T>)
    ensures Kept(s, {}) == s && Revived(s, {}) == []
  {
    if s != [] {
      NothingWanted(s[..|s| - 1]);
    }
  }

  ghost function Elems<T>(s: seq<T>): set<T> { set x | x in s }

  lemma ConsElems<T>(x: T, s: seq<T>)
    ensures Elems([x] + s) == {x} + Elems(s)
  {
  }

  lemma {:induction false} WithoutElems<T>(s: seq<T>, e: T)
    requires Distinct(s) && e in s
    ensures |Without(s, e)| == |s| - 1
    ensures Elems(Without(s, e)) == Elems(s) - {e}
  {
    var rest := s[1..];
    assert s == [s[0]] + rest;
    ConsElems(s[0], rest);
    if s[0] == e {
      assert forall i :: 0 <= i < |rest| ==> rest[i] == s[i + 1];
      assert e !in rest;
    } else {
      WithoutElems(rest, e);
      ConsElems(s[0], Without(rest, e));
    }
  }

  lemma RevivedStep<T>(s: seq<T>, i: nat, out: set<T>)
    requires i < |s|
    ensures Revived(s[..i + 1], out) == (if s[i] in out then [s[i]] else []) + Revived(s[..i], out)
  {
    assert s[..i + 1][..i] == s[..i];
  }

  /** One more element looked at: where it stands, and what the three sequences become. */
  lemma LoopStep<T>(s: seq<T>, i: nat, out: set<T>)
    requires i < |s| && Distinct(s) && Distinct(Kept(s[..i], out) + s[i..])
    ensures var now, e, k := Kept(s[..i], out) + s[i..], s[i], |Kept(s[..i], out)|;
      && k < |now| && now[k] == e && (k + 1 < |now| <==> i + 1 < |s|) && (i + 1 < |s| ==> now[k + 1] == s[i + 1])
      && Kept(s[..i + 1], out) + s[i + 1..] == (if e in out then Without(now, e) else now)
  {
    var before, e, rest := Kept(s[..i], out), s[i], s[i + 1..];
    assert s[..i + 1][..i] == s[..i];
    assert s[i..] == [e] + rest;
    assert e !in rest by { assert forall j :: 0 <= j < |rest| ==> rest[j] == s[i + 1 + j]; }
    WithoutAt(before + s[i..], |before|);
    assert (before + [e]) + rest == before + ([e] + rest);
  }

  /** What the loop that resumes connections starts from. */
  datatype Resumption = Resumption(all: seq<Connection>, wanted: set<Connection>, byDefault: set<Connection>,
                                   actives: seq<Connection>, normals: seq<Connection>)

  /** The lists after its first i steps. */
  ghost predicate Reached(r: Resumption, i: nat, suspended: seq<Connection>, active: seq<Connection>,
                          normal: seq<Connection>)
  {
    && i <= |r.all|
    && suspended == Kept(r.all[..i], r.wanted) + r.all[i..]
    && active == Revived(r.all[..i], r.wanted) + r.actives
    && normal == Revived(r.all[..i], r.byDefault) + r.normals
  }

  lemma ReachedStep(r: Resumption, i: nat, suspended: seq<Connection>, active: seq<Connection>, normal: seq<Connection>)
    requires Reached(r, i, suspended, active, normal)
    requires i < |r.all| && Distinct(r.all) && Distinct(suspended) && r.byDefault <= r.wanted
    ensures var e := r.all[i];
      if e !in r.wanted then Reached(r, i + 1, suspended, active, normal)
      else Reached(r, i + 1, Without(suspended, e), [e] + active, if e in r.byDefault then [e] + normal else normal)
  {
    LoopStep(r.all, i, r.wanted);
    RevivedMore(r.all, i, r.wanted, r.actives);
    RevivedMore(r.all, i, r.byDefault, r.normals);
  }

  lemma RevivedMore<T>(s: seq<T>, i: nat, out: set<T>, others: seq<T>)
    requires i < |s|
    ensures Revived(s[..i + 1], out) + others == (if s[i] in out then [s[i]] else []) + (Revived(s[..i], out) + others)
  {
    RevivedStep(s, i, out);
    if s[i] in out { Associate(s[i], Revived(s[..i], out), others); }
  }

  lemma ReachedAll(r: Resumption)
    requires r.wanted == {} && r.byDefault == {}
    ensures Reached(r, |r.all|, r.all, r.actives, r.normals)
  {
    NothingWanted(r.all);
    assert r.all[..|r.all|] == r.all;
  }

  lemma {:induction false} KeptOutside<T>(s: seq<T>, out: set<T>)
    ensures Elems(Kept(s, out)) !! out
  {
    if s != [] {
      KeptOutside(s[..|s| - 1], out);
    }
  }

  lemma ReachedEnd(r: Resumption, suspended: seq<Connection>, active: seq<Connection>, normal: seq<Connection>)
    requires Reached(r, |r.all|, suspended, active, normal)
    ensures suspended == Kept(r.all, r.wanted) && Elems(suspended) !! r.wanted
    ensures active == Revived(r.all, r.wanted) + r.actives && normal == Revived(r.all, r.byDefault) + r.normals
  {
    assert r.all[..|r.all|] == r.all && r.all[|r.all|..] == [];
    KeptOutside(r.all, r.wanted);
  }

  lemma Associate<T>(e: T, s: seq<T>, t: seq<T>)
    ensures [e] + (s + t) == ([e] + s) + t
  {
  }

  // ---------------------------------------------------------------------------------------------
  // The list macros on next and prev. Links are looked at only where one changes.

  class Dll {
    var head: Connection?
    var tail: Connection?
    ghost var elems: seq<Connection>
    ghost var nodes: set<Connection>

    constructor ()
      ensures Valid() && elems == [] && nodes == {}
    {
      head, tail, elems, nodes := null, null, [], {};
    }

    ghost function Elements(): set<Connection>
      reads this
    {
      Elems(elems)
    }

    ghost predicate Links()
      reads this, Elements()`next, Elements()`prev
    {
      && Distinct(elems)
      && (elems == [] ==> head == null && tail == null)
      && (elems != [] ==> head == elems[0] && tail == elems[|elems| - 1])
      && (forall i {:trigger elems[i].prev} :: 0 <= i < |elems| ==>
            elems[i].prev == if i == 0 then null else elems[i - 1])
      && (forall i {:trigger elems[i].next} :: 0 <= i < |elems| ==>
            elems[i].next == if i == |elems| - 1 then null else elems[i + 1])
    }

    ghost predicate Valid()
      reads this, nodes`next, nodes`prev
    {
      nodes == Elements() && forall at {:trigger Look(at)} :: Look(at) ==> Links()
    }

    lemma NoRepeats()
      requires Valid()
      ensures Distinct(elems)
    {
      assert Look(0);
    }

    lemma Member(i: nat)
      requires Valid() && i < |elems|
      ensures elems[i] in nodes
    {
    }

    lemma Next(i: nat)
      requires Valid() && i < |elems|
      ensures elems[i].next == if i == |elems| - 1 then null else elems[i + 1]
    {
      assert Look(0);
    }

    lemma Ends()
      requires Valid()
      ensures (head == null <==> elems == []) && (elems != [] ==> head == elems[0] && head in nodes)
    {
      assert Look(0);
    }

    method Insert(e: Connection)
      requires Valid() && e !in nodes
      modifies this, e`next, e`prev, nodes`prev
      ensures Valid() && elems == [e] + old(elems) && nodes == old(nodes) + {e}
    {
      assert Look(0);
      Link(e);
      nodes := nodes + {e};
    }

    method Remove(e: Connection)
      requires Valid() && e in nodes
      modifies this, nodes`next, nodes`prev
      ensures Valid() && elems == Without(old(elems), e) && nodes == old(nodes) - {e}
      ensures |elems| == |old(elems)| - 1
      ensures e.next == null && e.prev == null
    {
      assert Look(0);
      WithoutElems(elems, e);
      Unlink(e);
      nodes := nodes - {e};
    }

    method Link(e: Connection)
      requires Links() && e !in elems
      modifies this`head, this`tail, this`elems, e`next, e`prev, Elements()`prev
      ensures Links() && elems == [e] + old(elems)
    {
      ghost var was := elems;
      assert forall i :: 0 <= i < |was| ==> was[i] in was;
      e.next := head;
      e.prev := null;
      if tail == null { tail := e; } else { head.prev := e; }
      head := e;
      elems := [e] + elems;
      assert forall i :: 0 <= i < |elems| ==> elems[i] == if i == 0 then e else was[i - 1];
    }

    method Unlink(e: Connection)
      requires Links() && e in elems
      modifies this`head, this`tail, this`elems, Elements()`next, Elements()`prev
      ensures Links() && elems == Without(old(elems), e)
      ensures e.next == null && e.prev == null
    {
      ghost var was := elems;
      ghost var k :| 0 <= k < |was| && was[k] == e;
      ghost var before := if k == 0 then null else was[k - 1];
      ghost var after := if k == |was| - 1 then null else was[k + 1];
      assert e.prev == before && e.next == after;
      assert (k > 0 ==> was[k - 1] in was) && (k < |was| - 1 ==> was[k + 1] in was);
      if e.prev == null { head := e.next; } else { e.prev.next := e.next; }
      if e.next == null { tail := e.prev; } else { e.next.prev := e.prev; }
      e.next := null;
      e.prev := null;
      elems := Without(was, e);
      WithoutIndex(was, k);
      forall i {:trigger elems[i].prev} | 0 <= i < |elems|
        ensures elems[i].prev == if i == 0 then null else elems[i - 1]
      {
        if i < k { assert was[i] != e && was[i] in was; } else { assert was[i + 1] != e && was[i + 1] in was; }
      }
      forall i {:trigger elems[i].next} | 0 <= i < |elems|
        ensures elems[i].next == if i == |elems| - 1 then null else elems[i + 1]
      {
        if i < k { assert was[i] != e && was[i] in was; } else { assert was[i + 1] != e && was[i + 1] in was; }
      }
    }
  }

  // ---------------------------------------------------------------------------------------------
  // The list macros on nextX and prevX.

  class Xdll {
    var head: Connection?
    var tail: Connection?
    ghost var elems: seq<Connection>
    ghost var nodes: set<Connection>

    constructor ()
      ensures Valid() && elems == [] && nodes == {}
    {
      head, tail, elems, nodes := null, null, [], {};
    }

    ghost function Elements(): set<Connection>
      reads this
    {
      Elems(elems)
    }

    ghost predicate Links()
      reads this, Elements()`nextX, Elements()`prevX
    {
      && Distinct(elems)
      && (elems == [] ==> head == null && tail == null)
      && (elems != [] ==> head == elems[0] && tail == elems[|elems| - 1])
      && (forall i {:trigger elems[i].prevX} :: 0 <= i < |elems| ==>
            elems[i].prevX == if i == 0 then null else elems[i - 1])
      && (forall i {:trigger elems[i].nextX} :: 0 <= i < |elems| ==>
            elems[i].nextX == if i == |elems| - 1 then null else elems[i + 1])
    }

    ghost predicate Valid()
      reads this, nodes`nextX, nodes`prevX
    {
      nodes == Elements() && forall at {:trigger Look(at)} :: Look(at) ==> Links()
    }

    lemma NoRepeats()
      requires Valid()
      ensures Distinct(elems)
    {
      assert Look(0);
    }

    method Insert(e: Connection)
      requires Valid() && e !in nodes
      modifies this, e`nextX, e`prevX, nodes`prevX
      ensures Valid() && elems == [e] + old(elems) && nodes == old(nodes) + {e}
    {
      assert Look(0);
      Link(e);
      nodes := nodes + {e};
    }

    /** Off the list, an element with null links still passes the tests: the list forgets its ends. */
    method Remove(e: Connection)
      requires Valid() && (e in nodes || (e.nextX == null && e.prevX == null))
      modifies this, nodes`nextX, nodes`prevX, e`nextX, e`prevX
      ensures e in old(nodes) ==> Valid() && elems == Without(old(elems), e) && nodes == old(nodes) - {e}
      ensures e in old(nodes) ==> |elems| == |old(elems)| - 1
      ensures e !in old(nodes) ==> head == null && tail == null && elems == old(elems) && nodes == old(nodes)
      ensures e !in old(nodes) ==> (Valid() <==> elems == [])
      ensures e.nextX == null && e.prevX == null
    {
      assert Look(0);
      if e in nodes { WithoutElems(elems, e); }
      Unlink(e);
      nodes := nodes - {e};
    }

    method Link(e: Connection)
      requires Links() && e !in elems
      modifies this`head, this`tail, this`elems, e`nextX, e`prevX, Elements()`prevX
      ensures Links() && elems == [e] + old(elems)
    {
      ghost var was := elems;
      assert forall i :: 0 <= i < |was| ==> was[i] in was;
      e.nextX := head;
      e.prevX := null;
      if tail == null { tail := e; } else { head.prevX := e; }
      head := e;
      elems := [e] + elems;
      assert forall i :: 0 <= i < |elems| ==> elems[i] == if i == 0 then e else was[i - 1];
    }

    /** Its neighbours point past the element. */
    method Bypass(e: Connection)
      requires e.prevX != null ==> e.prevX in Elements() && e.prevX != e
      requires e.nextX != null ==> e.nextX in Elements() && e.nextX != e
      modifies this`head, this`tail, Elements()`nextX, Elements()`prevX, e`nextX, e`prevX
      ensures head == if old(e.prevX) == null then old(e.nextX) else old(head)
      ensures tail == if old(e.nextX) == null then old(e.prevX) else old(tail)
      ensures forall x {:trigger x.nextX} :: x in Elements() && x != e ==>
        x.nextX == if x == old(e.prevX) then old(e.nextX) else old(x.nextX)
      ensures forall x {:trigger x.prevX} :: x in Elements() && x != e ==>
        x.prevX == if x == old(e.nextX) then old(e.prevX) else old(x.prevX)
      ensures e.nextX == null && e.prevX == null
    {
      if e.prevX == null { head := e.nextX; } else { e.prevX.nextX := e.nextX; }
      if e.nextX == null { tail := e.prevX; } else { e.nextX.prevX := e.prevX; }
      e.nextX := null;
      e.prevX := null;
    }

    /** All but one element are linked past it. */
    ghost predicate LinkedPast(k: nat)
      reads this, Elements()`nextX, Elements()`prevX
    {
      && (forall i {:trigger elems[i].prevX} :: 0 <= i < |elems| && i != k ==>
            elems[i].prevX == if i == 0 || (i == 1 && k == 0) then null
                              else if i == k + 1 then elems[i - 2] else elems[i - 1])
      && (forall i {:trigger elems[i].nextX} :: 0 <= i < |elems| && i != k ==>
            elems[i].nextX == if i + 1 == k then (if i + 2 < |elems| then elems[i + 2] else null)
                              else if i + 1 < |elems| then elems[i + 1] else null)
    }

    method Unlink(e: Connection)
      requires Links() && (e in elems || (e.nextX == null && e.prevX == null))
      modifies this`head, this`tail, this`elems, Elements()`nextX, Elements()`prevX, e`nextX, e`prevX
      ensures e in old(elems) ==> Links() && elems == Without(old(elems), e)
      ensures e !in old(elems) ==> head == null && tail == null && elems == old(elems)
      ensures e.nextX == null && e.prevX == null
    {
      ghost var was := elems;
      ghost var k: nat := |elems|;
      if e in elems { k :| k < |elems| && elems[k] == e; }
      TakeOut(e, k);
      if e in elems {
        WithoutIndex(was, k);
        elems := Without(was, e);
      }
    }

    method TakeOut(e: Connection, ghost k: nat)
      requires Links() && if k < |elems| then elems[k] == e else e !in elems && e.nextX == null && e.prevX == null
      modifies this`head, this`tail, Elements()`nextX, Elements()`prevX, e`nextX, e`prevX
      ensures LinkedPast(k)
      ensures head == if k > 0 && k < |elems| then elems[0] else if k == 0 && |elems| > 1 then elems[1] else null
      ensures tail == if k + 1 < |elems| then elems[|elems| - 1] else if 0 < k < |elems| then elems[k - 1] else null
      ensures e.nextX == null && e.prevX == null
    {
      if k < |elems| { Neighbours(k); }
      Bypass(e);
      assert forall i :: 0 <= i < |elems| ==> elems[i] in Elements();
    }

    lemma Neighbours(k: nat)
      requires Links() && k < |elems|
      ensures elems[k].prevX == if k == 0 then null else elems[k - 1]
      ensures elems[k].nextX == if k == |elems| - 1 then null else elems[k + 1]
      ensures k > 0 ==> elems[k - 1] in elems && elems[k - 1] != elems[k]
      ensures k < |elems| - 1 ==> elems[k + 1] in elems && elems[k + 1] != elems[k]
    {
    }
  }

  // ---------------------------------------------------------------------------------------------
  // The three lists on next and prev together.

  ghost predicate Apart(a: Dll, b: Dll, c: Dll)
    reads a, b, c, a.nodes`next, a.nodes`prev, b.nodes`next, b.nodes`prev, c.nodes`next, c.nodes`prev
  {
    && a != b && a != c && b != c
    && a.Valid() && b.Valid() && c.Valid()
    && a.nodes !! b.nodes && a.nodes !! c.nodes && b.nodes !! c.nodes
  }

  /** DLL_remove from one list, DLL_insert into another. */
  method Move(from: Dll, to: Dll, c: Connection, ghost other: Dll)
    requires Apart(from, to, other) && c in from.nodes
    modifies from, to, from.nodes`next, from.nodes`prev, to.nodes`prev
    ensures Apart(from, to, other)
    ensures from.elems == Without(old(from.elems), c) && to.elems == [c] + old(to.elems)
    ensures from.nodes == old(from.nodes) - {c} && to.nodes == old(to.nodes) + {c}
    ensures |from.elems| == |old(from.elems)| - 1
  {
    from.Remove(c);
    assert other.Valid();
    to.Insert(c);
    assert other.Valid();
    assert from.Valid();
  }

  /** What the fields of a connection say about the list it is on; no resumption is forgotten. */
  ghost predicate Marks(active: set<Connection>, waiting: set<Connection>, dead: set<Connection>, resuming: bool)
    reads active`suspended, active`resuming, waiting`suspended, waiting`resuming, waiting`nextX, waiting`prevX
    reads dead`suspended, dead`resuming, dead`nextX, dead`prevX
  {
    && (forall c :: c in active ==> !c.suspended && !c.resuming)
    && (forall c :: c in waiting ==> c.suspended && (c.resuming ==> resuming) && c.nextX == null && c.prevX == null)
    && (forall c :: c in dead ==> !c.suspended && !c.resuming && c.nextX == null && c.prevX == null)
  }

  /** The most recently active connection first, and none of them active after the clock. */
  ghost function Recent(s: seq<Connection>, now: nat): Answer
    reads Elems(s)`lastActivity
  {
    if (forall i :: 0 <= i < |s| ==> s[i] in Elems(s) && s[i].lastActivity <= now)
      && (forall i, j :: 0 <= i < j < |s| ==> s[i].lastActivity >= s[j].lastActivity)
    then Yes else No
  }

  lemma RecentFirst(c: Connection, s: seq<Connection>, now: nat)
    requires Recent(s, now) == Yes && c.lastActivity == now
    ensures Recent([c] + s, now) == Yes
  {
  }

  lemma RecentWithout(s: seq<Connection>, c: Connection, now: nat)
    requires Recent(s, now) == Yes && Distinct(s) && c in s
    ensures Recent(Without(s, c), now) == Yes
  {
    var k :| 0 <= k < |s| && s[k] == c;
    WithoutIndex(s, k);
  }

  // ---------------------------------------------------------------------------------------------
  // The daemon.

  class Daemon {
    const active: Dll
    const suspended: Dll
    const cleanup: Dll
    const normal: Xdll
    const manual: Xdll
    const connectionLimit: nat
    const connectionTimeout: nat
    var connections: nat
    var resuming: bool

    constructor (limit: nat, timeout: nat)
      ensures Valid() && connectionLimit == limit && connectionTimeout == timeout
      ensures active.elems == suspended.elems == cleanup.elems == []
    {
      active := new Dll();
      suspended := new Dll();
      cleanup := new Dll();
      normal := new Xdll();
      manual := new Xdll();
      connectionLimit, connectionTimeout, connections, resuming := limit, timeout, 0, false;
    }

    ghost function Members(): set<Connection>
      reads active, suspended, cleanup
    {
      active.nodes + suspended.nodes + cleanup.nodes
    }

    /** Every link agrees with the sequence its list stands for, and no two lists share a node. */
    ghost predicate Linked()
      reads active, suspended, cleanup, Members()`next, Members()`prev
    {
      Apart(active, suspended, cleanup)
    }

    ghost predicate LinkedX()
      reads normal, manual, normal.nodes`nextX, normal.nodes`prevX, manual.nodes`nextX, manual.nodes`prevX
    {
      normal != manual && normal.Valid() && manual.Valid() && normal.nodes !! manual.nodes
    }

    /** The active connections, and no others, are on the list of their timeout. */
    ghost predicate Timed()
      reads active, normal, manual, active.nodes`connectionTimeout
    {
      && normal.nodes + manual.nodes == active.nodes
      && TimedSet(active.nodes)
    }

    ghost predicate Marked()
      reads this, active, suspended, cleanup
      reads Members()`suspended, Members()`resuming, suspended.nodes`nextX, suspended.nodes`prevX, cleanup.nodes`nextX
      reads cleanup.nodes`prevX
    {
      Marks(active.nodes, suspended.nodes, cleanup.nodes, resuming)
    }

    ghost predicate Counted()
      reads this, active, suspended, cleanup
    {
      connections == |active.elems| + |suspended.elems| + |cleanup.elems| && connections <= connectionLimit
    }

    ghost predicate Valid()
      reads this, active, suspended, cleanup, normal, manual, Members(), normal.nodes, manual.nodes
    {
      Linked() && LinkedX() && Timed() && Marked() && Counted()
    }

    /** All but the place and the fields of one connection. */
    ghost predicate Others(c: Connection)
      reads this, active, suspended, cleanup, normal, manual, Members(), normal.nodes, manual.nodes
    {
      && Linked() && LinkedX()
      && Marks(active.nodes - {c}, suspended.nodes - {c}, cleanup.nodes - {c}, resuming)
      && normal.nodes + manual.nodes - {c} == active.nodes - {c}
      && TimedSet(active.nodes - {c})
    }

    ghost predicate TimedSet(s: set<Connection>)
      reads normal, s`connectionTimeout
    {
      forall c :: c in s ==> (c in normal.nodes <==> c.connectionTimeout == connectionTimeout)
    }

    method InsertTimeout(c: Connection)
      requires Others(c) && c !in normal.nodes + manual.nodes
      modifies normal, manual, c`nextX, c`prevX, normal.nodes`prevX, manual.nodes`prevX
      ensures Others(c)
      ensures normal.elems ==
        if c.connectionTimeout == connectionTimeout then [c] + old(normal.elems) else old(normal.elems)
      ensures manual.elems ==
        if c.connectionTimeout == connectionTimeout then old(manual.elems) else [c] + old(manual.elems)
      ensures normal.nodes == old(normal.nodes) + if c.connectionTimeout == connectionTimeout then {c} else {}
      ensures manual.nodes == old(manual.nodes) + if c.connectionTimeout == connectionTimeout then {} else {c}
      ensures unchanged(c`suspended, c`resuming, c`connectionTimeout, active, suspended, cleanup, this)
    {
      ghost var a, s, k := active.nodes - {c}, suspended.nodes - {c}, cleanup.nodes - {c};
      assert forall d :: d in s || d in k ==> d !in normal.nodes && d !in manual.nodes by {
        assert forall d :: d in s || d in k ==> d !in normal.nodes + manual.nodes - {c};
      }
      if c.connectionTimeout == connectionTimeout {
        normal.Insert(c);
        assert manual.Valid();
      } else {
        manual.Insert(c);
        assert normal.Valid();
      }
      assert unchanged(this, active, suspended, cleanup);
      assert active.Valid() && suspended.Valid() && cleanup.Valid();
      assert Marks(a, s, k, resuming);
      assert TimedSet(a);
    }

    method RemoveTimeout(c: Connection)
      requires Others(c)
      requires c in (if c.connectionTimeout == connectionTimeout then normal else manual).nodes
      modifies normal, manual, normal.nodes`nextX, normal.nodes`prevX, manual.nodes`nextX, manual.nodes`prevX
      ensures Others(c)
      ensures c.nextX == null && c.prevX == null
      ensures normal.elems ==
        if c.connectionTimeout == connectionTimeout then Without(old(normal.elems), c) else old(normal.elems)
      ensures manual.elems ==
        if c.connectionTimeout == connectionTimeout then old(manual.elems) else Without(old(manual.elems), c)
      ensures normal.nodes == old(normal.nodes) - {c} && manual.nodes == old(manual.nodes) - {c}
      ensures unchanged(c`suspended, c`resuming, c`connectionTimeout, active, suspended, cleanup, this)
    {
      ghost var a, s, k := active.nodes - {c}, suspended.nodes - {c}, cleanup.nodes - {c};
      assert forall d :: d in s || d in k ==> d !in normal.nodes && d !in manual.nodes by {
        assert forall d :: d in s || d in k ==> d !in normal.nodes + manual.nodes - {c};
      }
      if c.connectionTimeout == connectionTimeout {
        normal.Remove(c);
        assert manual.Valid();
      } else {
        manual.Remove(c);
        assert normal.Valid();
      }
      assert unchanged(this, active, suspended, cleanup);
      assert active.Valid() && suspended.Valid() && cleanup.Valid();
      assert Marks(a, s, k, resuming);
      assert TimedSet(a);
    }

    method Mark(c: Connection, suspend: bool)
      requires Others(c)
      modifies c`suspended, c`resuming
      ensures Others(c)
      ensures c.suspended == suspend && !c.resuming
      ensures unchanged(c`connectionTimeout, c`nextX, c`prevX, active, suspended, cleanup, normal, manual, this)
    {
      c.suspended := suspend;
      c.resuming := false;
      assert active.Valid() && suspended.Valid() && cleanup.Valid();
    }

    method ToSuspended(c: Connection)
      requires Others(c) && c in active.nodes
      modifies active, suspended, active.nodes`next, active.nodes`prev, suspended.nodes`prev
      ensures Others(c)
      ensures active.elems == Without(old(active.elems), c) && suspended.elems == [c] + old(suspended.elems)
      ensures active.nodes == old(active.nodes) - {c} && suspended.nodes == old(suspended.nodes) + {c}
      ensures |active.elems| == |old(active.elems)| - 1
      ensures unchanged(c`suspended, c`resuming, c`connectionTimeout, c`nextX, c`prevX, normal, manual, this, cleanup)
    {
      ghost var a, s, k := active.nodes - {c}, suspended.nodes - {c}, cleanup.nodes - {c};
      Move(active, suspended, c, cleanup);
      assert Marks(a, s, k, resuming);
      assert normal.Valid() && manual.Valid();
    }

    method ToCleanup(c: Connection)
      requires Others(c) && c in active.nodes
      modifies active, cleanup, active.nodes`next, active.nodes`prev, cleanup.nodes`prev
      ensures Others(c)
      ensures active.elems == Without(old(active.elems), c) && cleanup.elems == [c] + old(cleanup.elems)
      ensures active.nodes == old(active.nodes) - {c} && cleanup.nodes == old(cleanup.nodes) + {c}
      ensures |active.elems| == |old(active.elems)| - 1
      ensures unchanged(c`suspended, c`resuming, c`connectionTimeout, c`nextX, c`prevX, normal, manual, this, suspended)
    {
      ghost var a, s, k := active.nodes - {c}, suspended.nodes - {c}, cleanup.nodes - {c};
      Move(active, cleanup, c, suspended);
      assert Marks(a, s, k, resuming);
      assert normal.Valid() && manual.Valid();
    }

    method ToActive(c: Connection)
      requires Others(c) && c in suspended.nodes
      modifies suspended, active, suspended.nodes`next, suspended.nodes`prev, active.nodes`prev
      ensures Others(c)
      ensures suspended.elems == Without(old(suspended.elems), c) && active.elems == [c] + old(active.elems)
      ensures suspended.nodes == old(suspended.nodes) - {c} && active.nodes == old(active.nodes) + {c}
      ensures |suspended.elems| == |old(suspended.elems)| - 1
      ensures unchanged(c`suspended, c`resuming, c`connectionTimeout, c`nextX, c`prevX, normal, manual, this, cleanup)
    {
      ghost var a, s, k := active.nodes - {c}, suspended.nodes - {c}, cleanup.nodes - {c};
      Move(suspended, active, c, cleanup);
      assert Marks(a, s, k, resuming);
      assert normal.Valid() && manual.Valid();
    }

    /** The one connection fits its list again. */
    lemma Settled(c: Connection)
      requires Others(c)
      requires c in active.nodes ==> c in (if c.connectionTimeout == connectionTimeout then normal else manual).nodes
      requires c !in active.nodes ==> c !in normal.nodes + manual.nodes && c.nextX == null && c.prevX == null
      requires (c.suspended <==> c in suspended.nodes) && (c.resuming ==> c.suspended && resuming)
      ensures Linked() && LinkedX() && Timed() && Marked()
    {
      forall d | d in active.nodes ensures d in normal.nodes <==> d.connectionTimeout == connectionTimeout {
        assert d != c ==> d in active.nodes - {c};
      }
      forall d ensures d in normal.nodes + manual.nodes <==> d in active.nodes {
        assert d in normal.nodes + manual.nodes - {c} <==> d in active.nodes - {c};
      }
    }

    method Suspend(c: Connection)
      requires Valid() && c in active.nodes
      modifies active, suspended, normal, manual, active.nodes`next, active.nodes`prev, suspended.nodes`prev
      modifies active.nodes`nextX, active.nodes`prevX, c`suspended, c`resuming
      ensures Valid()
      ensures active.elems == Without(old(active.elems), c) && suspended.elems == [c] + old(suspended.elems)
      ensures normal.elems ==
        if c.connectionTimeout == connectionTimeout then Without(old(normal.elems), c) else old(normal.elems)
      ensures manual.elems ==
        if c.connectionTimeout == connectionTimeout then old(manual.elems) else Without(old(manual.elems), c)
    {
      ToSuspended(c);
      RemoveTimeout(c);
      Mark(c, true);
      Settled(c);
    }

    /** Set the flag only: the event loop does the rest. */
    method Resume(c: Connection)
      requires Valid() && c in suspended.nodes
      modifies this`resuming, c`resuming
      ensures Valid() && c.resuming && resuming
    {
      c.resuming := true;
      resuming := true;
      assert unchanged(active, suspended, cleanup, normal, manual);
      assert active.Valid() && suspended.Valid() && cleanup.Valid() && normal.Valid() && manual.Valid();
    }

    /** One resumed connection goes back to the heads of its lists. */
    method Reactivate(c: Connection)
      requires Valid() && c in suspended.nodes
      modifies active, suspended, normal, manual, active.nodes`prev, suspended.nodes`next, suspended.nodes`prev
      modifies active.nodes`prevX, c`nextX, c`prevX, c`suspended, c`resuming
      ensures Valid() && unchanged(this, cleanup)
      ensures suspended.elems == Without(old(suspended.elems), c) && active.elems == [c] + old(active.elems)
      ensures normal.elems ==
        if c.connectionTimeout == connectionTimeout then [c] + old(normal.elems) else old(normal.elems)
      ensures manual.elems ==
        if c.connectionTimeout == connectionTimeout then old(manual.elems) else [c] + old(manual.elems)
      ensures suspended.nodes == old(suspended.nodes) - {c}
      ensures active.nodes == old(active.nodes) + {c}
    {
      ToActive(c);
      InsertTimeout(c);
      Mark(c, false);
      Settled(c);
    }

    ghost function Wanted(): set<Connection>
      reads suspended, suspended.nodes`resuming
    {
      set c | c in suspended.nodes && c.resuming
    }

    ghost function ByDefault(s: set<Connection>): set<Connection>
      reads s`connectionTimeout
    {
      set c | c in s && c.connectionTimeout == connectionTimeout
    }

    ghost function Progress(r: Resumption, i: nat): Answer
      reads active, suspended, normal, suspended.nodes`resuming
    {
      if Reached(r, i, suspended.elems, active.elems, normal.elems) && Flags(suspended.nodes, r.wanted) then Yes else No
    }

    ghost predicate Flags(s: set<Connection>, wanted: set<Connection>)
      reads s`resuming
    {
      forall c :: c in s ==> (c.resuming <==> c in wanted)
    }

    /** The timeouts are those the resumption was described with. */
    ghost function Described(r: Resumption): Answer
      reads r.wanted`connectionTimeout
    {
      if Distinct(r.all) && r.byDefault == ByDefault(r.wanted) then Yes else No
    }

    /** The element the loop looks at, and the progress made if it stays or goes. */
    lemma LookedAt(pos: Connection, r: Resumption, i: nat)
      requires Valid() && Described(r) == Yes && i < |r.all| && r.all[i] == pos && Progress(r, i) == Yes
      ensures pos in suspended.nodes && pos.next == (if i + 1 == |r.all| then null else r.all[i + 1])
      ensures if pos.resuming then Departing(pos, r, i) == Yes else Progress(r, i + 1) == Yes
    {
      var k := |Kept(r.all[..i], r.wanted)|;
      suspended.NoRepeats();
      ReachedStep(r, i, suspended.elems, active.elems, normal.elems);
      suspended.Member(k);
      suspended.Next(k);
    }

    ghost function Departing(pos: Connection, r: Resumption, i: nat): Answer
      reads active, suspended, normal, pos`connectionTimeout, suspended.nodes`resuming
    {
      if Reached(r, i + 1, Without(suspended.elems, pos), [pos] + active.elems,
           if pos.connectionTimeout == connectionTimeout then [pos] + normal.elems else normal.elems)
         && Flags(suspended.nodes - {pos}, r.wanted)
      then Yes else No
    }

    method Depart(pos: Connection, ghost r: Resumption, ghost i: nat)
      requires Valid() && pos in suspended.nodes && Departing(pos, r, i) == Yes
      modifies active, suspended, normal, manual, active.nodes`prev, suspended.nodes`next, suspended.nodes`prev
      modifies active.nodes`prevX, pos`nextX, pos`prevX, pos`suspended, pos`resuming
      ensures Valid() && unchanged(this, cleanup) && Progress(r, i + 1) == Yes
      ensures suspended.nodes == old(suspended.nodes) - {pos} && active.nodes == old(active.nodes) + {pos}
    {
      ghost var rest := suspended.nodes - {pos};
      ghost var wanted := r.wanted;
      assert Flags(rest, wanted);
      Reactivate(pos);
      assert Flags(rest, wanted);
    }

    /** What the loop keeps, as one fact. */
    ghost function Resuming(r: Resumption, i: nat, u: set<Connection>): Answer
      reads this, active, suspended, cleanup, normal, manual, Members(), normal.nodes, manual.nodes
      reads r.wanted`connectionTimeout
    {
      if Valid() && Described(r) == Yes && Progress(r, i) == Yes && active.nodes <= u && suspended.nodes <= u
      then Yes else No
    }

    /** One turn of the loop. */
    method ResumeTurn(pos: Connection, ghost r: Resumption, ghost i: nat, ghost u: set<Connection>)
      returns (next: Connection?)
      requires i < |r.all| && r.all[i] == pos && Resuming(r, i, u) == Yes
      modifies active, suspended, normal, manual, u`next, u`prev, u`nextX, u`prevX, u`suspended, u`resuming
      ensures unchanged(this, cleanup) && Resuming(r, i + 1, u) == Yes
      ensures next == (if i + 1 == |r.all| then null else r.all[i + 1])
    {
      next := ResumeStep(pos, r, i, u);
    }

    /** The body of the loop. */
    method ResumeStep(pos: Connection, ghost r: Resumption, ghost i: nat, ghost u: set<Connection>)
      returns (next: Connection?)
      requires Valid() && Described(r) == Yes && i < |r.all| && r.all[i] == pos && Progress(r, i) == Yes
      requires active.nodes <= u && suspended.nodes <= u
      modifies active, suspended, normal, manual, u`next, u`prev, u`nextX, u`prevX, u`suspended, u`resuming
      ensures Valid() && unchanged(this, cleanup) && Described(r) == Yes
      ensures active.nodes <= u && suspended.nodes <= u
      ensures next == (if i + 1 == |r.all| then null else r.all[i + 1])
      ensures Progress(r, i + 1) == Yes
    {
      LookedAt(pos, r, i);
      next := pos.next;
      if pos.resuming {
        Depart(pos, r, i);
      }
    }

    method ResumeFrom(start: Connection?, ghost r: Resumption, ghost from: nat, ghost u: set<Connection>)
      requires Resuming(r, from, u) == Yes && from <= |r.all|
      requires start == if from == |r.all| then null else r.all[from]
      modifies active, suspended, normal, manual, u`next, u`prev, u`nextX, u`prevX, u`suspended, u`resuming
      ensures unchanged(this, cleanup) && Resuming(r, |r.all|, u) == Yes
    {
      var next := start;
      ghost var i := from;
      while next != null
        invariant unchanged(this, cleanup) && Resuming(r, i, u) == Yes
        invariant i <= |r.all| && next == (if i == |r.all| then null else r.all[i])
        decreases |r.all| - i
      {
        next := ResumeTurn(next, r, i, u);
        i := i + 1;
      }
    }

    /** Every connection marked as resuming becomes active, and no other one. */
    method ResumeSuspended()
      requires Valid()
      modifies this`resuming, active, suspended, normal, manual, Members()`next, Members()`prev, Members()`nextX
      modifies Members()`prevX
      modifies Members()`suspended, Members()`resuming
      ensures Valid() && unchanged(this`connections, cleanup) && !resuming && Wanted() == {}
      ensures active.elems == Revived(old(suspended.elems), old(Wanted())) + old(active.elems)
      ensures suspended.elems == Kept(old(suspended.elems), old(Wanted()))
      ensures normal.elems == Revived(old(suspended.elems), old(ByDefault(Wanted()))) + old(normal.elems)
    {
      ghost var r := Resumption(suspended.elems, Wanted(), ByDefault(Wanted()), active.elems, normal.elems);
      ghost var from := 0;
      suspended.NoRepeats();
      suspended.Ends();
      var next: Connection? := null;
      if resuming {
        next := suspended.head;
      } else {
        assert r.wanted == {} && r.byDefault == {};
        ReachedAll(r);
        from := |r.all|;
      }
      ResumeFrom(next, r, from, Members());
      ReachedEnd(r, suspended.elems, active.elems, normal.elems);
      Settle();
    }

    method Settle()
      requires Valid() && Wanted() == {}
      modifies this`resuming
      ensures Valid() && !resuming
    {
      resuming := false;
      assert active.Valid() && suspended.Valid() && cleanup.Valid() && normal.Valid() && manual.Valid();
      assert forall c :: c in suspended.nodes && c.resuming ==> c in Wanted();
    }

    method UpdateLastActivity(c: Connection, now: nat)
      requires Valid() && c in active.nodes
      modifies normal, manual, active.nodes`nextX, active.nodes`prevX, c`lastActivity
      ensures Valid() && unchanged(this, active, suspended, cleanup) && c.lastActivity == now
      ensures normal.elems ==
        if c.connectionTimeout == connectionTimeout then [c] + Without(old(normal.elems), c) else old(normal.elems)
      ensures manual.elems == old(manual.elems)
      ensures old(Recent(normal.elems, now)) == Yes ==> Recent(normal.elems, now) == Yes
    {
      ghost var rest := StillRecent(c, now);
      ghost var before := Recent(rest, now);
      Touch(c, now);
      assert Recent(rest, now) == before;
      if c.connectionTimeout != connectionTimeout { return; }
      ToHead(c);
      assert Recent(rest, now) == before;
      if before == Yes { RecentFirst(c, rest, now); }
    }

    method Touch(c: Connection, now: nat)
      requires Valid()
      modifies c`lastActivity
      ensures Valid() && c.lastActivity == now
    {
      c.lastActivity := now;
      assert active.Valid() && suspended.Valid() && cleanup.Valid() && normal.Valid() && manual.Valid();
    }

    method ToHead(c: Connection)
      requires Valid() && c in active.nodes && c.connectionTimeout == connectionTimeout
      modifies normal, manual, active.nodes`nextX, active.nodes`prevX
      ensures Valid() && unchanged(this, active, suspended, cleanup) && manual.elems == old(manual.elems)
      ensures normal.elems == [c] + Without(old(normal.elems), c)
    {
      RemoveTimeout(c);
      InsertTimeout(c);
      Settled(c);
    }

    method SetTimeout(c: Connection, timeout: nat)
      requires Valid() && c in active.nodes + suspended.nodes
      modifies normal, manual, active.nodes`nextX, active.nodes`prevX, c`connectionTimeout
      ensures Valid() && unchanged(this, active, suspended, cleanup) && c.connectionTimeout == timeout
      ensures c.suspended ==> unchanged(normal, manual)
      ensures !c.suspended ==> (normal.elems ==
        (if timeout == connectionTimeout then [c] else [])
        + (if old(c.connectionTimeout) == connectionTimeout then Without(old(normal.elems), c) else old(normal.elems)))
      ensures !c.suspended ==> (manual.elems ==
        (if timeout == connectionTimeout then [] else [c])
        + (if old(c.connectionTimeout) == connectionTimeout then old(manual.elems) else Without(old(manual.elems), c)))
    {
      if c.suspended {
        Retime(c, timeout);
        Settled(c);
      } else {
        Requeue(c, timeout);
      }
    }

    method Requeue(c: Connection, timeout: nat)
      requires Valid() && c in active.nodes
      modifies normal, manual, active.nodes`nextX, active.nodes`prevX, c`connectionTimeout
      ensures Valid() && unchanged(this, active, suspended, cleanup) && c.connectionTimeout == timeout
      ensures normal.elems == (if timeout == connectionTimeout then [c] else [])
        + (if old(c.connectionTimeout) == connectionTimeout then Without(old(normal.elems), c) else old(normal.elems))
      ensures manual.elems == (if timeout == connectionTimeout then [] else [c])
        + (if old(c.connectionTimeout) == connectionTimeout then old(manual.elems) else Without(old(manual.elems), c))
    {
      RemoveTimeout(c);
      Retime(c, timeout);
      InsertTimeout(c);
      Settled(c);
    }

    method Retime(c: Connection, timeout: nat)
      requires Others(c)
      modifies c`connectionTimeout
      ensures Others(c) && c.connectionTimeout == timeout
      ensures unchanged(c`suspended, c`resuming, c`nextX, c`prevX, this, active, suspended, cleanup, normal, manual)
    {
      c.connectionTimeout := timeout;
      assert active.Valid() && suspended.Valid() && cleanup.Valid() && normal.Valid() && manual.Valid();
    }

    /** Off its timeout list, and from the active list to the cleanup list. */
    method Retire(c: Connection)
      requires Valid() && c in active.nodes
      modifies active, cleanup, normal, manual, active.nodes`next, active.nodes`prev, cleanup.nodes`prev
      modifies active.nodes`nextX, active.nodes`prevX
      ensures Valid() && unchanged(this, suspended) && c in cleanup.nodes
      ensures active.elems == Without(old(active.elems), c) && cleanup.elems == [c] + old(cleanup.elems)
      ensures normal.elems ==
        if c.connectionTimeout == connectionTimeout then Without(old(normal.elems), c) else old(normal.elems)
      ensures manual.elems ==
        if c.connectionTimeout == connectionTimeout then old(manual.elems) else Without(old(manual.elems), c)
    {
      RemoveTimeout(c);
      ToCleanup(c);
      Settled(c);
    }

    lemma StillRecent(c: Connection, now: nat) returns (rest: seq<Connection>)
      requires Valid() && c in active.nodes
      ensures rest == if c.connectionTimeout == connectionTimeout then Without(normal.elems, c) else normal.elems
      ensures Recent(normal.elems, now) == Yes ==> Recent(rest, now) == Yes
      ensures c !in Elems(rest)
    {
      rest := normal.elems;
      if c.connectionTimeout == connectionTimeout {
        rest := Without(normal.elems, c);
        normal.NoRepeats();
        WithoutElems(normal.elems, c);
        if Recent(normal.elems, now) == Yes { RecentWithout(normal.elems, c, now); }
      }
    }

    /** On an active connection, by the event loop or at shutdown. */
    method CloseConnection(c: Connection, ghost now: nat)
      requires Valid() && c in active.nodes
      modifies active, cleanup, normal, manual, active.nodes`next, active.nodes`prev, cleanup.nodes`prev
      modifies active.nodes`nextX, active.nodes`prevX
      ensures Valid() && unchanged(this, suspended)
      ensures active.elems == Without(old(active.elems), c) && cleanup.elems == [c] + old(cleanup.elems)
      ensures normal.elems ==
        if c.connectionTimeout == connectionTimeout then Without(old(normal.elems), c) else old(normal.elems)
      ensures manual.elems ==
        if c.connectionTimeout == connectionTimeout then old(manual.elems) else Without(old(manual.elems), c)
      ensures old(Recent(normal.elems, now)) == Yes ==> Recent(normal.elems, now) == Yes
    {
      ghost var rest := StillRecent(c, now);
      ghost var before := Recent(rest, now);
      Retire(c);
      assert Recent(rest, now) == before;
    }

    /** From the idle loop of a closed connection that is not suspended. */
    method CleanupActive(c: Connection, ghost now: nat)
      requires Valid() && c in active.nodes
      modifies active, cleanup, normal, manual, active.nodes`next, active.nodes`prev, cleanup.nodes`prev
      modifies active.nodes`nextX, active.nodes`prevX, c`suspended, c`resuming
      ensures Valid() && unchanged(this, suspended)
      ensures active.elems == Without(old(active.elems), c) && cleanup.elems == [c] + old(cleanup.elems)
      ensures normal.elems ==
        if c.connectionTimeout == connectionTimeout then Without(old(normal.elems), c) else old(normal.elems)
      ensures manual.elems ==
        if c.connectionTimeout == connectionTimeout then old(manual.elems) else Without(old(manual.elems), c)
      ensures old(Recent(normal.elems, now)) == Yes ==> Recent(normal.elems, now) == Yes
    {
      CloseConnection(c, now);
      Mark(c, false);
      Settled(c);
    }

    ghost function TimeoutList(c: Connection): Xdll
      reads c`connectionTimeout
    {
      if c.connectionTimeout == connectionTimeout then normal else manual
    }

    /** On a suspended connection, the first removal is from a list it is not on. */
    method CleanupConnection(c: Connection, ghost now: nat)
      requires Valid() && c in active.nodes + suspended.nodes
      modifies active, suspended, cleanup, normal, manual, Members()`next, Members()`prev, Members()`nextX
      modifies Members()`prevX
      modifies c`suspended, c`resuming
      ensures Valid() <==> !old(c.suspended) || old(TimeoutList(c).elems) == []
      ensures connections == old(connections) && cleanup.elems == [c] + old(cleanup.elems)
      ensures !old(c.suspended) ==> active.elems == Without(old(active.elems), c) && unchanged(suspended)
      ensures !old(c.suspended) && old(Recent(normal.elems, now)) == Yes ==> Recent(normal.elems, now) == Yes
      ensures old(c.suspended) ==> suspended.elems == Without(old(suspended.elems), c) && unchanged(active)
      ensures old(c.suspended) ==> TimeoutList(c).head == null && TimeoutList(c).tail == null
    {
      if c.suspended {
        CleanupSuspended(c);
      } else {
        CleanupActive(c, now);
      }
    }

    method CleanupSuspended(c: Connection)
      requires Valid() && c in suspended.nodes
      modifies suspended, cleanup, normal, manual, Members()`next, Members()`prev, Members()`nextX, Members()`prevX
      modifies c`suspended, c`resuming
      ensures Valid() <==> old(TimeoutList(c).elems) == []
      ensures unchanged(this, active) && cleanup.elems == [c] + old(cleanup.elems)
      ensures suspended.elems == Without(old(suspended.elems), c)
      ensures TimeoutList(c).head == null && TimeoutList(c).tail == null
    {
      ghost var empty := TimeoutList(c).elems == [];
      RemoveStray(c);
      ToCleanupStray(c);
      MarkStray(c);
      if empty {
        Settled(c);
      } else {
        assert Look(0);
      }
    }

    method RemoveStray(c: Connection)
      requires Valid() && c in suspended.nodes
      modifies normal, manual, normal.nodes`nextX, normal.nodes`prevX, manual.nodes`nextX, manual.nodes`prevX, c`nextX
      modifies c`prevX
      ensures Linked() && (TimeoutList(c).elems == [] ==> Others(c))
      ensures TimeoutList(c).head == null && TimeoutList(c).tail == null && c.nextX == null && c.prevX == null
      ensures normal.elems == old(normal.elems) && manual.elems == old(manual.elems)
      ensures normal.nodes == old(normal.nodes) && manual.nodes == old(manual.nodes)
      ensures unchanged(c`suspended, c`resuming, c`connectionTimeout, this, active, suspended, cleanup)
    {
      ghost var a, s, k := active.nodes - {c}, suspended.nodes - {c}, cleanup.nodes - {c};
      assert Marks(a, s, k, resuming) && TimedSet(a);
      if c.connectionTimeout == connectionTimeout {
        normal.Remove(c);
        assert manual.Valid();
      } else {
        manual.Remove(c);
        assert normal.Valid();
      }
      assert unchanged(this, active, suspended, cleanup);
      assert active.Valid() && suspended.Valid() && cleanup.Valid();
      assert Marks(a, s, k, resuming);
      assert TimedSet(a);
    }

    method ToCleanupStray(c: Connection)
      requires Linked() && c in suspended.nodes
      modifies suspended, cleanup, suspended.nodes`next, suspended.nodes`prev, cleanup.nodes`prev
      ensures Linked() && (old(Others(c)) ==> Others(c))
      ensures suspended.elems == Without(old(suspended.elems), c) && cleanup.elems == [c] + old(cleanup.elems)
      ensures suspended.nodes == old(suspended.nodes) - {c} && cleanup.nodes == old(cleanup.nodes) + {c}
      ensures |suspended.elems| == |old(suspended.elems)| - 1
      ensures unchanged(c`suspended, c`resuming, c`connectionTimeout, c`nextX, c`prevX, normal, manual, this, active)
    {
      ghost var a, s, k := active.nodes - {c}, suspended.nodes - {c}, cleanup.nodes - {c};
      Move(suspended, cleanup, c, active);
      assert old(Others(c)) ==> Marks(a, s, k, resuming);
      assert old(Others(c)) ==> normal.Valid() && manual.Valid();
    }

    method MarkStray(c: Connection)
      requires Linked()
      modifies c`suspended, c`resuming
      ensures Linked() && (old(Others(c)) ==> Others(c)) && !c.suspended && !c.resuming
      ensures unchanged(c`connectionTimeout, c`nextX, c`prevX, active, suspended, cleanup, normal, manual, this)
    {
      c.suspended := false;
      c.resuming := false;
      assert active.Valid() && suspended.Valid() && cleanup.Valid();
      assert old(Others(c)) ==> normal.Valid() && manual.Valid();
    }

    /** A dead connection is freed. */
    method Free(c: Connection)
      requires Valid() && c in cleanup.nodes
      modifies this`connections, cleanup, cleanup.nodes`next, cleanup.nodes`prev
      ensures Valid() && unchanged(active, suspended, normal, manual) && connections == old(connections) - 1
      ensures cleanup.elems == Without(old(cleanup.elems), c) && |cleanup.elems| == |old(cleanup.elems)| - 1
      ensures cleanup.nodes == old(cleanup.nodes) - {c}
    {
      cleanup.Remove(c);
      connections := connections - 1;
      assert active.Valid() && suspended.Valid() && normal.Valid() && manual.Valid();
    }

    method CleanupConnections()
      requires Valid()
      modifies this`connections, cleanup, cleanup.nodes`next, cleanup.nodes`prev
      ensures Valid() && unchanged(active, suspended, normal, manual) && cleanup.elems == []
      ensures connections == old(connections) - |old(cleanup.elems)|
    {
      cleanup.Ends();
      while cleanup.head != null
        invariant Valid() && unchanged(active, suspended, normal, manual)
        invariant cleanup.nodes <= old(cleanup.nodes)
        invariant cleanup.head == null <==> cleanup.elems == []
        invariant cleanup.head != null ==> cleanup.head in cleanup.nodes
        invariant connections - |cleanup.elems| == old(connections) - |old(cleanup.elems)|
        decreases |cleanup.elems|
      {
        var pos := cleanup.head;
        Free(pos);
        cleanup.Ends();
      }
    }

    method Enlist(c: Connection)
      requires Others(c) && c !in Members()
      modifies active, active.nodes`prev, c`next, c`prev
      ensures Others(c) && active.elems == [c] + old(active.elems) && active.nodes == old(active.nodes) + {c}
      ensures unchanged(c`suspended, c`resuming, c`connectionTimeout, c`nextX, c`prevX)
      ensures unchanged(this, suspended, cleanup, normal, manual)
    {
      ghost var a, s, k := active.nodes - {c}, suspended.nodes - {c}, cleanup.nodes - {c};
      active.Insert(c);
      assert suspended.Valid() && cleanup.Valid() && normal.Valid() && manual.Valid();
      assert Marks(a, s, k, resuming);
    }

    method Delist(c: Connection)
      requires Others(c) && c in active.nodes
      modifies active, active.nodes`next, active.nodes`prev
      ensures Others(c) && active.elems == Without(old(active.elems), c) && active.nodes == old(active.nodes) - {c}
      ensures unchanged(c`suspended, c`resuming, c`connectionTimeout, c`nextX, c`prevX)
      ensures unchanged(this, suspended, cleanup, normal, manual)
    {
      ghost var a, s, k := active.nodes - {c}, suspended.nodes - {c}, cleanup.nodes - {c};
      active.Remove(c);
      assert suspended.Valid() && cleanup.Valid() && normal.Valid() && manual.Valid();
      assert Marks(a, s, k, resuming);
    }

    /** Onto the heads of its lists. */
    method Enter(c: Connection)
      requires Valid() && c !in Members() && c.connectionTimeout == connectionTimeout && !c.suspended && !c.resuming
      modifies active, normal, manual, active.nodes`prev, active.nodes`prevX, c`next, c`prev, c`nextX, c`prevX
      ensures Linked() && LinkedX() && Timed() && Marked() && unchanged(this, suspended, cleanup)
      ensures manual.elems == old(manual.elems)
      ensures active.elems == [c] + old(active.elems) && normal.elems == [c] + old(normal.elems)
      ensures active.nodes == old(active.nodes) + {c} && normal.nodes == old(normal.nodes) + {c}
    {
      assert Others(c);
      InsertTimeout(c);
      Enlist(c);
      Settled(c);
    }

    /** And off again. */
    method Withdraw(c: Connection, ghost onActive: seq<Connection>, ghost onNormal: seq<Connection>)
      requires Linked() && LinkedX() && Timed() && Marked() && c in active.nodes && c in normal.nodes
      requires active.elems == [c] + onActive && normal.elems == [c] + onNormal
      modifies active, normal, manual, active.nodes`next, active.nodes`prev, active.nodes`nextX, active.nodes`prevX
      ensures Linked() && LinkedX() && Timed() && Marked() && unchanged(this, suspended, cleanup)
      ensures manual.elems == old(manual.elems)
      ensures active.elems == onActive && normal.elems == onNormal
    {
      Delist(c);
      RemoveTimeout(c);
      Settled(c);
    }

    /** Refused above the limit or by the checks between; undone if its thread does not start. */
    method AddConnection(now: nat, admitted: bool, started: bool) returns (c: Connection?)
      requires Valid()
      modifies this`connections, active, normal, manual, active.nodes`next, active.nodes`prev, active.nodes`nextX
      modifies active.nodes`prevX
      ensures Valid() && unchanged(suspended, cleanup) && manual.elems == old(manual.elems)
      ensures c == null <==> old(connections) == connectionLimit || !admitted || !started
      ensures c == null ==>
        (connections == old(connections) && active.elems == old(active.elems) && normal.elems == old(normal.elems))
      ensures c != null ==> fresh(c) && c.connectionTimeout == connectionTimeout && c.lastActivity == now
      ensures c != null ==> connections == old(connections) + 1
      ensures c != null ==> active.elems == [c] + old(active.elems) && normal.elems == [c] + old(normal.elems)
      ensures old(Recent(normal.elems, now)) == Yes ==> Recent(normal.elems, now) == Yes
    {
      c := null;
      if connections == connectionLimit || !admitted { return; }
      ghost var was := normal.elems;
      var e := new Connection(connectionTimeout, now);
      assert active.Valid() && suspended.Valid() && cleanup.Valid() && normal.Valid() && manual.Valid();
      var ok := Start(e, started);
      if ok {
        c := e;
        if Recent(was, now) == Yes { RecentFirst(c, was, now); }
      }
    }

    method Start(c: Connection, started: bool) returns (ok: bool)
      requires Valid() && connections < connectionLimit
      requires c !in Members() && c.connectionTimeout == connectionTimeout && !c.suspended && !c.resuming
      modifies this`connections, active, normal, manual, active.nodes`next, active.nodes`prev, active.nodes`nextX
      modifies active.nodes`prevX
      modifies c`next, c`prev, c`nextX, c`prevX
      ensures Valid() && unchanged(suspended, cleanup) && manual.elems == old(manual.elems) && ok == started
      ensures !ok ==>
        (connections == old(connections) && active.elems == old(active.elems) && normal.elems == old(normal.elems))
      ensures ok ==> connections == old(connections) + 1
      ensures ok ==> active.elems == [c] + old(active.elems) && normal.elems == [c] + old(normal.elems)
    {
      ghost var onActive, onNormal := active.elems, normal.elems;
      Enter(c);
      ok := started;
      if ok {
        connections := connections + 1;
      } else {
        Withdraw(c, onActive, onNormal);
      }
    }
  }
}
