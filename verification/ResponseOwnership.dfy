/** Response objects are shared by reference count between their creators and the connections that send them. */
module ResponseOwnership {
  import opened Common

  class Response {
    var referenceCount: nat
    var headers: seq<string>
    var freed: bool
    var readerFreed: nat
    /** References of the application, and of the library while it makes a response itself. */
    ghost var creators: nat
    ghost var holders: set<Connection>

    constructor ()
      ensures Counted() && creators == 1 && holders == {} && !freed && referenceCount == 1
    {
      referenceCount, headers, freed, readerFreed, creators, holders := 1, [], false, 0, 1, {};
    }

    ghost function Owners(): nat
      reads this`creators, this`holders
    {
      creators + |holders|
    }

    /** The count is the number of owners; without one the object is freed, and its reader has been freed once. */
    ghost predicate Counted()
      reads this
    {
      && (freed <==> Owners() == 0)
      && referenceCount == Owners() < UINT_MODULUS
      && readerFreed == if freed then 1 else 0
    }

    /** One owner less: the one that brings the count to 0 frees everything. */
    method Release(ghost owner: Option<Connection>)
      requires Counted() && !freed && (if owner.Some? then owner.value in holders else creators > 0)
      modifies this
      ensures Counted() && (freed <==> old(Owners()) == 1)
      ensures holders == (if owner.Some? then old(holders) - {owner.value} else old(holders))
      ensures creators == (if owner.Some? then old(creators) else old(creators) - 1)
      ensures freed ==> headers == []
    {
      if owner.Some? { holders := holders - {owner.value}; } else { creators := creators - 1; }
      referenceCount := referenceCount - 1;
      if referenceCount != 0 { return; }
      readerFreed := readerFreed + 1;
      while headers != []
        decreases |headers|
        modifies this`headers
      {
        headers := headers[1..];
      }
      freed := true;
    }

    /** The addition is that of an unsigned int, so the owners must stay fewer than it can count. */
    method Acquire(ghost owner: Connection)
      requires Counted() && !freed && owner !in holders && Owners() + 1 < UINT_MODULUS
      modifies this`referenceCount, this`holders
      ensures Counted() && holders == old(holders) + {owner}
    {
      referenceCount := (referenceCount + 1) % UINT_MODULUS;
      holders := holders + {owner};
    }
  }

  class Connection {
    var response: Response?

    constructor ()
      ensures response == null
    {
      response := null;
    }
  }

  // ---------------------------------------------------------------------------------------------
  // All connections and all responses ever made.

  class Library {
    ghost var connections: set<Connection>
    ghost var responses: set<Response>

    constructor ()
      ensures Valid() && connections == {} && responses == {}
    {
      connections, responses := {}, {};
    }

    /** Each response counts exactly its creators and the connections whose response it is. */
    ghost predicate Valid()
      reads this, connections, responses
    {
      && (forall c :: c in connections && c.response != null ==> c.response in responses && c in c.response.holders)
      && (forall r, c :: r in responses && c in r.holders ==> c in connections && c.response == r)
      && (forall r :: r in responses ==> r.Counted())
    }

    ghost function HoldersOf(r: Response): set<Connection>
      reads this, connections
    {
      set c | c in connections && c.response == r
    }

    /** The count of a response that is not freed is that of its owners, and no connection holds a freed one. */
    lemma CountsOwners(r: Response)
      requires Valid() && r in responses
      ensures r.holders == HoldersOf(r)
      ensures r.referenceCount == r.creators + |HoldersOf(r)|
      ensures r.freed <==> r.creators == 0 && HoldersOf(r) == {}
    {
      assert r.holders == HoldersOf(r);
    }

    lemma NoneDangling(c: Connection)
      requires Valid() && c in connections && c.response != null
      ensures c.response in responses && !c.response.freed && c.response.referenceCount > 0
    {
      var r := c.response;
      assert c in r.holders;
      assert |r.holders| > 0;
    }

    method Create(memory: bool) returns (r: Response?)
      requires Valid()
      modifies this`responses
      ensures Valid() && (r == null <==> !memory)
      ensures r != null ==>
        (fresh(r) && responses == old(responses) + {r} && r.creators == 1 && !r.freed && r.holders == {})
      ensures r == null ==> responses == old(responses)
    {
      r := null;
      if !memory { return; }
      r := new Response();
      responses := responses + {r};
    }

    /** By a creator; nothing happens without a response. */
    method Destroy(r: Response?)
      requires Valid() && (r != null ==> r in responses && r.creators > 0)
      modifies r
      ensures Valid()
      ensures r != null ==> r.creators == old(r.creators) - 1 && r.holders == old(r.holders)
      ensures r != null ==> (r.freed <==> r.creators == 0 && HoldersOf(r) == {})
    {
      if r == null { return; }
      r.Release(None);
      CountsOwners(r);
    }

    /** Refused without a response, with one already set, or in a state that takes none. */
    method Queue(c: Connection, r: Response?, allowed: bool) returns (ok: bool)
      requires Valid() && c in connections
      requires r != null ==> r in responses && r.creators > 0 && r.Owners() + 1 < UINT_MODULUS
      modifies c, r
      ensures Valid() && (ok <==> r != null && old(c.response) == null && allowed)
      ensures c.response == if ok then r else old(c.response)
      ensures r != null ==> r.creators == old(r.creators) && r.holders == old(r.holders) + if ok then {c} else {}
    {
      if r == null || c.response != null || !allowed { return false; }
      r.Acquire(c);
      c.response := r;
      ok := true;
    }

    /** The answer of the service: the creator's reference is given up whether or not the response was taken. */
    method Respond(c: Connection, memory: bool, allowed: bool) returns (ok: bool)
      requires Valid() && c in connections
      modifies this`responses, c
      ensures Valid() && (ok <==> memory && allowed && old(c.response) == null)
      ensures forall r :: r in responses - old(responses) ==>
        r.creators == 0 && (r.freed <==> !ok) && (ok <==> c.response == r)
      ensures if ok then c.response != null && c.response in responses - old(responses)
              else c.response == old(c.response)
    {
      var r := Create(memory);
      ok := Queue(c, r, allowed);
      Destroy(r);
    }

    /** The error response is made by the library; one that is already set stays. */
    method TransmitError(c: Connection, memory: bool)
      requires Valid() && c in connections
      modifies this`responses, c
      ensures Valid() && (c.response == null <==> old(c.response) == null && !memory)
      ensures old(c.response) != null ==> c.response == old(c.response)
      ensures forall r :: r in responses - old(responses) ==> r.creators == 0 && (r.freed <==> c.response != r)
    {
      var _ := Respond(c, memory, true);
    }

    /** At the end of a request, at clean-up and when the connection is freed. */
    method Drop(c: Connection)
      requires Valid() && c in connections
      modifies c, responses
      ensures Valid() && c.response == null && unchanged(this)
      ensures var r := old(c.response); r != null ==> (r.freed <==> r.creators == 0 && HoldersOf(r) == {})
      ensures forall r :: r in responses && r != old(c.response) ==>
        r.creators == old(r.creators) && r.freed == old(r.freed)
    {
      if c.response == null { return; }
      var r: Response := c.response;
      NoneDangling(c);
      r.Release(Some(c));
      c.response := null;
      CountsOwners(r);
    }

    method AddConnection() returns (c: Connection)
      requires Valid()
      modifies this`connections
      ensures Valid() && fresh(c) && connections == old(connections) + {c} && c.response == null
    {
      c := new Connection();
      connections := connections + {c};
    }

    method FreeConnection(c: Connection)
      requires Valid() && c in connections
      modifies this`connections, c, responses
      ensures Valid() && connections == old(connections) - {c}
    {
      Drop(c);
      connections := connections - {c};
    }
  }
}
