/**
 * The backends of the load balancer (main.go:11-50).
 *
 * The Go `Server` interface has one implementation in the program,
 * `simpleServer`, whose `IsAlive` always answers true. Any other
 * implementation is represented by the address it reports and the answer
 * its `IsAlive` gives at the moment of a dispatch.
 */
module Servers {

  datatype Server =
    | Simple(addr: string)
    | Other(addr: string, alive: bool)
  {
    /** The upstream address the server was built with. */
    function Address(): string {
      addr
    }

    /** Whether the server accepts requests. */
    predicate IsAlive() {
      match this
      case Simple(_) => true
      case Other(_, alive) => alive
    }
  }

  /**
   * newSimpleServer: keeps the address it is given and is always alive.
   * Parsing the address as a URL and building the reverse proxy are not
   * part of this model.
   */
  function NewSimpleServer(addr: string): (s: Server)
    ensures s.Address() == addr
    ensures s.IsAlive()
    ensures s.Simple?
  {
    Simple(addr)
  }

  /** The liveness answers of a pool of servers, slot by slot. */
  function Liveness(servers: seq<Server>): (alive: seq<bool>)
    ensures |alive| == |servers|
    ensures forall i :: 0 <= i < |servers| ==> alive[i] == servers[i].IsAlive()
  {
    seq(|servers|, i requires 0 <= i < |servers| => servers[i].IsAlive())
  }

  /** A pool built only from simpleServer values reports every slot alive. */
  lemma SimplePoolAllAlive(servers: seq<Server>)
    requires forall i :: 0 <= i < |servers| ==> servers[i].Simple?
    ensures forall i :: 0 <= i < |servers| ==> Liveness(servers)[i]
  {
  }
}
