/**
 * The dispatcher of main.go:52-79: a fixed pool of servers and a rotation
 * counter that every selection advances.
 */
module Balancer {
  import opened Servers
  import opened RoundRobin

  datatype Option<T> = None | Some(value: T)

  class LoadBalancer {
    var port: string
    var roundRobinCount: nat
    var servers: seq<Server>

    /** NewLoadBalancer: keeps the port and the pool as given, counter at 0. */
    constructor (port: string, servers: seq<Server>)
      ensures this.port == port && this.servers == servers
      ensures roundRobinCount == 0
    {
      this.port := port;
      this.roundRobinCount := 0;
      this.servers := servers;
    }

    /**
     * getNextAvaiableServer as written: scan from slot count % n, stepping
     * the counter past every dead server, then step it once more for the
     * server returned. The loop has no bound, so it only finishes when some
     * server is alive; the pool must be non-empty for the modulus.
     */
    method GetNextAvailableServer() returns (server: Server)
      requires |servers| > 0
      requires SomeAlive(Liveness(servers))
      modifies this`roundRobinCount
      ensures servers == old(servers) && port == old(port)
      ensures server.IsAlive()
      ensures server in servers
      ensures old(roundRobinCount) < roundRobinCount <= old(roundRobinCount) + |servers|
      ensures var s := Select(Liveness(servers), old(roundRobinCount));
              s.Picked? && server == servers[s.index] && roundRobinCount == s.next
    {
      ghost var alive := Liveness(servers);
      ghost var start := roundRobinCount;
      ghost var skip := DeadRun(alive, start, |servers|);
      FullTurnDeadIffAllDown(alive, start);
      server := servers[roundRobinCount % |servers|];
      assert skip < |servers| && LiveAt(alive, start + skip);
      while !server.IsAlive()
        invariant start <= roundRobinCount <= start + skip
        invariant server == servers[roundRobinCount % |servers|]
        invariant server.IsAlive() == LiveAt(alive, roundRobinCount)
        decreases start + skip - roundRobinCount
      {
        roundRobinCount := roundRobinCount + 1;
        server := servers[roundRobinCount % |servers|];
      }
      assert roundRobinCount == start + skip;
      roundRobinCount := roundRobinCount + 1;
    }

    /**
     * The bounded selection: the same scan, but giving up after one full
     * turn of n probes, in which case no server is returned and the counter
     * has moved by n.
     */
    method TryNextAvailableServer() returns (server: Option<Server>)
      requires |servers| > 0
      modifies this`roundRobinCount
      ensures servers == old(servers) && port == old(port)
      ensures server.Some? <==> SomeAlive(Liveness(servers))
      ensures server.Some? ==> server.value.IsAlive()
      ensures match Select(Liveness(servers), old(roundRobinCount))
              case Picked(index, next) => server == Some(servers[index]) && roundRobinCount == next
              case AllDown(next) => server == None && roundRobinCount == next
    {
      ghost var alive := Liveness(servers);
      ghost var start := roundRobinCount;
      ghost var skip := DeadRun(alive, start, |servers|);
      FullTurnDeadIffAllDown(alive, start);
      var probes := 0;
      while probes < |servers| && !servers[roundRobinCount % |servers|].IsAlive()
        invariant 0 <= probes <= skip
        invariant roundRobinCount == start + probes
        decreases |servers| - probes
      {
        assert !LiveAt(alive, roundRobinCount);
        roundRobinCount := roundRobinCount + 1;
        probes := probes + 1;
      }
      if probes < |servers| {
        assert LiveAt(alive, roundRobinCount) && probes == skip;
        server := Some(servers[roundRobinCount % |servers|]);
        roundRobinCount := roundRobinCount + 1;
      } else {
        assert skip == |servers|;
        server := None;
      }
    }
  }

  /**
   * The pool that main builds (main.go:90-96): three simple servers behind
   * port 8081. Its first four dispatches go to the three servers in order
   * and then back to the first.
   */
  method MainDispatches() returns (targets: seq<string>)
    ensures targets == ["https://www.facebook.com", "https://www.bing.com",
                        "https://www.google.com", "https://www.facebook.com"]
  {
    var pool := [NewSimpleServer("https://www.facebook.com"),
                 NewSimpleServer("https://www.bing.com"),
                 NewSimpleServer("https://www.google.com")];
    var lb := new LoadBalancer("8081", pool);
    SimplePoolAllAlive(pool);
    targets := [];
    for call := 0 to 4
      invariant lb.servers == pool && lb.roundRobinCount == call
      invariant |targets| == call
      invariant forall j :: 0 <= j < call ==> targets[j] == pool[j % 3].Address()
    {
      AllAliveNoSkip(Liveness(pool), call);
      var server := lb.GetNextAvailableServer();
      targets := targets + [server.Address()];
    }
  }
}
