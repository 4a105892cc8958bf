# Round-robin dispatcher of a Go reverse-proxy load balancer

The program is a small HTTP load balancer: it listens on one port and hands
every inbound request to one server of a fixed pool, chosen round-robin and
skipping servers that report they are not alive. This project models the
dispatch core of `main.go` in Dafny and proves what it chooses and how its
rotation counter moves.

- `servers.dfy` (module `Servers`): the `Server` interface as a datatype.
  `Simple(addr)` is the program's `simpleServer`, whose `IsAlive` always
  answers true; `Other(addr, alive)` stands for any other implementation of
  the interface, given by its address and the answer its `IsAlive` gives.
  `Liveness` lists the answers of a pool slot by slot.
- `round_robin.dfy` (module `RoundRobin`): the rotation rule as pure
  functions over those answers. `DeadRun` counts the dead slots a scan
  passes; `Select` is one selection (the chosen slot and the counter after
  it, or `AllDown` after a full turn of dead slots); `Run` is a series of
  selections. The lemmas prove round-robin order, fairness, skipping of a
  dead server and the all-dead behaviour.
- `load_balancer.dfy` (module `Balancer`): the `LoadBalancer` record as a
  class whose fields are the port, the counter and the pool.
  `GetNextAvailableServer` loops the way the Go method does;
  `TryNextAvailableServer` is the same scan bounded to n probes. Both are
  proved against `Select`.
  `MainDispatches` builds the pool that `main` builds and follows its first
  four dispatches.
- `mod_arith.dfy` (module `ModArith`): facts about the remainder used by the
  proofs.

The model follows the code where a stricter design would differ.
`NewLoadBalancer` accepts an empty pool; only selection needs a non-empty
one, because it takes the counter modulo the pool size. The selection loop
has no bound (see Findings). The counter is not protected by a lock.

## Model

| member | source | states |
|---|---|---|
| Servers.NewSimpleServer | main.go:25-46 | a simple server reports exactly the address it was built from and is always alive |
| Servers.SimplePoolAllAlive | main.go:44-46 | a pool made of simple servers has every slot alive |
| RoundRobin.DeadRun | main.go:71-74 | the number of dead slots the scan passes: every counter value it covers points at a dead server, and unless the probe limit is hit the next one is alive |
| RoundRobin.FullTurnDeadIffAllDown | main.go:69-74 | a scan of n probes finds nothing if and only if no server of the pool is alive |
| RoundRobin.Select | main.go:68-79 | a selection picks a live server, the first one met cyclically from slot count mod n; every counter value before it points at a dead slot; the counter rises by the number skipped plus one, at least 1 and at most n; with no live server a full turn is consumed and nothing is picked |
| RoundRobin.AllDownScanNeverExits | main.go:71-74 | when no server is alive the loop as written meets no live slot however many probes it makes |
| RoundRobin.AllAliveNoSkip | main.go:69-76 | with every server alive a selection takes slot count mod n and moves the counter by exactly one |
| RoundRobin.ResumeAfterPick | main.go:69-78 | after a pick the counter points at the slot following the chosen one, so the next selection continues from there |
| RoundRobin.OneDownIsSkipped | main.go:69-78 | with exactly one dead server in a pool of two or more, that server is never chosen; a scan starting on it takes the next slot, any other start is taken as is |
| RoundRobin.Run | main.go:68-79 | a series of selections chooses only live servers |
| RoundRobin.AllAliveCyclic | main.go:69-76 | with every server alive the j-th selection from counter c takes slot (c + j) mod n, so a fresh dispatcher's k-th call returns server (k - 1) mod n |
| RoundRobin.AllAliveFair | main.go:69-76 | with every server alive, q * n selections of a fresh dispatcher choose every server exactly q times |
| Balancer.LoadBalancer.constructor | main.go:58-64 | the port and the pool are stored as given and the counter starts at 0 |
| Balancer.LoadBalancer.GetNextAvailableServer | main.go:68-79 | on a non-empty pool with a live server, returns the server that `Select` picks, which is alive and in the pool; the counter becomes `Select`'s next value; pool and port are unchanged |
| Balancer.LoadBalancer.TryNextAvailableServer | main.go:68-79 | the bounded selection: returns a server exactly when one is alive, the one `Select` picks, and otherwise none after moving the counter by n; pool and port are unchanged |
| Balancer.MainDispatches | main.go:89-96 | the three-server pool of `main` serves facebook, bing, google, facebook on its first four requests |

## Findings

| source | as written | input that shows it | evidently intended | confidence | as-written member | corrected member |
|---|---|---|---|---|---|---|
| main.go:71-74 | the scan loop has no bound and keeps stepping the counter while the current server is dead | a pool in which every server's `IsAlive` answers false (not possible with `simpleServer` alone, whose answer is always true) | stop after one full turn of n probes and report that no server is available | medium, not executed | RoundRobin.AllDownScanNeverExits | Balancer.LoadBalancer.TryNextAvailableServer |

`Balancer.LoadBalancer.GetNextAvailableServer` keeps the code as written and
therefore requires a live server; `RoundRobin.Select`, on which every lemma
rests, is the bounded rule.

## Left out

- HTTP proxying: `Serve` and the reverse proxy it forwards to are network I/O in a library.
- URL parsing and the fatal exit in `newSimpleServer`: `url.Parse` and `os.Exit` are library and process behaviour; every address is accepted.
- Logging: the `fmt.Printf` calls only print.
- Front door: `serveProxy`, `http.HandleFunc` and `http.ListenAndServe` are server plumbing; `serveProxy` makes one selection per request and forwards to it.
- Concurrency: handlers run in parallel and race on the unguarded counter increments; the model treats each selection as one sequential call.
- Balancer.LoadBalancer.GetNextAvailableServer: the counter is an unbounded natural number, so the wrap-around of Go's `int` after overflow is not modelled.
- Liveness that changes during a scan: each selection reads the pool's liveness answers as one snapshot.
