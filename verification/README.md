# ZTNA lab: verified model

The lab is a small zero-trust access system: a control plane logs clients in and
leases them virtual addresses, a gateway relays framed requests, and the client
turns a signed manifest into a route plan. This project models its in-memory logic
and proves what the parts promise together. Run `dafny verify dfyconfig.toml`.

| file | models |
|---|---|
| `Frames.dfy`, `StreamMachine.dfy`, `FrameCodec.dfy` | the 24-byte frame header, the stream rules and the incremental decoder |
| `Exchange.dfy`, `Relay.dfy`, `Request.dfy`, `HttpRequest.dfy` | one framed HTTP exchange from both ends |
| `Ipv4.dfy`, `RoutePlan.dfy`, `PlanRules.dfy`, `L3.dfy` | prefixes, the full-tunnel decision, plan building and what it requires, longest match, the packet path |
| `Pool.dfy`, `Sessions.dfy`, `SessionStore.dfy`, `Interleaving.dfy`, `ServiceRuns.dfy`, `Grants.dfy` | address leases and sessions, sequentially and under threads, and the grants on them |
| `Replay.dfy`, `NetworkHelper.dfy` | the bounded replay caches, the TOTP step set, the dry-run network helper |
| `DnsMap.dfy`, `Manifest.dfy`, `Pipeline.dfy`, `Client.dfy` | from the registry through the signed manifest to the client's plan |

Conventions. A raised exception is an `Err` (or `None`) result. Code that updates an
object is a class or a method with the source's own fields and loops, proved equal to
a function on values; the theorems are about those functions. Clock readings, random
ids, received chunks, peer replies and dictionary orders are parameters. Digests are
an arbitrary function; a signature is the pair of key and message; `json.loads` is an
arbitrary function that reads back what `json.dumps` writes. Addresses and prefixes
are already parsed from text.

Three results deserve a word. (1) A TOTP counter is single-use, as `DESIGN.md` states
for the control plane, in exactly the runs in which no call, from after one use of a
counter up to a later one, prunes by a window without it (`SingleUseExact`, for any
threads and any clock readings). Two provisos suffice: each call crosses at most one
30-second boundary, and the critical sections come in the order of their clock
readings. The code ensures neither, and `ProvisosNeeded` shows that dropping either
one lets a counter be accepted twice. (2) The
client's limits, not the gateway's, decide which relayed responses arrive:
`ResponseDelivered` states them exactly. (3) The registry lets the route 0.0.0.0/32
through and the plan builder does not; `EndToEnd` names that as one of the two ways a
valid registry yields no plan, and `ValidRegistriesThatFail` gives a registry for each,
and one whose domain "." keeps the stack from starting.

## Model

| member | source | states |
|---|---|---|
| Frames.DecodeEncode | labztna/protocol.py:110-150 | decoding undoes encoding on every frame that encodes |
| Frames.EncodeDecode | labztna/protocol.py:110-150 | encoding undoes decoding on every byte string that decodes |
| Frames.ValidExact | labztna/protocol.py:242-255 | exactly which frames encode: sizes and ranges, and by kind the stream and the flags; TCP_DATA with none, FIN, or RST without payload |
| Frames.WireLayout | labztna/protocol.py:17-25 | the encoding byte by byte: magic, version, type code, and each field most significant byte first |
| Frames.PrefixFree | labztna/protocol.py:122-142 | no encoding is a prefix of another frame's encoding |
| Frames.UniqueParse | labztna/protocol.py:110-150 | concatenated encodings can be cut into frames in one way only |
| Frames.HeaderRoundTrip | labztna/protocol.py:17-25 | the header fields read from a buffer are the frame's own, whatever follows it |
| StreamMachine.AcceptedLanguage | labztna/protocol.py:170-255 | a fresh decoder takes in a frame list and `finish` accepts, if and only if it is at most `max_frames` long, each stream is numbered 0,1,2,… and is one ended TCP stream, or L3 only, or control on stream 0, and nothing follows CLOSE |
| StreamMachine.EndedStreams | labztna/protocol.py:242-255 | every TCP stream of an accepted list ends with FIN, or RST without payload, on its last frame and on no other |
| StreamMachine.RunExact | labztna/protocol.py:200-239 | without `finish`: taken in exactly when every stream so far has its shape; and the decoder's fields are then those of the frames taken in |
| StreamMachine.ReorderingKeepsAcceptance | labztna/protocol.py:200-239 | acceptance is unchanged by reordering that keeps each stream's order and leaves CLOSE last |
| FrameCodecs.FrameCodec.AdvanceStreamState | labztna/protocol.py:215-239 | the imperative stream update is `Advance`, and an error leaves the state alone |
| FrameCodecs.FrameCodec.Feed | labztna/protocol.py:181-213 | the in-place loop returns the frames, the error and the state of the one-shot parse |
| FrameCodecs.FrameCodec.Finish | labztna/protocol.py:170-179 | exactly the two end-of-stream errors |
| FrameCodecs.BufferLimitNeverReached | labztna/protocol.py:209-213 | after a successful feed less than the announced frame is left, so the last check never fires |
| FrameCodecs.ChunkingInvariance | labztna/protocol.py:181-213 | feeding any chunks gives the frames, final state and error of one feed of the whole |
| FrameCodecs.AcceptsExactly | labztna/protocol.py:156-255 | a byte stream, however cut, is accepted as `fs` exactly when it is the encoding of `fs` and `fs` is in the language |
| Exchange.OnlyScripts | labztna/client.py:397-409 | OPEN on stream 1, then data without RST, ending in FIN: the codec's rules force all of it onto stream 1, numbered 1..n, FIN last only |
| Exchange.ControlExact | labztna/protocol.py:258-290 | a control frame is made exactly for texts of at most 8 KiB on the stream its kind belongs to, encodes, and reads back |
| Relay.RelayResponse | labztna/gateway.py:244-287 | the relay loop sends the encoded frames of the chunks it passed on, with FIN only if the upstream ended |
| Relay.RelayedExact | labztna/gateway.py:258-287 | what is passed on is all the upstream sent, in order, until it ended, the session went, the time ran out or 4 MiB were exceeded |
| Relay.FetchResponse | labztna/client.py:391-409 | the client's reading loop and checks compute `Fetched` of the concatenated input |
| Relay.FetchAcceptsOnlyScripts | labztna/client.py:391-409 | an accepted response is one framed exchange on stream 1 and its payload is what `fetch` returns |
| Relay.ResponseDelivered | labztna/gateway.py:244-287 | end to end, for any upstream and any cutting in transit: accepted if and only if the upstream ended and the frames fit 1,024 and 1 MiB, and then the client has exactly the concatenated chunks |
| Request.ReadRequest | labztna/gateway.py:203-242 | the two nested reading loops compute `Received` |
| Request.RequestExact | labztna/gateway.py:203-242 | a body is taken exactly when the first turns carry, however cut, one framed exchange opened for the resource whose payload is that valid request |
| Request.SendRequest | labztna/client.py:318-389 | a path that is not allowed sends nothing, any other the two encoded frames |
| Request.FetchRequestDelivered | labztna/client.py:367-389 | they give the gateway exactly the printed request, however cut and whatever follows |
| HttpRequest.IsValidRequest | labztna/gateway.py:292-317 | the checking loop decides `ValidRequest`, a statement on lines, names and Host values |
| HttpRequest.ValidRequestExact | labztna/gateway.py:292-317 | exactly which payloads pass: the terminator and no NUL, a GET line with a visible target, header lines none of which names content-length or transfer-encoding in any case or padding, and one Host line, for the resource |
| HttpRequest.StripExact | labztna/gateway.py:304-310 | stripping takes all white space off both ends and nothing else |
| HttpRequest.LinesJoin | labztna/gateway.py:295 | no line holds a CRLF, and joining the lines with CRLF gives the payload back |
| HttpRequest.PrintedIsValid | labztna/client.py:318-372 | every printable request fits, passes, and parses back to its path and its single Host value |
| HttpRequest.TerminatorOnlyAtEnd | labztna/gateway.py:292-317 | an accepted request holds the header terminator once, at its end |
| Ipv4.ContainsRange | labztna/routeplan.py:30-31 | membership by leading bits is membership between network and broadcast address |
| Ipv4.MulticastExact | labztna/routeplan.py:75-80 | a multicast prefix is one inside 224.0.0.0/4 |
| Ipv4.SiblingsCover | labztna/policy.py:19-23 | a parent prefix is the union of its two children |
| Ipv4.MergedCoversAll | labztna/policy.py:19-23 | a set without sibling pairs covers everything only through the root |
| Ipv4.CoversEntireIpv4 | labztna/policy.py:19-23 | the merging worklist answers true if and only if every one of the 2^32 addresses is in some network |
| RoutePlans.BuildRoutePlan | labztna/routeplan.py:40-125 | the builder computes `Planned`, error by error |
| RoutePlans.PlannedExact | labztna/routeplan.py:63-99 | which manifests give a plan, and which routes it has: decided by the set of (prefix, owner) claims |
| PlanRules.PlannedWhen | labztna/routeplan.py:40-125 | exactly which manifests give a plan, in version, tunnel mode, address ranges, ids, routes, owners, an address left out, and DNS names |
| PlanRules.PlannedWhat | labztna/routeplan.py:89-125 | what is in it: a route for each owned prefix and no other, the address of each domain under its canonical name |
| PlanRules.CanonicalExact | labztna/dnsmap.py:22 | two names are one domain exactly when they are equal up to ASCII case and trailing dots |
| RoutePlans.NormalizeExact | labztna/routeplan.py:114-124 | which DNS maps are taken in, and that each name keeps its address |
| RoutePlans.PlanLeavesAddressOut | labztna/routeplan.py:98-99 | every plan leaves some IPv4 address without a route |
| RoutePlans.Lookup | labztna/routeplan.py:26-33 | the scan computes the first longest match |
| RoutePlans.LookupExact | labztna/routeplan.py:26-33 | with distinct prefixes, the result is the unique most specific route, or none exactly when none contains the address |
| RoutePlans.FirstOfLongest | labztna/routeplan.py:31-33 | in any list of routes the result is the first of the longest matches |
| RoutePlans.RearrangementInvariance | labztna/routeplan.py:63-97 | rearranging resources and routes changes neither whether a plan is built nor any lookup |
| L3Path.DecodeEncodePacket | labztna/l3.py:25-48 | packets that encode fit a frame and decode back |
| L3Path.EncodeDecodePacket | labztna/l3.py:25-48 | decoded packets encode back |
| L3Path.PacketLayout | labztna/l3.py:25-36 | exactly which packets encode, and the bytes they encode to |
| L3Path.PermittedExact | labztna/l3.py:51-67 | exactly which packets the plan lets out and which frames it lets in: by a route for the destination and by the source |
| L3Path.PacketFrameRoundTrip | labztna/l3.py:51-67 | the frame of a permitted packet encodes at every 64-bit sequence and yields the packet under the same plan |
| L3Path.FramePacketRoundTrip | labztna/l3.py:51-67 | a frame that yields a packet is the one this packet makes |
| L3Path.HandleL3 | labztna/gateway.py:319-373 | the reading loop sends the encoded acknowledgement of `Answer`, or nothing |
| L3Path.AnswerExact | labztna/gateway.py:336-355 | any packet, however cut in transit, is acknowledged exactly when the resource's routes contain the destination and the source is the session's address |
| L3Path.OnlyPacketsAnswered | labztna/gateway.py:336-340 | a first frame that is not a packet on stream 1 gets no answer |
| L3Path.HangUp | labztna/gateway.py:324-333 | a peer that hangs up before its first frame is complete gets no answer, whatever follows |
| L3Path.ReceiveAck | labztna/client.py:464-475 | the client's reading computes `AckFrom` of the concatenated input |
| L3Path.AckExact | labztna/client.py:470-475 | the client takes for an acknowledgement exactly one PONG frame and nothing else, whose text reads as one |
| L3Path.L3Delivered | labztna/client.py:423-475 | end to end and back: the frame of a permitted packet encodes, and the client reads an acknowledgement, with the packet's own destination and size, exactly when the resource's routes contain the destination |
| L3Path.GatewayRouteImpliesPlanRoute | labztna/gateway.py:341-354 | the gateway's route test implies that the client's plan has a route |
| L3Path.SingleResourceRoutesAgree | labztna/gateway.py:341-354 | with one resource the two tests agree |
| Pools.AllocateKeepsPartition | labztna/ipam.py:21-31 | allocation keeps free and leased addresses a duplicate-free partition of the hosts, leases the id one address and changes no other lease, and fails only when all hosts are leased |
| Pools.FirstFreeFirstLeased | labztna/ipam.py:21-38 | new ids get the free addresses in queue order, so an address given back is leased again last |
| Pools.HostsExact | labztna/ipam.py:12-19 | the hosts are all addresses of the prefix but the first and the last, ascending |
| Pools.ReleaseKeepsPartition | labztna/ipam.py:33-38 | release keeps it too, and its guard is always true: the address goes to the end of the queue |
| Pools.VirtualIPPool.AllocateFor | labztna/ipam.py:21-31 | the method updates the three fields as `Allocate` does |
| Pools.VirtualIPPool.ReleaseOf | labztna/ipam.py:33-38 | the method updates the three fields as `Release` does |
| SessionStores.SessionStore.Create | labztna/session.py:49-68 | on the shared objects: sweep, allocate, insert; nothing inserted when the pool is exhausted |
| SessionStores.SessionStore.GetActive | labztna/session.py:70-93 | an expired session is dropped and its address released, a live one is returned unchanged |
| SessionStores.SessionStore.Heartbeat | labztna/session.py:95-121 | the same, and a live one is refreshed |
| SessionStores.SessionStore.Revoke | labztna/session.py:123-133 | drops the session and releases its address, and says whether there was one |
| SessionStores.SessionStore.Scavenge | labztna/session.py:135-155 | drops the expired sessions in dictionary order and releases their addresses in that order |
| Sessions.FateExact | labztna/session.py:49-155 | what any operation does to any one session it does not create |
| ServiceRuns.DoKeepsAtRest | labztna/session.py:49-155 | every operation keeps the hosts partitioned, the leased ids equal to the stored ids, and each session filed under its id with the pool's address |
| ServiceRuns.RunKeepsAtRest | labztna/session.py:49-155 | the same over whole runs |
| ServiceRuns.CreateExact | labztna/session.py:49-68 | a create succeeds exactly when the unexpired sessions leave a host free, and the session has the caller's subject and posture, a host, the next generation and its three times |
| ServiceRuns.AnswersExact | labztna/session.py:70-121 | a look returns the stored unexpired session as it stands, a heartbeat refreshed, and otherwise neither returns any |
| ServiceRuns.ScavengeKeepsAtRest | labztna/session.py:135-155 | a sweep takes out and counts exactly the expired sessions and leaves the others as they are |
| ServiceRuns.DoIsRun | labztna/session.py:49-155 | every operation, uninterrupted, is a run of its lock regions by one thread |
| Sessions.LifetimeExact | labztna/session.py:70-155 | over any unrevoked run a session is found at T exactly when no gap between heartbeats and up to T exceeds `idle` and T is within the absolute limit |
| Sessions.CreatedLifetime | labztna/session.py:57-93 | the same from creation, for the answer of `get_active`; looks and sweeps never prolong it |
| Sessions.DeadStaysDead | labztna/session.py:70-155 | a session that is gone does not return |
| Interleaving.NextKeeps | labztna/session.py:49-155 | every lock region of every thread keeps the invariant |
| Interleaving.Exclusive | labztna/session.py:54-67 | under every interleaving no two sessions share an address, and each holds the pool's entry for its id |
| Interleaving.Conserved | labztna/session.py:82-93 | under every interleaving the hosts are partitioned, a leased id is stored or in one thread's hands, and at rest stored ids are leased ids |
| Interleaving.ReleasedOnce | labztna/session.py:123-155 | each id is released at most once |
| Interleaving.GenerationsIncrease | labztna/session.py:54-67 | successive holders of one address have strictly increasing generations, under every interleaving |
| Interleaving.GenerationsFollowInsertions | labztna/session.py:54-67 | generations order sessions exactly as their insertions do |
| Interleaving.GenerationsNeedNotFollowLeases | labztna/session.py:54-67 | a reachable run in which they do not follow the order of leases of different addresses |
| Interleaving.GoneForever | labztna/session.py:70-155 | an inserted session that has left the store never comes back |
| Grants.FoundExact | labztna/session.py:70-93 | with any regions of other threads between its two, `get_active` finds a created session exactly when it is stored and unexpired at the first and still stored at the second |
| Grants.GrantExact | labztna/control.py:221-245 | at any point of any run, a created session's grant passes either plane exactly from 30 seconds before its issue to 120 after, while `get_active` finds the session, at planes of the same resource and manifest |
| Grants.TokensExact | labztna/auth.py:131-158 | of all signed tokens either plane accepts, within their lifetime, exactly those with the claims a grant of the session it finds would carry |
| Grants.RemovedGrantStaysDead | labztna/gateway.py:91-140 | once the session is gone it passes neither, whatever the threads do, and a new holder of the address has a later generation |
| ReplayCache.Cache.Consume | labztna/gateway.py:471-481 | a key is accepted exactly when it is not among the last 4,096 accepted; set and list stay in step |
| ReplayCache.ConsumeAll | labztna/control.py:400-410 | the same over whole runs |
| ReplayCache.AcceptancesApart | labztna/control.py:400-410 | two acceptances of one key have at least 4,096 acceptances between them |
| Totp.StepSet.ConsumeOtp | labztna/control.py:386-398 | the method prunes and uses the matched step as `UseStep` does |
| Totp.MatchingStepExact | labztna/auth.py:57-69 | a step is found exactly when the text is six digits and the code of a counter within one step of the clock, and then it is the least |
| Totp.ConsumeAll | labztna/control.py:386-398 | a run of attempts accepts exactly the attempts the specification accepts, and each supplied the code of a counter within one step of its first clock reading |
| Totp.AcceptedExact | labztna/control.py:386-398 | in any run of any threads a call is turned down exactly when an earlier call had its counter and every window since, its own included, kept it |
| Totp.SingleUseExact | labztna/control.py:386-398 | no counter is accepted twice (section 5.2 of RFC 6238) if and only if no call from after one use of a counter up to a later use prunes by a window without it |
| Totp.SingleUse | labztna/control.py:386-398 | so a counter is single-use if calls come in clock order and the second use crosses at most one boundary |
| Totp.ProvisosNeeded | labztna/control.py:386-398 | with either proviso dropped there is a run that accepts a counter twice |
| Totp.UsedIsSmall | labztna/control.py:394-397 | the set holds at most four counters |
| NetworkHelpers.DryRunNetworkHelper.Preview | labztna/network_helper.py:51-54 | shows the change that `Apply` would commit, and commits nothing |
| NetworkHelpers.DryRunNetworkHelper.Apply | labztna/network_helper.py:56-61 | commits it; an envelope that is turned down changes nothing |
| NetworkHelpers.DryRunNetworkHelper.RollBack | labztna/network_helper.py:63-71 | empties the network and reports what left |
| NetworkHelpers.GenerationExact | labztna/network_helper.py:56-93 | over any run the generation counts the commands that changed something, never falls, and names one state |
| NetworkHelpers.ReportsReproduceState | labztna/network_helper.py:56-108 | folding the reports of any run from nothing gives the current routes and DNS |
| NetworkHelpers.CommandsTakeHold | labztna/network_helper.py:56-71 | in any run an apply leaves the plan's address, its routes and its DNS entries sorted by name, a rollback nothing, and a repeated command changes and reports nothing |
| NetworkHelpers.ReportedTuplesUnique | labztna/network_helper.py:95-108 | each of the four reported tuples is in order and is the only ordered listing of its entries |
| NetworkHelpers.TextBelowExact | labztna/network_helper.py:95-108 | the order of the entries is that of texts: a proper prefix first, or the smaller character where they first differ |
| DnsMaps.FakeDNSMap.RegisterDomain | labztna/dnsmap.py:21-33 | the method updates iterator and dictionary as `Register` does |
| DnsMaps.RegisterKeepsValid | labztna/dnsmap.py:21-33 | names stay canonical and distinct, the hosts are given out in order, the answer is the address now under the name, and no other name changes |
| DnsMaps.ValidIsInjective | labztna/dnsmap.py:17-33 | the map is injective into the hosts |
| DnsMaps.RegisterAllExact | labztna/stack.py:65-67 | registering a list succeeds exactly when every canonical name is allowed and the new ones fit the addresses left |
| DnsMaps.RegisterAllTwice | labztna/control.py:317-319 | registering the same domains again succeeds and changes nothing |
| Manifests.CheckDefinition | labztna/policy.py:67-83 | the checks and the loop decide which definitions are valid |
| Manifests.DefinitionExact | labztna/policy.py:67-83 | exactly which definitions are valid, in characters, addresses and lengths |
| Manifests.MakeRegistry | labztna/policy.py:86-103 | the loop decides which registries are valid |
| Manifests.RegistryExact | labztna/policy.py:86-103 | exactly which registries are valid: ids of their own, valid definitions, an address left out |
| Manifests.SameHash | labztna/stack.py:65-68 | registration succeeds exactly when all canonical names are allowed and fit the pool, and then gateway and control plane compute the same manifest hash |
| Manifests.VerifiesExactly | labztna/manifest.py:31-119 | exactly which envelopes verify: those sealed under the key, for at most 600 seconds, over a manifest that carries its digest, within their lifetime |
| Manifests.PipelineExact | labztna/routeplan.py:63-125 | for a valid registry and the default pools a manifest gives a plan if and only if each canonical prefix has one owner and none is 0.0.0.0/32 |
| Pipeline.EndToEnd | labztna/manifest.py:72-145 | registry, DNS registration, manifest, envelope, binding and plan composed: the envelope issued for any stored session of any run yields a plan exactly within its lifetime, for that session's binding and a listed resource, if the prefixes allow; with the gateway's hash, the session's address, every domain, an address left out, and a signature good for nothing else |
| Pipeline.ValidRegistriesThatFail | labztna/policy.py:67-103 | valid registries that yield no plan for each of the two reasons, and one that cannot start |
| Clients.LabClient.Login | labztna/client.py:114-178 | all fields are set from one reply that verifies and binds, exactly when it does, or none changes |
| Clients.LabClient.Heartbeat | labztna/client.py:230-260 | token and manifest are renewed together for the same session, or not at all |
| Clients.LabClient.RoutePlan | labztna/client.py:217-228 | after a login the binding and hash checks never fire, and a plan has the session's address |

## Left out

- FrameCodecs.FrameCodec.Feed: does not say what the fields hold after an error; the callers drop the codec then.
- Ipv4.CoversEntireIpv4: models the merging pass of the library's `collapse_addresses`; its later pass only drops networks inside others, never 0.0.0.0/0, and its special case for /32 networks is not part of this model.
- RoutePlans.BuildRoutePlan: domain names are ASCII; case folding of other letters is not part of this model.
- Totp.StepSet.ConsumeOtp: the code of a counter is a parameter, digits are ASCII, and a clock in the first 30 seconds of the epoch, where the library call fails, is a counter without a code.
- Sessions.LifetimeExact: clock readings are real numbers read with each operation in order; floating-point rounding is not part of this model, nor are readings that come late to their lock.
- Interleaving.NextKeeps: thread scheduling is arbitrary, so nothing is said about progress; a thread that stops between two regions keeps its address.
- Relay.ResponseDelivered: socket errors and the parsing of the HTTP status line after the response is assembled.
- Relay.FetchResponse: `recv` returns nonempty chunks until the connection ends.
- Grants.GrantExact: the request id, clock skew and proof of possession checked after the session, and the token's constant fields (issuer, audience, scope, id) and length.
- Pipeline.EndToEnd: JSON typing of envelope and manifest fields; the datatypes rule malformed ones out.
- Sockets, TLS, certificates, HTTP servers, connection slots and deadlines other than as the end of a list of turns.
- Ed25519, SHA-256, PBKDF2 and random numbers, other than symbolically; so password checks and device proofs.
- The audit log, the health and audit endpoints and the demo.
- Posture and policy decisions as claims of their own: each is one chain of tests.
- The reply to a malformed bearer token on the control plane, where `control.py` names an exception it does not import.
