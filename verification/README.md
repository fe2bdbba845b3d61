# ECH workers client and relay worker, modelled in Dafny

This project models the decision logic of two programs that work together as a tunnel.

The desktop client (`gui.py`) does four things that are modelled here:

- It parses a list of candidate endpoints.
- It measures the candidates in two tiers and picks the best one (`SmartSelector`).
- It builds the command line for the tunnel core and classifies the core's output lines (`WorkerThread.run`).
- It manages a list of connection profiles (`ConfigManager`).

The relay (`_workers.js`) is a Cloudflare Worker that does three things that are modelled here:

- It answers plain HTTP requests.
- It parses the `CONNECT:host:port|payload` handshake sent over a WebSocket.
- It dials the requested host, and falls back to a pool of preferred addresses when that dial fails.

Everything is written as pure functions over immutable datatypes. The network, the file system and randomness are parameters:

- a `connect` oracle for `tcp_ping`;
- a `Measurements` record for `pick_best`, holding tier-1 results, completion order, re-probe results and a standard-deviation function;
- a `dialOk` oracle and a pool index `pick` for the worker;
- id-minting functions for the profile store.

Modules:

| file | module | what it holds |
|---|---|---|
| options.dfy | Options | `Option<T>` |
| text.dfy | Text | Python's `strip`, `split`, `int()` and `lower()`; JavaScript's `split`, `lastIndexOf` and `parseInt` |
| sorting.dfy | Sorting | the stable sort behind `list.sort(key=...)` |
| selector.dfy | Selector | candidate parsing, the `tcp_ping` address split and sentinel, `pick_best` |
| launch.dfy | Launch | stale-listener port, proxy URL, endpoint resolution, command line, output classification, `run` |
| profiles.dfy | Profiles | `get_cur`, `update_cur`, `add_new`, `del_cur`, `rename_cur`, `load` normalisation |
| worker.dfy | Worker | `fetch` routing, `parseTarget`, pools, `getFallbackAddress`, `tryConnect`, `handleSession` |

Two behaviours of `gui.py` are worth noting:

- A whitespace-only setting (`server`, `listen`, `token` or `routing`) is truthy in Python. Its flag is therefore passed with an empty value, not omitted (`Launch.BlankFieldGivesEmptyArgument`).
- The final `else top[0]` of `pick_best` cannot be reached. Every sample list starts with the candidate's tier-1 latency, so `scored` is never empty. The model has no such branch, and `Selector.Winner` needs only a non-empty top set.

## Model

| member | source | states |
|---|---|---|
| Text.JoinSplit | gui.py:160 | splitting on a separator loses nothing: joining the pieces back gives the original text |
| Text.StripByEmpty | gui.py:278 | a text strips to the empty string exactly when all its characters are whitespace |
| Text.SplitJoin | gui.py:160 | splitting the joined text of separator-free pieces gives those pieces back |
| Text.StripByIdempotent | gui.py:160 | stripping an already stripped text changes nothing |
| Text.SplitCount | _workers.js:166 | `split(':')` yields one more piece than there are colons |
| Text.LowerContainsIff | gui.py:320-321 | a word made only of lower-case letters occurs in `t.lower()` exactly when it occurs in `t` ignoring ASCII case |
| Text.PyIntOfDigits | gui.py:144 | `int()` of a non-empty digit string is its decimal value |
| Text.JsParseIntOfNat | _workers.js:180 | `parseInt` reads the decimal text of any natural number back as that number |
| Sorting.SortBy | gui.py:175 | the sort result is ordered by the key and is a permutation of its input |
| Sorting.SortStable | gui.py:175 | elements that share a key keep their relative order |
| Sorting.SortHeadIsFirstMinimum | gui.py:192-193 | the head of the sorted list is the first element, in input order, with the least key |
| Sorting.PrefixHoldsBest | gui.py:175-176 | every element left out of the first n of the sorted list has a key at least that of the n-th |
| Selector.KeepCandidatesSound | gui.py:160 | every parsed candidate is non-empty, is not a `#` comment, has no surrounding whitespace, and is the stripped form of an input line |
| Selector.KeepCandidatesComplete | gui.py:160 | every input line that is non-empty and not a comment after stripping appears, stripped, among the candidates |
| Selector.ParseCandidatesLines | gui.py:160 | parsing goes line by line in order: the candidates of `a + "\n" + b` are those of `a` followed by those of `b` |
| Selector.ParseCandidatesOneLine | gui.py:160 | a single line yields its stripped form when that is kept, and nothing otherwise |
| Selector.BlankHasNoCandidates | gui.py:160-161 | a text that is blank after stripping yields no candidate |
| Selector.SplitLastColon | gui.py:140 | the two parts of `rsplit(":", 1)` rejoin with a colon to the target, and the second part has no colon |
| Selector.ProbeAddress | gui.py:139-145 | a target without a colon is probed whole on the given port; the host or port changes only when the text after the last colon is all digits |
| Selector.ProbeAddressDigitSuffix | gui.py:139-145 | for `host:digits`, the probe goes to the host with brackets stripped and the digits as port, even when the host is an IPv6 literal |
| Selector.ProbeAddressWholeTarget | gui.py:139-145 | with no colon, or a suffix that is not all digits, the whole target is probed on the given port |
| Selector.TcpPing | gui.py:132-156 | the first component is always the original target; the latency is 99999 when the connect fails or the port is outside 0..65535; a successful connect to an in-range port reports exactly the latency it measured |
| Selector.Qualifying | gui.py:166-172 | tier 1 keeps at most one entry per completed probe, all below 5000 ms |
| Selector.Tier1 | gui.py:166-172 | tier 1 has no more entries than there are candidates, each a parsed candidate with a latency below 5000 ms |
| Selector.Tier1Members | gui.py:166-172 | tier 1 holds exactly the candidates paired with their own probe result, where that result is below 5000 ms |
| Selector.Tier1NonEmpty | gui.py:171-174 | tier 1 is non-empty exactly when some probe reported less than 5000 ms |
| Selector.Top | gui.py:175-176 | the top set holds min(5, number of survivors) entries, sorted ascending by latency, drawn from the survivors with multiplicity |
| Selector.TopAllSurvivors | gui.py:175-176 | with at most five survivors, the top set holds every one of them |
| Selector.TopFromSurvivors | gui.py:175-176 | the top set is drawn from the tier-1 survivors |
| Selector.TopHead | gui.py:175-177 | the head of the top set is the first survivor with the least latency, and no survivor is faster |
| Selector.TopHoldsBest | gui.py:175-176 | every survivor left out of the top set is no faster than the slowest entry in it |
| Selector.Usable | gui.py:183-186 | at most three re-probe samples are kept, each below 5000 ms, and each is the result of one of the re-probes |
| Selector.UsableIsFilter | gui.py:183-186 | the kept samples are exactly the re-probes that reported less than 5000 ms, in probe order |
| Selector.UsableComplete | gui.py:183-186 | every re-probe below 5000 ms is kept |
| Selector.Samples | gui.py:181-186 | each sample list starts with the tier-1 latency and holds 1 to 4 values; every later value is a re-probe result below 5000 ms |
| Selector.ScoreTop | gui.py:181-190 | one scored entry per top entry, in top order, for the same endpoint |
| Selector.ScoreTopBounds | gui.py:181-190 | each scored mean is below 5000 ms; with one sample, score and mean both equal the tier-1 latency, because stdev counts as 0 |
| Selector.Winner | gui.py:192-193 | the tier-2 winner is one of the scored top entries |
| Selector.Best | gui.py:192-193 | the head of the scored list sorted by score is one of its entries |
| Selector.BestIsFirstMinimum | gui.py:192-193 | the tier-2 winner has the least score, and is the earliest top entry with that score |
| Selector.PickBest | gui.py:159-193 | no endpoint exactly when there is no candidate; a returned endpoint is always a parsed candidate; at most 15 re-probes, and any re-probe comes with the "retesting" progress step |
| Selector.PickBestSingle | gui.py:162 | a lone candidate is returned with whatever its probe reported, even 99999, and no tiering |
| Selector.PickBestFallback | gui.py:174 | when no probe is below 5000 ms, the first candidate comes back with latency 0 |
| Selector.PickBestShortCircuit | gui.py:175-177 | when some probe is under 15 ms, the fastest candidate comes back with its own tier-1 latency, and no re-probe is issued |
| Selector.PickBestRetests | gui.py:175-193 | past the short circuit, the result is the tier-2 winner of a non-empty top set of at most 5, with its mean, after 3 re-probes per top entry |
| Selector.PickBestStability | gui.py:179-193 | the reported endpoint has the minimum composite score among the top set, and the reported latency is its mean, below 5000 ms |
| Selector.PickBestLatencyBelowThreshold | gui.py:171-193 | whenever some candidate passes tier 1, the reported latency is below 5000 ms |
| Launch.StalePort | gui.py:267-273 | a port is read only from an address containing a colon, and only when it lies in 0..65535 |
| Launch.StalePortOfAddress | gui.py:268-270 | for `host:digits` (port at most 65535), the probed port is the digits, whatever the host |
| Launch.NeedsCleanup | gui.py:268-273 | the running core is killed exactly when a port was read from the listen address and something accepts connections on it |
| Launch.StalePortDefault | gui.py:267-270 | the default listen address probes port 30000 |
| Launch.ProxyUrl | gui.py:332-333 | the proxy URL always has a scheme and names 127.0.0.1 or localhost; an address naming 127.0.0.1 or localhost is kept when it has a scheme and gets `http://` otherwise; any other address is replaced by `http://127.0.0.1:30000` |
| Launch.ProxyUrlDefault | gui.py:332-333 | the default listen address gives `http://127.0.0.1:30000` |
| Launch.Resolve | gui.py:275-296 | direct mode exactly when the list is blank; a resolved endpoint is always a parsed candidate; a fixed endpoint is the first candidate and occurs only in manual mode |
| Launch.ResolveAuto | gui.py:278-283 | in auto mode a non-blank list resolves to exactly the endpoint pick_best chose, with its latency, and to no endpoint when pick_best found none |
| Launch.ResolveNothing | gui.py:278-294 | with a non-blank list, nothing is resolved exactly when the list has no candidate, e.g. only comments |
| Launch.ResolveFixedFirstLine | gui.py:287-290 | in manual mode, a usable first line is used stripped, whatever follows it |
| Launch.Command | gui.py:298-307 | the command starts with the core path, followed by flag/value pairs |
| Launch.CommandFlags | gui.py:298-307 | the flags are those of the set fields, each once, in the order -f, -l, -token, -routing, -ip |
| Launch.CommandValues | gui.py:299-307 | reading the command back gives each field's stripped value, and the endpoint verbatim after -ip |
| Launch.CommandIpLast | gui.py:306-307 | with an endpoint, `-ip` and the endpoint are the last two arguments |
| Launch.BlankFieldGivesEmptyArgument | gui.py:301 | a whitespace-only server setting is truthy, so `-f` is passed with an empty argument |
| Launch.Classify | gui.py:318-322 | a line that is blank after stripping is not shown; any other line is shown as its stripped text |
| Launch.ClassifyAll | gui.py:314-322 | every shown entry is the classification of one of the output lines, and when no line is blank every line is shown |
| Launch.ClassifyLevels | gui.py:318-322 | a non-blank line is a success exactly when it contains "connected" in any case; it is a failure exactly when it does not, but contains "error" or "panic"; otherwise it is informational |
| Launch.ClassifyAllAppend | gui.py:314-323 | output is classified line by line, in order |
| Launch.Run | gui.py:261-307 | run stops exactly when the core is missing; otherwise the endpoint is resolved from the profile's list and mode, the command is the one built from the profile's settings and that endpoint, and the stale listener is killed exactly when a port was read and is in use |
| Launch.RunIpIffResolved | gui.py:275-307 | the core receives `-ip` exactly when an endpoint was resolved, with that endpoint, and it is a parsed candidate |
| Launch.RunDirect | gui.py:278-307 | a blank endpoint list starts the core in direct mode, without `-ip` |
| Profiles.GetCur | gui.py:219-223 | a profile comes back exactly when the list is non-empty; it is in the list and becomes current; with no profile, nothing changes |
| Profiles.GetCurFound | gui.py:220-221 | when the current id names a profile, the first such profile is returned and nothing changes |
| Profiles.GetCurFallback | gui.py:222 | when the current id names no profile, the first profile is returned and current is reset to its id |
| Profiles.GetCurIdempotent | gui.py:219-223 | a second get_cur returns the same profile and leaves the configuration unchanged |
| Profiles.Replace | gui.py:225-226 | each profile whose id matches is replaced by the new value, and every other profile stays at its position |
| Profiles.UpdateCur | gui.py:224-227 | exactly the profiles whose id matches are replaced; all others and the current id stay |
| Profiles.UpdateCurKeepsIds | gui.py:224-227 | update_cur keeps the list of ids |
| Profiles.UpdateCurIdempotent | gui.py:224-227 | updating twice with the same profile equals updating once |
| Profiles.AddNew | gui.py:228-230 | the old list is kept as a prefix, followed by a copy of the current settings under the new id and name, which becomes current |
| Profiles.AddNewBecomesCurrent | gui.py:228-230 | with a fresh id, get_cur afterwards returns the new profile |
| Profiles.AddNewKeepsUnique | gui.py:228-230 | add_new keeps ids unique when the new id is fresh |
| Profiles.Without | gui.py:233 | the filtered list is no longer than the original, and no remaining profile has the current id |
| Profiles.WithoutMembers | gui.py:233 | the filter keeps every profile with another id, and only profiles from the list |
| Profiles.DelCur | gui.py:231-234 | with at most one profile nothing happens; otherwise the current id is filtered out and the first remaining profile becomes current, or IndexError when none remains |
| Profiles.DelCurRemovesOne | gui.py:231-234 | with unique ids and at least two profiles, exactly the current profile is removed |
| Profiles.WithoutUnique | gui.py:233 | filtering out a unique id removes just that profile |
| Profiles.WithoutAbsent | gui.py:233 | filtering out an id no profile has changes nothing |
| Profiles.DelCurKeepsOne | gui.py:231-234 | with unique ids and at least two profiles, del_cur never raises and leaves a profile |
| Profiles.RenameCur | gui.py:235 | renaming keeps the number of profiles and their ids |
| Profiles.RenameCurEffect | gui.py:235 | get_cur's profile gets the new name, and every profile with another id is untouched |
| Profiles.Normalize | gui.py:205-207 | each profile keeps its settings, gets a minted id only where it had none, and gets `auto_best` True only where it had none |
| Profiles.Load | gui.py:199-218 | load always leaves a profile: an empty list becomes the default profile under a minted id, made current; otherwise the profiles are the stored ones normalised, in order, and a falsy current becomes the first profile's id |
| Profiles.LoadStore | gui.py:199-209 | loading what a normalised configuration stores gives it back unchanged |
| Profiles.LoadNormalized | gui.py:203-208 | after load every profile has `auto_best`, and current is a truthy id |
| Worker.Route | _workers.js:50-68 | 101 exactly for `Upgrade: websocket`; otherwise 200 at `/` and 426 elsewhere |
| Worker.CutAt | _workers.js:175-176 | cutting at `\|` keeps the prefix before the first `\|` |
| Worker.CutAtFront | _workers.js:175-176 | cutting `x\|y` at `\|` gives `x` when `x` has no `\|` |
| Worker.ParseTarget | _workers.js:162-185 | a parsed host has no `:` or `\|`, and a parsed port is never 0 |
| Worker.ParseTargetNone | _workers.js:165-184 | parsing fails exactly when the message has fewer than two colons |
| Worker.ParseTargetRoundTrip | _workers.js:162-185 | `verb:host:port\|payload` parses back to that host and port, whatever the payload holds, colons included |
| Worker.OrPort | _workers.js:180 | `parseInt(...) \|\| 443`: NaN and 0 give the fallback, any other port is kept |
| Worker.ParseTargetDefaultPort | _workers.js:180 | any port field that parseInt reads as NaN or 0 (empty, `0`, letters) gives port 443 |
| Worker.Pool | _workers.js:216-230 | a named, existing region other than AUTO uses its own pool; no pool is empty |
| Worker.AutoPool | _workers.js:220-230 | in AUTO mode, and for an unknown region, the pool is SG ++ JP ++ US ++ GENERAL, so no TW or HK entry is ever drawn |
| Worker.FallbackAddress | _workers.js:216-245 | an empty pool gives 104.16.0.0:443; an entry without a colon gives port 443; otherwise the host is the text before the last colon and the port is the parsed rest, so host + ":" + rest is the entry |
| Worker.FallbackAddressOfEntry | _workers.js:238-244 | an entry `host:port` gives back that host and port, even when the host has colons of its own |
| Worker.ShippedPoolsHavePorts | _workers.js:12-42 | every entry of the shipped pools yields port 443, 8443 or 50001, so with these pools the fallback never falls back to the requested port |
| Worker.TryConnect | _workers.js:188-213 | the result is always a dial that succeeded; a successful direct dial wins; any other result goes to the fallback host |
| Worker.TryConnectPortRule | _workers.js:206 | after a failed direct dial, the fallback uses its own port unless that port is NaN or 0; in that case it uses the requested port |
| Worker.TryConnectFails | _workers.js:188-213 | tryConnect yields null exactly when both dials fail |
| Worker.Close | _workers.js:80-91 | close clears isConnected, keeps the remote and writer variables, and ends the trace with a WebSocket close |
| Worker.Dialled | _workers.js:115-130 | after the dial, the session is connected exactly when the dial succeeded, with a writer and that remote |
| Worker.Handshake | _workers.js:108-131 | a handshake either ends connected, announced by CONNECTED, with a writer and a remote; or it ends closed. It never writes to the remote |
| Worker.Run | _workers.js:71-139 | after any sequence of events from a fresh WebSocket, a connected session has a writer and a remote socket, and a session that has neither sent CONNECTED nor closed is not connected |
| Worker.Step | _workers.js:93-139 | close and error events always leave the session disconnected; binary data is forwarded only while connected with a writer, otherwise dropped; text is ignored while connected or without a CONNECT/conn prefix; every change of isConnected is announced by CONNECTED or a WebSocket close |
| Worker.HandshakeOutcomes | _workers.js:108-131 | a parse failure closes without CONNECTED; a dial failure sends "ERROR: Connection failed" and then closes; a successful dial connects and sends CONNECTED |
| Worker.HandshakeDirect | _workers.js:115-126 | a target that accepts the direct dial is connected to directly |
| Worker.RunSafe | _workers.js:71-139 | from a fresh WebSocket: isConnected holds exactly when a CONNECTED was sent and the socket has not closed since; a connected session has a remote and a writer; every frame forwarded to the remote was forwarded while connected |
| Worker.DroppedBeforeHandshake | _workers.js:98-104 | a binary frame before any handshake is dropped |
| Worker.ConnectThenForward | _workers.js:98-126 | a handshake the target accepts, followed by a binary frame, gives CONNECTED, the pump start, then the write |

## Left out

- Process control, the single-instance socket, autostart, the registry and all PyQt UI classes are not part of this model. They are process, OS and rendering machinery.
- Real sockets are not modelled. DNS resolution, TCP connects and timing in `tcp_ping` are the `connect` oracle. The socket close in `finally` has no observable effect here.
- The thread pool is not modelled. Its completion order is the `arrival` permutation in `Measurements`.
- `time.sleep` is not modelled.
- `statistics.stdev` is an arbitrary function parameter. The square root and floating-point rounding are not modelled, and latencies are exact reals.
- Progress messages are recorded as if `callback_msg` is always supplied. Their text and the UI messages of `run` (status texts, the colours of the selection messages and of the core's output lines, latency labels) are not modelled.
- `str.isdigit()` and `str.lower()` are modelled for ASCII only. Python's `isdigit` also accepts other Unicode digits that `int()` rejects. In `tcp_ping` that raises inside the `try`, so the latency is 99999. The model treats such targets as having no port.
- `int()` is modelled for ASCII digits only. Python's `int()` also accepts non-ASCII Unicode decimal digits, so a listen port written in such digits is read by the program, but the model reads no port and skips the cleanup.
- JSON `null` or non-string values in stored settings are not modelled. An absent key is `None`, and a present one is a string (or a boolean for `auto_best`). A configuration file that cannot be read or parsed also ends in `add_default`; the model takes the parsed profile list as its input.
- `save()` is a no-op. `uuid4()` is a minting function parameter.
- The starting process, the stdout reading loop and `check_geoip`'s HTTP lookups are not modelled. Only the proxy URL derivation and the per-line classification are.
- The remote-to-WebSocket pump (`pumpRemoteToWs`) is a `StartPump` action. Stream reads and writes, lock release and the `readyState` checks are not modelled. A failed remote write is the `writeOk` flag of a binary frame, and a failed `webSocket.send` is not modelled.
- The `await` points of the message handler are not modelled, so each event is handled atomically. Two handshakes racing on one WebSocket are not represented.
- `Math.random()` is a natural number `pick`. `pick % |pool|` stands for `Math.floor(Math.random() * pool.length)`, which reaches every index.
- A region name that matches an inherited property of the pool object (such as `constructor`) is not modelled. Only the pool object's own keys count.
- The request URL is not parsed. `fetch` routing takes the path as given.
- `parseInt` is exact. Double-precision rounding of very long digit runs is not modelled.
- Selector.PickBest: its own contract states membership and bounds only. The per-case results are stated by the PickBest lemmas listed above.
