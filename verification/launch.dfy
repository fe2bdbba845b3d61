/**
 * What the client's worker thread (WorkerThread.run in gui.py) decides before
 * and after it starts the core process: whether a stale listener must be
 * cleared, which endpoint the core is pointed at, the core's command line, and
 * how each line the core prints is classified. Also the proxy URL the
 * geolocation check derives from the listen address.
 */
module Launch {
  import opened Options
  import opened Text
  import opened Selector
  import opened Profiles

  const CoreExe: string := "ech-workers.exe"

  /** The listen address run works with: the profile's, or 127.0.0.1:30000 when the profile has none. */
  function ListenAddress(s: Settings): string {
    s.listen.GetOr(DefaultListen)
  }

  // ------------------------------------------------------------ stale listener

  /**
   * The port run probes for a stale listener: for an address containing a
   * colon, its last colon-separated field read by int(). None when there is no
   * colon, when int() raises, or when the port is outside 0..65535 (the probe
   * then raises OverflowError); every one of these skips the cleanup.
   */
  function StalePort(listen: string): (r: Option<int>)
    ensures r.Some? ==> ':' in listen && 0 <= r.value <= 65535
  {
    if ':' !in listen then None
    else
      var fields := Split(listen, ':');
      var p := PyInt(fields[|fields| - 1]);
      if p.Some? && 0 <= p.value <= 65535 then p else None
  }

  /** Whether run kills the running core first: a port was read and something accepts connections on it. */
  function NeedsCleanup(listen: string, inUse: int -> bool): (r: bool)
    ensures r <==> StalePort(listen).Some? && inUse(StalePort(listen).value)
  {
    match StalePort(listen)
    case Some(p) => inUse(p)
    case None => false
  }

  /** A digit string after the last colon is the port, whatever precedes it. */
  lemma StalePortOfAddress(host: string, n: nat)
    requires n <= 65535
    ensures StalePort(host + ":" + NatToString(n)) == Some(n)
  {
    var d := NatToString(n);
    var listen := host + ":" + d;
    assert ':' !in d by {
      forall k | 0 <= k < |d| ensures d[k] != ':' { assert In(d[k], Digits); }
    }
    assert listen[|host|] == ':';
    SplitAppend(host, d, ':');
    SplitNoSeparator(d, ':');
    PyIntOfDigits(d);
  }

  /** The default listen address probes port 30000. */
  lemma StalePortDefault()
    ensures StalePort(DefaultListen) == Some(30000)
  {
    assert DefaultListen == "127.0.0.1" + ":" + NatToString(30000);
    StalePortOfAddress("127.0.0.1", 30000);
  }

  // ------------------------------------------------------------ proxy URL

  /**
   * The proxy URL check_geoip uses: the listen address with `http://` put in
   * front unless it already has a scheme, replaced by the default local
   * proxy when it names neither 127.0.0.1 nor localhost.
   */
  function ProxyUrl(listen: string): (r: string)
    ensures Contains(r, "://")
    ensures Contains(r, "127.0.0.1") || Contains(r, "localhost")
    ensures Contains(listen, "127.0.0.1") || Contains(listen, "localhost") ==>
      r == (if Contains(listen, "://") then listen else "http://" + listen)
    ensures !Contains(listen, "127.0.0.1") && !Contains(listen, "localhost") ==> r == DefaultProxy
  {
    var url := if Contains(listen, "://") then listen else "http://" + listen;
    ContainsShift("http://", listen, "127.0.0.1");
    ContainsShift("http://", listen, "localhost");
    if !Contains(url, "127.0.0.1") && !Contains(url, "localhost") then
      DefaultProxyShape();
      DefaultProxy
    else
      assert !Contains(listen, "://") ==> OccursAt(url, "://", 4);
      url
  }

  const DefaultProxy: string := "http://127.0.0.1:30000"

  /** The default proxy has a scheme and names 127.0.0.1. */
  lemma DefaultProxyShape()
    ensures OccursAt(DefaultProxy, "://", 4) && OccursAt(DefaultProxy, "127.0.0.1", 7)
  {
    assert DefaultProxy[4..7] == "://";
    assert DefaultProxy[7..16] == "127.0.0.1";
  }

  /**
   * A word found in `s` is found in `p + s`; conversely a word found in
   * `p + s` whose first character `p` lacks is found in `s`.
   */
  lemma ContainsShift(p: string, s: string, w: string)
    ensures Contains(s, w) ==> Contains(p + s, w)
    ensures Contains(p + s, w) && w != [] && w[0] !in p ==> Contains(s, w)
  {
    if Contains(s, w) {
      var i :| 0 <= i <= |s| - |w| && OccursAt(s, w, i);
      assert (p + s)[|p| + i..|p| + i + |w|] == s[i..i + |w|];
      assert OccursAt(p + s, w, |p| + i);
    }
    if Contains(p + s, w) && w != [] && w[0] !in p {
      var i :| 0 <= i <= |p + s| - |w| && OccursAt(p + s, w, i);
      assert (p + s)[i] == (p + s)[i..i + |w|][0] == w[0];
      assert i >= |p|;
      assert s[i - |p|..i - |p| + |w|] == (p + s)[i..i + |w|];
      assert OccursAt(s, w, i - |p|);
    }
  }

  /** The default listen address gives the default proxy URL. */
  lemma ProxyUrlDefault()
    ensures ProxyUrl(DefaultListen) == DefaultProxy
  {
    var s := DefaultListen;
    assert OccursAt(s, "127.0.0.1", 0);
    assert "://"[1] == '/' && '/' !in s;
    MissingCharNotContained(s, "://", 1);
    assert "http://" + s == DefaultProxy;
  }

  // ------------------------------------------------------------ endpoint resolution

  /** How run settles the endpoint, with the status text it reports for each case. */
  datatype Resolution =
    | Direct                                   // blank list: "direct mode"
    | Selected(endpoint: string, latency: real) // auto mode found an endpoint
    | SelectionFailed                          // auto mode found none
    | Fixed(endpoint: string)                  // manual mode: the first listed endpoint
    | EmptyList                                // manual mode, but nothing listed

  /** The endpoint passed to the core, if any. */
  function Endpoint(r: Resolution): Option<string> {
    match r
    case Selected(e, _) => Some(e)
    case Fixed(e) => Some(e)
    case _ => None
  }

  /**
   * run's endpoint resolution: a list that is blank after stripping means a
   * direct connection; otherwise auto mode asks pick_best and manual mode
   * takes the first parsed candidate.
   */
  function Resolve(ipList: string, autoBest: bool, m: Measurements): (r: Resolution)
    requires autoBest ==> WellFormed(m, |ParseCandidates(ipList)|)
    ensures Strip(ipList) == [] <==> r == Direct
    ensures Endpoint(r).Some? ==> Endpoint(r).value in ParseCandidates(ipList)
    ensures r.Fixed? ==> !autoBest && r.endpoint == ParseCandidates(ipList)[0]
    ensures r.Selected? || r.SelectionFailed? ==> autoBest
  {
    if Strip(ipList) == [] then Direct
    else if autoBest then
      var sel := PickBest(ParseCandidates(ipList), m);
      match sel.endpoint
      case Some(e) => Selected(e, sel.latency)
      case None => SelectionFailed
    else
      var raw := ParseCandidates(ipList);
      if raw != [] then Fixed(raw[0]) else EmptyList
  }

  /** In auto mode, a non-blank list resolves to the endpoint pick_best chose, reported with its latency. */
  lemma ResolveAuto(ipList: string, m: Measurements)
    requires WellFormed(m, |ParseCandidates(ipList)|)
    requires Strip(ipList) != []
    ensures var sel := PickBest(ParseCandidates(ipList), m);
      && Endpoint(Resolve(ipList, true, m)) == sel.endpoint
      && (sel.endpoint.Some? ==> Resolve(ipList, true, m) == Selected(sel.endpoint.value, sel.latency))
  {
  }

  /** With a non-blank list, nothing is resolved exactly when the list holds no candidate (only comments). */
  lemma ResolveNothing(ipList: string, autoBest: bool, m: Measurements)
    requires autoBest ==> WellFormed(m, |ParseCandidates(ipList)|)
    requires Strip(ipList) != []
    ensures Endpoint(Resolve(ipList, autoBest, m)).None? <==> ParseCandidates(ipList) == []
  {
  }

  /** In manual mode, an endpoint on the first line is used verbatim after stripping, whatever follows. */
  lemma ResolveFixedFirstLine(line: string, rest: string, m: Measurements)
    requires '\n' !in line && IsKept(Strip(line))
    ensures Resolve(line + "\n" + rest, false, m) == Fixed(Strip(line))
  {
    ParseCandidatesLines(line, rest);
    ParseCandidatesOneLine(line);
    NotBlankBefore(line, "\n" + rest);
    assert line + "\n" + rest == line + ("\n" + rest);
    assert ParseCandidates(line + "\n" + rest)[0] == Strip(line);
  }

  /** A text that starts with a non-blank part is not blank. */
  lemma NotBlankBefore(a: string, b: string)
    requires Strip(a) != []
    ensures Strip(a + b) != []
  {
    StripByEmpty(a + b, PySpace);
    StripByEmpty(a, PySpace);
    if All(a + b, PySpace) {
      forall k | 0 <= k < |a| ensures In(a[k], PySpace) {
        assert a[k] == (a + b)[k];
      }
    }
  }

  // ------------------------------------------------------------ command line

  /** Python truthiness of an optional string setting. */
  predicate IsSet(v: Option<string>) {
    v.Some? && v.value != []
  }

  /** The argument a setting contributes: its stripped value when it is set. */
  function Argument(v: Option<string>): (r: Option<string>)
    ensures r.Some? <==> IsSet(v)
  {
    if IsSet(v) then Some(Strip(v.value)) else None
  }

  /**
   * The flag table of run, in order: `-f server`, `-l listen`, `-token token`
   * and `-routing routing` with stripped values, then `-ip` with the resolved
   * endpoint verbatim.
   */
  function Fields(s: Settings, endpoint: Option<string>): seq<(string, Option<string>)> {
    [ ("-f", Argument(s.server)),
      ("-l", Argument(s.listen)),
      ("-token", Argument(s.token)),
      ("-routing", Argument(s.routing)),
      ("-ip", if IsSet(endpoint) then endpoint else None) ]
  }

  /** The flag/value pairs of the fields that have a value, in table order. */
  function Emit(fields: seq<(string, Option<string>)>): (r: seq<string>)
    ensures |r| % 2 == 0
  {
    if fields == [] then []
    else
      var (flag, v) := fields[|fields| - 1];
      Emit(fields[..|fields| - 1]) + (if v.Some? then [flag, v.value] else [])
  }

  /** The core's command line: the core path, then the flag/value pairs. */
  function Command(core: string, s: Settings, endpoint: Option<string>): (cmd: seq<string>)
    ensures |cmd| % 2 == 1 && cmd[0] == core
  {
    [core] + Emit(Fields(s, endpoint))
  }

  /** The value that follows `flag` among flag/value pairs, if the flag is there. */
  function FlagValue(pairs: seq<string>, flag: string): Option<string> {
    if |pairs| < 2 then None
    else if pairs[0] == flag then Some(pairs[1])
    else FlagValue(pairs[2..], flag)
  }

  /** The flags among flag/value pairs, in order. */
  function Flags(pairs: seq<string>): seq<string> {
    if |pairs| < 2 then [] else [pairs[0]] + Flags(pairs[2..])
  }

  /** The value the first field named `flag` carries. */
  function ValueOf(fields: seq<(string, Option<string>)>, flag: string): Option<string> {
    if fields == [] then None
    else if fields[0].0 == flag then fields[0].1
    else ValueOf(fields[1..], flag)
  }

  /** The flags of the fields that have a value, in order. */
  function PresentFlags(fields: seq<(string, Option<string>)>): seq<string> {
    if fields == [] then []
    else (if fields[0].1.Some? then [fields[0].0] else []) + PresentFlags(fields[1..])
  }

  /** Looking a flag up in concatenated pairs finds it in the first part when it is there. */
  lemma {:induction false} FlagValueAppend(a: seq<string>, b: seq<string>, flag: string)
    requires |a| % 2 == 0
    ensures FlagValue(a + b, flag) == if FlagValue(a, flag).Some? then FlagValue(a, flag) else FlagValue(b, flag)
    ensures Flags(a + b) == Flags(a) + Flags(b)
  {
    if |a| >= 2 {
      assert (a + b)[0] == a[0] && (a + b)[1] == a[1];
      assert (a + b)[2..] == a[2..] + b;
      FlagValueAppend(a[2..], b, flag);
    } else {
      assert a + b == b;
    }
  }

  /** Emitting a table front to back: the first field's pair, then the rest. */
  lemma {:induction false} EmitFront(fields: seq<(string, Option<string>)>)
    requires fields != []
    ensures Emit(fields) == (if fields[0].1.Some? then [fields[0].0, fields[0].1.value] else []) + Emit(fields[1..])
  {
    var n := |fields|;
    if n > 1 {
      var init := fields[..n - 1];
      EmitFront(init);
      assert init[1..] == fields[1..][..n - 2];
      assert fields[1..][n - 2] == fields[n - 1];
    } else {
      assert fields[1..] == [];
      assert fields[..0] == [];
    }
  }

  /** The flags of the emitted pairs are the flags of the fields that have a value, in table order. */
  lemma {:induction false} EmitFlags(fields: seq<(string, Option<string>)>)
    ensures Flags(Emit(fields)) == PresentFlags(fields)
  {
    if fields != [] {
      EmitFront(fields);
      var head := if fields[0].1.Some? then [fields[0].0, fields[0].1.value] else [];
      FlagValueAppend(head, Emit(fields[1..]), "");
      EmitFlags(fields[1..]);
    }
  }

  /** No two fields share a flag. */
  predicate DistinctFlags(fields: seq<(string, Option<string>)>) {
    forall i, j | 0 <= i < j < |fields| :: fields[i].0 != fields[j].0
  }

  /** A flag no field has has no value. */
  lemma {:induction false} ValueOfAbsent(fields: seq<(string, Option<string>)>, flag: string)
    requires forall k | 0 <= k < |fields| :: fields[k].0 != flag
    ensures ValueOf(fields, flag) == None
  {
    if fields != [] {
      assert forall k | 0 <= k < |fields[1..]| :: fields[1..][k] == fields[k + 1];
      ValueOfAbsent(fields[1..], flag);
    }
  }

  /** With distinct flags, each field's flag leads to that field's value. */
  lemma {:induction false} ValueOfAt(fields: seq<(string, Option<string>)>, k: nat)
    requires DistinctFlags(fields) && k < |fields|
    ensures ValueOf(fields, fields[k].0) == fields[k].1
  {
    if k > 0 {
      assert fields[1..][k - 1] == fields[k];
      assert DistinctFlags(fields[1..]) by {
        forall a, b | 0 <= a < b < |fields[1..]| ensures fields[1..][a].0 != fields[1..][b].0 {
          assert fields[1..][a] == fields[a + 1] && fields[1..][b] == fields[b + 1];
        }
      }
      ValueOfAt(fields[1..], k - 1);
    }
  }

  /** With distinct flags, looking a flag up in the emitted pairs gives its field's value. */
  lemma {:induction false} EmitValues(fields: seq<(string, Option<string>)>, flag: string)
    requires DistinctFlags(fields)
    ensures FlagValue(Emit(fields), flag) == ValueOf(fields, flag)
  {
    if fields != [] {
      EmitFront(fields);
      var head := if fields[0].1.Some? then [fields[0].0, fields[0].1.value] else [];
      FlagValueAppend(head, Emit(fields[1..]), flag);
      assert DistinctFlags(fields[1..]) by {
        forall a, b | 0 <= a < b < |fields[1..]| ensures fields[1..][a].0 != fields[1..][b].0 {
          assert fields[1..][a] == fields[a + 1] && fields[1..][b] == fields[b + 1];
        }
      }
      EmitValues(fields[1..], flag);
      if fields[0].0 == flag {
        forall k | 0 <= k < |fields[1..]| ensures fields[1..][k].0 != flag {
          assert fields[1..][k] == fields[k + 1];
        }
        ValueOfAbsent(fields[1..], flag);
      }
    }
  }

  /** The flag a field contributes: its own when it has a value. */
  function FlagOf(field: (string, Option<string>)): seq<string> {
    if field.1.Some? then [field.0] else []
  }

  /** Listing the present flags distributes over concatenation. */
  lemma {:induction false} PresentFlagsAppend(a: seq<(string, Option<string>)>, b: seq<(string, Option<string>)>)
    ensures PresentFlags(a + b) == PresentFlags(a) + PresentFlags(b)
  {
    if a == [] {
      assert a + b == b;
    } else {
      assert (a + b)[1..] == a[1..] + b;
      PresentFlagsAppend(a[1..], b);
    }
  }

  /** The flags of a five-field table with a value, front to back. */
  lemma PresentFlagsOfFive(fields: seq<(string, Option<string>)>)
    requires |fields| == 5
    ensures PresentFlags(fields) ==
      FlagOf(fields[0]) + FlagOf(fields[1]) + FlagOf(fields[2]) + FlagOf(fields[3]) + FlagOf(fields[4])
  {
    assert fields == [fields[0]] + [fields[1]] + [fields[2]] + [fields[3]] + [fields[4]];
    forall k | 0 <= k < 5 ensures PresentFlags([fields[k]]) == FlagOf(fields[k]) {
      assert [fields[k]][1..] == [];
    }
    PresentFlagsAppend([fields[0]] + [fields[1]] + [fields[2]] + [fields[3]], [fields[4]]);
    PresentFlagsAppend([fields[0]] + [fields[1]] + [fields[2]], [fields[3]]);
    PresentFlagsAppend([fields[0]] + [fields[1]], [fields[2]]);
    PresentFlagsAppend([fields[0]], [fields[1]]);
  }

  /** The command holds the flags of the set fields, each once, in the order -f, -l, -token, -routing, -ip. */
  lemma CommandFlags(core: string, s: Settings, endpoint: Option<string>)
    ensures Flags(Command(core, s, endpoint)[1..]) ==
      (if IsSet(s.server) then ["-f"] else [])
      + (if IsSet(s.listen) then ["-l"] else [])
      + (if IsSet(s.token) then ["-token"] else [])
      + (if IsSet(s.routing) then ["-routing"] else [])
      + (if IsSet(endpoint) then ["-ip"] else [])
  {
    var fields := Fields(s, endpoint);
    assert Command(core, s, endpoint)[1..] == Emit(fields);
    EmitFlags(fields);
    PresentFlagsOfFive(fields);
  }

  /** Reading the command back: each flag carries its field's stripped value, and `-ip` the endpoint verbatim. */
  lemma CommandValues(core: string, s: Settings, endpoint: Option<string>)
    ensures var pairs := Command(core, s, endpoint)[1..];
      && FlagValue(pairs, "-f") == (if IsSet(s.server) then Some(Strip(s.server.value)) else None)
      && FlagValue(pairs, "-l") == (if IsSet(s.listen) then Some(Strip(s.listen.value)) else None)
      && FlagValue(pairs, "-token") == (if IsSet(s.token) then Some(Strip(s.token.value)) else None)
      && FlagValue(pairs, "-routing") == (if IsSet(s.routing) then Some(Strip(s.routing.value)) else None)
      && FlagValue(pairs, "-ip") == (if IsSet(endpoint) then endpoint else None)
  {
    var fields := Fields(s, endpoint);
    assert Command(core, s, endpoint)[1..] == Emit(fields);
    assert DistinctFlags(fields);
    FieldValue(fields, 0);
    FieldValue(fields, 1);
    FieldValue(fields, 2);
    FieldValue(fields, 3);
    FieldValue(fields, 4);
  }

  /** With distinct flags, a field's flag leads to its value in the emitted pairs. */
  lemma FieldValue(fields: seq<(string, Option<string>)>, k: nat)
    requires DistinctFlags(fields) && k < |fields|
    ensures FlagValue(Emit(fields), fields[k].0) == fields[k].1
  {
    EmitValues(fields, fields[k].0);
    ValueOfAt(fields, k);
  }

  /** `-ip` and the endpoint come last when an endpoint was resolved. */
  lemma CommandIpLast(core: string, s: Settings, endpoint: Option<string>)
    requires IsSet(endpoint)
    ensures var cmd := Command(core, s, endpoint);
      |cmd| >= 3 && cmd[|cmd| - 2..] == ["-ip", endpoint.value]
  {
  }

  /** A field holding only whitespace is set, so its flag is followed by an empty argument. */
  lemma BlankFieldGivesEmptyArgument(core: string, s: Settings, endpoint: Option<string>)
    requires s.server.Some? && s.server.value != [] && Strip(s.server.value) == []
    ensures FlagValue(Command(core, s, endpoint)[1..], "-f") == Some("")
  {
    CommandValues(core, s, endpoint);
  }

  // ------------------------------------------------------------ output lines

  /** The colour class of a line the core prints. */
  datatype Level = Success | Failure | Info

  datatype LogLine = LogLine(text: string, level: Level)

  /**
   * How run shows one line of the core's output: blank lines are dropped;
   * otherwise the stripped line is a success when it mentions "connected",
   * else a failure when it mentions "error" or "panic", else informational,
   * with the words matched ignoring ASCII case.
   */
  function Classify(line: string): (r: Option<LogLine>)
    ensures r.None? <==> Strip(line) == []
    ensures r.Some? ==> r.value.text == Strip(line)
  {
    var t := Strip(line);
    if t == [] then None
    else
      var l := Lower(t);
      if Contains(l, "connected") then Some(LogLine(t, Success))
      else if Contains(l, "error") || Contains(l, "panic") then Some(LogLine(t, Failure))
      else Some(LogLine(t, Info))
  }

  /** The level is decided by the words in the line in either case, "connected" winning over "error" and "panic". */
  lemma ClassifyLevels(line: string)
    requires Strip(line) != []
    ensures var t := Strip(line);
      && (Classify(line).value.level == Success <==> ContainsIgnoringCase(t, "connected"))
      && (Classify(line).value.level == Failure <==>
            !ContainsIgnoringCase(t, "connected") && (ContainsIgnoringCase(t, "error") || ContainsIgnoringCase(t, "panic")))
      && (Classify(line).value.level == Info <==>
            !ContainsIgnoringCase(t, "connected") && !ContainsIgnoringCase(t, "error") && !ContainsIgnoringCase(t, "panic"))
  {
    var t := Strip(line);
    LowerContainsIff(t, "connected");
    LowerContainsIff(t, "error");
    LowerContainsIff(t, "panic");
  }

  /** The lines shown for the core's output, in order. */
  function ClassifyAll(lines: seq<string>): (r: seq<LogLine>)
    ensures |r| <= |lines|
    ensures forall k | 0 <= k < |r| :: exists i | 0 <= i < |lines| :: Classify(lines[i]) == Some(r[k])
    ensures (forall i | 0 <= i < |lines| :: Strip(lines[i]) != []) ==> |r| == |lines|
  {
    if lines == [] then []
    else
      var rest := ClassifyAll(lines[1..]);
      match Classify(lines[0])
      case Some(e) => [e] + rest
      case None => rest
  }

  /** Output is shown line by line: the lines of `a` then those of `b`. */
  lemma {:induction false} ClassifyAllAppend(a: seq<string>, b: seq<string>)
    ensures ClassifyAll(a + b) == ClassifyAll(a) + ClassifyAll(b)
  {
    if a != [] {
      assert (a + b)[0] == a[0];
      assert (a + b)[1..] == a[1..] + b;
      ClassifyAllAppend(a[1..], b);
    } else {
      assert a + b == b;
    }
  }

  // ------------------------------------------------------------ run

  /** What run does: stop at a missing core, or clear a stale listener, resolve the endpoint and start the core. */
  datatype RunOutcome =
    | MissingCore
    | Started(cleanup: bool, resolution: Resolution, command: seq<string>)

  /**
   * WorkerThread.run up to starting the core. `coreExists` and `inUse` stand
   * for the file system and the port probe, `m` for the network pick_best sees.
   */
  function Run(s: Settings, corePath: string, coreExists: bool, inUse: int -> bool, m: Measurements): (r: RunOutcome)
    requires s.autoBest.GetOr(true) ==> WellFormed(m, |ParseCandidates(s.ipList.GetOr(""))|)
    ensures r.MissingCore? <==> !coreExists
    ensures r.Started? ==> r.command != [] && r.command[0] == corePath && r.cleanup == NeedsCleanup(ListenAddress(s), inUse)
    ensures r.Started? ==>
      && r.resolution == Resolve(s.ipList.GetOr(""), s.autoBest.GetOr(true), m)
      && r.command == Command(corePath, s, Endpoint(r.resolution))
  {
    if !coreExists then MissingCore
    else
      var res := Resolve(s.ipList.GetOr(""), s.autoBest.GetOr(true), m);
      Started(NeedsCleanup(ListenAddress(s), inUse), res, Command(corePath, s, Endpoint(res)))
  }

  /** The core gets `-ip` exactly when an endpoint was resolved, and then it is a parsed candidate. */
  lemma RunIpIffResolved(s: Settings, corePath: string, inUse: int -> bool, m: Measurements)
    requires s.autoBest.GetOr(true) ==> WellFormed(m, |ParseCandidates(s.ipList.GetOr(""))|)
    ensures var r := Run(s, corePath, true, inUse, m);
      && FlagValue(r.command[1..], "-ip") == Endpoint(r.resolution)
      && (Endpoint(r.resolution).Some? ==> Endpoint(r.resolution).value in ParseCandidates(s.ipList.GetOr("")))
  {
    var r := Run(s, corePath, true, inUse, m);
    var e := Endpoint(r.resolution);
    CommandValues(corePath, s, e);
    if e.Some? {
      KeepCandidatesSound(Split(s.ipList.GetOr(""), '\n'));
      var raw := ParseCandidates(s.ipList.GetOr(""));
      var k :| 0 <= k < |raw| && raw[k] == e.value;
      assert IsCandidate(raw[k]);
    }
  }

  /** A blank endpoint list starts the core without `-ip`. */
  lemma RunDirect(s: Settings, corePath: string, inUse: int -> bool, m: Measurements)
    requires s.autoBest.GetOr(true) ==> WellFormed(m, |ParseCandidates(s.ipList.GetOr(""))|)
    requires Strip(s.ipList.GetOr("")) == []
    ensures Run(s, corePath, true, inUse, m).resolution == Direct
    ensures "-ip" !in Flags(Run(s, corePath, true, inUse, m).command[1..])
  {
    CommandFlags(corePath, s, None);
  }
}
