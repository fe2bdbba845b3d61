/**
 * The Cloudflare Worker end of the tunnel (_workers.js): the status fetch
 * answers with, the `CONNECT:host:port|payload` handshake parser, the
 * fallback-address pools, the port rule of tryConnect, and the per-WebSocket
 * session of handleSession. Outbound sockets become a dial oracle, the random
 * pool index becomes a parameter, and the remote-to-WebSocket pump becomes a
 * StartPump action.
 */
module Worker {
  import opened Options
  import opened Text

  // ---------------------------------------------------------------- fetch

  /** An incoming request: its Upgrade header (None when absent) and the path of its URL. */
  datatype Request = Request(upgrade: Option<string>, path: string)

  /** The status fetch answers with. */
  function Route(req: Request): (status: int)
    ensures status == 101 || status == 200 || status == 426
    ensures status == 101 <==> req.upgrade == Some("websocket")
    ensures status == 200 <==> req.upgrade != Some("websocket") && req.path == "/"
  {
    if req.upgrade.None? || req.upgrade.value == [] || req.upgrade.value != "websocket" then
      (if req.path == "/" then 200 else 426)
    else 101
  }

  // ---------------------------------------------------------------- parseTarget

  /** JavaScript's `p || fallback` on a parsed port: NaN (None) and 0 are falsy. */
  function OrPort(p: Option<int>, fallback: int): (r: int)
    ensures r == fallback || p == Some(r)
    ensures r == fallback <== p.None? || p == Some(0)
    ensures p.Some? && p.value != 0 ==> r == p.value
  {
    if p.Some? && p.value != 0 then p.value else fallback
  }

  /** `s` up to its first `c`: what `if (s.includes(c)) s = s.split(c)[0]` leaves. */
  function CutAt(s: string, c: char): (r: string)
    ensures |r| <= |s| && r == s[..|r|] && c !in r
    ensures |r| < |s| ==> s[|r|] == c
  {
    SplitHead(s, c);
    if c in s then Split(s, c)[0] else s
  }

  /** Cutting at the first `c` after a `c`-free front gives the front. */
  lemma CutAtFront(x: string, y: string, c: char)
    requires c !in x
    ensures CutAt(x + [c] + y, c) == x
  {
    var s := x + [c] + y;
    assert forall i | 0 <= i < |x| :: s[i] == x[i];
    assert s[|x|] == c;
    assert s[..|x|] == x;
  }

  /** The destination a client asks for. */
  datatype Target = Target(host: string, port: int)

  /**
   * parseTarget: the fields between the colons are a verb, the host and the
   * port; host and port text are cut at a `|` (the start of the payload) and
   * the port text is read by parseInt, 443 standing in for NaN and 0. Fewer
   * than two colons make the field lookups throw, and the result is null.
   */
  function ParseTarget(data: string): (r: Option<Target>)
    ensures r.Some? ==> ':' !in r.value.host && '|' !in r.value.host && r.value.port != 0
  {
    var fields := Split(data, ':');
    if |fields| < 3 then None
    else
      SplitPiecesFree(data, ':');
      var host := CutAt(fields[1], '|');
      assert forall k | 0 <= k < |host| :: host[k] == fields[1][k];
      Some(Target(host, OrPort(JsParseInt(CutAt(fields[2], '|')), 443)))
  }

  /** The handshake fails to parse exactly when the message has fewer than two colons. */
  lemma ParseTargetNone(data: string)
    ensures ParseTarget(data).None? <==> Count(data, ':') < 2
  {
    SplitCount(data, ':');
  }

  /** A handshake line parses back to the host and port it names, whatever the payload holds. */
  lemma ParseTargetRoundTrip(verb: string, host: string, port: nat, payload: string)
    requires ':' !in verb && ':' !in host && '|' !in host && port != 0
    ensures ParseTarget(verb + ":" + host + ":" + NatToString(port) + "|" + payload) == Some(Target(host, port))
  {
    var d := NatToString(port);
    assert ':' !in d && '|' !in d by {
      forall k | 0 <= k < |d| ensures d[k] != ':' && d[k] != '|' { assert In(d[k], Digits); }
    }
    var rest := d + ['|'] + payload;
    var data := verb + ":" + host + ":" + NatToString(port) + "|" + payload;
    assert data == verb + [':'] + (host + [':'] + rest);
    SplitAppend(verb, host + [':'] + rest, ':');
    SplitNoSeparator(verb, ':');
    SplitAppend(host, rest, ':');
    SplitNoSeparator(host, ':');
    var fields := Split(data, ':');
    assert fields == [verb, host] + Split(rest, ':');
    assert rest == (d + ['|']) + payload;
    SplitFirst(d + ['|'], payload, ':');
    assert fields[2] == d + ['|'] + Split(payload, ':')[0];
    CutAtFront(d, Split(payload, ':')[0], '|');
    JsParseIntOfNat(port);
  }

  /** A port field that parseInt reads as NaN or 0 (empty, `0`, or no leading digits) falls back to 443. */
  lemma ParseTargetDefaultPort(verb: string, host: string, portText: string)
    requires ':' !in verb && ':' !in host && '|' !in host
    requires ':' !in portText && '|' !in portText
    requires JsParseInt(portText) == None || JsParseInt(portText) == Some(0)
    ensures ParseTarget(verb + ":" + host + ":" + portText) == Some(Target(host, 443))
  {
    var data := verb + ":" + host + ":" + portText;
    assert data == verb + [':'] + (host + [':'] + portText);
    SplitAppend(verb, host + [':'] + portText, ':');
    SplitNoSeparator(verb, ':');
    SplitAppend(host, portText, ':');
    SplitNoSeparator(host, ':');
    SplitNoSeparator(portText, ':');
    assert Split(data, ':') == [verb, host, portText];
    assert CutAt(portText, '|') == portText;
  }

  /** The port fields `0` and the empty text both meet ParseTargetDefaultPort's condition: parseInt reads them as 0 and NaN. */
  lemma JsParseIntFalsy(portText: string)
    requires portText == "0" || portText == ""
    ensures JsParseInt(portText) == None || JsParseInt(portText) == Some(0)
  {
    assert TrimStart(portText, JsSpace) == portText;
    assert Unsigned(portText) == portText;
    if portText == "0" {
      assert TakeWhile(portText[1..], Digits) == [];
      assert TakeWhile(portText, Digits) == "0";
      assert DecimalValue("0") == 0;
    }
  }

  // ---------------------------------------------------------------- pools

  /** The region whose pool the fallback draws from; AUTO merges several. */
  const TargetRegion: string := "AUTO"

  const Sg: seq<string> := ["sg.881288.xyz:443", "104.18.2.162:443", "104.19.2.162:443"]
  const Jp: seq<string> := ["jp.881288.xyz:443", "104.16.12.162:443", "104.17.12.162:443"]
  const Tw: seq<string> := ["tw.881288.xyz:8443", "104.18.3.162:443"]
  const Hk: seq<string> := ["104.19.4.162:443"]
  const Us: seq<string> := ["sjc.o00o.ooo:443", "193.122.114.82:443", "104.16.0.0:443"]
  const General: seq<string> := ["115.94.122.118:50001", "193.122.114.82:443", "www.visa.com:443", "www.csgo.com:443"]

  const Pools: map<string, seq<string>> :=
    map["SG" := Sg, "JP" := Jp, "TW" := Tw, "HK" := Hk, "US" := Us, "GENERAL" := General]

  /** The pool getFallbackAddress draws from: a named region's own, else SG, JP, US and GENERAL merged. */
  function Pool(region: string): (pool: seq<string>)
    ensures region != "AUTO" && region in Pools ==> pool == Pools[region]
    ensures pool != []
  {
    if region != "AUTO" && region in Pools then Pools[region] else Sg + Jp + Us + General
  }

  /** In AUTO mode (and for an unknown region) the pool is SG ++ JP ++ US ++ GENERAL, and no TW or HK entry is in it. */
  lemma AutoPool(region: string)
    requires region == "AUTO" || region !in Pools
    ensures Pool(region) == Sg + Jp + Us + General
    ensures forall e | e in Tw + Hk :: e !in Pool(region)
  {
  }

  // ---------------------------------------------------------------- getFallbackAddress

  /** A fallback address: a host and its parsed port (None for NaN). */
  datatype Address = Address(host: string, port: Option<int>)

  /** The address getFallbackAddress falls back on when the pool is empty. */
  const LastResort: Address := Address("104.16.0.0", Some(443))

  /**
   * getFallbackAddress with the draw `Math.floor(Math.random() * pool.length)`
   * as `pick % |pool|`: the drawn entry split at its last colon, with port
   * 443 when it has none.
   */
  function FallbackAddress(pool: seq<string>, pick: nat): (a: Address)
    ensures pool == [] ==> a == LastResort
    ensures pool != [] && ':' !in pool[pick % |pool|] ==> a == Address(pool[pick % |pool|], Some(443))
    ensures pool != [] && ':' in pool[pick % |pool|] ==>
      var e := pool[pick % |pool|];
      && |a.host| < |e| && e[..|a.host|] == a.host && e[|a.host|] == ':' && ':' !in e[|a.host| + 1..]
      && a.port == JsParseInt(e[|a.host| + 1..])
  {
    if pool == [] then LastResort
    else
      var e := pool[pick % |pool|];
      var k := LastIndexOf(e, ':');
      if k == -1 then Address(e, Some(443))
      else Address(e[..k], JsParseInt(e[k + 1..]))
  }

  /** An entry `host:port` comes back as that host and port, even when the host has colons of its own. */
  lemma FallbackAddressOfEntry(pool: seq<string>, pick: nat, host: string, port: nat)
    requires pool != [] && pool[pick % |pool|] == host + ":" + NatToString(port)
    ensures FallbackAddress(pool, pick) == Address(host, Some(port))
  {
    var d := NatToString(port);
    EntrySplit(host, d);
    JsParseIntOfNat(port);
  }

  /** The pieces of `host:digits` around its last colon. */
  lemma EntrySplit(host: string, d: string)
    requires IsDigits(d)
    ensures var e := host + ":" + d;
      LastIndexOf(e, ':') == |host| && e[..|host|] == host && e[|host| + 1..] == d
  {
    assert ':' !in d by {
      forall k | 0 <= k < |d| ensures d[k] != ':' { assert In(d[k], Digits); }
    }
    var e := host + ":" + d;
    assert e == host + [':'] + d;
    LastIndexOfAppend(host, d, ':');
  }

  /** The decimal text of the ports the shipped pools use. */
  lemma PortDigits()
    ensures NatToString(443) == "443" && NatToString(8443) == "8443" && NatToString(50001) == "50001"
  {
    assert NatToString(4) == "4" && NatToString(44) == "44";
    assert NatToString(8) == "8" && NatToString(84) == "84" && NatToString(844) == "844";
    assert NatToString(5) == "5" && NatToString(50) == "50" && NatToString(500) == "500" && NatToString(5000) == "5000";
  }

  /** Every shipped pool entry is a host, a colon and the digits of 443, 8443 or 50001. */
  lemma ShippedEntry(e: string) returns (host: string, port: nat)
    requires e in Sg + Jp + Tw + Hk + Us + General
    ensures || (port == 443 && e == host + ":443")
            || (port == 8443 && e == host + ":8443")
            || (port == 50001 && e == host + ":50001")
  {
    if e in Sg {
      host, port := EntryOf(Sg, e);
    } else if e in Jp {
      host, port := EntryOf(Jp, e);
    } else if e in Tw {
      host, port := EntryOf(Tw, e);
    } else if e in Hk {
      host, port := EntryOf(Hk, e);
    } else if e in Us {
      host, port := EntryOf(Us, e);
    } else {
      host, port := EntryOf(General, e);
    }
  }

  /** The host and port of an entry of one shipped pool. */
  lemma EntryOf(pool: seq<string>, e: string) returns (host: string, port: nat)
    requires pool in [Sg, Jp, Tw, Hk, Us, General] && e in pool
    ensures || (port == 443 && e == host + ":443")
            || (port == 8443 && e == host + ":8443")
            || (port == 50001 && e == host + ":50001")
  {
    if e == "sg.881288.xyz:443" {
      host, port := "sg.881288.xyz", 443;
    } else if e == "104.18.2.162:443" {
      host, port := "104.18.2.162", 443;
    } else if e == "104.19.2.162:443" {
      host, port := "104.19.2.162", 443;
    } else if e == "jp.881288.xyz:443" {
      host, port := "jp.881288.xyz", 443;
    } else if e == "104.16.12.162:443" {
      host, port := "104.16.12.162", 443;
    } else if e == "104.17.12.162:443" {
      host, port := "104.17.12.162", 443;
    } else if e == "tw.881288.xyz:8443" {
      host, port := "tw.881288.xyz", 8443;
    } else if e == "104.18.3.162:443" {
      host, port := "104.18.3.162", 443;
    } else if e == "104.19.4.162:443" {
      host, port := "104.19.4.162", 443;
    } else if e == "sjc.o00o.ooo:443" {
      host, port := "sjc.o00o.ooo", 443;
    } else if e == "193.122.114.82:443" {
      host, port := "193.122.114.82", 443;
    } else if e == "104.16.0.0:443" {
      host, port := "104.16.0.0", 443;
    } else if e == "115.94.122.118:50001" {
      host, port := "115.94.122.118", 50001;
    } else if e == "www.visa.com:443" {
      host, port := "www.visa.com", 443;
    } else if e == "www.csgo.com:443" {
      host, port := "www.csgo.com", 443;
    } else {
      assert false;
    }
  }

  /**
   * Every entry of every shipped pool names its port: with these pools the
   * fallback never dials the requested port. (That the empty-pool address is
   * never used follows from Pool, whose pools are never empty.)
   */
  lemma ShippedPoolsHavePorts(region: string, pick: nat)
    ensures var a := FallbackAddress(Pool(region), pick);
      a.port == Some(443) || a.port == Some(8443) || a.port == Some(50001)
  {
    var pool := Pool(region);
    var e := pool[pick % |pool|];
    PoolEntries(region);
    assert e in pool;
    ShippedEntryPort(e);
    assert FallbackAddress(pool, pick) == FallbackAddress([e], 0);
  }

  /** The port a shipped entry yields. */
  lemma ShippedEntryPort(e: string)
    requires e in Sg + Jp + Tw + Hk + Us + General
    ensures var a := FallbackAddress([e], 0);
      a.port == Some(443) || a.port == Some(8443) || a.port == Some(50001)
  {
    var host, port := ShippedEntry(e);
    PortDigits();
    if port == 443 {
      assert host + ":" + "443" == host + ":443";
    } else if port == 8443 {
      assert host + ":" + "8443" == host + ":8443";
    } else {
      assert host + ":" + "50001" == host + ":50001";
    }
    FallbackAddressOfEntry([e], 0, host, port);
  }

  /** Every pool is drawn from the shipped entries. */
  lemma PoolEntries(region: string)
    ensures forall e | e in Pool(region) :: e in Sg + Jp + Tw + Hk + Us + General
  {
  }

  // ---------------------------------------------------------------- tryConnect

  /** The socket a successful dial reached. */
  datatype Remote = Remote(host: string, port: int)

  /**
   * tryConnect: dial the target directly; if that fails, dial the fallback
   * host on its own port, or on the target's port when the fallback's is NaN
   * or 0. `dialOk` says which dials succeed.
   */
  function TryConnect(target: Target, fallback: Address, dialOk: (string, int) -> bool): (r: Option<Remote>)
    ensures r.Some? ==> dialOk(r.value.host, r.value.port)
    ensures dialOk(target.host, target.port) ==> r == Some(Remote(target.host, target.port))
    ensures r.Some? && r.value != Remote(target.host, target.port) ==> r.value.host == fallback.host
  {
    if dialOk(target.host, target.port) then Some(Remote(target.host, target.port))
    else
      var port := OrPort(fallback.port, target.port);
      if dialOk(fallback.host, port) then Some(Remote(fallback.host, port)) else None
  }

  /** When the direct dial fails, the fallback uses its own port unless that is NaN or 0, then the requested one. */
  lemma TryConnectPortRule(target: Target, fallback: Address, dialOk: (string, int) -> bool)
    requires !dialOk(target.host, target.port)
    ensures var port := if fallback.port.Some? && fallback.port.value != 0 then fallback.port.value else target.port;
      TryConnect(target, fallback, dialOk) == if dialOk(fallback.host, port) then Some(Remote(fallback.host, port)) else None
  {
  }

  /** tryConnect yields null exactly when both dials fail. */
  lemma TryConnectFails(target: Target, fallback: Address, dialOk: (string, int) -> bool)
    ensures TryConnect(target, fallback, dialOk).None? <==>
      !dialOk(target.host, target.port) && !dialOk(fallback.host, OrPort(fallback.port, target.port))
  {
  }

  // ---------------------------------------------------------------- handleSession

  /**
   * The variables handleSession keeps per WebSocket: isConnected, the remote
   * socket, and whether a writer has been taken from it.
   */
  datatype Session = Session(connected: bool, remote: Option<Remote>, writer: bool)

  const Initial: Session := Session(false, None, false)

  /**
   * What reaches handleSession: a binary frame (with whether writing it to the
   * remote succeeds), a text frame (with the dial outcomes and the pool draw
   * its handshake would meet), or the WebSocket's close and error events.
   */
  datatype Event =
    | BinaryFrame(bytes: seq<bv8>, writeOk: bool)
    | TextFrame(data: string, dialOk: (string, int) -> bool, pick: nat)
    | SocketClose
    | SocketError

  /** The observable effects of the handler. */
  datatype Action = Send(text: string) | CloseSocket | CloseRemote | Write(bytes: seq<bv8>) | StartPump

  const Connected: string := "CONNECTED"
  const ConnectFailed: string := "ERROR: Connection failed"

  /** close(): clears isConnected, closes the WebSocket, and the remote socket when one is assigned. */
  function Close(s: Session): (r: (Session, seq<Action>))
    ensures !r.0.connected && r.0.remote == s.remote && r.0.writer == s.writer
    ensures LastMark(r.1) == Some(false)
  {
    var a := [CloseSocket] + if s.remote.Some? then [CloseRemote] else [];
    assert a[..|a| - 1] == [CloseSocket] || a == [CloseSocket];
    (s.(connected := false), a)
  }

  /** A handshake attempt: parse, dial, then either report the failure and close, or connect. */
  function Handshake(s: Session, data: string, dialOk: (string, int) -> bool, pick: nat): (r: (Session, seq<Action>))
    ensures LastMark(r.1) == Some(r.0.connected)
    ensures r.0.connected ==> r.0.writer && r.0.remote.Some?
    ensures forall k | 0 <= k < |r.1| :: !r.1[k].Write?
  {
    match ParseTarget(data)
    case None => Close(s)
    case Some(target) => Dialled(s, TryConnect(target, FallbackAddress(Pool(TargetRegion), pick), dialOk))
  }

  /** After the dial: on failure report it and close, on success take a writer, announce CONNECTED and start the pump. */
  function Dialled(s: Session, remote: Option<Remote>): (r: (Session, seq<Action>))
    ensures LastMark(r.1) == Some(r.0.connected)
    ensures r.0.connected <==> remote.Some?
    ensures r.0.connected ==> r.0.writer && r.0.remote == remote
    ensures forall k | 0 <= k < |r.1| :: !r.1[k].Write?
  {
    if remote.None? then
      var (c, a) := Close(s.(remote := None));
      LastMarkAppend([Send(ConnectFailed)], a);
      (c, [Send(ConnectFailed)] + a)
    else
      assert [Send(Connected), StartPump][..1] == [Send(Connected)];
      (Session(true, remote, true), [Send(Connected), StartPump])
  }

  /** Whether the latest CONNECTED or WebSocket close in `trace` is a CONNECTED; None when there is neither. */
  function LastMark(trace: seq<Action>): Option<bool> {
    if trace == [] then None
    else if trace[|trace| - 1] == CloseSocket then Some(false)
    else if trace[|trace| - 1] == Send(Connected) then Some(true)
    else LastMark(trace[..|trace| - 1])
  }

  /** The session was announced as connected and the WebSocket has not been closed since. */
  predicate Open(trace: seq<Action>) {
    LastMark(trace) == Some(true)
  }

  /** handleSession's reaction to one event. */
  function Step(s: Session, e: Event): (r: (Session, seq<Action>))
    ensures (e.SocketClose? || e.SocketError?) ==>
      !r.0.connected && r.1 != [] && r.1[0] == CloseSocket && (CloseRemote in r.1 <==> s.remote.Some?)
    ensures forall k | 0 <= k < |r.1| && r.1[k].Write? :: k == 0 && s.connected && s.writer && e.BinaryFrame? && r.1[k].bytes == e.bytes
    ensures e.BinaryFrame? && !(s.connected && s.writer) ==> r == (s, [])
    ensures e.TextFrame? && (s.connected || !(StartsWith(e.data, "CONNECT") || StartsWith(e.data, "conn"))) ==> r == (s, [])
    ensures LastMark(r.1).Some? ==> LastMark(r.1) == Some(r.0.connected)
    ensures LastMark(r.1).None? ==> r.0.connected == s.connected
    ensures (s.connected ==> s.writer && s.remote.Some?) ==> (r.0.connected ==> r.0.writer && r.0.remote.Some?)
  {
    match e
    case BinaryFrame(bytes, writeOk) =>
      if s.connected && s.writer then
        if writeOk then (s, [Write(bytes)])
        else
          var (c, a) := Close(s);
          LastMarkAppend([Write(bytes)], a);
          (c, [Write(bytes)] + a)
      else (s, [])
    case TextFrame(data, dialOk, pick) =>
      if !s.connected && (StartsWith(data, "CONNECT") || StartsWith(data, "conn")) then Handshake(s, data, dialOk, pick)
      else (s, [])
    case SocketClose => Close(s)
    case SocketError => Close(s)
  }

  /** The outcomes of a handshake: a parse failure closes, a dial failure reports and closes, success connects. */
  lemma HandshakeOutcomes(s: Session, data: string, dialOk: (string, int) -> bool, pick: nat)
    requires !s.connected && (StartsWith(data, "CONNECT") || StartsWith(data, "conn"))
    ensures var (r, a) := Step(s, TextFrame(data, dialOk, pick));
      && (ParseTarget(data).None? ==> !r.connected && a[0] == CloseSocket && Send(Connected) !in a)
      && (ParseTarget(data).Some? ==>
            var remote := TryConnect(ParseTarget(data).value, FallbackAddress(Pool(TargetRegion), pick), dialOk);
            && (remote.None? ==> !r.connected && r.remote.None? && a == [Send(ConnectFailed), CloseSocket])
            && (remote.Some? ==> r.connected && r.remote == remote && a == [Send(Connected), StartPump]))
  {
  }

  /** A handshake whose target accepts the direct dial connects to it. */
  lemma HandshakeDirect(s: Session, data: string, dialOk: (string, int) -> bool, pick: nat, target: Target)
    requires !s.connected && (StartsWith(data, "CONNECT") || StartsWith(data, "conn"))
    requires ParseTarget(data) == Some(target) && dialOk(target.host, target.port)
    ensures Step(s, TextFrame(data, dialOk, pick)) ==
      (Session(true, Some(Remote(target.host, target.port)), true), [Send(Connected), StartPump])
  {
  }

  /**
   * The session after a sequence of events, and every action taken on the way.
   * A connected session always has a writer and a remote socket, and a session
   * that has neither sent CONNECTED nor closed is not connected.
   */
  function Run(events: seq<Event>): (r: (Session, seq<Action>))
    ensures r.0.connected ==> r.0.writer && r.0.remote.Some?
    ensures LastMark(r.1).None? ==> !r.0.connected
  {
    if events == [] then (Initial, [])
    else
      var (s, trace) := Run(events[..|events| - 1]);
      var (s', a) := Step(s, events[|events| - 1]);
      LastMarkAppend(trace, a);
      (s', trace + a)
  }

  /** Running one more event steps the session reached so far. */
  lemma RunSnoc(events: seq<Event>, e: Event)
    ensures var (s, trace) := Run(events);
      Run(events + [e]) == (Step(s, e).0, trace + Step(s, e).1)
  {
    assert (events + [e])[..|events|] == events;
  }

  /** The latest mark of a concatenation is the second part's, if it has one. */
  lemma {:induction false} LastMarkAppend(t: seq<Action>, a: seq<Action>)
    ensures LastMark(t + a) == if LastMark(a).Some? then LastMark(a) else LastMark(t)
  {
    if a != [] {
      var n := |a| - 1;
      assert (t + a)[..|t + a| - 1] == t + a[..n];
      assert (t + a)[|t + a| - 1] == a[n];
      LastMarkAppend(t, a[..n]);
    } else {
      assert t + a == t;
    }
  }

  /** Every write to the remote happens while the session is open. */
  predicate Guarded(trace: seq<Action>) {
    forall k | 0 <= k < |trace| && trace[k].Write? :: Open(trace[..k])
  }

  /**
   * From a fresh WebSocket: isConnected holds exactly when a CONNECTED has been
   * sent and the WebSocket not closed since, a connected session has a remote
   * socket and a writer, and every binary frame forwarded to the remote was
   * forwarded while connected.
   */
  lemma {:induction false} RunSafe(events: seq<Event>)
    ensures var (s, trace) := Run(events);
      && (s.connected <==> Open(trace))
      && (s.connected ==> s.writer && s.remote.Some?)
      && Guarded(trace)
  {
    if events != [] {
      var prefix := events[..|events| - 1];
      RunSafe(prefix);
      var (s, t) := Run(prefix);
      var (s', a) := Step(s, events[|events| - 1]);
      assert Run(events) == (s', t + a);
      LastMarkAppend(t, a);
      forall k | 0 <= k < |t + a| && (t + a)[k].Write? ensures Open((t + a)[..k]) {
        if k < |t| {
          assert (t + a)[..k] == t[..k];
        } else {
          assert a[k - |t|].Write?;
          assert (t + a)[..k] == t;
        }
      }
    }
  }

  /** Binary frames that arrive before a handshake are dropped. */
  lemma DroppedBeforeHandshake(bytes: seq<bv8>, writeOk: bool)
    ensures Run([BinaryFrame(bytes, writeOk)]) == (Initial, [])
  {
    var e := BinaryFrame(bytes, writeOk);
    RunSnoc([], e);
    assert [] + [e] == [e];
    assert Step(Initial, e) == (Initial, []);
    assert Run([e]).1 == [];
  }

  /** A handshake the target accepts directly, then a binary frame: the frame is forwarded after CONNECTED. */
  lemma ConnectThenForward(data: string, target: Target, dialOk: (string, int) -> bool, pick: nat, bytes: seq<bv8>)
    requires StartsWith(data, "CONNECT") || StartsWith(data, "conn")
    requires ParseTarget(data) == Some(target) && dialOk(target.host, target.port)
    ensures Run([TextFrame(data, dialOk, pick), BinaryFrame(bytes, true)]).1 == [Send(Connected), StartPump, Write(bytes)]
  {
    var hi, fwd := TextFrame(data, dialOk, pick), BinaryFrame(bytes, true);
    var s1 := Session(true, Some(Remote(target.host, target.port)), true);
    HandshakeDirect(Initial, data, dialOk, pick, target);
    RunSnoc([], hi);
    assert [] + [hi] == [hi];
    RunSnoc([hi], fwd);
    assert [hi] + [fwd] == [hi, fwd];
    assert Step(s1, fwd) == (s1, [Write(bytes)]);
  }

}
