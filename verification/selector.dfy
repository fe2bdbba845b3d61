/**
 * The client's endpoint selector (SmartSelector in gui.py): parsing the
 * candidate list, the address split and failure sentinel of one TCP probe, and
 * the tiered choice of the best endpoint. The network is an oracle parameter;
 * the thread-pool fan-out becomes a sequential pass in completion order.
 */
module Selector {
  import opened Options
  import opened Text
  import opened Sorting

  // ------------------------------------------------------------ candidate list

  /** A stripped line the selector keeps: non-empty and not a `#` comment. */
  predicate IsKept(t: string) {
    t != [] && !StartsWith(t, "#")
  }

  /** What a parsed candidate looks like: kept, with no whitespace at either end. */
  predicate IsCandidate(t: string) {
    IsKept(t) && !IsPySpace(t[0]) && !IsPySpace(t[|t| - 1])
  }

  /** The lines that are kept, in order. */
  function Keep(ts: seq<string>): (r: seq<string>)
    ensures |r| <= |ts|
    ensures forall k | 0 <= k < |r| :: IsKept(r[k]) && r[k] in ts
  {
    if ts == [] then []
    else
      var head := if IsKept(ts[0]) then [ts[0]] else [];
      var rest := Keep(ts[1..]);
      assert forall k | |head| <= k < |head + rest| :: (head + rest)[k] == rest[k - |head|];
      head + rest
  }

  /** Keep loses no kept line. */
  lemma {:induction false} KeepComplete(ts: seq<string>)
    ensures forall i | 0 <= i < |ts| && IsKept(ts[i]) :: ts[i] in Keep(ts)
  {
    if ts != [] {
      KeepComplete(ts[1..]);
      forall i | 1 <= i < |ts| && IsKept(ts[i]) ensures ts[i] in Keep(ts) {
        assert ts[i] == ts[1..][i - 1];
      }
    }
  }

  /** Keep commutes with concatenation. */
  lemma {:induction false} KeepAppend(x: seq<string>, y: seq<string>)
    ensures Keep(x + y) == Keep(x) + Keep(y)
  {
    if x != [] {
      var head := if IsKept(x[0]) then [x[0]] else [];
      assert (x + y)[0] == x[0];
      assert (x + y)[1..] == x[1..] + y;
      KeepAppend(x[1..], y);
      assert head + (Keep(x[1..]) + Keep(y)) == (head + Keep(x[1..])) + Keep(y);
    } else {
      assert x + y == y;
    }
  }

  /** Keep of lines none of which is kept is empty. */
  lemma {:induction false} KeepNone(ts: seq<string>)
    requires forall i | 0 <= i < |ts| :: !IsKept(ts[i])
    ensures Keep(ts) == []
  {
    if ts != [] {
      assert forall i | 0 <= i < |ts[1..]| :: ts[1..][i] == ts[i + 1];
      KeepNone(ts[1..]);
    }
  }

  /** Each line stripped. */
  function StripAll(lines: seq<string>): (r: seq<string>)
    ensures |r| == |lines|
    ensures forall i | 0 <= i < |lines| :: r[i] == Strip(lines[i])
  {
    seq(|lines|, i requires 0 <= i < |lines| => Strip(lines[i]))
  }

  /** The stripped lines that are kept, in order: the list comprehension of pick_best. */
  function KeepCandidates(lines: seq<string>): (r: seq<string>)
    ensures |r| <= |lines|
  {
    Keep(StripAll(lines))
  }

  /** `c` is the stripped form of one of the lines. */
  predicate IsStrippedLine(c: string, lines: seq<string>) {
    exists i | 0 <= i < |lines| :: c == Strip(lines[i])
  }

  /** Every candidate is a kept, stripped form of some input line. */
  lemma KeepCandidatesSound(lines: seq<string>)
    ensures forall k | 0 <= k < |KeepCandidates(lines)| ::
      IsCandidate(KeepCandidates(lines)[k]) && IsStrippedLine(KeepCandidates(lines)[k], lines)
  {
    var ts := StripAll(lines);
    var r := Keep(ts);
    forall k | 0 <= k < |r| ensures IsCandidate(r[k]) && IsStrippedLine(r[k], lines) {
      assert r[k] in ts;
      var i :| 0 <= i < |ts| && ts[i] == r[k];
      assert r[k] == Strip(lines[i]);
    }
  }

  /** Every input line that is kept after stripping appears, stripped, among the candidates. */
  lemma KeepCandidatesComplete(lines: seq<string>)
    ensures forall i | 0 <= i < |lines| && IsKept(Strip(lines[i])) :: Strip(lines[i]) in KeepCandidates(lines)
  {
    var ts := StripAll(lines);
    KeepComplete(ts);
    forall i | 0 <= i < |lines| && IsKept(Strip(lines[i])) ensures Strip(lines[i]) in KeepCandidates(lines) {
      assert ts[i] == Strip(lines[i]);
    }
  }

  /** Keeping candidates commutes with concatenating line lists. */
  lemma KeepCandidatesAppend(a: seq<string>, b: seq<string>)
    ensures KeepCandidates(a + b) == KeepCandidates(a) + KeepCandidates(b)
  {
    assert StripAll(a + b) == StripAll(a) + StripAll(b);
    KeepAppend(StripAll(a), StripAll(b));
  }

  /** The candidate list of a multi-line text (gui.py builds it the same way for fixed-endpoint mode). */
  function ParseCandidates(text: string): seq<string> {
    KeepCandidates(Split(text, '\n'))
  }

  /** Candidate parsing is line by line, in order: the candidates of `a`, then those of `b`. */
  lemma ParseCandidatesLines(a: string, b: string)
    ensures ParseCandidates(a + "\n" + b) == ParseCandidates(a) + ParseCandidates(b)
  {
    SplitAppend(a, b, '\n');
    KeepCandidatesAppend(Split(a, '\n'), Split(b, '\n'));
  }

  /** A single line is a candidate exactly when it is kept after stripping. */
  lemma ParseCandidatesOneLine(line: string)
    requires '\n' !in line
    ensures ParseCandidates(line) == if IsKept(Strip(line)) then [Strip(line)] else []
  {
    SplitNoSeparator(line, '\n');
    assert StripAll([line]) == [Strip(line)];
    assert Keep([Strip(line)]) == (if IsKept(Strip(line)) then [Strip(line)] else []) + Keep([]);
  }

  /** A text that is blank after stripping has no candidates. */
  lemma BlankHasNoCandidates(text: string)
    requires Strip(text) == []
    ensures ParseCandidates(text) == []
  {
    var lines := Split(text, '\n');
    StripByEmpty(text, PySpace);
    SplitPiecesAll(text, '\n', PySpace);
    var ts := StripAll(lines);
    forall i | 0 <= i < |ts| ensures !IsKept(ts[i]) {
      StripByEmpty(lines[i], PySpace);
    }
    KeepNone(ts);
  }

  // ------------------------------------------------------------ one probe

  datatype Address = Address(host: string, port: int)

  /** The latency tcp_ping reports when resolution, connection or the timeout fails. */
  const Unreachable: real := 99999.0

  /** Python's `s.rsplit(":", 1)` for a string containing a colon: the text before and after the last colon. */
  function SplitLastColon(s: string): (parts: (string, string))
    requires ':' in s
    ensures parts.0 + ":" + parts.1 == s
    ensures ':' !in parts.1
  {
    var k := LastIndexOf(s, ':');
    assert s == s[..k] + ":" + s[k + 1..];
    (s[..k], s[k + 1..])
  }

  /**
   * The host and port tcp_ping connects to: a target `host:port` whose text
   * after the last colon is all digits overrides the port, with brackets
   * stripped off the host; any other target is used whole with `port`.
   */
  function ProbeAddress(target: string, port: int): (a: Address)
    ensures ':' !in target ==> a == Address(target, port)
    ensures a.host != target ==> ':' in target && IsDigits(SplitLastColon(target).1)
    ensures a.port != port ==> ':' in target && IsDigits(SplitLastColon(target).1)
  {
    if ':' in target then
      var (host, suffix) := SplitLastColon(target);
      if IsDigits(suffix) then Address(StripBy(host, Brackets), DecimalValue(suffix))
      else Address(target, port)
    else Address(target, port)
  }

  /** The last colon of `a + ":" + b` is the one added when `b` has none. */
  lemma {:induction false} LastColonOfAppend(a: string, b: string)
    requires ':' !in b
    ensures LastIndexOf(a + ":" + b, ':') == |a|
  {
    var t := a + ":" + b;
    if b != [] {
      assert t[|t| - 1] == b[|b| - 1];
      assert t[..|t| - 1] == a + ":" + b[..|b| - 1];
      LastColonOfAppend(a, b[..|b| - 1]);
    }
  }

  /** A digit suffix after a colon is always the port, whatever the host looks like (an IPv6 literal included). */
  lemma ProbeAddressDigitSuffix(host: string, digits: string, port: int)
    requires IsDigits(digits)
    ensures ProbeAddress(host + ":" + digits, port) == Address(StripBy(host, Brackets), DecimalValue(digits))
  {
    var t := host + ":" + digits;
    assert ':' !in digits by {
      forall k | 0 <= k < |digits| ensures digits[k] != ':' {
        assert In(digits[k], Digits);
      }
    }
    LastColonOfAppend(host, digits);
    assert t[..|host|] == host && t[|host| + 1..] == digits;
  }

  /** Without a colon, or with a non-digit suffix, the whole target is probed on the given port. */
  lemma ProbeAddressWholeTarget(target: string, port: int)
    requires ':' !in target || !IsDigits(SplitLastColon(target).1)
    ensures ProbeAddress(target, port) == Address(target, port)
  {
  }

  /**
   * tcp_ping(target, port, timeout): the target itself and the measured
   * latency, or the Unreachable sentinel on any failure. `connect` is the
   * network: Some(ms) when resolution and connection succeed in time.
   */
  function TcpPing(target: string, port: int, timeout: real, connect: (Address, real) -> Option<real>): (r: (string, real))
    ensures r.0 == target
    ensures var a := ProbeAddress(target, port);
      && (connect(a, timeout).None? ==> r.1 == Unreachable)
      && (!(0 <= a.port <= 65535) ==> r.1 == Unreachable)
      && (r.1 != Unreachable ==> connect(a, timeout) == Some(r.1))
    ensures var a := ProbeAddress(target, port);
      0 <= a.port <= 65535 && connect(a, timeout).Some? ==> r.1 == connect(a, timeout).value
  {
    var a := ProbeAddress(target, port);
    // socket.connect rejects a port outside 0..65535 with OverflowError, which the except clause absorbs.
    if 0 <= a.port <= 65535 && connect(a, timeout).Some? then (target, connect(a, timeout).value)
    else (target, Unreachable)
  }

  // ------------------------------------------------------------ tiered selection

  const Threshold: real := 5000.0
  const ShortCircuit: real := 15.0
  const TopSize: nat := 5
  const RetestCount: nat := 3
  const JitterWeight: real := 1.5

  /** The progress messages pick_best emits: "measuring" before tier 1, "retesting stability" before tier 2. */
  datatype Phase = Measuring | Retesting

  /** One tier-1 result: a candidate and the latency its probe reported. */
  datatype Probe = Probe(endpoint: string, latency: real)

  /** One tier-2 result: a candidate, the mean of its samples and its composite score. */
  datatype Scored = Scored(endpoint: string, mean: real, score: real)

  /** What pick_best returns (endpoint, latency), with the progress it reported and the number of tier-2 probes it issued. */
  datatype Selection = Selection(endpoint: Option<string>, latency: real, progress: seq<Phase>, retests: nat)

  /**
   * The network as pick_best observes it: `first[i]` is what the tier-1 probe
   * of the i-th parsed candidate returned (2.0 s timeout for a lone candidate,
   * 1.0 s otherwise), `arrival` the order the tier-1 probes completed in,
   * `retest(k, j)` what the j-th stability probe of the k-th top entry
   * returned, and `stdev` the sample standard deviation.
   */
  datatype Measurements = Measurements(
    first: seq<real>,
    arrival: seq<nat>,
    retest: (nat, nat) -> real,
    stdev: seq<real> -> real)

  /** `m` describes a run over `n` candidates: one result each, completing in some order. */
  predicate WellFormed(m: Measurements, n: nat) {
    && |m.first| == n
    && |m.arrival| == n
    && (forall k | 0 <= k < n :: m.arrival[k] < n)
    && (forall i | 0 <= i < n :: i in m.arrival)
  }

  function LatencyOf(p: Probe): real { p.latency }

  function ScoreOf(s: Scored): real { s.score }

  /** Tier 1: in completion order, the candidates whose probe reported less than the threshold. */
  function Qualifying(raw: seq<string>, first: seq<real>, arrival: seq<nat>): (q: seq<Probe>)
    requires |first| == |raw|
    requires forall k | 0 <= k < |arrival| :: arrival[k] < |raw|
    ensures |q| <= |arrival|
    ensures forall k | 0 <= k < |q| :: q[k].latency < Threshold
  {
    if arrival == [] then []
    else
      var i := arrival[0];
      var rest := Qualifying(raw, first, arrival[1..]);
      var head := if first[i] < Threshold then [Probe(raw[i], first[i])] else [];
      assert forall k | 0 <= k < |head + rest| :: (head + rest)[k] in head || (head + rest)[k] == rest[k - |head|];
      head + rest
  }

  /** Every tier-1 survivor is a parsed candidate paired with its own probe result. */
  lemma {:induction false} QualifyingSound(raw: seq<string>, first: seq<real>, arrival: seq<nat>)
    requires |first| == |raw|
    requires forall k | 0 <= k < |arrival| :: arrival[k] < |raw|
    ensures forall c | c in Qualifying(raw, first, arrival) :: exists i | 0 <= i < |raw| :: c == Probe(raw[i], first[i])
  {
    if arrival != [] {
      QualifyingSound(raw, first, arrival[1..]);
      var i := arrival[0];
      assert Probe(raw[i], first[i]) == Probe(raw[i], first[i]);
    }
  }

  /** Every candidate whose probe reported less than the threshold survives tier 1. */
  lemma {:induction false} QualifyingComplete(raw: seq<string>, first: seq<real>, arrival: seq<nat>)
    requires |first| == |raw|
    requires forall k | 0 <= k < |arrival| :: arrival[k] < |raw|
    ensures forall k | 0 <= k < |arrival| && first[arrival[k]] < Threshold :: Probe(raw[arrival[k]], first[arrival[k]]) in Qualifying(raw, first, arrival)
  {
    if arrival != [] {
      QualifyingComplete(raw, first, arrival[1..]);
      assert forall k | 1 <= k < |arrival| :: arrival[k] == arrival[1..][k - 1];
    }
  }

  /** The tier-1 survivors of a run. */
  function Tier1(raw: seq<string>, m: Measurements): (q: seq<Probe>)
    requires WellFormed(m, |raw|)
    ensures |q| <= |raw|
    ensures forall c | c in q :: c.latency < Threshold && c.endpoint in raw
  {
    QualifyingSound(raw, m.first, m.arrival);
    Qualifying(raw, m.first, m.arrival)
  }

  /** Tier 1 holds exactly the candidates whose probe reported less than the threshold. */
  lemma Tier1Members(raw: seq<string>, m: Measurements)
    requires WellFormed(m, |raw|)
    ensures forall c | c in Tier1(raw, m) :: c.latency < Threshold && exists i | 0 <= i < |raw| :: c == Probe(raw[i], m.first[i])
    ensures forall i | 0 <= i < |raw| && m.first[i] < Threshold :: Probe(raw[i], m.first[i]) in Tier1(raw, m)
  {
    QualifyingSound(raw, m.first, m.arrival);
    QualifyingComplete(raw, m.first, m.arrival);
    forall i | 0 <= i < |raw| && m.first[i] < Threshold ensures Probe(raw[i], m.first[i]) in Tier1(raw, m) {
      assert i in m.arrival;
      var k :| 0 <= k < |m.arrival| && m.arrival[k] == i;
    }
  }

  /** Some candidate passes tier 1 exactly when its probe reported less than the threshold. */
  lemma Tier1NonEmpty(raw: seq<string>, m: Measurements)
    requires WellFormed(m, |raw|)
    ensures Tier1(raw, m) != [] <==> exists i | 0 <= i < |raw| :: m.first[i] < Threshold
  {
    Tier1Members(raw, m);
    if Tier1(raw, m) != [] {
      var c := Tier1(raw, m)[0];
      assert c in Tier1(raw, m);
    }
  }

  /** The best TopSize tier-1 survivors, fastest first (ties in completion order). */
  function Top(q: seq<Probe>): (top: seq<Probe>)
    ensures |top| == if |q| < TopSize then |q| else TopSize
    ensures SortedBy(top, LatencyOf)
    ensures multiset(top) <= multiset(q)
  {
    var sorted := SortBy(q, LatencyOf);
    var n := if |sorted| < TopSize then |sorted| else TopSize;
    assert sorted == sorted[..n] + sorted[n..];
    sorted[..n]
  }

  /** The top set is drawn from the survivors. */
  lemma TopFromSurvivors(q: seq<Probe>)
    ensures forall c | c in Top(q) :: c in q
  {
    forall c | c in Top(q) ensures c in q {
      assert c in multiset(Top(q));
    }
  }

  /** When there are at most TopSize survivors, the top set holds every one of them. */
  lemma TopAllSurvivors(q: seq<Probe>)
    requires |q| <= TopSize
    ensures multiset(Top(q)) == multiset(q)
  {
    var sorted := SortBy(q, LatencyOf);
    assert Top(q) == sorted[..|q|];
    assert sorted[..|q|] == sorted;
  }

  /** The head of the top set is the first survivor with the least latency. */
  lemma TopHead(q: seq<Probe>)
    requires q != []
    ensures Top(q)[0] == q[FirstMinimum(q, LatencyOf)]
    ensures forall c | c in q :: Top(q)[0].latency <= c.latency
  {
    SortHeadIsFirstMinimum(q, LatencyOf);
    var i := FirstMinimum(q, LatencyOf);
    forall c | c in q ensures Top(q)[0].latency <= c.latency {
      var j :| 0 <= j < |q| && q[j] == c;
      assert LatencyOf(q[i]) <= LatencyOf(q[j]);
    }
  }

  /** Every survivor left out of the top set is no faster than the slowest entry in it. */
  lemma TopHoldsBest(q: seq<Probe>)
    requires q != []
    ensures forall c | c in q :: c in Top(q) || c.latency >= Top(q)[|Top(q)| - 1].latency
  {
    var n := |Top(q)|;
    assert Top(q) == SortBy(q, LatencyOf)[..n];
    PrefixHoldsBest(q, LatencyOf, n);
  }

  /** The re-probes of the k-th top entry that reported less than the threshold, among the first n. */
  function Usable(k: nat, n: nat, retest: (nat, nat) -> real): (s: seq<real>)
    ensures |s| <= n
    ensures forall j | 0 <= j < |s| :: s[j] < Threshold
    ensures forall x | x in s :: exists j | 0 <= j < n :: retest(k, j) == x
  {
    if n == 0 then []
    else Usable(k, n - 1, retest) + (if retest(k, n - 1) < Threshold then [retest(k, n - 1)] else [])
  }

  /** The positions among the first n re-probes of the k-th entry that reported less than the threshold, in order. */
  function Passing(k: nat, n: nat, retest: (nat, nat) -> real): (idx: seq<nat>)
    ensures forall i | 0 <= i < |idx| :: idx[i] < n && retest(k, idx[i]) < Threshold
    ensures forall i, i' | 0 <= i < i' < |idx| :: idx[i] < idx[i']
    ensures forall j | 0 <= j < n && retest(k, j) < Threshold :: j in idx
  {
    if n == 0 then []
    else Passing(k, n - 1, retest) + (if retest(k, n - 1) < Threshold then [n - 1] else [])
  }

  /**
   * The usable re-probes are exactly the passing ones, in probe order: the
   * i-th usable value is the re-probe at the i-th passing position.
   */
  lemma {:induction false} UsableIsFilter(k: nat, n: nat, retest: (nat, nat) -> real)
    ensures |Usable(k, n, retest)| == |Passing(k, n, retest)|
    ensures forall i | 0 <= i < |Usable(k, n, retest)| :: Usable(k, n, retest)[i] == retest(k, Passing(k, n, retest)[i])
  {
    if n > 0 {
      UsableIsFilter(k, n - 1, retest);
    }
  }

  /** A re-probe that reported less than the threshold is among the usable ones. */
  lemma {:induction false} UsableComplete(k: nat, n: nat, retest: (nat, nat) -> real)
    ensures forall j | 0 <= j < n && retest(k, j) < Threshold :: retest(k, j) in Usable(k, n, retest)
  {
    if n > 0 {
      UsableComplete(k, n - 1, retest);
    }
  }

  /** The stability samples of the k-th top entry: its tier-1 latency, then its usable re-probes. */
  function Samples(firstLatency: real, k: nat, retest: (nat, nat) -> real): (s: seq<real>)
    ensures 1 <= |s| <= 1 + RetestCount
    ensures s[0] == firstLatency
    ensures forall j | 1 <= j < |s| :: s[j] < Threshold
    ensures forall j | 1 <= j < |s| :: exists i | 0 <= i < RetestCount :: retest(k, i) == s[j]
  {
    assert forall j | 1 <= j < 1 + |Usable(k, RetestCount, retest)| ::
      ([firstLatency] + Usable(k, RetestCount, retest))[j] in Usable(k, RetestCount, retest);
    [firstLatency] + Usable(k, RetestCount, retest)
  }

  function Sum(s: seq<real>): real {
    if s == [] then 0.0 else Sum(s[..|s| - 1]) + s[|s| - 1]
  }

  /** statistics.mean. */
  function Mean(s: seq<real>): real
    requires s != []
  {
    Sum(s) / (|s| as real)
  }

  /** A sum of values each below `bound` is below |s| times the bound. */
  lemma {:induction false} SumBelow(s: seq<real>, bound: real)
    requires s != []
    requires forall j | 0 <= j < |s| :: s[j] < bound
    ensures Sum(s) < (|s| as real) * bound
  {
    if |s| > 1 {
      SumBelow(s[..|s| - 1], bound);
    }
  }

  /** The mean of samples below a bound is below it. */
  lemma MeanBelow(s: seq<real>, bound: real)
    requires s != []
    requires forall j | 0 <= j < |s| :: s[j] < bound
    ensures Mean(s) < bound
  {
    SumBelow(s, bound);
  }

  /** The jitter term: the sample standard deviation, or 0 for a single sample. */
  function Jitter(s: seq<real>, stdev: seq<real> -> real): real {
    if |s| > 1 then stdev(s) else 0.0
  }

  /** Tier 2: each top entry with the mean of its samples and the score mean + 1.5 * jitter, in top order. */
  function ScoreTop(top: seq<Probe>, m: Measurements): (scored: seq<Scored>)
    ensures |scored| == |top|
    ensures forall k | 0 <= k < |top| :: scored[k].endpoint == top[k].endpoint
  {
    seq(|top|, k requires 0 <= k < |top| =>
      var s := Samples(top[k].latency, k, m.retest);
      Scored(top[k].endpoint, Mean(s), Mean(s) + JitterWeight * Jitter(s, m.stdev)))
  }

  /** Every scored entry's mean is below the threshold, and its score exceeds the mean only by the jitter term. */
  lemma ScoreTopBounds(top: seq<Probe>, m: Measurements)
    requires forall k | 0 <= k < |top| :: top[k].latency < Threshold
    ensures forall k | 0 <= k < |top| :: ScoreTop(top, m)[k].mean < Threshold
    ensures forall k | 0 <= k < |top| :: (Samples(top[k].latency, k, m.retest) == [top[k].latency] ==>
      ScoreTop(top, m)[k].score == ScoreTop(top, m)[k].mean == top[k].latency)
  {
    forall k | 0 <= k < |top| ensures ScoreTop(top, m)[k].mean < Threshold {
      MeanBelow(Samples(top[k].latency, k, m.retest), Threshold);
    }
    forall k | 0 <= k < |top| && Samples(top[k].latency, k, m.retest) == [top[k].latency]
      ensures ScoreTop(top, m)[k].score == ScoreTop(top, m)[k].mean == top[k].latency
    {
      var x := top[k].latency;
      assert Sum([x]) == Sum([]) + x;
      assert Mean([x]) == x;
      assert Jitter([x], m.stdev) == 0.0;
    }
  }

  /** The entry tier 2 picks: the scored entry first in score order. */
  function Winner(top: seq<Probe>, m: Measurements): (w: Scored)
    requires top != []
    ensures w in ScoreTop(top, m)
  {
    Best(ScoreTop(top, m))
  }

  /** The head of `scored` sorted by score, as `scored.sort(key=...)` then `scored[0]` give it. */
  function Best(scored: seq<Scored>): (w: Scored)
    requires scored != []
    ensures w in scored
  {
    var sorted := SortBy(scored, ScoreOf);
    assert sorted[0] in multiset(sorted);
    sorted[0]
  }

  /** The best entry has the least score, and is the earliest entry among those sharing it. */
  lemma BestIsFirstMinimum(scored: seq<Scored>)
    requires scored != []
    ensures Best(scored) == scored[FirstMinimum(scored, ScoreOf)]
    ensures forall j | 0 <= j < |scored| :: Best(scored).score <= scored[j].score
  {
    SortHeadIsFirstMinimum(scored, ScoreOf);
    var i := FirstMinimum(scored, ScoreOf);
    forall j | 0 <= j < |scored| ensures Best(scored).score <= scored[j].score {
      assert ScoreOf(scored[i]) <= ScoreOf(scored[j]);
    }
  }

  /**
   * pick_best over the parsed candidates `raw`: nothing for no candidate, the
   * lone candidate as probed, the first candidate with latency 0 when none
   * passes tier 1, the fastest when it is under 15 ms, and otherwise the top
   * entry with the lowest composite score, reported with its mean.
   */
  function PickBest(raw: seq<string>, m: Measurements): (r: Selection)
    requires WellFormed(m, |raw|)
    ensures raw == [] <==> r.endpoint == None
    ensures r.endpoint.Some? ==> r.endpoint.value in raw
    ensures r.retests > 0 ==> Retesting in r.progress
    ensures r.retests <= RetestCount * TopSize
  {
    if raw == [] then Selection(None, 0.0, [], 0)
    else if |raw| == 1 then Selection(Some(raw[0]), m.first[0], [], 0)
    else
      var q := Tier1(raw, m);
      if q == [] then Selection(Some(raw[0]), 0.0, [Measuring], 0)
      else
        var top := Top(q);
        TopInRaw(raw, m);
        if top[0].latency < ShortCircuit then
          Selection(Some(top[0].endpoint), top[0].latency, [Measuring], 0)
        else
          var w := Winner(top, m);
          WinnerInRaw(raw, m);
          Selection(Some(w.endpoint), w.mean, [Measuring, Retesting], RetestCount * |top|)
  }

  /** Every top entry names a parsed candidate. */
  lemma TopInRaw(raw: seq<string>, m: Measurements)
    requires WellFormed(m, |raw|)
    ensures forall k | 0 <= k < |Top(Tier1(raw, m))| :: Top(Tier1(raw, m))[k].endpoint in raw
  {
    var q := Tier1(raw, m);
    TopFromSurvivors(q);
    Tier1Members(raw, m);
    forall k | 0 <= k < |Top(q)| ensures Top(q)[k].endpoint in raw {
      assert Top(q)[k] in q;
    }
  }

  /** The tier-2 winner names a parsed candidate. */
  lemma WinnerInRaw(raw: seq<string>, m: Measurements)
    requires WellFormed(m, |raw|) && Top(Tier1(raw, m)) != []
    ensures Winner(Top(Tier1(raw, m)), m).endpoint in raw
  {
    var top := Top(Tier1(raw, m));
    var w := Winner(top, m);
    TopInRaw(raw, m);
    var k :| 0 <= k < |top| && ScoreTop(top, m)[k] == w;
  }

  /** A lone candidate is returned as its probe reported it, even the Unreachable sentinel, with no progress message. */
  lemma PickBestSingle(raw: seq<string>, m: Measurements)
    requires WellFormed(m, |raw|) && |raw| == 1
    ensures PickBest(raw, m) == Selection(Some(raw[0]), m.first[0], [], 0)
  {
  }

  /** When no probe reports less than the threshold, the first candidate comes back with latency 0. */
  lemma PickBestFallback(raw: seq<string>, m: Measurements)
    requires WellFormed(m, |raw|) && |raw| > 1
    requires forall i | 0 <= i < |raw| :: m.first[i] >= Threshold
    ensures PickBest(raw, m) == Selection(Some(raw[0]), 0.0, [Measuring], 0)
  {
    Tier1NonEmpty(raw, m);
  }

  /**
   * When some probe reports less than 15 ms, the fastest candidate is returned
   * with its tier-1 latency and no stability probe is issued.
   */
  lemma PickBestShortCircuit(raw: seq<string>, m: Measurements)
    requires WellFormed(m, |raw|) && |raw| > 1
    requires exists i | 0 <= i < |raw| :: m.first[i] < ShortCircuit
    ensures var r := PickBest(raw, m);
      && r.progress == [Measuring]
      && r.retests == 0
      && (forall i | 0 <= i < |raw| :: r.latency <= m.first[i])
      && (exists j | 0 <= j < |raw| :: r.endpoint == Some(raw[j]) && r.latency == m.first[j])
  {
    var i0 :| 0 <= i0 < |raw| && m.first[i0] < ShortCircuit;
    Tier1Members(raw, m);
    var q := Tier1(raw, m);
    assert Probe(raw[i0], m.first[i0]) in q;
    TopHead(q);
    TopFromSurvivors(q);
    var top := Top(q);
    assert top[0].latency <= m.first[i0];
    PickBestShort(raw, m);
    assert top[0] in q;
    var j :| 0 <= j < |raw| && top[0] == Probe(raw[j], m.first[j]);
    forall i | 0 <= i < |raw| ensures top[0].latency <= m.first[i] {
      if m.first[i] < Threshold {
        assert Probe(raw[i], m.first[i]) in q;
      }
    }
  }

  /** The short-circuit branch of pick_best, stated on the top set. */
  lemma PickBestShort(raw: seq<string>, m: Measurements)
    requires WellFormed(m, |raw|) && |raw| > 1
    requires Tier1(raw, m) != [] && Top(Tier1(raw, m))[0].latency < ShortCircuit
    ensures var top := Top(Tier1(raw, m));
      PickBest(raw, m) == Selection(Some(top[0].endpoint), top[0].latency, [Measuring], 0)
  {
  }

  /** Past the short circuit, pick_best reports tier 2's winner with its mean. */
  lemma PickBestRetests(raw: seq<string>, m: Measurements)
    requires WellFormed(m, |raw|) && |raw| > 1
    requires exists i | 0 <= i < |raw| :: m.first[i] < Threshold
    requires forall i | 0 <= i < |raw| :: m.first[i] >= ShortCircuit
    ensures var top := Top(Tier1(raw, m));
      && 0 < |top| <= TopSize
      && (forall k | 0 <= k < |top| :: top[k].latency < Threshold)
      && PickBest(raw, m) == Selection(Some(Winner(top, m).endpoint), Winner(top, m).mean, [Measuring, Retesting], RetestCount * |top|)
  {
    Tier1NonEmpty(raw, m);
    var q := Tier1(raw, m);
    var top := Top(q);
    TopFromSurvivors(q);
    Tier1Members(raw, m);
    assert top[0] in q;
    forall k | 0 <= k < |top| ensures top[k].latency < Threshold {
      assert top[k] in q;
    }
  }

  /**
   * When the best tier-1 latency is 15 ms or more but below the threshold,
   * each of the (at most five) top entries is re-probed three times, and the
   * entry with the least score wins, reported with its mean latency.
   */
  lemma PickBestStability(raw: seq<string>, m: Measurements)
    requires WellFormed(m, |raw|) && |raw| > 1
    requires exists i | 0 <= i < |raw| :: m.first[i] < Threshold
    requires forall i | 0 <= i < |raw| :: m.first[i] >= ShortCircuit
    ensures var r := PickBest(raw, m);
      var top := Top(Tier1(raw, m));
      var scored := ScoreTop(top, m);
      && 0 < |top| <= TopSize
      && r.progress == [Measuring, Retesting]
      && r.retests == RetestCount * |top|
      && r.latency < Threshold
      && (exists k | 0 <= k < |scored| ::
            && r.endpoint == Some(scored[k].endpoint)
            && r.latency == scored[k].mean
            && forall j | 0 <= j < |scored| :: scored[k].score <= scored[j].score)
  {
    PickBestRetests(raw, m);
    var top := Top(Tier1(raw, m));
    var scored := ScoreTop(top, m);
    ScoreTopBounds(top, m);
    BestIsFirstMinimum(scored);
    var k := FirstMinimum(scored, ScoreOf);
    assert Winner(top, m) == scored[k];
  }

  /** Whenever some candidate passes tier 1, the reported latency is below the threshold. */
  lemma PickBestLatencyBelowThreshold(raw: seq<string>, m: Measurements)
    requires WellFormed(m, |raw|) && |raw| > 1
    requires exists i | 0 <= i < |raw| :: m.first[i] < Threshold
    ensures PickBest(raw, m).latency < Threshold
  {
    if exists i | 0 <= i < |raw| :: m.first[i] < ShortCircuit {
      var i :| 0 <= i < |raw| && m.first[i] < ShortCircuit;
      PickBestShortCircuit(raw, m);
      assert PickBest(raw, m).latency <= m.first[i];
    } else {
      PickBestStability(raw, m);
    }
  }
}
