/**
 * The client's profile list (ConfigManager in gui.py): an ordered list of
 * server profiles, each with an id, and the id of the current one. Every
 * operation is a pure function from the old configuration to the new one;
 * fresh ids are parameters and saving to disk is left out.
 */
module Profiles {
  import opened Options

  /**
   * The fields of one profile other than its id. A field the stored JSON
   * object lacks is None; `listen` and `ip_list` then fall back to defaults
   * where they are read, and a missing `auto_best` reads as true.
   */
  datatype Settings = Settings(
    name: Option<string>,
    server: Option<string>,
    listen: Option<string>,
    token: Option<string>,
    ipList: Option<string>,
    routing: Option<string>,
    autoBest: Option<bool>)

  datatype Profile = Profile(id: string, settings: Settings)

  /** The in-memory configuration: the profiles in order and the current profile's id (None for JSON null). */
  datatype Config = Config(servers: seq<Profile>, current: Option<string>)

  const DefaultName: string := "默认配置"
  const DefaultListen: string := "127.0.0.1:30000"
  const DefaultRouting: string := "bypass_cn"

  /** The profile add_default creates. */
  function DefaultSettings(): Settings {
    Settings(Some(DefaultName), Some(""), Some(DefaultListen), Some(""), Some(""), Some(DefaultRouting), Some(true))
  }

  /** The ids of the profiles, in order. */
  function Ids(servers: seq<Profile>): (r: seq<string>)
    ensures |r| == |servers| && forall i | 0 <= i < |servers| :: r[i] == servers[i].id
  {
    seq(|servers|, i requires 0 <= i < |servers| => servers[i].id)
  }

  /** No two profiles share an id. */
  predicate UniqueIds(servers: seq<Profile>) {
    forall i, j | 0 <= i < j < |servers| :: servers[i].id != servers[j].id
  }

  /** The position of the first profile whose id is `id`, if any. */
  function IndexOf(servers: seq<Profile>, id: string): (r: Option<nat>)
    ensures r.Some? ==> r.value < |servers| && servers[r.value].id == id
    ensures r.Some? ==> forall j | 0 <= j < r.value :: servers[j].id != id
    ensures r.None? ==> forall j | 0 <= j < |servers| :: servers[j].id != id
  {
    if servers == [] then None
    else if servers[0].id == id then Some(0)
    else
      var r := IndexOf(servers[1..], id);
      assert forall j | 1 <= j < |servers| :: servers[j] == servers[1..][j - 1];
      if r.Some? then Some(r.value + 1) else None
  }

  // ------------------------------------------------------------ get_cur

  /**
   * get_cur: the first profile whose id is current; failing that, the first
   * profile, which also becomes current; failing that (no profiles), nothing.
   */
  function GetCur(c: Config): (r: (Option<Profile>, Config))
    ensures r.0.Some? <==> c.servers != []
    ensures r.1.servers == c.servers
    ensures r.0.Some? ==> r.0.value in c.servers && r.1.current == Some(r.0.value.id)
    ensures r.0.None? ==> r.1 == c
  {
    var i := if c.current.Some? then IndexOf(c.servers, c.current.value) else None;
    if i.Some? then (Some(c.servers[i.value]), c)
    else if c.servers != [] then (Some(c.servers[0]), c.(current := Some(c.servers[0].id)))
    else (None, c)
  }

  /** When the current id names a profile, get_cur returns the first such and changes nothing. */
  lemma GetCurFound(c: Config, i: nat)
    requires i < |c.servers| && c.current == Some(c.servers[i].id)
    requires forall j | 0 <= j < i :: c.servers[j].id != c.servers[i].id
    ensures GetCur(c) == (Some(c.servers[i]), c)
  {
    var k := IndexOf(c.servers, c.current.value);
    assert k.Some?;
    assert k.value == i;
  }

  /** When the current id names no profile, get_cur falls back to the first and resets current to it. */
  lemma GetCurFallback(c: Config)
    requires c.servers != []
    requires forall j | 0 <= j < |c.servers| :: c.current != Some(c.servers[j].id)
    ensures GetCur(c) == (Some(c.servers[0]), c.(current := Some(c.servers[0].id)))
  {
  }

  /** Asking twice gives the same profile and leaves the configuration as the first call left it. */
  lemma GetCurIdempotent(c: Config)
    ensures GetCur(GetCur(c).1) == GetCur(c)
  {
    var (p, c1) := GetCur(c);
    if p.Some? {
      var i := IndexOf(c.servers, p.value.id);
      var k := IndexOf(c1.servers, c1.current.value);
      assert k.Some?;
      var j := if c.current.Some? then IndexOf(c.servers, c.current.value) else None;
      if j.Some? {
        assert c1 == c;
      } else {
        assert c1.current == Some(c.servers[0].id);
        assert k == Some(0);
      }
    }
  }

  // ------------------------------------------------------------ update_cur

  /** update_cur(val): every profile whose id is val's id is replaced by val; the rest stay. */
  function UpdateCur(c: Config, val: Profile): (r: Config)
    ensures r.current == c.current
    ensures |r.servers| == |c.servers|
    ensures forall i | 0 <= i < |c.servers| && c.servers[i].id != val.id :: r.servers[i] == c.servers[i]
    ensures forall i | 0 <= i < |c.servers| && c.servers[i].id == val.id :: r.servers[i] == val
  {
    c.(servers := Replace(c.servers, val))
  }

  function Replace(servers: seq<Profile>, val: Profile): (r: seq<Profile>)
    ensures |r| == |servers|
    ensures forall i | 0 <= i < |servers| :: r[i] == if servers[i].id == val.id then val else servers[i]
  {
    if servers == [] then []
    else
      var rest := Replace(servers[1..], val);
      var r := [if servers[0].id == val.id then val else servers[0]] + rest;
      assert forall i | 1 <= i < |servers| :: r[i] == rest[i - 1] && servers[i] == servers[1..][i - 1];
      r
  }

  /** update_cur keeps the list of ids. */
  lemma UpdateCurKeepsIds(c: Config, val: Profile)
    ensures Ids(UpdateCur(c, val).servers) == Ids(c.servers)
  {
  }

  /** Updating twice with the same profile is updating once. */
  lemma UpdateCurIdempotent(c: Config, val: Profile)
    ensures UpdateCur(UpdateCur(c, val), val) == UpdateCur(c, val)
  {
    var r1 := UpdateCur(c, val);
    var r2 := UpdateCur(r1, val);
    assert r2.servers == r1.servers;
  }

  // ------------------------------------------------------------ add_new

  /** The settings a fresh profile copies: the current profile's, or none when there is no profile. */
  function Template(c: Config): Settings {
    match GetCur(c).0
    case Some(p) => p.settings
    case None => Settings(None, None, None, None, None, None, None)
  }

  /**
   * add_new(name): a copy of the current profile's settings under a fresh id
   * and the new name, appended and made current.
   */
  function AddNew(c: Config, name: string, newId: string): (r: Config)
    ensures |r.servers| == |c.servers| + 1
    ensures r.servers[..|c.servers|] == c.servers
    ensures r.servers[|c.servers|] == Profile(newId, Template(c).(name := Some(name)))
    ensures r.current == Some(newId)
  {
    var added := Profile(newId, Template(c).(name := Some(name)));
    Config(c.servers + [added], Some(newId))
  }

  /** With a fresh id, the new profile is the one get_cur returns afterwards. */
  lemma AddNewBecomesCurrent(c: Config, name: string, newId: string)
    requires newId !in Ids(c.servers)
    ensures GetCur(AddNew(c, name, newId)).0 == Some(Profile(newId, Template(c).(name := Some(name))))
  {
    var r := AddNew(c, name, newId);
    var n := |c.servers|;
    forall j | 0 <= j < n ensures r.servers[j].id != newId {
      assert r.servers[j] == c.servers[j];
      assert Ids(c.servers)[j] == c.servers[j].id;
    }
    GetCurFound(r, n);
  }

  /** add_new keeps ids unique when the new id is fresh. */
  lemma AddNewKeepsUnique(c: Config, name: string, newId: string)
    requires UniqueIds(c.servers) && newId !in Ids(c.servers)
    ensures UniqueIds(AddNew(c, name, newId).servers)
  {
    var r := AddNew(c, name, newId).servers;
    forall i, j | 0 <= i < j < |r| ensures r[i].id != r[j].id {
      assert r[i] == c.servers[i];
      if j == |c.servers| {
        assert Ids(c.servers)[i] == c.servers[i].id;
      } else {
        assert r[j] == c.servers[j];
      }
    }
  }

  // ------------------------------------------------------------ del_cur

  /** The result of an operation that can raise: the state it leaves, and whether it raised IndexError. */
  datatype Outcome = Done(config: Config) | IndexError(config: Config)

  /** The profiles whose id is not `id`, in order. */
  function Without(servers: seq<Profile>, id: Option<string>): (r: seq<Profile>)
    ensures |r| <= |servers|
    ensures forall k | 0 <= k < |r| :: Some(r[k].id) != id
  {
    if servers == [] then []
    else
      var head := if Some(servers[0].id) != id then [servers[0]] else [];
      var rest := Without(servers[1..], id);
      assert forall k | |head| <= k < |head + rest| :: (head + rest)[k] == rest[k - |head|];
      head + rest
  }

  /** Filtering keeps every profile whose id differs, and only profiles of the list. */
  lemma {:induction false} WithoutMembers(servers: seq<Profile>, id: Option<string>)
    ensures forall p | p in Without(servers, id) :: p in servers
    ensures forall i | 0 <= i < |servers| && Some(servers[i].id) != id :: servers[i] in Without(servers, id)
  {
    if servers != [] {
      WithoutMembers(servers[1..], id);
      assert forall i | 1 <= i < |servers| :: servers[i] == servers[1..][i - 1];
      assert forall p | p in servers[1..] :: p in servers;
    }
  }

  /**
   * del_cur: nothing happens with at most one profile; otherwise the profiles
   * whose id is current are removed and the first remaining one becomes
   * current. If every profile carries the current id the list is left empty
   * and reading its first element raises IndexError.
   */
  function DelCur(c: Config): (r: Outcome)
    ensures |c.servers| <= 1 ==> r == Done(c)
    ensures r.IndexError? <==> |c.servers| > 1 && Without(c.servers, c.current) == []
    ensures |c.servers| > 1 ==> r.config.servers == Without(c.servers, c.current)
    ensures r.Done? && |c.servers| > 1 ==> r.config.current == Some(r.config.servers[0].id)
  {
    if |c.servers| <= 1 then Done(c)
    else
      var rest := Without(c.servers, c.current);
      if rest == [] then IndexError(c.(servers := rest))
      else Done(Config(rest, Some(rest[0].id)))
  }

  /** Removing a profile whose id is unique among at least two: exactly that profile goes. */
  lemma DelCurRemovesOne(c: Config, i: nat)
    requires UniqueIds(c.servers) && |c.servers| > 1
    requires i < |c.servers| && c.current == Some(c.servers[i].id)
    ensures DelCur(c).Done?
    ensures DelCur(c).config.servers == c.servers[..i] + c.servers[i + 1..]
  {
    WithoutUnique(c.servers, i);
  }

  /** Filtering out the id of the i-th profile, unique in the list, removes just that profile. */
  lemma {:induction false} WithoutUnique(servers: seq<Profile>, i: nat)
    requires UniqueIds(servers) && i < |servers|
    ensures Without(servers, Some(servers[i].id)) == servers[..i] + servers[i + 1..]
  {
    var id := servers[i].id;
    var tail := servers[1..];
    assert UniqueIds(tail) by {
      forall a, b | 0 <= a < b < |tail| ensures tail[a].id != tail[b].id {
        assert tail[a] == servers[a + 1] && tail[b] == servers[b + 1];
      }
    }
    if i == 0 {
      WithoutAbsent(tail, id);
      forall j | 0 <= j < |tail| ensures tail[j].id != id { assert tail[j] == servers[j + 1]; }
    } else {
      assert servers[0].id != id;
      WithoutUnique(tail, i - 1);
      assert tail[i - 1] == servers[i];
      assert servers[..i] == [servers[0]] + tail[..i - 1];
      assert tail[i..] == servers[i + 1..];
    }
  }

  /** Filtering out an id no profile has changes nothing. */
  lemma {:induction false} WithoutAbsent(servers: seq<Profile>, id: string)
    requires forall j | 0 <= j < |servers| :: servers[j].id != id
    ensures Without(servers, Some(id)) == servers
  {
    if servers != [] {
      assert forall j | 0 <= j < |servers[1..]| :: servers[1..][j] == servers[j + 1];
      WithoutAbsent(servers[1..], id);
      assert servers == [servers[0]] + servers[1..];
    }
  }

  /** With unique ids and at least two profiles, del_cur never raises and at least one profile remains. */
  lemma DelCurKeepsOne(c: Config)
    requires UniqueIds(c.servers) && |c.servers| > 1
    ensures DelCur(c).Done? && DelCur(c).config.servers != []
  {
    var w := Without(c.servers, c.current);
    WithoutMembers(c.servers, c.current);
    if c.current.Some? && c.servers[0].id == c.current.value {
      assert c.servers[1].id != c.current.value;
      assert c.servers[1] in w;
    } else {
      assert c.servers[0] in w;
    }
  }

  // ------------------------------------------------------------ rename_cur

  /**
   * rename_cur(n): get_cur's profile, renamed in place, is written back over
   * every profile with its id. Without profiles nothing changes.
   */
  function RenameCur(c: Config, n: string): (r: Config)
    ensures |r.servers| == |c.servers|
    ensures Ids(r.servers) == Ids(c.servers)
  {
    var (p, c1) := GetCur(c);
    if p.None? then c1
    else UpdateCur(c1, p.value.(settings := p.value.settings.(name := Some(n))))
  }

  /** Renaming makes get_cur's profile carry the new name and touches no profile with another id. */
  lemma RenameCurEffect(c: Config, n: string)
    requires c.servers != []
    ensures var p := GetCur(c).0.value;
      var r := RenameCur(c, n);
      && r.current == Some(p.id)
      && (forall i | 0 <= i < |c.servers| && c.servers[i].id != p.id :: r.servers[i] == c.servers[i])
      && (forall i | 0 <= i < |c.servers| && c.servers[i].id == p.id :: r.servers[i] == p.(settings := p.settings.(name := Some(n))))
      && GetCur(r).0 == Some(p.(settings := p.settings.(name := Some(n))))
  {
    var (p, c1) := GetCur(c);
    var q := p.value.(settings := p.value.settings.(name := Some(n)));
    var r := RenameCur(c, n);
    var k := IndexOf(c.servers, p.value.id);
    assert k.Some?;
    assert r.servers[k.value] == q;
    GetCurFound(r, k.value);
  }

  // ------------------------------------------------------------ load

  /** A profile as stored: its id may be missing. */
  datatype StoredProfile = StoredProfile(id: Option<string>, settings: Settings)

  /** Python truthiness of the stored `current`: neither null nor the empty string. */
  predicate Truthy(s: Option<string>) {
    s.Some? && s.value != []
  }

  /** Each stored profile with a minted id where it had none and `auto_best` true where it had none. */
  function Normalize(stored: seq<StoredProfile>, mint: nat -> string, from: nat): (r: seq<Profile>)
    ensures |r| == |stored|
    ensures forall i | 0 <= i < |stored| :: r[i].id == stored[i].id.GetOr(mint(from + i))
    ensures forall i | 0 <= i < |stored| :: r[i].settings.autoBest == Some(stored[i].settings.autoBest.GetOr(true))
    ensures forall i | 0 <= i < |stored| :: r[i].settings == stored[i].settings.(autoBest := r[i].settings.autoBest)
  {
    if stored == [] then []
    else
      var s := stored[0];
      var p := Profile(s.id.GetOr(mint(from)), s.settings.(autoBest := Some(s.settings.autoBest.GetOr(true))));
      var rest := Normalize(stored[1..], mint, from + 1);
      assert forall i | 1 <= i < |stored| :: ([p] + rest)[i] == rest[i - 1] && stored[i] == stored[1..][i - 1];
      [p] + rest
  }

  /**
   * load's normalisation of the parsed configuration: an empty list becomes
   * the default profile, made current; otherwise profiles get their missing
   * ids and `auto_best`, and a falsy current becomes the first profile's id.
   * `mint(i)` is the id minted for the i-th profile.
   */
  function Load(stored: seq<StoredProfile>, current: Option<string>, mint: nat -> string): (r: Config)
    ensures r.servers != []
    ensures stored == [] ==> r == Config([Profile(mint(0), DefaultSettings())], Some(mint(0)))
    ensures stored != [] ==> |r.servers| == |stored|
    ensures stored != [] ==> r.servers == Normalize(stored, mint, 0)
    ensures stored != [] ==> r.current == if Truthy(current) then current else Some(r.servers[0].id)
    ensures forall p | p in r.servers :: p.settings.autoBest.Some?
  {
    if stored == [] then Config([Profile(mint(0), DefaultSettings())], Some(mint(0)))
    else
      var servers := Normalize(stored, mint, 0);
      Config(servers, if Truthy(current) then current else Some(servers[0].id))
  }

  /** A configuration as load writes it back: every id and `auto_best` present. */
  function Store(c: Config): (r: seq<StoredProfile>)
    ensures |r| == |c.servers|
  {
    seq(|c.servers|, i requires 0 <= i < |c.servers| => StoredProfile(Some(c.servers[i].id), c.servers[i].settings))
  }

  /** A configuration load has normalised: some profile, each with `auto_best`, and a truthy current id. */
  predicate Normalized(c: Config) {
    && c.servers != []
    && (forall i | 0 <= i < |c.servers| :: c.servers[i].settings.autoBest.Some?)
    && Truthy(c.current)
  }

  /** Loading what was saved from a normalised configuration gives it back: load is stable. */
  lemma LoadStore(c: Config, mint: nat -> string)
    requires Normalized(c)
    ensures Load(Store(c), c.current, mint) == c
  {
    var r := Load(Store(c), c.current, mint);
    assert r.servers == c.servers;
  }

  /** Load's result is itself normalised whenever the ids it mints and finds are non-empty. */
  lemma LoadNormalized(stored: seq<StoredProfile>, current: Option<string>, mint: nat -> string)
    requires mint(0) != []
    requires stored != [] ==> stored[0].id.GetOr(mint(0)) != []
    ensures Normalized(Load(stored, current, mint))
  {
  }
}
