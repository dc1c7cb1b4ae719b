/**
 * The API abstraction class Http (Http.cs): the one-hour server catalog
 * cache, the Authorization header kept on the shared ApiHttpClient, and the
 * directories it fills from downloaded archives.
 */
module Http {
  import opened Wrappers
  import opened FileSystem
  import opened Globals
  import opened ApiClient
  import opened Models
  import opened Udp6Filter

  /** DateTime ticks are 100 ns; DateTime.AddHours(1) adds this many. */
  const TicksPerHour: int := 36_000_000_000

  const AuthUrl: string := "https://lightvpn.org/api/auth"
  const ProfileUrl: string := "https://lightvpn.org/api/profile"
  const ServersUrl: string := "https://lightvpn.org/api/servers"
  const ConfigsUrl: string := "https://lightvpn.org/api/configs"
  const DriversUrl: string := "https://lightvpn.org/api/download/drivers"
  const OvpnUrl: string := "https://lightvpn.org/api/download/ovpn"

  const Authorization: string := "Authorization"
  const ClientVersionHeader: string := "X-Client-Version"

  /** Why an operation did not complete: the exception it lets through. */
  datatype Failure =
    | Api(error: ApiError)          // raised by ApiHttpClient
    | InvalidBase64                 // FormatException from Convert.FromBase64String
    | InvalidArchive                // InvalidDataException from ZipFile.ExtractToDirectory
    | FileClash(path: FilePath)     // IOException: an extracted entry's file already exists

  // ---------------------------------------------------------------------
  // Server catalog (the static fields _servers and _lastRetrieved)
  // ---------------------------------------------------------------------

  /** The cached servers and the clock reading taken when they were stored. */
  datatype Catalog = Catalog(servers: set<Server>, lastRetrieved: int)

  /** `default(DateTime)` is tick 0 and the set starts empty. */
  const InitialCatalog: Catalog := Catalog({}, 0)

  /** The cache hit test at Http.cs:181. */
  predicate Fresh(lastRetrieved: int, now: int)
  {
    now < lastRetrieved + TicksPerHour
  }

  /** What one GetServersAsync call leaves behind, returns, and whether it went to the network. */
  datatype Lookup = Lookup(catalog: Catalog, result: Result<set<Server>, ApiError>, fetched: bool)

  /**
   * One GetServersAsync call: `now` is the clock read by the freshness test,
   * `later` the clock read after the download, `reply` what the download
   * gives if it is made.
   */
  function CatalogStep(c: Catalog, now: int, later: int, reply: Result<set<Server>, ApiError>): (l: Lookup)
    ensures l.fetched <==> !Fresh(c.lastRetrieved, now)
    ensures l.result.Ok? ==> l.result.value == l.catalog.servers
    ensures l.result.Err? ==> l.fetched && l.result == reply
    ensures l.catalog != c ==> l.fetched && l.result.Ok? && l.catalog.lastRetrieved == later
  {
    if Fresh(c.lastRetrieved, now) then Lookup(c, Ok(c.servers), false)
    else match reply
      case Ok(servers) => Lookup(Catalog(servers, later), Ok(servers), true)
      case Err(e) => Lookup(c, Err(e), true)
  }

  /** Within the hour the stored set comes back unchanged, with no download and no change. */
  lemma CacheHit(c: Catalog, now: int, later: int, reply: Result<set<Server>, ApiError>)
    requires now < c.lastRetrieved + TicksPerHour
    ensures var l := CatalogStep(c, now, later, reply);
            !l.fetched && l.result == Ok(c.servers) && l.catalog == c
  {
  }

  /** Once the hour is over the list is downloaded; only a successful download replaces set and time. */
  lemma CacheMiss(c: Catalog, now: int, later: int, reply: Result<set<Server>, ApiError>)
    requires now >= c.lastRetrieved + TicksPerHour
    ensures var l := CatalogStep(c, now, later, reply);
            l.fetched && l.result == reply
            && l.catalog == if reply.Ok? then Catalog(reply.value, later) else c
  {
  }

  /** The first call of the process downloads, for any clock past the first hour of year 1. */
  lemma FirstCallFetches(now: int, later: int, reply: Result<set<Server>, ApiError>)
    requires now >= TicksPerHour
    ensures CatalogStep(InitialCatalog, now, later, reply).fetched
  {
  }

  /**
   * Two calls whose second clock reading is within an hour of the first
   * call's download: the second call does not download and returns the same set.
   */
  lemma TwoCallsOneDownload(c: Catalog, now1: int, later1: int, reply1: Result<set<Server>, ApiError>,
                            now2: int, later2: int, reply2: Result<set<Server>, ApiError>)
    requires CatalogStep(c, now1, later1, reply1).result.Ok?
    requires now2 < CatalogStep(c, now1, later1, reply1).catalog.lastRetrieved + TicksPerHour
    ensures var l1 := CatalogStep(c, now1, later1, reply1);
            var l2 := CatalogStep(l1.catalog, now2, later2, reply2);
            !l2.fetched && l2.result == l1.result && l2.catalog == l1.catalog
  {
  }

  /** A failed download does not restart the hour: the next call downloads again. */
  lemma FailureRetriesNextCall(c: Catalog, now1: int, later1: int, e: ApiError,
                               now2: int, later2: int, reply2: Result<set<Server>, ApiError>)
    requires !Fresh(c.lastRetrieved, now1) && now1 <= now2
    ensures CatalogStep(CatalogStep(c, now1, later1, Err(e)).catalog, now2, later2, reply2).fetched
  {
  }

  // ---------------------------------------------------------------------
  // Authorization header
  // ---------------------------------------------------------------------

  /** The header value $"{username} {sessionId}". */
  function AuthValue(username: string, sessionId: Guid): string
  {
    username + " " + sessionId.text
  }

  /** Remove, then add: Authorization ends up with exactly `value`; other headers are kept. */
  function Assigned(h: Headers, value: string): (h': Headers)
    ensures Values(h', Authorization) == [value]
    ensures forall k | k != Authorization :: Values(h', k) == Values(h, k) && (k in h' <==> k in h)
  {
    (h - {Authorization})[Authorization := [value]]
  }

  /** Add without removing: `value` joins the Authorization values already there. */
  function Appended(h: Headers, value: string): (h': Headers)
    ensures Values(h', Authorization) == Values(h, Authorization) + [value]
    ensures forall k | k != Authorization :: Values(h', k) == Values(h, k) && (k in h' <==> k in h)
  {
    h[Authorization := Values(h, Authorization) + [value]]
  }

  /** Remove: no Authorization value is left; other headers are kept. */
  function Cleared(h: Headers): (h': Headers)
    ensures Values(h', Authorization) == [] && Authorization !in h'
    ensures forall k | k != Authorization :: Values(h', k) == Values(h, k) && (k in h' <==> k in h)
  {
    h - {Authorization}
  }

  /** The login scenario: alice with session 11111111-1111-1111-1111-111111111111. */
  lemma AliceLogin(h: Headers)
    ensures Values(Assigned(h, AuthValue("alice", Guid("11111111-1111-1111-1111-111111111111"))), Authorization)
            == ["alice " + "11111111-1111-1111-1111-111111111111"]
  {
    assert "alice" + " " == "alice ";
  }

  /** Replace versus append: on a client already holding one value, login leaves one, validation two. */
  lemma ReplaceVersusAppend(h: Headers, old_value: string, value: string)
    requires Values(h, Authorization) == [old_value]
    ensures Values(Assigned(h, value), Authorization) == [value]
    ensures Values(Appended(h, value), Authorization) == [old_value, value]
  {
  }

  /** Whatever validations came before, a login leaves exactly one Authorization value. */
  lemma {:induction false} LoginAfterValidations(h: Headers, tried: seq<string>, value: string)
    ensures Values(Assigned(AppendAll(h, tried), value), Authorization) == [value]
    ensures |Values(AppendAll(h, tried), Authorization)| == |Values(h, Authorization)| + |tried|
    decreases |tried|
  {
    if tried != [] {
      LoginAfterValidations(Appended(h, tried[0]), tried[1..], value);
    }
  }

  /** Successive appends, as left by validations that raised before their status check. */
  function AppendAll(h: Headers, values: seq<string>): Headers
    decreases |values|
  {
    if values == [] then h else AppendAll(Appended(h, values[0]), values[1..])
  }

  /** HttpResponseMessage.IsSuccessStatusCode. */
  predicate IsSuccessStatusCode(status: int)
  {
    200 <= status <= 299
  }

  // ---------------------------------------------------------------------
  // Local directories
  // ---------------------------------------------------------------------

  /** HasOpenVpn: true exactly when the OpenVPN directory exists, since a file implies its directory. */
  function HasOpenVpn(d: Disk): (b: bool)
    requires d.Valid()
    ensures b <==> OpenVpnPath in d.dirs
  {
    OpenVpnPath in d.dirs || FilePath(OpenVpnPath, "openvpn.exe") in d.files
  }

  /** IsConfigsCached: the cache directory exists and holds at least one file. */
  function IsConfigsCached(d: Disk): (b: bool)
    ensures b <==> ConfigPath in d.dirs && exists name :: FilePath(ConfigPath, name) in d.files
    ensures d.Valid() ==> (b <==> d.FilesIn(ConfigPath) != {})
  {
    var cached := ConfigPath in d.dirs && exists fp | fp in d.files :: fp.dir == ConfigPath;
    assert cached ==> (exists name :: FilePath(ConfigPath, name) in d.files) && d.FilesIn(ConfigPath) != {} by {
      if cached {
        var fp :| fp in d.files && fp.dir == ConfigPath;
        assert FilePath(ConfigPath, fp.name) == fp;
        assert fp in d.FilesIn(ConfigPath);
      }
    }
    assert d.Valid() && d.FilesIn(ConfigPath) != {} ==> cached by {
      if d.Valid() && d.FilesIn(ConfigPath) != {} {
        var fp :| fp in d.FilesIn(ConfigPath);
        assert fp in d.files && fp.dir == ConfigPath;
      }
    }
    cached
  }

  // ---------------------------------------------------------------------
  // States of a directory tree that Http deletes and refills
  // ---------------------------------------------------------------------

  /** Nothing outside the tree of `root` differs between d0 and d. */
  ghost predicate SameOutside(d0: Disk, d: Disk, root: string)
  {
    (forall p | !Under(p, root) :: p in d.dirs <==> p in d0.dirs)
    && (forall fp: FilePath | !Under(fp.dir, root) :: fp in d.files <==> fp in d0.files)
    && (forall fp | fp in d0.files && !Under(fp.dir, root) :: fp in d.files && d.files[fp] == d0.files[fp])
  }

  /**
   * `root` exists and the files directly in it have names from `names` only.
   * If `root` existed before, nothing else is left below it; if it did not,
   * whatever lay below it is untouched.
   */
  ghost predicate Recreated(d0: Disk, d: Disk, root: string, names: set<string>)
  {
    root in d.dirs
    && (forall fp | fp in d.files && fp.dir == root :: fp.name in names)
    && (root in d0.dirs ==>
          (forall p | p in d.dirs && Under(p, root) :: p == root)
          && forall fp | fp in d.files && Under(fp.dir, root) :: fp.dir == root)
    && (root !in d0.dirs ==>
          (forall p | Under(p, root) && p != root :: p in d.dirs <==> p in d0.dirs)
          && (forall fp: FilePath | Under(fp.dir, root) && fp.dir != root :: fp in d.files <==> fp in d0.files)
          && forall fp | fp in d0.files && Under(fp.dir, root) && fp.dir != root :: d.files[fp] == d0.files[fp])
  }

  const ConfigsZip: FilePath := FilePath(ConfigPath, "configs.zip")
  const DriversZip: FilePath := FilePath(OpenVpnDriversPath, "drivers.zip")
  const OpenVpnExe: FilePath := FilePath(OpenVpnPath, "openvpn.exe")
  /** Http.cs:153 places the OpenVPN download in the config cache directory. */
  const OpenVpnZip: FilePath := FilePath(ConfigPath, "openvpn.zip")

  /** The entry names of a downloaded archive, none when there is no readable archive. */
  function ArchiveNames(reply: Result<Archive, ApiError>): set<string>
  {
    if reply.Ok? && reply.value.entries.Some? then Names(reply.value.entries.value) else {}
  }

  /** The cache after a successful refresh: each entry, rewritten by the udp6 filter, and nothing else. */
  ghost predicate RefreshedConfigs(d0: Disk, d: Disk, es: seq<Entry>)
  {
    SameOutside(d0, d, ConfigPath) && Recreated(d0, d, ConfigPath, Names(es))
    && ConfigsZip.name !in Names(es)
    && forall i | 0 <= i < |es| :: FilePath(ConfigPath, es[i].name) in d.files
                                   && d.files[FilePath(ConfigPath, es[i].name)] == Sanitize(es[i].lines)
  }

  /**
   * What the refresh path of CacheConfigsAsync returns and leaves in the
   * cache directory, for each way the download can go.
   */
  ghost predicate RefreshOutcome(d0: Disk, d: Disk, reply: Result<ConfigResponse, ApiError>,
                                 decode: string -> Option<Archive>, r: Result<(), Failure>)
  {
    SameOutside(d0, d, ConfigPath)
    && match reply
       case Err(e) => r == Err(Api(e)) && Recreated(d0, d, ConfigPath, {})
       case Ok(resp) =>
         match decode(resp.configArchiveBase64)
         case None => r == Err(InvalidBase64) && Recreated(d0, d, ConfigPath, {})
         case Some(archive) =>
           match archive.entries
           case None =>
             r == Err(InvalidArchive) && Recreated(d0, d, ConfigPath, {ConfigsZip.name})
             && ConfigsZip in d.files && d.files[ConfigsZip] == archive.image
           case Some(es) =>
             if Extractable(Disk({}, map[ConfigsZip := archive.image]), ConfigPath, es) then
               r == Ok(()) && RefreshedConfigs(d0, d, es)
             else
               (var clean := Extract(Disk({}, map[ConfigsZip := archive.image]), ConfigPath, es);
                clean.1.Some? && r == Err(FileClash(clean.1.value)) && SameIn(d, clean.0, ConfigPath)
                && Recreated(d0, d, ConfigPath, Names(es) + {ConfigsZip.name})
                && ConfigsZip in d.files && d.files[ConfigsZip] == archive.image)
  }

  /** After a successful refresh no configs.zip is left in the cache directory. */
  lemma NoArchiveLeft(d0: Disk, d: Disk, es: seq<Entry>)
    requires RefreshedConfigs(d0, d, es)
    ensures ConfigsZip !in d.files
  {
  }

  /** After a successful refresh no line of any cached file mentions udp6. */
  lemma RefreshedHasNoUdp6(d0: Disk, d: Disk, es: seq<Entry>, fp: FilePath, k: nat)
    requires RefreshedConfigs(d0, d, es)
    requires fp in d.files && fp.dir == ConfigPath && k < |d.files[fp]|
    ensures !Text.Contains(d.files[fp][k], Udp6)
  {
    var i :| 0 <= i < |es| && es[i].name == fp.name;
    assert fp == FilePath(ConfigPath, es[i].name);
    NoUdp6Left(es[i].lines);
  }

  /** After a successful refresh the configs count as cached exactly when the archive had entries. */
  lemma CachedIffEntries(d0: Disk, d: Disk, es: seq<Entry>)
    requires RefreshedConfigs(d0, d, es)
    ensures IsConfigsCached(d) <==> |es| > 0
  {
    if |es| > 0 {
      assert FilePath(ConfigPath, es[0].name) in d.files;
    } else {
      assert Names(es) == {};
    }
  }

  /**
   * A download that fails leaves the cache directory existing and empty:
   * IsConfigsCached is false, yet CacheConfigsAsync(force: false) will not
   * download again, since it only tests that the directory exists.
   */
  lemma FailedDownloadLeavesEmptyCache(d0: Disk, d: Disk)
    requires Recreated(d0, d, ConfigPath, {})
    ensures ConfigPath in d.dirs && !IsConfigsCached(d)
  {
  }

  /** An unreadable archive leaves configs.zip behind, so IsConfigsCached already holds. */
  lemma BrokenArchiveLooksCached(d0: Disk, d: Disk)
    requires Recreated(d0, d, ConfigPath, {ConfigsZip.name}) && ConfigsZip in d.files
    ensures IsConfigsCached(d)
  {
  }

  /** The drivers directory after FetchOpenVpnDriversAsync completes: the entries, and no drivers.zip. */
  ghost predicate RefreshedDrivers(d0: Disk, d: Disk, es: seq<Entry>)
  {
    SameOutside(d0, d, OpenVpnDriversPath) && Recreated(d0, d, OpenVpnDriversPath, Names(es))
    && DriversZip.name !in Names(es) && DriversZip !in d.files
    && forall i | 0 <= i < |es| :: FilePath(OpenVpnDriversPath, es[i].name) in d.files
                                   && d.files[FilePath(OpenVpnDriversPath, es[i].name)] == es[i].lines
  }

  /** The process-wide fields _servers and _lastRetrieved, shared by every Http instance. */
  class ServerCache {
    var servers: set<Server>
    var lastRetrieved: int

    constructor ()
      ensures Value() == InitialCatalog
    {
      servers := {};
      lastRetrieved := 0;
    }

    function Value(): Catalog
      reads this
    {
      Catalog(servers, lastRetrieved)
    }
  }

  class Http {
    const apiclient: ApiHttpClient
    const cache: ServerCache

    /** Http(ApiHttpClient): adds the client-version header "Linux <version>". */
    constructor (checkingClient: ApiHttpClient, cache: ServerCache, version: string)
      modifies checkingClient
      ensures apiclient == checkingClient && this.cache == cache
      ensures checkingClient.defaultRequestHeaders ==
                old(checkingClient.defaultRequestHeaders)[ClientVersionHeader :=
                  Values(old(checkingClient.defaultRequestHeaders), ClientVersionHeader) + ["Linux " + version]]
      ensures checkingClient.requests == old(checkingClient.requests)
    {
      apiclient := checkingClient;
      this.cache := cache;
      new;
      checkingClient.TryAddWithoutValidation(ClientVersionHeader, "Linux " + version);
    }

    /** GetServersAsync, one call: a cache hit or a download, as CatalogStep says. */
    method GetServersAsync(now: int, later: int, reply: Result<set<Server>, ApiError>)
      returns (r: Result<set<Server>, ApiError>)
      modifies cache, apiclient
      ensures var l := CatalogStep(old(cache.Value()), now, later, reply);
              cache.Value() == l.catalog && r == l.result
              && apiclient.requests == old(apiclient.requests) + (if l.fetched then [Sent(Get(ServersUrl), old(apiclient.defaultRequestHeaders))] else [])
      ensures apiclient.defaultRequestHeaders == old(apiclient.defaultRequestHeaders)
    {
      if now < cache.lastRetrieved + TicksPerHour {
        return Ok(cache.servers);
      }
      apiclient.Send(Get(ServersUrl));
      if reply.Err? {
        return Err(reply.error);
      }
      cache.servers := reply.value;
      cache.lastRetrieved := later;
      r := Ok(cache.servers);
    }

    /** LoginAsync: the header is assigned only after the POST succeeded. */
    method LoginAsync(username: string, password: string, reply: Result<AuthResponse, ApiError>)
      returns (r: Result<AuthResponse, ApiError>)
      modifies apiclient
      ensures r == reply
      ensures apiclient.requests == old(apiclient.requests) + [Sent(Post(AuthUrl, username, password), old(apiclient.defaultRequestHeaders))]
      ensures apiclient.defaultRequestHeaders ==
                if reply.Ok? then Assigned(old(apiclient.defaultRequestHeaders), AuthValue(username, reply.value.sessionId))
                else old(apiclient.defaultRequestHeaders)
    {
      apiclient.Send(Post(AuthUrl, username, password));
      if reply.Err? {
        return Err(reply.error);
      }
      AssignAuthHeader(username, reply.value.sessionId);
      r := reply;
    }

    /** AssignAuthHeader: remove every Authorization value, then add the new one. */
    method AssignAuthHeader(username: string, sessionId: Guid)
      modifies apiclient
      ensures apiclient.defaultRequestHeaders == Assigned(old(apiclient.defaultRequestHeaders), AuthValue(username, sessionId))
      ensures apiclient.requests == old(apiclient.requests)
    {
      var value := AuthValue(username, sessionId);
      var _ := apiclient.Remove(Authorization);
      assert Values(apiclient.defaultRequestHeaders, Authorization) + [value] == [value];
      apiclient.TryAddWithoutValidation(Authorization, value);
    }

    /**
     * ValidateSessionAsync: the value is added without removing earlier ones;
     * `reply` is the status code, or the error GetAsync/CheckResponseAsync raise.
     */
    method ValidateSessionAsync(username: string, sessionId: Guid, reply: Result<int, ApiError>)
      returns (r: Result<bool, ApiError>)
      modifies apiclient
      ensures apiclient.requests == old(apiclient.requests) + [Sent(Get(ProfileUrl), Appended(old(apiclient.defaultRequestHeaders), AuthValue(username, sessionId)))]
      ensures r == if reply.Err? then Err(reply.error) else Ok(IsSuccessStatusCode(reply.value))
      ensures apiclient.defaultRequestHeaders ==
                if reply.Ok? && !IsSuccessStatusCode(reply.value) then Cleared(Appended(old(apiclient.defaultRequestHeaders), AuthValue(username, sessionId)))
                else Appended(old(apiclient.defaultRequestHeaders), AuthValue(username, sessionId))
    {
      apiclient.TryAddWithoutValidation(Authorization, AuthValue(username, sessionId));
      apiclient.Send(Get(ProfileUrl));
      if reply.Err? {
        return Err(reply.error);
      }
      if IsSuccessStatusCode(reply.value) {
        return Ok(true);
      } else {
        var _ := apiclient.Remove(Authorization);
        return Ok(false);
      }
    }

    /**
     * CacheConfigsAsync: with force unset an existing cache directory is kept
     * as it is; otherwise the directory is emptied, the archive downloaded,
     * written as configs.zip, extracted, every file rewritten without udp6
     * lines, and configs.zip deleted.
     */
    method CacheConfigsAsync(fs: FileSystem, force: bool, reply: Result<ConfigResponse, ApiError>,
                             decode: string -> Option<Archive>)
      returns (r: Result<(), Failure>)
      requires fs.Valid()
      modifies fs, apiclient
      ensures fs.Valid()
      ensures apiclient.defaultRequestHeaders == old(apiclient.defaultRequestHeaders)
      ensures !force && ConfigPath in old(fs.disk.dirs) ==>
                r == Ok(()) && fs.disk == old(fs.disk) && apiclient.requests == old(apiclient.requests)
      ensures force || ConfigPath !in old(fs.disk.dirs) ==>
                apiclient.requests == old(apiclient.requests) + [Sent(Get(ConfigsUrl), old(apiclient.defaultRequestHeaders))]
                && RefreshOutcome(old(fs.disk), fs.disk, reply, decode, r)
    {
      if ConfigPath in fs.disk.dirs && !force {
        return Ok(());
      }
      ghost var d0 := fs.disk;
      RecreateDirectory(fs, ConfigPath);
      ghost var d1 := fs.disk;
      var vpnzip := ConfigsZip;
      apiclient.Send(Get(ConfigsUrl));
      if reply.Err? {
        return Err(Api(reply.error));
      }
      var decoded := decode(reply.value.configArchiveBase64);
      if decoded.None? {
        return Err(InvalidBase64);
      }
      var archive := decoded.value;
      var _ := fs.WriteAllLines(vpnzip, archive.image);
      WriteInRecreated(d0, d1, fs.disk, ConfigPath, {}, vpnzip, archive.image);
      ghost var d2 := fs.disk;
      if archive.entries.None? {
        return Err(InvalidArchive);
      }
      var es := archive.entries.value;
      var clash := fs.ExtractToDirectory(es, ConfigPath);
      assert d2.CreateDirectory(ConfigPath) == d2;
      ExtractFrame(d2, ConfigPath, es);
      ExtractInRecreated(d0, d2, ConfigPath, {vpnzip.name}, es);
      ExtractSucceeds(d2, ConfigPath, es);
      ExtractableInFreshDirectory(d1, d2, ConfigPath, vpnzip, es, archive.image);
      ExtractLocal(d2, Disk({}, map[vpnzip := archive.image]), ConfigPath, es);
      if clash.Some? {
        return Err(FileClash(clash.value));
      }
      ghost var d3 := fs.disk;
      SanitizeDirectory(fs, ConfigPath);
      ghost var d4 := fs.disk;
      fs.DeleteFile(vpnzip);
      r := Ok(());
      SanitizedCacheIsRefreshed(d0, d3, d4, fs.disk, es, archive.image);
    }

    /**
     * FetchOpenVpnDriversAsync: always empties and recreates the drivers
     * directory, then downloads the archive (`reply` is the archive, or the
     * error GetAsync/CheckResponseAsync raise), writes it as drivers.zip,
     * extracts it and deletes drivers.zip.
     */
    method FetchOpenVpnDriversAsync(fs: FileSystem, reply: Result<Archive, ApiError>) returns (r: Result<(), Failure>)
      requires fs.Valid()
      modifies fs, apiclient
      ensures fs.Valid()
      ensures apiclient.defaultRequestHeaders == old(apiclient.defaultRequestHeaders)
      ensures apiclient.requests == old(apiclient.requests) + [Sent(Get(DriversUrl), old(apiclient.defaultRequestHeaders))]
      ensures SameOutside(old(fs.disk), fs.disk, OpenVpnDriversPath)
      ensures Recreated(old(fs.disk), fs.disk, OpenVpnDriversPath, {DriversZip.name} + ArchiveNames(reply))
      ensures reply.Err? ==> r == Err(Api(reply.error)) && fs.disk.FilesIn(OpenVpnDriversPath) == {}
      ensures reply.Ok? && reply.value.entries.None? ==> r == Err(InvalidArchive)
      ensures reply.Ok? && reply.value.entries.Some? ==>
                if Extractable(Disk({}, map[DriversZip := reply.value.image]), OpenVpnDriversPath, reply.value.entries.value)
                then r == Ok(()) && RefreshedDrivers(old(fs.disk), fs.disk, reply.value.entries.value)
                else
                  var clean := Extract(Disk({}, map[DriversZip := reply.value.image]), OpenVpnDriversPath, reply.value.entries.value);
                  clean.1.Some? && r == Err(FileClash(clean.1.value)) && SameIn(fs.disk, clean.0, OpenVpnDriversPath)
      ensures reply.Ok? && r.Err? ==> DriversZip in fs.disk.files && fs.disk.files[DriversZip] == reply.value.image
    {
      ghost var d0 := fs.disk;
      RecreateDirectory(fs, OpenVpnDriversPath);
      ghost var d1 := fs.disk;
      apiclient.Send(Get(DriversUrl));
      if reply.Err? {
        assert forall fp | fp in d1.FilesIn(OpenVpnDriversPath) :: fp.name in {};
        return Err(Api(reply.error));
      }
      var archive := reply.value;
      var _ := fs.WriteAllLines(DriversZip, archive.image);
      WriteInRecreated(d0, d1, fs.disk, OpenVpnDriversPath, {}, DriversZip, archive.image);
      ghost var d2 := fs.disk;
      if archive.entries.None? {
        return Err(InvalidArchive);
      }
      var es := archive.entries.value;
      var clash := fs.ExtractToDirectory(es, OpenVpnDriversPath);
      assert d2.CreateDirectory(OpenVpnDriversPath) == d2;
      ExtractFrame(d2, OpenVpnDriversPath, es);
      ExtractInRecreated(d0, d2, OpenVpnDriversPath, {DriversZip.name}, es);
      ExtractSucceeds(d2, OpenVpnDriversPath, es);
      ExtractableInFreshDirectory(d1, d2, OpenVpnDriversPath, DriversZip, es, archive.image);
      ExtractLocal(d2, Disk({}, map[DriversZip := archive.image]), OpenVpnDriversPath, es);
      if clash.Some? {
        return Err(FileClash(clash.value));
      }
      ghost var d3 := fs.disk;
      fs.DeleteFile(DriversZip);
      r := Ok(());
      DriversRefreshed(d0, d3, fs.disk, es, archive.image);
    }

    /**
     * GetOpenVpnBinariesAsync: when the OpenVPN directory or openvpn.exe is
     * missing, create the directory, download the archive, write it as
     * openvpn.zip in the config cache directory, extract it into the OpenVPN
     * directory and delete openvpn.zip. Every failure becomes
     * InvalidResponseException; the result is never false.
     */
    method GetOpenVpnBinariesAsync(fs: FileSystem, reply: Result<Archive, ApiError>) returns (r: Result<bool, Failure>)
      requires fs.Valid()
      modifies fs, apiclient
      ensures fs.Valid()
      ensures r != Ok(false) && (r.Err? ==> r == Err(Api(InvalidResponse)))
      ensures apiclient.defaultRequestHeaders == old(apiclient.defaultRequestHeaders)
      ensures OpenVpnPath in old(fs.disk.dirs) && OpenVpnExe in old(fs.disk.files) ==>
                r == Ok(true) && fs.disk == old(fs.disk) && apiclient.requests == old(apiclient.requests)
      ensures !(OpenVpnPath in old(fs.disk.dirs) && OpenVpnExe in old(fs.disk.files)) ==>
                apiclient.requests == old(apiclient.requests) + [Sent(Get(OvpnUrl), old(apiclient.defaultRequestHeaders))]
                && fs.disk.dirs == old(fs.disk.dirs) + {OpenVpnPath}
                && (forall fp | fp in old(fs.disk.files) && fp != OpenVpnZip :: fp in fs.disk.files && fs.disk.files[fp] == old(fs.disk.files)[fp])
                && (forall fp | fp in fs.disk.files && fp !in old(fs.disk.files) ::
                      fp == OpenVpnZip || (fp.dir == OpenVpnPath && fp.name in ArchiveNames(reply)))
                && (r.Ok? <==> reply.Ok? && ConfigPath in old(fs.disk.dirs) && reply.value.entries.Some?
                               && Extractable(old(fs.disk), OpenVpnPath, reply.value.entries.value))
                && (r.Ok? ==> OpenVpnZip !in fs.disk.files
                              && forall i | 0 <= i < |reply.value.entries.value| ::
                                   FilePath(OpenVpnPath, reply.value.entries.value[i].name) in fs.disk.files
                                   && fs.disk.files[FilePath(OpenVpnPath, reply.value.entries.value[i].name)] == reply.value.entries.value[i].lines)
      ensures !(OpenVpnPath in old(fs.disk.dirs) && OpenVpnExe in old(fs.disk.files)) && (reply.Err? || ConfigPath !in old(fs.disk.dirs)) ==>
                fs.disk.files == old(fs.disk.files)
      ensures !(OpenVpnPath in old(fs.disk.dirs) && OpenVpnExe in old(fs.disk.files)) && reply.Ok? && ConfigPath in old(fs.disk.dirs) ==>
                (reply.value.entries.None? ==> fs.disk.files == old(fs.disk.files)[OpenVpnZip := reply.value.image])
                && (r.Err? ==> OpenVpnZip in fs.disk.files && fs.disk.files[OpenVpnZip] == reply.value.image)
                && (reply.value.entries.Some? ==>
                      fs.disk.files == Extract(old(fs.disk).CreateDirectory(OpenVpnPath).Write(OpenVpnZip, reply.value.image),
                                               OpenVpnPath, reply.value.entries.value).0.files
                                       - (if r.Ok? then {OpenVpnZip} else {}))
    {
      if OpenVpnPath in fs.disk.dirs && OpenVpnExe in fs.disk.files {
        return Ok(true);
      }
      ghost var d0 := fs.disk;
      var vpnzip := OpenVpnZip;
      fs.CreateDirectory(OpenVpnPath);
      apiclient.Send(Get(OvpnUrl));
      if reply.Err? {
        return Err(Api(InvalidResponse));
      }
      var archive := reply.value;
      var written := fs.WriteAllLines(vpnzip, archive.image);
      if !written {
        return Err(Api(InvalidResponse));
      }
      ghost var d2 := fs.disk;
      if archive.entries.None? {
        return Err(Api(InvalidResponse));
      }
      var es := archive.entries.value;
      var clash := fs.ExtractToDirectory(es, OpenVpnPath);
      assert d2.CreateDirectory(OpenVpnPath) == d2;
      ExtractFrame(d2, OpenVpnPath, es);
      ExtractSucceeds(d2, OpenVpnPath, es);
      ExtractableBesideArchive(d0, d2, es, archive.image);
      if clash.Some? {
        return Err(Api(InvalidResponse));
      }
      ghost var d3 := fs.disk;
      fs.DeleteFile(vpnzip);
      forall i | 0 <= i < |es| ensures FilePath(OpenVpnPath, es[i].name) != vpnzip {
        SeparateTrees();
      }
      r := Ok(true);
    }
  }

  /** Delete the directory tree if it exists, then create the directory (Http.cs:81-89 and 117-121). */
  method RecreateDirectory(fs: FileSystem, root: string)
    requires fs.Valid()
    modifies fs
    ensures fs.Valid()
    ensures Recreated(old(fs.disk), fs.disk, root, {}) && SameOutside(old(fs.disk), fs.disk, root)
  {
    if root in fs.disk.dirs {
      fs.DeleteDirectory(root);
      fs.CreateDirectory(root);
    } else {
      fs.CreateDirectory(root);
    }
  }

  /** Every file directly in `dir` has been rewritten by the udp6 filter; nothing else changed. */
  ghost predicate SanitizedIn(d0: Disk, d: Disk, dir: string)
  {
    d.dirs == d0.dirs
    && (forall fp :: fp in d.files <==> fp in d0.files)
    && forall fp | fp in d0.files :: d.files[fp] == if fp.dir == dir then Sanitize(d0.files[fp]) else d0.files[fp]
  }

  /** Http.cs:95-105: rewrite every file Directory.GetFiles lists, in whatever order it lists them. */
  method SanitizeDirectory(fs: FileSystem, dir: string)
    requires fs.Valid() && dir in fs.disk.dirs
    modifies fs
    ensures fs.Valid() && SanitizedIn(old(fs.disk), fs.disk, dir)
  {
    ghost var d0 := fs.disk;
    var remaining := fs.disk.FilesIn(dir);
    ghost var listed := remaining;
    while remaining != {}
      invariant fs.Valid() && remaining <= listed
      invariant fs.disk.dirs == d0.dirs
      invariant forall fp :: fp in fs.disk.files <==> fp in d0.files
      invariant forall fp | fp in d0.files ::
                  fs.disk.files[fp] == if fp in listed && fp !in remaining then Sanitize(d0.files[fp]) else d0.files[fp]
      decreases |remaining|
    {
      var file :| file in remaining;
      var lines := fs.ReadAllLines(file);
      var newfile := DropUdp6Lines(lines);
      var _ := fs.WriteAllLines(file, newfile);
      remaining := remaining - {file};
    }
  }

  /** Writing a file directly into a recreated directory. */
  lemma WriteInRecreated(d0: Disk, d1: Disk, d2: Disk, root: string, names: set<string>, fp: FilePath, lines: seq<string>)
    requires Recreated(d0, d1, root, names) && SameOutside(d0, d1, root)
    requires fp.dir == root && d2 == d1.Write(fp, lines)
    ensures Recreated(d0, d2, root, names + {fp.name}) && SameOutside(d0, d2, root)
    ensures fp in d2.files && d2.files[fp] == lines
  {
  }

  /** Extracting into a recreated directory adds entry names only. */
  lemma ExtractInRecreated(d0: Disk, d2: Disk, root: string, names: set<string>, es: seq<Entry>)
    requires Recreated(d0, d2, root, names) && SameOutside(d0, d2, root)
    ensures var d3 := Extract(d2, root, es).0;
            Recreated(d0, d3, root, names + Names(es)) && SameOutside(d0, d3, root)
  {
    ExtractFrame(d2, root, es);
  }

  /** Extracted, sanitised, configs.zip deleted: the refreshed cache. */
  lemma SanitizedCacheIsRefreshed(d0: Disk, d3: Disk, d4: Disk, d5: Disk, es: seq<Entry>, image: seq<string>)
    requires Recreated(d0, d3, ConfigPath, {ConfigsZip.name} + Names(es)) && SameOutside(d0, d3, ConfigPath)
    requires Extractable(Disk({}, map[ConfigsZip := image]), ConfigPath, es)
    requires forall i | 0 <= i < |es| :: FilePath(ConfigPath, es[i].name) in d3.files
                                         && d3.files[FilePath(ConfigPath, es[i].name)] == es[i].lines
    requires SanitizedIn(d3, d4, ConfigPath) && d5 == d4.DeleteFile(ConfigsZip)
    ensures RefreshedConfigs(d0, d5, es)
  {
  }

  /** A freshly emptied directory holding only the archive file: extraction there clashes only on a repeated name or the archive's own name. */
  lemma ExtractableInFreshDirectory(d1: Disk, d2: Disk, root: string, zip: FilePath, es: seq<Entry>, image: seq<string>)
    requires d1.FilesIn(root) == {} && zip.dir == root
    requires d2 == d1.Write(zip, image)
    ensures SameIn(d2, Disk({}, map[zip := image]), root)
    ensures Extractable(d2, root, es) <==> Extractable(Disk({}, map[zip := image]), root, es)
  {
    forall fp: FilePath | fp.dir == root
      ensures fp in d2.files <==> fp == zip
    {
      assert fp !in d1.FilesIn(root);
    }
    forall i | 0 <= i < |es|
      ensures FilePath(root, es[i].name) in d2.files <==> es[i].name == zip.name
    {
      assert FilePath(root, es[i].name) !in d1.FilesIn(root);
    }
  }

  /** Writing openvpn.zip into the cache directory cannot clash with the OpenVPN directory's files. */
  lemma ExtractableBesideArchive(d0: Disk, d2: Disk, es: seq<Entry>, image: seq<string>)
    requires d2 == d0.CreateDirectory(OpenVpnPath).Write(OpenVpnZip, image)
    ensures Extractable(d2, OpenVpnPath, es) <==> Extractable(d0, OpenVpnPath, es)
  {
  }

  /** Extracted, drivers.zip deleted: the refreshed drivers directory. */
  lemma DriversRefreshed(d0: Disk, d3: Disk, d4: Disk, es: seq<Entry>, image: seq<string>)
    requires Recreated(d0, d3, OpenVpnDriversPath, {DriversZip.name} + Names(es)) && SameOutside(d0, d3, OpenVpnDriversPath)
    requires Extractable(Disk({}, map[DriversZip := image]), OpenVpnDriversPath, es)
    requires forall i | 0 <= i < |es| :: FilePath(OpenVpnDriversPath, es[i].name) in d3.files
                                         && d3.files[FilePath(OpenVpnDriversPath, es[i].name)] == es[i].lines
    requires d4 == d3.DeleteFile(DriversZip)
    ensures RefreshedDrivers(d0, d4, es)
  {
  }
}
