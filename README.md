# LightVPN Linux CLI: session and configuration synchronisation, modelled in Dafny

This project models the core of the LightVPN command-line client: the API abstraction class `Http` and the profile resolver `ConfigResolver`. The model covers:

- **Server catalog cache.** `GetServersAsync` keeps the server set and the time it was fetched in two process-wide fields. Within one hour of that time it returns the stored set without a request. Otherwise it downloads the list, and only a successful download replaces the set and the time. Time is a tick count (100 ns, as `DateTime`). The check and the store read the clock separately, so the model takes two clock readings.
- **Authorization header.** The header lives on the shared `ApiHttpClient` as a list of values per header name. `LoginAsync` assigns it only after the POST succeeds, by removing every value and then adding one. `ValidateSessionAsync` appends its value without removing the old ones, and removes the header only when the status check returns a non-success code.
- **Local directories.** The file system is a set of directory paths plus a map from file paths to text lines. `CacheConfigsAsync` is modelled step by step. With `force` unset, an existing cache directory is left alone, even an empty one. Otherwise the directory is deleted and recreated, the archive is downloaded, decoded and written as `configs.zip`, and the archive is extracted. Every file in the directory is then rewritten without the lines that mention `udp6`; this includes `configs.zip` itself, which is deleted afterwards. `FetchOpenVpnDriversAsync` empties and refills the drivers directory the same way. `GetOpenVpnBinariesAsync` downloads only when the OpenVPN directory or `openvpn.exe` is missing. It writes its temporary `openvpn.zip` into the config cache directory (Http.cs:153), so it fails whenever that directory does not exist. It turns every failure into `InvalidResponseException` and never returns false.
- **Profile resolution.** `GetConfigPath` returns the first path in the directory listing whose full text contains the key. It fails with `DirectoryNotFoundException` when the configuration directory does not exist, and with `ConfigNotFoundException` when nothing matches or when the first match is empty or whitespace. It is a pure function, so it changes no state and always gives the same outcome for the same listing and key.

Nothing the API returns is computed. Each operation receives the reply, or the error `ApiHttpClient` would raise, as a parameter. The client records every request it sends, with the default headers it carried, so "no request was made" is a statement about that record. Base64 decoding is a function parameter. It maps the response text to an archive, or to nothing when the text is not valid base64. An archive has the lines its file shows on disk and its entries, or nothing when it is not a readable ZIP file. `ZipFile.ExtractToDirectory` writes the entries in order. It stops with an `IOException` at the first entry whose file already exists.

Modules: `Wrappers` (Option, Result), `Text` (ordinal `Contains`, `IsNullOrWhiteSpace`), `FileSystem` (the disk and the System.IO calls), `Globals` (the fixed paths), `ApiClient` (headers and request record), `Models` (API records), `Udp6Filter` (the line filter), `Http` (the class, the cache, the directory operations) and `ConfigResolver`.

## Partial refreshes

A refresh of the cache directory is not all-or-nothing. The directory is deleted and recreated before the download, so a failure half-way leaves it in an intermediate state. Without `force`, a later call reuses any existing directory, because Http.cs:79 tests only that the directory exists, not that it holds files. The model keeps these states:

- A failed download or a bad base64 text leaves the cache directory existing and empty. A later `CacheConfigsAsync(force: false)` then does nothing, although `IsConfigsCached` is false (`Http.FailedDownloadLeavesEmptyCache`).
- An unreadable archive leaves `configs.zip` behind, so `IsConfigsCached` already holds (`Http.BrokenArchiveLooksCached`). A clashing entry leaves `configs.zip` and the entries extracted before it.
- A failed `GetOpenVpnBinariesAsync` after the archive was written leaves `openvpn.zip` in the cache directory, which also makes `IsConfigsCached` hold.

## Model

| member | source | states |
|---|---|---|
| `Text.ContainsAt` | LightVPN.CLI/Utils/ConfigResolver.cs:18 | The ordinal substring test holds exactly when the key starts at some position of the string |
| `Udp6Filter.SanitizeConcat` | LightVPN.CLI.Auth/Classes/Http.cs:99-103 | The filter decides line by line: filtering a concatenation is concatenating the filtered parts |
| `Udp6Filter.SanitizeMembers` | LightVPN.CLI.Auth/Classes/Http.cs:99-103 | A line is in the rewritten file if and only if it was in the file and does not mention udp6 |
| `Udp6Filter.NoUdp6Left` | LightVPN.CLI.Auth/Classes/Http.cs:101 | No line of the rewritten file contains udp6 |
| `Udp6Filter.SanitizeCounts` | LightVPN.CLI.Auth/Classes/Http.cs:99-103 | Each kept line occurs as often as in the original; each dropped line does not occur |
| `Udp6Filter.SanitizeInOrder` | LightVPN.CLI.Auth/Classes/Http.cs:99-103 | The kept lines appear in their original order (a subsequence of the input) |
| `Udp6Filter.SanitizeFixpoint` | LightVPN.CLI.Auth/Classes/Http.cs:99-103 | The filter leaves a file unchanged if and only if no line mentions udp6 |
| `Udp6Filter.SanitizeIdempotent` | LightVPN.CLI.Auth/Classes/Http.cs:95-105 | Filtering an already filtered file is a no-op |
| `Udp6Filter.DropUdp6Lines` | LightVPN.CLI.Auth/Classes/Http.cs:97-103 | The loop that builds `newfile` with `Add` produces exactly the filtered lines |
| `ConfigResolver.FirstMatch` | LightVPN.CLI/Utils/ConfigResolver.cs:23 | `First` returns a listed path that contains the key, and no earlier path contains it |
| `ConfigResolver.GetConfigPath` | LightVPN.CLI/Utils/ConfigResolver.cs:14-31 | Fails with the directory-not-found error if and only if the directory is missing. Fails with the no-match error if and only if no listed path contains the key. Fails with the whitespace error if and only if the first match is blank. Otherwise returns a listed, non-blank path that contains the key and has no earlier match |
| `ConfigResolver.GetConfigPathAt` | LightVPN.CLI/Utils/ConfigResolver.cs:18-30 | If position i holds the first match, the result is that path, or the whitespace error when the path is blank |
| `ConfigResolver.EmptyListingFails` | LightVPN.CLI/Utils/ConfigResolver.cs:16-21 | An empty directory listing always fails with the no-match error |
| `ConfigResolver.SingleMatch` | LightVPN.CLI/Utils/ConfigResolver.cs:18-23 | A key held by exactly one path resolves to that path, unless the path is blank |
| `ConfigResolver.LaterMatchNotChosen` | LightVPN.CLI/Utils/ConfigResolver.cs:23 | The result lies at or before every matching position; a later match is never chosen |
| `ConfigResolver.EmptyKeyPicksFirst` | LightVPN.CLI/Utils/ConfigResolver.cs:16-23 | The empty key resolves to the first listed file |
| `ConfigResolver.DirectoryPartMatchesAll` | LightVPN.CLI/Utils/ConfigResolver.cs:16-18 | Matching sees the full path: a key in the directory part matches every file, so the first listed file is returned |
| `FileSystem.ExtractFrame` | LightVPN.CLI.Auth/Classes/Http.cs:94 | Extraction keeps the directories and the existing files, and adds only files of the target directory named after entries; a clash is reported in the target directory |
| `FileSystem.ExtractLocal` | LightVPN.CLI.Auth/Classes/Http.cs:94 | Extraction depends only on the target directory: two disks that hold the same files there clash on the same entry and end with the same files there |
| `FileSystem.ExtractSucceeds` | LightVPN.CLI.Auth/Classes/Http.cs:94 | Extraction completes if and only if the entry names are distinct and none names an existing file; then every entry's file holds the entry's lines |
| `Globals.SeparateTrees` | LightVPN.CLI.Common/Globals.cs:15-19 | The cache, drivers and OpenVPN directories are disjoint trees, so work on one never touches another |
| `Http.CatalogStep` | LightVPN.CLI.Auth/Classes/Http.cs:177-190 | A hit (within the hour) returns the stored set with no fetch; a miss fetches; only a successful fetch replaces the set and the time, and a failed fetch returns the fetch error |
| `Http.CacheHit` | LightVPN.CLI.Auth/Classes/Http.cs:181-184 | Before the hour is over, the call returns the stored set, makes no request and changes neither field |
| `Http.CacheMiss` | LightVPN.CLI.Auth/Classes/Http.cs:186-189 | After the hour, the call downloads. Success replaces the set and sets the time to the second clock reading. Failure returns the error and changes neither field |
| `Http.FirstCallFetches` | LightVPN.CLI.Auth/Classes/Http.cs:35 | With the default time of zero ticks, the first call downloads |
| `Http.TwoCallsOneDownload` | LightVPN.CLI.Auth/Classes/Http.cs:177-190 | A second call within the hour of a successful first call makes no request and returns the same set |
| `Http.FailureRetriesNextCall` | LightVPN.CLI.Auth/Classes/Http.cs:186-188 | A failed download does not restart the hour, so the next call downloads again |
| `Http.ServerCache.constructor` | LightVPN.CLI.Auth/Classes/Http.cs:35-37 | The shared cache starts with an empty set and the default time |
| `Http.Http.GetServersAsync` | LightVPN.CLI.Auth/Classes/Http.cs:177-190 | Updates the shared fields and the request record as one catalog step says; a download carries the current headers, which stay unchanged |
| `Http.Assigned` | LightVPN.CLI.Auth/Classes/Http.cs:231-235 | Remove then add leaves exactly the one new Authorization value; other headers unchanged |
| `Http.Appended` | LightVPN.CLI.Auth/Classes/Http.cs:246 | Add without remove puts the new value after the Authorization values already there; other headers unchanged |
| `Http.Cleared` | LightVPN.CLI.Auth/Classes/Http.cs:257 | Remove leaves no Authorization header; other headers unchanged |
| `Http.AliceLogin` | LightVPN.CLI.Auth/Classes/Http.cs:227-234 | Logging in alice with session 11111111-1111-1111-1111-111111111111 gives the header "alice 11111111-1111-1111-1111-111111111111" |
| `Http.ReplaceVersusAppend` | LightVPN.CLI.Auth/Classes/Http.cs:231-246 | With one value already present, login leaves one value and validation leaves two |
| `Http.LoginAfterValidations` | LightVPN.CLI.Auth/Classes/Http.cs:223-246 | Each validation adds one value; a later login always leaves exactly one |
| `Http.Http.constructor` | LightVPN.CLI.Auth/Classes/Http.cs:45-49 | Adds "Linux version" to the X-Client-Version header and keeps the rest |
| `Http.Http.LoginAsync` | LightVPN.CLI.Auth/Classes/Http.cs:223-229 | Sends the POST with the credentials and the headers held before the call, and returns its reply. On success the header is assigned "username sessionId"; on failure it is untouched |
| `Http.Http.AssignAuthHeader` | LightVPN.CLI.Auth/Classes/Http.cs:231-235 | The headers become the assigned form and no request is sent |
| `Http.Http.ValidateSessionAsync` | LightVPN.CLI.Auth/Classes/Http.cs:244-260 | Appends the value and sends the profile request, which carries the headers with that value appended. A raised error passes through and keeps the appended value. A success status gives true and keeps it. Any other status gives false and removes the header |
| `Http.IsConfigsCached` | LightVPN.CLI.Auth/Classes/Http.cs:64-67 | Holds if and only if the cache directory exists and directly holds a file; on a well-formed disk, if and only if its file set is non-empty |
| `Http.HasOpenVpn` | LightVPN.CLI.Auth/Classes/Http.cs:55-58 | On a well-formed disk, holds if and only if the OpenVPN directory exists |
| `Http.Http.CacheConfigsAsync` | LightVPN.CLI.Auth/Classes/Http.cs:77-108 | Without force, an existing directory means no request and no change. Otherwise exactly one request is made, nothing outside the cache directory changes, and the result and the directory contents are fixed for each outcome: fetch error, bad base64, bad archive (configs.zip is left with the downloaded lines), clashing entry (the error names the first entry that clashes, and the directory holds configs.zip and exactly the files extracted before it), success. On a first run, whatever lay below the new directory is untouched |
| `Http.RecreateDirectory` | LightVPN.CLI.Auth/Classes/Http.cs:79-89 | Afterwards the directory exists and holds no file. If it existed, nothing that was below it remains; if it did not, nothing below it changed. Nothing outside it changed |
| `Http.SanitizeDirectory` | LightVPN.CLI.Auth/Classes/Http.cs:95-105 | In whatever order the files are listed, every file directly in the directory ends up filtered, and nothing else changes |
| `Http.SanitizedCacheIsRefreshed` | LightVPN.CLI.Auth/Classes/Http.cs:94-106 | Extracted, filtered, configs.zip deleted: the cache holds exactly the entries' filtered lines |
| `Http.ExtractableInFreshDirectory` | LightVPN.CLI.Auth/Classes/Http.cs:90-94 | A freshly recreated directory holding the archive file holds exactly that file, so extraction there fails only on a repeated entry name or an entry named like the archive file |
| `Http.NoArchiveLeft` | LightVPN.CLI.Auth/Classes/Http.cs:106 | After a successful refresh no configs.zip remains |
| `Http.RefreshedHasNoUdp6` | LightVPN.CLI.Auth/Classes/Http.cs:95-105 | After a successful refresh no line of any cached file mentions udp6 |
| `Http.CachedIffEntries` | LightVPN.CLI.Auth/Classes/Http.cs:64-67 | After a successful refresh, IsConfigsCached holds if and only if the archive had an entry |
| `Http.FailedDownloadLeavesEmptyCache` | LightVPN.CLI.Auth/Classes/Http.cs:79-91 | After a failed download the cache directory exists but IsConfigsCached is false |
| `Http.BrokenArchiveLooksCached` | LightVPN.CLI.Auth/Classes/Http.cs:93-94 | After an unreadable archive, the leftover configs.zip makes IsConfigsCached true |
| `Http.Http.FetchOpenVpnDriversAsync` | LightVPN.CLI.Auth/Classes/Http.cs:115-129 | Always one request, and the drivers directory is recreated: nothing old is left in it, or, on a first run, nothing below it changes. Nothing outside it changes. On success it holds exactly the entries and no drivers.zip; each failure is named, and after an unreadable or clashing archive drivers.zip is left with the downloaded lines. A clash names the first clashing entry, and the directory holds exactly the files extracted before it |
| `Http.DriversRefreshed` | LightVPN.CLI.Auth/Classes/Http.cs:126-128 | Extracted, drivers.zip deleted: the drivers directory holds exactly the entries |
| `Http.ExtractableBesideArchive` | LightVPN.CLI.Auth/Classes/Http.cs:153-158 | Writing openvpn.zip into the cache directory cannot make extraction into the OpenVPN directory clash |
| `Http.Http.GetOpenVpnBinariesAsync` | LightVPN.CLI.Auth/Classes/Http.cs:147-171 | No request when the directory and openvpn.exe exist. Otherwise the directory is created and one request is made. The call succeeds if and only if the download succeeds, the cache directory exists, the archive is readable and no entry clashes; then every entry is present and openvpn.zip is gone. A fetch error or a missing cache directory leaves the files unchanged; an unreadable archive only adds openvpn.zip; after any later failure openvpn.zip is left with the downloaded lines. For a readable archive the files are exactly what extraction beside the written openvpn.zip gives, less openvpn.zip on success. It never returns false, and every failure is InvalidResponse |

## Left out

- Program.cs (console flow, banner, password entry, table rendering, TAP adapter, tunnel manager, TLS certificate callback): interactive I/O orchestration, not part of this model.
- The encrypted session file: `Encryption` and `AuthModel` are not part of this model, so saving and loading a session is not modelled.
- `GetUpdatesAsync` (Http.cs:197-214): it starts a process and exits the runtime.
- `GetChangelogAsync` (Http.cs:136-141): it only returns one field of a reply.
- `ApiHttpClient` is not part of this model. How it validates responses and which typed error it raises are given by the reply parameter, not computed.
- Base64 decoding, ZIP parsing and JSON (de)serialisation are library calls. They are abstracted as described above.
- async/await and `CancellationToken`: each method is one sequential step, and cancellation is one more error a reply may carry.
- Models/Server.cs is not part of this model. The Server record holds the fields Program.cs:169 and 205 read (country, server name, status, type, file name); the type is kept as the text its `ToString()` gives, and the display ordinal assigned by the caller is omitted.
- Guid formatting: a session id is kept as the text its `ToString()` gives.
- Line endings and text encoding of `ReadAllLines`/`WriteAllLines` are not modelled. A file is its sequence of lines.
- ZIP entries inside folders and entry names that escape the target directory are not modelled. Every entry lands directly in the target directory.
- `Directory.CreateDirectory` creating missing parent folders, and deletion failures (permissions, open files), are not modelled.
- The user profile folder is a run-time value; the placeholder `~` stands for it.
- `DateTime.AddHours` overflow near `DateTime.MaxValue` and local-time clock changes are not modelled. Time is an unbounded tick count read at each clock access.
- The directory `GetConfigPath` lists is `LightVPN.Common.Models.Globals.LinuxConfigPath`, which is not part of this model. The listing is a parameter: the paths in the platform's enumeration order, or nothing when the directory does not exist.
- Null strings (a null key throws `ArgumentNullException` in `Contains`) are not modelled.
- Concurrent callers of the shared cache, header and directories are not modelled.
