# Resource proxy core of majsoul-plus (Util.js) in Dafny

This project models the core of `Util.js` from the majsoul-plus client: the
local proxy that answers the game's resource requests from installed mods,
from a local cache, or from the remote game server, with byte-wise XOR
obfuscation of marked resources; and the tag comparator used to classify
updates.

- `Codec` (Codec.dfy): the `XOR` codec, as a specification function `Xor`
  and as the looping method `XorBuffer`; involution and per-byte lemmas.
- `Paths` (Paths.dfy): `isEncryptRes`, `isPath` and `getLocalURI`, with the
  JavaScript primitives they rely on (`indexOf`, `includes`, `endsWith`)
  written out and characterised.
- `Version` (Version.dfy): `compareVersion`, as the looping method
  `CompareVersion` proved equal to the reference function `Compare`. The result
  type `Verdict = Rank(n) | Flag(b)` keeps the boolean the original returns
  when the numeric cores are equal and only one tag is a prerelease.
- `Resolution` (Resolution.dfy): the decision logic of `processRequest` as
  a pure function `Resolve` of the registry, the file system (a map from path
  to bytes) and the remote server's answer: the ordered candidate paths, the
  "first existing path wins" chain, the fetch outcome, the cache write and the
  final payload; lemmas for priority, fetch-on-miss, cache writes, obfuscation
  gating and cache transparency.
- `Proxy` (Proxy.dfy): the class `ResourceProxy` holding the lazily loaded
  registry (`mods`) and the file system, with `LoadMods`, `GetRemoteSource`,
  `WriteFile` and `ProcessRequest`, whose loops walk the chain mod by mod and
  rule by rule and are proved to compute `Resolve`.

Configuration (`XOR_KEY`, `EXTEND_RES_KEYWORD`, the cache directory) is the
datatype `Resolution.Config`. Regular expressions (whether `new RegExp`
accepts a pattern, `RegExp.test`, `String.replace`) are functions passed in
(`RegExps`); the remote server is a function from request path to a status and
body, or a network error; the parsed registry file is a parameter of
`ProcessRequest`.

Behaviour of the code that the model keeps as written:

- For a marked (`isEncryptRes`) request, a remote fetch that is not path-like
  is de-obfuscated by `getRemoteSource` and obfuscated again before sending,
  so the client gets the server's bytes unchanged and the cache stores the
  de-obfuscated bytes (`RemoteBytesPassThrough`, `CacheWrite`).
- For a request that is both marked and path-like, the final step hands the
  UTF-8 text to `XOR` (Util.js:283-287), which calls `readUInt8` on a string:
  this throws for any non-empty text, the error is only logged, and no reply
  is sent (`Reply.NoReply`); an empty text gives an empty buffer. Such a
  request therefore never receives an obfuscated text.
- A mod with any rule whose pattern `new RegExp` rejects is skipped as a whole
  (Util.js:225-258): the throw happens before the mod's chain is returned, so
  neither its earlier rules nor its unrewritten path are tried
  (`InvalidRuleSkipsMod`).
- `http.get` has no error listener (Util.js:104-137): after a network error
  the fetch never settles and nothing is sent for that request
  (`NetworkErrorNoReply`); the unhandled `'error'` event of the request is
  also thrown as an uncaught exception in the process, which the model does
  not capture.
- `getLocalURI`'s `isPath` argument has no effect: both arms of its final
  conditional are the same path.

## Model

| member | source | states |
|---|---|---|
| Codec.Xor | Util.js:31-38 | the codec; characterised by `XorAt` (length, byte i is `key ^ input[i]`) and `XorInvolution` |
| Codec.XorAt | Util.js:31-38 | the output has the input's length and byte i is `key ^ input[i]` |
| Codec.XorInvolution | Util.js:31-38 | applying the codec twice returns the original bytes |
| Codec.XorInjective | Util.js:31-38 | two buffers with the same obfuscation are equal |
| Codec.XorBuffer | Util.js:31-38 | the loop pushes `key ^ byte` for every byte, in order, and its result is the codec's |
| Paths.IndexOfFrom | Util.js:152 | `indexOf` returns -1 exactly when there is no occurrence, otherwise the first occurrence |
| Paths.IncludesIff | Util.js:46 | `includes` holds exactly when the substring occurs somewhere |
| Paths.IncludesChar | Util.js:58 | `includes('?')` holds exactly when the character is in the string |
| Paths.IsEncryptRes | Util.js:45-47 | the marker test; `IsEncryptResIff` states it is substring occurrence |
| Paths.IsPath | Util.js:54-60 | the path-like test; `IsPathIff` states it in terms of the last character and `?` |
| Paths.GetLocalURI | Util.js:147-159 | the local path; `QueryIgnored`, `SameAsPrefix` and `StripQueryPrefix` state what of the request it depends on |
| Paths.IsEncryptResIff | Util.js:45-47 | `isEncryptRes` is true exactly when the configured marker occurs in the path |
| Paths.IsPathIff | Util.js:54-60 | `isPath` is true exactly when the last character is `/` or `\` or a `?` occurs |
| Paths.StripQuery | Util.js:152-156 | the request cut at its first `?`; characterised by `StripQueryPrefix` |
| Paths.StripQueryPrefix | Util.js:152-156 | the kept part is a prefix without `?`, the whole path when it has none, and otherwise stops at the first `?` |
| Paths.QueryIgnored | Util.js:147-159 | a path with a query maps to the same local path as the path alone, whatever `isPath` says |
| Paths.SameAsPrefix | Util.js:152-158 | every request maps to the local path of its part before the first `?` |
| Version.DevStrToNum | Util.js:417-428 | a label ranks at most 3, and ranks 0 exactly when it is not alpha, beta or rc |
| Version.LabelOrder | Util.js:417-430 | alpha ranks below beta, beta below rc, and any other label below all three |
| Version.Compare | Util.js:381-450 | the reference comparison; `CompareVersion` is proved equal to it and `CompareRange` (ranks per case, 4 only for prereleases), `CoreRank`, `NewerIffLater`, `Antisymmetric` characterise it |
| Version.CompareVersion | Util.js:381-450 | the two loops with `break` and the in-place label rank compute the reference comparison `Compare` |
| Version.CompareRange | Util.js:379-450 | the result is a rank from 0 to 4, or a boolean; a boolean exactly when the cores are equal and only one tag is a prerelease, `true` when that one is B; with equal cores and two prereleases only 4 (dev update) or 0 |
| Version.CompareSelf | Util.js:381-450 | a tag compared with itself gives 0 |
| Version.CoreRank | Util.js:396-408 | at the first differing core component, A ahead gives its position plus 1 and A behind gives 0, whatever the suffixes |
| Version.NewerIffLater | Util.js:409-448 | with indexed prereleases, "A newer" (positive rank or `true`) holds exactly when A comes later in the order core, release over prerelease, label rank, index |
| Version.Antisymmetric | Util.js:381-450 | the comparator never calls each of two tags newer than the other |
| Version.Examples | Util.js:381-450 | worked cases: one per core level, prerelease steps by index and by label (unknown labels lowest), minor dominating a prerelease, and both booleans |
| Resolution.FetchResult | Util.js:104-137 | the fetch never settles on a network error; otherwise it resolves exactly for status 200 to 399, keeps the status, and carries the body, XORed when asked, on both outcomes |
| Resolution.ModFilesDir | Util.js:240 | a mod's files directory, `/files` under `filesDir` when `dir` is missing or empty; used by `TryMod` and the `ModCandidates` lemmas |
| Resolution.RuleCandidates | Util.js:231-247 | the rewritten paths of the matching rules, in rule order; `TryMod` is proved to try exactly these first |
| Resolution.ModCandidates | Util.js:225-258 | one mod's paths: matching rewrites, then the unrewritten path, or none when a pattern does not compile; see `TryMod`, `InvalidRuleNoCandidates` |
| Resolution.SendData | Util.js:281-290 | the final payload; `LocalHitPayload`, `RemoteBytesPassThrough` and `PathLikeFetch` state what it sends in each case |
| Resolution.Resolve | Util.js:211-296 | one request through the chain; `ProcessRequest` is proved to compute it, and the lemmas below state priority, fetch on miss, cache writes and payloads |
| Resolution.ReadFile | Util.js:186-195 | `readFile`: the contents when the path exists, otherwise failure; the chain lemmas `FirstHitAt`, `FirstHitNone` rest on it |
| Resolution.FirstHit | Util.js:221-264 | the "first success wins" chain; characterised by `FirstHitAppend`, `FirstHitNone`, `FirstHitAt`, `FirstHitAgree`, `FirstHitOnly` |
| Resolution.ModsCandidates | Util.js:222-260 | every mod's paths in registry order; `ModsCandidatesAppend` and `EarlierModWins` state the order, `TryMods` walks it |
| Resolution.LocalURI | Util.js:219 | the cache path of a request; `CacheWrite` and `CacheTransparent` state that only it is written |
| Resolution.Candidates | Util.js:221-264 | the whole local chain, mods then cache; `FetchOnlyOnMiss` and `ServedLocally` state how it decides the outcome |
| Resolution.FirstHitAppend | Util.js:221-262 | a chain of steps tries its second part only when every step of the first part failed |
| Resolution.FirstHitNone | Util.js:261-266 | the local chain fails exactly when none of its paths exists |
| Resolution.FirstHitAt | Util.js:221-262 | the local chain answers with the contents of the first existing path |
| Resolution.FirstHitAgree | Util.js:244-262 | the chain reads nothing but its own paths |
| Resolution.ModsCandidatesAppend | Util.js:222-260 | mods are tried in registry order, each mod's paths after those of the mods before it |
| Resolution.ServedLocally | Util.js:221-264 | the first existing mod or cache path is served, with no status set, no file written and no fetch |
| Resolution.FetchOnlyOnMiss | Util.js:261-266 | the remote server is asked exactly when no mod path and no cache path exists |
| Resolution.ModBeforeCache | Util.js:222-262 | when a mod has the file, the cached copy does not affect the reply and nothing is fetched |
| Resolution.EarlierModWins | Util.js:222-260 | once a mod has the file, later mods in the registry are never consulted |
| Resolution.CacheWrite | Util.js:266-272 | files change only at the request's cache path, only after a successful fetch of a non-path-like request, and then hold the fetched (de-obfuscated) bytes |
| Resolution.RemoteBytesPassThrough | Util.js:266-289 | a fetched non-path-like file reaches the client as the server sent it, with the server's status |
| Resolution.PathLikeFetch | Util.js:266-294 | a fetched path-like request is not de-obfuscated, is not cached, and is sent as text, or not at all when marked and non-empty |
| Resolution.FailedFetch | Util.js:274-292 | a failed fetch is answered with its status and its data as text, and changes no file |
| Resolution.CacheTransparent | Util.js:262-289 | after a successful non-path-like fetch, the same request is answered locally with the same bytes, whatever the server would now answer |
| Resolution.InvalidRuleNoCandidates | Util.js:225-258 | a mod with a rule whose pattern does not compile adds no path to the chain |
| Resolution.InvalidRuleSkipsMod | Util.js:225-258 | such a mod is skipped as a whole: the outcome is that of the registry without it |
| Resolution.NetworkErrorNoReply | Util.js:104-137 | a fetch that meets a network error leaves nothing sent and no file written |
| Resolution.LocalHitPayload | Util.js:281-290 | a local hit is sent obfuscated when marked (decoding gives the file back), as is otherwise, as text when path-like, and not at all when marked, path-like and non-empty |
| Resolution.FirstHitOnly | Util.js:221-262 | a chain whose only existing path is p answers with p's contents |
| Proxy.ResourceProxy.constructor | Util.js:17 | the registry starts unloaded |
| Proxy.ResourceProxy.LoadMods | Util.js:301-313 | the registry becomes the parsed list, or the empty list when reading or parsing failed |
| Proxy.ResourceProxy.GetRemoteSource | Util.js:101-139 | exactly one request is logged and the outcome is `FetchResult` of the server's answer, `None` after a network error |
| Proxy.ResourceProxy.WriteFile | Util.js:168-179 | the file system afterwards holds the data at the given path and is otherwise unchanged |
| Proxy.ResourceProxy.TryMod | Util.js:225-258 | one mod's matching rewrites in rule order, then its unrewritten path, give the first existing file; a pattern that does not compile fails the whole mod |
| Proxy.ResourceProxy.TryMods | Util.js:221-260 | walking the registry mod by mod gives the first existing file over all mods' paths |
| Proxy.ResourceProxy.ProcessRequest | Util.js:211-296 | loads the registry only when unloaded; the reply and the new file system are those of `Resolve`, and the server is logged as asked once exactly when it was |

## Left out

- Real I/O: `http.get` streaming with its text encodings (Util.js:101-139), `readFile` and `writeFile` (Util.js:168-195), and the recursive `mkdirs` (Util.js:69-83). The file system is a map from path to bytes; a directory is simply an absent key.
- Proxy.ResourceProxy.WriteFile: a failed or not yet finished cache write is not modelled; the write is fire-and-forget in the code and always lands in the model.
- The uncaught exception that an unhandled `'error'` event of `http.get` raises in the process (Util.js:104-137): the model only records that the request gets no reply and no file is written.
- Asynchrony: promise scheduling, concurrent requests racing on the same cache file, and a stalled fetch.
- The Express response object: `res.statusCode` and `res.send` become the `Reply` value; a thrown error in the final handler becomes `NoReply`.
- Buffer and text conversions (`encodeData`, `toString('utf-8')`): bytes stay bytes, and a text reply is tagged `Utf8Text` with the bytes it decodes rather than re-encoded.
- `getRemoteUrl` (Util.js:90-92) and the User-Agent header: the remote server is a function of the relative request path.
- `path.join` normalisation (`..`, duplicate separators): `Paths.Join` joins with one `/`, so the model cannot express a request that escapes the base directory through `..`; the code does not sanitise such requests.
- JavaScript regular expression semantics: pattern validity, `RegExp.test` and `String.replace` are parameters.
- `JSON.parse` and the shape of the registry file: `LoadMods` takes the parsed list or `None`; a registry that parses to something other than a list is not modelled.
- Version.CompareVersion: the tags are taken already split and parsed (`substring(1)`, `split('-')`, `split('.')`, `parseInt`); malformed cores (NaN) and more than one `-` are not modelled; a prerelease without an index is modelled as NaN.
- `removeDir`, `takeScreenshot`, `initPlayer`, `shutoffPlayer`, `zipDir` (Util.js:321-374): file-system recursion, Electron and zip glue with no decision logic.
- The method-binding loop (Util.js:453-457): runtime plumbing.
