/**
 * The decision logic of `processRequest` in Util.js, as a function of the
 * installed mods, the file system and what the remote server answers: the
 * fallback chain (each mod's rewritten paths, then its unrewritten path, then
 * the local cache, then the remote fetch), the cache write and the final
 * payload preparation.
 */
module Resolution {
  import opened Wrappers
  import opened Codec
  import opened Paths

  /** The configured values the pipeline reads: the XOR key, the marker of obfuscated resources and the cache root. */
  datatype Config = Config(xorKey: Byte, extendResKeyword: string, localDir: string)

  /** One `{from, to}` entry of a mod's `replace` list. */
  datatype ReplaceRule = ReplaceRule(from: string, to: string)

  /**
   * A mod descriptor. `dir` is the optional sub-directory (a missing or empty
   * one means `/files`); a missing `replace` list is the empty list.
   */
  datatype Mod = Mod(name: string, dir: Option<string>, filesDir: string, replace: seq<ReplaceRule>)

  /**
   * JavaScript regular expressions, taken as given: `valid(pattern)` is false
   * when `new RegExp(pattern)` throws, `test(pattern, url)` is
   * `new RegExp(pattern).test(url)` and `replace(url, pattern, to)` is
   * `url.replace(new RegExp(pattern), to)`.
   */
  datatype RegExps = RegExps(valid: string -> bool, test: (string, string) -> bool,
                             replace: (string, string, string) -> string)

  /** The file system: path to file contents. */
  type Files = map<string, seq<Byte>>

  /**
   * What the remote server answers for a request path: a status and body
   * bytes, or a network error (the request never gets a response).
   */
  datatype RawFetch = Answered(statusCode: int, body: seq<Byte>) | NetworkError

  /** A settled `getRemoteSource` promise: resolved (`ok`) or rejected, with the same shape. */
  datatype Fetched = Fetched(ok: bool, statusCode: int, data: seq<Byte>)

  /** A response body: raw bytes, or bytes decoded as UTF-8 and sent as text. */
  datatype Payload = Binary(bytes: seq<Byte>) | Utf8Text(bytes: seq<Byte>)

  /**
   * What reaches the client: a body with the status code set by the remote
   * step (`None` leaves the server default), or nothing at all when the final
   * handler throws and the error is only logged.
   */
  datatype Reply = Sent(statusCode: Option<int>, payload: Payload) | NoReply

  /** The reply, the file system afterwards, and whether the remote server was asked. */
  datatype Outcome = Outcome(reply: Reply, files: Files, fetched: bool)

  /** `readFile`: the contents, or `None` when the file is absent. */
  function ReadFile(files: Files, path: string): Option<seq<Byte>>
  {
    if path in files then Some(files[path]) else None
  }

  /** `path.join(mod.filesDir, modDir ? modDir : '/files')`. */
  function ModFilesDir(mod: Mod): string
  {
    Join(mod.filesDir, if mod.dir.Some? && mod.dir.value != "" then mod.dir.value else "/files")
  }

  /** The local paths of a mod's rewrite rules whose pattern matches, in rule order. */
  function RuleCandidates(rules: seq<ReplaceRule>, originalUrl: string, isPath: bool, base: string, re: RegExps): seq<string>
  {
    if rules == [] then []
    else
      var rule := rules[|rules| - 1];
      RuleCandidates(rules[..|rules| - 1], originalUrl, isPath, base, re) +
      (if re.test(rule.from, originalUrl)
       then [GetLocalURI(re.replace(originalUrl, rule.from, rule.to), isPath, base)]
       else [])
  }

  /** Every rule of the list has a pattern `new RegExp` accepts. */
  predicate AllValid(rules: seq<ReplaceRule>, re: RegExps)
  {
    forall i :: 0 <= i < |rules| ==> re.valid(rules[i].from)
  }

  /**
   * The paths tried for one mod: the matching rewrites, then the unrewritten
   * path. A rule whose pattern does not compile makes the mod's step throw
   * before it returns its chain, so the mod contributes nothing.
   */
  function ModCandidates(mod: Mod, originalUrl: string, isPath: bool, re: RegExps): seq<string>
  {
    if AllValid(mod.replace, re) then
      RuleCandidates(mod.replace, originalUrl, isPath, ModFilesDir(mod), re) +
      [GetLocalURI(originalUrl, isPath, ModFilesDir(mod))]
    else []
  }

  /** The paths tried for all mods, mod by mod in registry order. */
  function ModsCandidates(mods: seq<Mod>, originalUrl: string, isPath: bool, re: RegExps): seq<string>
  {
    if mods == [] then []
    else
      ModsCandidates(mods[..|mods| - 1], originalUrl, isPath, re) +
      ModCandidates(mods[|mods| - 1], originalUrl, isPath, re)
  }

  /** The plain cache path of a request. */
  function LocalURI(config: Config, originalUrl: string): string
  {
    GetLocalURI(originalUrl, IsPath(originalUrl), config.localDir)
  }

  /** The whole local part of the chain: every mod's paths, then the cache path. */
  function Candidates(config: Config, mods: seq<Mod>, originalUrl: string, re: RegExps): seq<string>
  {
    ModsCandidates(mods, originalUrl, IsPath(originalUrl), re) + [LocalURI(config, originalUrl)]
  }

  /** The contents of the first path that exists, trying the paths in order. */
  function FirstHit(files: Files, paths: seq<string>): Option<seq<Byte>>
  {
    if paths == [] then None
    else if paths[0] in files then Some(files[paths[0]])
    else FirstHit(files, paths[1..])
  }

  /** Trying `a` then `b` is trying `a`, and `b` only when all of `a` failed. */
  lemma {:induction false} FirstHitAppend(files: Files, a: seq<string>, b: seq<string>)
    ensures FirstHit(files, a + b) == if FirstHit(files, a).Some? then FirstHit(files, a) else FirstHit(files, b)
  {
    if a == [] {
      assert a + b == b;
    } else {
      assert (a + b)[1..] == a[1..] + b;
      FirstHitAppend(files, a[1..], b);
    }
  }

  /** The chain fails exactly when no path exists. */
  lemma {:induction false} FirstHitNone(files: Files, paths: seq<string>)
    ensures FirstHit(files, paths).None? <==> forall i :: 0 <= i < |paths| ==> paths[i] !in files
  {
    if paths != [] {
      FirstHitNone(files, paths[1..]);
      assert forall i :: 1 <= i < |paths| ==> paths[i] == paths[1..][i - 1];
    }
  }

  /** The chain gives the contents of the first existing path. */
  lemma {:induction false} FirstHitAt(files: Files, paths: seq<string>, k: nat)
    requires k < |paths| && paths[k] in files
    requires forall j :: 0 <= j < k ==> paths[j] !in files
    ensures FirstHit(files, paths) == Some(files[paths[k]])
  {
    if k > 0 {
      FirstHitAt(files, paths[1..], k - 1);
    }
  }

  /** Success of a remote fetch: a status code from 200 up to, not including, 400. */
  predicate Succeeded(statusCode: int)
  {
    200 <= statusCode < 400
  }

  /**
   * How `getRemoteSource` settles: never on a network error (there is no
   * error listener); otherwise resolved exactly on a success status, rejected
   * on any other, and in both cases with the body obfuscated when asked.
   */
  function FetchResult(key: Byte, raw: RawFetch, encrypt: bool): (r: Option<Fetched>)
    ensures r.None? <==> raw.NetworkError?
    ensures r.Some? ==> (r.value.ok <==> 200 <= raw.statusCode < 400)
    ensures r.Some? ==> r.value.statusCode == raw.statusCode
    ensures r.Some? && encrypt ==> Xor(key, r.value.data) == raw.body
    ensures r.Some? && !encrypt ==> r.value.data == raw.body
  {
    match raw
    case NetworkError => None
    case Answered(statusCode, body) =>
      XorInvolution(key, body);
      var data := if encrypt then Xor(key, body) else body;
      if 200 > statusCode || 400 <= statusCode then Some(Fetched(false, statusCode, data))
      else Some(Fetched(true, statusCode, data))
  }

  /**
   * The final success handler: path-like requests are sent as text, others as
   * bytes, and an obfuscated resource is XORed. For a path-like obfuscated
   * request the XOR is handed a string, whose first `readUInt8` throws, so
   * nothing is sent unless the text is empty.
   */
  function SendData(key: Byte, data: seq<Byte>, isPath: bool, encrypt: bool): Option<Payload>
  {
    if !isPath then Some(Binary(if encrypt then Xor(key, data) else data))
    else if !encrypt then Some(Utf8Text(data))
    else if data == [] then Some(Binary([]))
    else None
  }

  function Respond(statusCode: Option<int>, payload: Option<Payload>): Reply
  {
    if payload.Some? then Sent(statusCode, payload.value) else NoReply
  }

  /** One request through the whole chain. */
  function Resolve(config: Config, mods: seq<Mod>, files: Files, originalUrl: string,
                   re: RegExps, origin: string -> RawFetch): Outcome
  {
    var encrypt := IsEncryptRes(originalUrl, config.extendResKeyword);
    var isPath := IsPath(originalUrl);
    match FirstHit(files, Candidates(config, mods, originalUrl, re))
    case Some(data) =>
      Outcome(Respond(None, SendData(config.xorKey, data, isPath, encrypt)), files, false)
    case None =>
      match FetchResult(config.xorKey, origin(originalUrl), encrypt && !isPath)
      case None => Outcome(NoReply, files, true)
      case Some(fetched) =>
      if fetched.ok then
        Outcome(Respond(Some(fetched.statusCode), SendData(config.xorKey, fetched.data, isPath, encrypt)),
                if !isPath then files[LocalURI(config, originalUrl) := fetched.data] else files,
                true)
      else
        Outcome(Sent(Some(fetched.statusCode), Utf8Text(fetched.data)), files, true)
  }

  /** Two file systems that agree on every path of a chain give the same result for it. */
  lemma {:induction false} FirstHitAgree(files1: Files, files2: Files, paths: seq<string>)
    requires forall i :: 0 <= i < |paths| ==> ReadFile(files1, paths[i]) == ReadFile(files2, paths[i])
    ensures FirstHit(files1, paths) == FirstHit(files2, paths)
  {
    if paths != [] {
      assert ReadFile(files1, paths[0]) == ReadFile(files2, paths[0]);
      assert forall i :: 1 <= i < |paths| ==> paths[i] == paths[1..][i - 1];
      FirstHitAgree(files1, files2, paths[1..]);
    }
  }

  /** The mods' paths of a longer registry start with those of its front part. */
  lemma {:induction false} ModsCandidatesAppend(front: seq<Mod>, back: seq<Mod>, originalUrl: string, isPath: bool, re: RegExps)
    ensures ModsCandidates(front + back, originalUrl, isPath, re) ==
      ModsCandidates(front, originalUrl, isPath, re) + ModsCandidates(back, originalUrl, isPath, re)
    decreases |back|
  {
    if back == [] {
      assert front + back == front;
    } else {
      var last := back[|back| - 1];
      assert (front + back)[..|front + back| - 1] == front + back[..|back| - 1];
      ModsCandidatesAppend(front, back[..|back| - 1], originalUrl, isPath, re);
    }
  }

  /**
   * The first existing path of the local chain is served: with no status code
   * set, the file system unchanged, and the remote server not asked.
   */
  lemma ServedLocally(config: Config, mods: seq<Mod>, files: Files, originalUrl: string,
                      re: RegExps, origin: string -> RawFetch, k: nat)
    requires k < |Candidates(config, mods, originalUrl, re)|
    requires Candidates(config, mods, originalUrl, re)[k] in files
    requires forall j :: 0 <= j < k ==> Candidates(config, mods, originalUrl, re)[j] !in files
    ensures Resolve(config, mods, files, originalUrl, re, origin) ==
      Outcome(Respond(None, SendData(config.xorKey, files[Candidates(config, mods, originalUrl, re)[k]],
                                     IsPath(originalUrl), IsEncryptRes(originalUrl, config.extendResKeyword))),
              files, false)
  {
    FirstHitAt(files, Candidates(config, mods, originalUrl, re), k);
  }

  /** The remote server is asked exactly when no mod path and no cache path exists. */
  lemma FetchOnlyOnMiss(config: Config, mods: seq<Mod>, files: Files, originalUrl: string,
                        re: RegExps, origin: string -> RawFetch)
    ensures Resolve(config, mods, files, originalUrl, re, origin).fetched <==>
      forall i :: 0 <= i < |Candidates(config, mods, originalUrl, re)| ==> Candidates(config, mods, originalUrl, re)[i] !in files
  {
    FirstHitNone(files, Candidates(config, mods, originalUrl, re));
  }

  /**
   * A mod that has the file wins over the cache: whatever the cache holds at
   * the request's cache path, the reply is the same and nothing is fetched.
   */
  lemma ModBeforeCache(config: Config, mods: seq<Mod>, files: Files, originalUrl: string,
                       re: RegExps, origin: string -> RawFetch, cached: seq<Byte>)
    requires exists i :: (0 <= i < |ModsCandidates(mods, originalUrl, IsPath(originalUrl), re)| &&
                          ModsCandidates(mods, originalUrl, IsPath(originalUrl), re)[i] in files)
    requires LocalURI(config, originalUrl) !in ModsCandidates(mods, originalUrl, IsPath(originalUrl), re)
    ensures var withCache := files[LocalURI(config, originalUrl) := cached];
      Resolve(config, mods, withCache, originalUrl, re, origin).reply == Resolve(config, mods, files, originalUrl, re, origin).reply &&
      !Resolve(config, mods, withCache, originalUrl, re, origin).fetched &&
      !Resolve(config, mods, files, originalUrl, re, origin).fetched
  {
    var modPaths := ModsCandidates(mods, originalUrl, IsPath(originalUrl), re);
    var local := LocalURI(config, originalUrl);
    var withCache := files[local := cached];
    FirstHitNone(files, modPaths);
    FirstHitAgree(withCache, files, modPaths);
    FirstHitAppend(files, modPaths, [local]);
    FirstHitAppend(withCache, modPaths, [local]);
  }

  /** Once a mod in the front part of the registry has the file, later mods are never consulted. */
  lemma EarlierModWins(config: Config, front: seq<Mod>, back: seq<Mod>, files: Files, originalUrl: string,
                       re: RegExps, origin: string -> RawFetch)
    requires FirstHit(files, ModsCandidates(front, originalUrl, IsPath(originalUrl), re)).Some?
    ensures Resolve(config, front + back, files, originalUrl, re, origin) == Resolve(config, front, files, originalUrl, re, origin)
  {
    var isPath := IsPath(originalUrl);
    var local := [LocalURI(config, originalUrl)];
    var a := ModsCandidates(front, originalUrl, isPath, re);
    var b := ModsCandidates(back, originalUrl, isPath, re);
    ModsCandidatesAppend(front, back, originalUrl, isPath, re);
    assert (a + b) + local == a + (b + local);
    FirstHitAppend(files, a, b + local);
    FirstHitAppend(files, a, local);
  }

  /**
   * The cache changes only at the request's cache path, only after a
   * successful fetch of a request that is not path-like, and then it holds
   * the fetched data (de-obfuscated for a marked resource).
   */
  lemma CacheWrite(config: Config, mods: seq<Mod>, files: Files, originalUrl: string,
                   re: RegExps, origin: string -> RawFetch)
    ensures var out := Resolve(config, mods, files, originalUrl, re, origin);
      forall p :: p != LocalURI(config, originalUrl) ==> ReadFile(out.files, p) == ReadFile(files, p)
    ensures var out := Resolve(config, mods, files, originalUrl, re, origin);
      out.files != files ==> out.fetched && origin(originalUrl).Answered? && Succeeded(origin(originalUrl).statusCode) && !IsPath(originalUrl)
    ensures var out := Resolve(config, mods, files, originalUrl, re, origin);
      out.fetched && origin(originalUrl).Answered? && Succeeded(origin(originalUrl).statusCode) && !IsPath(originalUrl) ==>
        ReadFile(out.files, LocalURI(config, originalUrl)) ==
          Some(if IsEncryptRes(originalUrl, config.extendResKeyword)
               then Xor(config.xorKey, origin(originalUrl).body)
               else origin(originalUrl).body)
  {
  }

  /**
   * A fetched file that is not path-like reaches the client exactly as the
   * remote server sent it: for a marked resource the fetch de-obfuscates and
   * the final step obfuscates again.
   */
  lemma RemoteBytesPassThrough(config: Config, mods: seq<Mod>, files: Files, originalUrl: string,
                               re: RegExps, origin: string -> RawFetch)
    requires !IsPath(originalUrl)
    requires Resolve(config, mods, files, originalUrl, re, origin).fetched
    requires origin(originalUrl).Answered? && Succeeded(origin(originalUrl).statusCode)
    ensures Resolve(config, mods, files, originalUrl, re, origin).reply ==
      Sent(Some(origin(originalUrl).statusCode), Binary(origin(originalUrl).body))
  {
  }

  /**
   * A path-like request is fetched without de-obfuscation and answered as
   * text; when it also carries the marker, the final XOR throws on any
   * non-empty text and nothing is sent.
   */
  lemma PathLikeFetch(config: Config, mods: seq<Mod>, files: Files, originalUrl: string,
                      re: RegExps, origin: string -> RawFetch)
    requires IsPath(originalUrl)
    requires Resolve(config, mods, files, originalUrl, re, origin).fetched
    requires origin(originalUrl).Answered? && Succeeded(origin(originalUrl).statusCode)
    ensures var status, body := origin(originalUrl).statusCode, origin(originalUrl).body;
      Resolve(config, mods, files, originalUrl, re, origin) ==
        Outcome(if !IsEncryptRes(originalUrl, config.extendResKeyword) then Sent(Some(status), Utf8Text(body))
                else if body == [] then Sent(Some(status), Binary([]))
                else NoReply,
                files, true)
  {
  }

  /**
   * A failed fetch is answered with its own (possibly obfuscated) data as
   * text and its status code, and leaves the file system alone.
   */
  lemma FailedFetch(config: Config, mods: seq<Mod>, files: Files, originalUrl: string,
                    re: RegExps, origin: string -> RawFetch)
    requires Resolve(config, mods, files, originalUrl, re, origin).fetched
    requires origin(originalUrl).Answered? && !Succeeded(origin(originalUrl).statusCode)
    ensures var out := Resolve(config, mods, files, originalUrl, re, origin);
      out.files == files && out.reply.Sent? && out.reply.statusCode == Some(origin(originalUrl).statusCode) &&
      out.reply.payload.Utf8Text? &&
      (IsEncryptRes(originalUrl, config.extendResKeyword) && !IsPath(originalUrl) ==>
         Xor(config.xorKey, out.reply.payload.bytes) == origin(originalUrl).body) &&
      (!IsEncryptRes(originalUrl, config.extendResKeyword) || IsPath(originalUrl) ==>
         out.reply.payload.bytes == origin(originalUrl).body)
  {
  }

  /**
   * The cache is transparent: after a successful fetch of a file that is not
   * path-like, the same request is answered from the local chain, whatever
   * the remote server would now say, with the same bytes as the first reply.
   */
  lemma CacheTransparent(config: Config, mods: seq<Mod>, files: Files, originalUrl: string,
                         re: RegExps, origin: string -> RawFetch, laterOrigin: string -> RawFetch)
    requires !IsPath(originalUrl)
    requires Resolve(config, mods, files, originalUrl, re, origin).fetched
    requires origin(originalUrl).Answered? && Succeeded(origin(originalUrl).statusCode)
    ensures var first := Resolve(config, mods, files, originalUrl, re, origin);
      var second := Resolve(config, mods, first.files, originalUrl, re, laterOrigin);
      !second.fetched && second.files == first.files &&
      first.reply.Sent? && second.reply == Sent(None, first.reply.payload)
  {
    var first := Resolve(config, mods, files, originalUrl, re, origin);
    var paths := Candidates(config, mods, originalUrl, re);
    var local := LocalURI(config, originalUrl);
    FetchOnlyOnMiss(config, mods, files, originalUrl, re, origin);
    RemoteBytesPassThrough(config, mods, files, originalUrl, re, origin);
    CacheWrite(config, mods, files, originalUrl, re, origin);
    assert paths[|paths| - 1] == local;
    FirstHitOnly(first.files, paths, local);
    XorInvolution(config.xorKey, origin(originalUrl).body);
  }

  /**
   * A mod with a rule whose pattern does not compile is skipped as a whole,
   * earlier matching rules and its unrewritten path included: the outcome is
   * that of the registry without it.
   */
  lemma InvalidRuleSkipsMod(config: Config, front: seq<Mod>, mod: Mod, back: seq<Mod>, files: Files,
                            originalUrl: string, re: RegExps, origin: string -> RawFetch, k: nat)
    requires k < |mod.replace| && !re.valid(mod.replace[k].from)
    ensures Resolve(config, front + [mod] + back, files, originalUrl, re, origin) ==
            Resolve(config, front + back, files, originalUrl, re, origin)
  {
    InvalidRuleNoCandidates(front, mod, back, originalUrl, IsPath(originalUrl), re, k);
    assert Candidates(config, front + [mod] + back, originalUrl, re) == Candidates(config, front + back, originalUrl, re);
  }

  /** A mod with a rule whose pattern does not compile adds no path to the chain. */
  lemma InvalidRuleNoCandidates(front: seq<Mod>, mod: Mod, back: seq<Mod>, originalUrl: string, isPath: bool,
                                re: RegExps, k: nat)
    requires k < |mod.replace| && !re.valid(mod.replace[k].from)
    ensures ModsCandidates(front + [mod] + back, originalUrl, isPath, re) == ModsCandidates(front + back, originalUrl, isPath, re)
  {
    assert !AllValid(mod.replace, re);
    assert ModCandidates(mod, originalUrl, isPath, re) == [];
    assert [mod][..0] == [];
    assert ModsCandidates([mod], originalUrl, isPath, re) == [];
    ModsCandidatesAppend(front + [mod], back, originalUrl, isPath, re);
    ModsCandidatesAppend(front, [mod], originalUrl, isPath, re);
    ModsCandidatesAppend(front, back, originalUrl, isPath, re);
  }

  /** A network error on the fetch means no reply at all and no file written. */
  lemma NetworkErrorNoReply(config: Config, mods: seq<Mod>, files: Files, originalUrl: string,
                            re: RegExps, origin: string -> RawFetch)
    requires origin(originalUrl).NetworkError?
    requires Resolve(config, mods, files, originalUrl, re, origin).fetched
    ensures Resolve(config, mods, files, originalUrl, re, origin) == Outcome(NoReply, files, true)
  {
  }

  /**
   * What a local hit sends: a marked file is sent obfuscated (decoding the
   * reply gives the file back), an unmarked one as it is; a path-like hit is
   * sent as text, or, when marked and non-empty, not at all.
   */
  lemma LocalHitPayload(config: Config, mods: seq<Mod>, files: Files, originalUrl: string,
                        re: RegExps, origin: string -> RawFetch, k: nat)
    requires k < |Candidates(config, mods, originalUrl, re)|
    requires Candidates(config, mods, originalUrl, re)[k] in files
    requires forall j :: 0 <= j < k ==> Candidates(config, mods, originalUrl, re)[j] !in files
    ensures var contents := files[Candidates(config, mods, originalUrl, re)[k]];
      var reply := Resolve(config, mods, files, originalUrl, re, origin).reply;
      var marked := IsEncryptRes(originalUrl, config.extendResKeyword);
      (!IsPath(originalUrl) && marked ==>
         reply.Sent? && reply.statusCode.None? && reply.payload.Binary? &&
         Xor(config.xorKey, reply.payload.bytes) == contents) &&
      (!IsPath(originalUrl) && !marked ==> reply == Sent(None, Binary(contents))) &&
      (IsPath(originalUrl) && !marked ==> reply == Sent(None, Utf8Text(contents))) &&
      (IsPath(originalUrl) && marked ==> reply == if contents == [] then Sent(None, Binary([])) else NoReply)
  {
    ServedLocally(config, mods, files, originalUrl, re, origin, k);
    XorInvolution(config.xorKey, files[Candidates(config, mods, originalUrl, re)[k]]);
  }

  /** When the only existing path of a chain is `p`, the chain finds `p`. */
  lemma {:induction false} FirstHitOnly(files: Files, paths: seq<string>, p: string)
    requires p in paths && p in files
    requires forall i :: 0 <= i < |paths| ==> paths[i] == p || paths[i] !in files
    ensures FirstHit(files, paths) == Some(files[p])
  {
    if paths[0] != p {
      assert forall i :: 0 <= i < |paths[1..]| ==> paths[1..][i] == paths[i + 1];
      FirstHitOnly(files, paths[1..], p);
    }
  }
}
