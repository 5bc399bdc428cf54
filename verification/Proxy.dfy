/**
 * The stateful side of Util.js: the process-wide mod registry `mods`, loaded
 * lazily by `loadMods`, the file system the cache lives in, and
 * `processRequest` walking its fallback chain step by step.
 */
module Proxy {
  import opened Wrappers
  import opened Codec
  import opened Paths
  import opened Resolution

  class ResourceProxy {
    const config: Config
    /** The mod registry; `None` until the first request loads it. */
    var mods: Option<seq<Mod>>
    /** The file system holding the mods' files and the cache. */
    var files: Files
    /** The request paths the remote server has been asked for, in order. */
    ghost var fetchLog: seq<string>

    constructor (config: Config, files: Files)
      ensures this.config == config && this.files == files
      ensures mods == None && fetchLog == []
    {
      this.config := config;
      this.files := files;
      mods := None;
      fetchLog := [];
    }

    /**
     * `loadMods`: `parsed` is what reading and parsing the registry file
     * gives, `None` when either throws; a failure leaves an empty registry.
     */
    method LoadMods(parsed: Option<seq<Mod>>)
      modifies this`mods
      ensures mods == Some(parsed.GetOr([]))
    {
      match parsed
      case Some(list) =>
        mods := Some(list);
      case None =>
        mods := Some([]);
    }

    /**
     * `getRemoteSource`: one request to the remote server, settled by its
     * status code, with the body XORed when `encrypt` is set; `None` when a
     * network error leaves it unsettled.
     */
    method GetRemoteSource(originalUrl: string, encrypt: bool, origin: string -> RawFetch) returns (result: Option<Fetched>)
      modifies this`fetchLog
      ensures fetchLog == old(fetchLog) + [originalUrl]
      ensures result == FetchResult(config.xorKey, origin(originalUrl), encrypt)
    {
      fetchLog := fetchLog + [originalUrl];
      var raw := origin(originalUrl);
      if raw.NetworkError? {
        return None;
      }
      var fileData := raw.body;
      if encrypt {
        fileData := XorBuffer(config.xorKey, fileData);
      }
      if 200 > raw.statusCode || 400 <= raw.statusCode {
        result := Some(Fetched(false, raw.statusCode, fileData));
      } else {
        result := Some(Fetched(true, raw.statusCode, fileData));
      }
    }

    /** `writeFile`: store `data` at `localURI`. */
    method WriteFile(localURI: string, data: seq<Byte>)
      modifies this`files
      ensures files == old(files)[localURI := data]
    {
      files := files[localURI := data];
    }

    /**
     * The chain for one mod: its matching rewrite rules in rule order, then
     * the unrewritten path, each tried only while nothing has been found. A
     * pattern that does not compile throws, and the mod's step fails.
     */
    method TryMod(mod: Mod, originalUrl: string, isPath: bool, re: RegExps) returns (found: Option<seq<Byte>>)
      ensures found == FirstHit(files, ModCandidates(mod, originalUrl, isPath, re))
    {
      var base := ModFilesDir(mod);
      found := None;
      var j := 0;
      while j < |mod.replace|
        invariant 0 <= j <= |mod.replace|
        invariant found == FirstHit(files, RuleCandidates(mod.replace[..j], originalUrl, isPath, base, re))
        invariant AllValid(mod.replace[..j], re)
      {
        var replaceInfo := mod.replace[j];
        if !re.valid(replaceInfo.from) {
          assert !AllValid(mod.replace, re);
          return None;
        }
        ghost var before := RuleCandidates(mod.replace[..j], originalUrl, isPath, base, re);
        assert mod.replace[..j + 1][..j] == mod.replace[..j];
        if re.test(replaceInfo.from, originalUrl) {
          var localURI := GetLocalURI(re.replace(originalUrl, replaceInfo.from, replaceInfo.to), isPath, base);
          FirstHitAppend(files, before, [localURI]);
          if found.None? {
            found := ReadFile(files, localURI);
          }
        } else {
          assert before + [] == before;
        }
        j := j + 1;
      }
      assert mod.replace[..j] == mod.replace;
      var localURI := GetLocalURI(originalUrl, isPath, base);
      FirstHitAppend(files, RuleCandidates(mod.replace, originalUrl, isPath, base, re), [localURI]);
      if found.None? {
        found := ReadFile(files, localURI);
      }
    }

    /**
     * The mods' part of the chain: each mod in registry order, the next one
     * only when everything of the previous ones failed.
     */
    method TryMods(registry: seq<Mod>, originalUrl: string, isPath: bool, re: RegExps) returns (found: Option<seq<Byte>>)
      ensures found == FirstHit(files, ModsCandidates(registry, originalUrl, isPath, re))
    {
      found := None;
      var i := 0;
      while i < |registry|
        invariant 0 <= i <= |registry|
        invariant found == FirstHit(files, ModsCandidates(registry[..i], originalUrl, isPath, re))
      {
        assert registry[..i + 1][..i] == registry[..i];
        FirstHitAppend(files, ModsCandidates(registry[..i], originalUrl, isPath, re),
                       ModCandidates(registry[i], originalUrl, isPath, re));
        if found.None? {
          found := TryMod(registry[i], originalUrl, isPath, re);
        }
        i := i + 1;
      }
      assert registry[..i] == registry;
    }

    /**
     * `processRequest`: load the registry on first use, try every mod in
     * registry order, then the cache, then the remote server; write a
     * successful fetch of a non-path-like request to the cache; prepare the
     * final payload.
     */
    method ProcessRequest(originalUrl: string, re: RegExps, parsedMods: Option<seq<Mod>>,
                          origin: string -> RawFetch) returns (reply: Reply)
      modifies this`mods, this`files, this`fetchLog
      ensures mods == if old(mods).None? then Some(parsedMods.GetOr([])) else old(mods)
      ensures var out := Resolve(config, mods.value, old(files), originalUrl, re, origin);
        reply == out.reply && files == out.files &&
        fetchLog == old(fetchLog) + (if out.fetched then [originalUrl] else [])
    {
      if mods.None? {
        LoadMods(parsedMods);
      }
      var registry := mods.value;
      var encrypt := IsEncryptRes(originalUrl, config.extendResKeyword);
      var isPath := IsPath(originalUrl);
      var localURI := GetLocalURI(originalUrl, isPath, config.localDir);

      var found := TryMods(registry, originalUrl, isPath, re);
      FirstHitAppend(files, ModsCandidates(registry, originalUrl, isPath, re), [localURI]);
      if found.None? {
        found := ReadFile(files, localURI);
      }

      var statusCode: Option<int> := None;
      if found.None? {
        var settled := GetRemoteSource(originalUrl, encrypt && !isPath, origin);
        if settled.None? {
          return NoReply;
        }
        var fetched := settled.value;
        statusCode := Some(fetched.statusCode);
        if fetched.ok {
          if !isPath {
            WriteFile(localURI, fetched.data);
          }
          found := Some(fetched.data);
        } else {
          return Sent(statusCode, Utf8Text(fetched.data));
        }
      }

      var data := found.value;
      if isPath {
        if encrypt {
          // `XOR` is handed the decoded text; reading its first byte throws.
          reply := if data == [] then Sent(statusCode, Binary([])) else NoReply;
        } else {
          reply := Sent(statusCode, Utf8Text(data));
        }
      } else {
        var sendData := data;
        if encrypt {
          sendData := XorBuffer(config.xorKey, data);
        }
        reply := Sent(statusCode, Binary(sendData));
      }
    }
  }
}
