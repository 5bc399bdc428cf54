/**
 * The path classifier and the local path mapper of Util.js: `isEncryptRes`,
 * `isPath` and `getLocalURI`, with the JavaScript string primitives they use
 * (`indexOf`, `includes`, `endsWith`) written out.
 */
module Paths {

  /** `sub` occurs in `s` starting at index `i`. */
  predicate OccursAt(s: string, sub: string, i: int)
  {
    0 <= i && i + |sub| <= |s| && s[i..i + |sub|] == sub
  }

  /**
   * The first occurrence of `sub` at or after `from`, or -1; `IndexOf` calls it
   * with `from` = 0, which is how `indexOf(sub)` is used here.
   */
  function IndexOfFrom(s: string, sub: string, from: nat): (r: int)
    requires from <= |s|
    decreases |s| - from
    ensures r == -1 || (from <= r && OccursAt(s, sub, r))
    ensures r == -1 ==> forall i :: from <= i ==> !OccursAt(s, sub, i)
    ensures r != -1 ==> forall i :: from <= i < r ==> !OccursAt(s, sub, i)
  {
    if from + |sub| > |s| then -1
    else if s[from..from + |sub|] == sub then from
    else IndexOfFrom(s, sub, from + 1)
  }

  /** `String.prototype.indexOf(sub)`. */
  function IndexOf(s: string, sub: string): int
  {
    IndexOfFrom(s, sub, 0)
  }

  /** `String.prototype.includes(sub)`, which is `indexOf(sub) !== -1`. */
  predicate Includes(s: string, sub: string)
  {
    IndexOf(s, sub) != -1
  }

  /** `String.prototype.endsWith(suffix)`. */
  predicate EndsWith(s: string, suffix: string)
  {
    |suffix| <= |s| && s[|s| - |suffix|..] == suffix
  }

  /** `includes` holds exactly when the substring occurs somewhere. */
  lemma IncludesIff(s: string, sub: string)
    ensures Includes(s, sub) <==> exists i :: OccursAt(s, sub, i)
  {
  }

  /** A one-character needle occurs exactly where the character is. */
  lemma {:induction false} IncludesChar(s: string, c: char)
    ensures Includes(s, [c]) <==> c in s
  {
    IncludesIff(s, [c]);
    if c in s {
      var i :| 0 <= i < |s| && s[i] == c;
      assert OccursAt(s, [c], i);
    }
    if Includes(s, [c]) {
      var i :| OccursAt(s, [c], i);
      assert s[i] == s[i..i + 1][0];
    }
  }

  /** `isEncryptRes`: the request path contains the configured marker. */
  predicate IsEncryptRes(originalUrl: string, keyword: string)
  {
    Includes(originalUrl, keyword)
  }

  /** `isPath`: the request ends with a backslash or a slash, or carries a query. */
  predicate IsPath(originalUrl: string)
  {
    EndsWith(originalUrl, "\\") || EndsWith(originalUrl, "/") || Includes(originalUrl, "?")
  }

  /** `isEncryptRes` is true exactly when the marker occurs in the path. */
  lemma IsEncryptResIff(originalUrl: string, keyword: string)
    ensures IsEncryptRes(originalUrl, keyword) <==> exists i :: OccursAt(originalUrl, keyword, i)
  {
  }

  /** `isPath` is true exactly when the last character is `/` or `\`, or a `?` occurs. */
  lemma IsPathIff(originalUrl: string)
    ensures IsPath(originalUrl) <==>
      (|originalUrl| > 0 && originalUrl[|originalUrl| - 1] in {'/', '\\'}) || '?' in originalUrl
  {
    IncludesChar(originalUrl, '?');
    if |originalUrl| > 0 {
      var last := originalUrl[|originalUrl| - 1];
      assert originalUrl[|originalUrl| - 1..] == [last];
    }
  }

  /** `path.join`, taken as joining with one separator; no normalisation. */
  function Join(base: string, rel: string): string
  {
    base + "/" + rel
  }

  /** The part of a request path before its first `?` (the whole path when there is none). */
  function StripQuery(originalUrl: string): string
  {
    var indexOfProps := IndexOf(originalUrl, "?");
    originalUrl[..if indexOfProps == -1 then |originalUrl| else indexOfProps]
  }

  /**
   * What is kept is the longest prefix without a `?`: it holds no `?`, and it
   * is either the whole path or stops right at a `?`.
   */
  lemma StripQueryPrefix(originalUrl: string)
    ensures StripQuery(originalUrl) <= originalUrl
    ensures '?' !in StripQuery(originalUrl)
    ensures '?' !in originalUrl ==> StripQuery(originalUrl) == originalUrl
    ensures |StripQuery(originalUrl)| < |originalUrl| ==> originalUrl[|StripQuery(originalUrl)|] == '?'
  {
    var indexOfProps := IndexOf(originalUrl, "?");
    var r := StripQuery(originalUrl);
    if indexOfProps != -1 {
      assert originalUrl[indexOfProps] == originalUrl[indexOfProps..indexOfProps + 1][0];
    }
    if '?' !in originalUrl {
      IncludesChar(originalUrl, '?');
    }
    if '?' in r {
      var k :| 0 <= k < |r| && r[k] == '?';
      assert originalUrl[k..k + 1] == "?";
      assert OccursAt(originalUrl, "?", k);
    }
  }

  /**
   * `getLocalURI`: cut the request at its first `?` and join the rest onto the
   * base directory. Both arms of its final conditional give the same path, so
   * `isPath` has no effect.
   */
  function GetLocalURI(originalUrl: string, isPath: bool, dirBase: string): string
  {
    var localURI := Join(dirBase, StripQuery(originalUrl));
    if isPath then localURI else localURI
  }

  /** Everything from the first `?` on is ignored, and so is the `isPath` argument. */
  lemma QueryIgnored(path: string, query: string, isPath1: bool, isPath2: bool, dirBase: string)
    requires '?' !in path
    ensures GetLocalURI(path + "?" + query, isPath1, dirBase) == GetLocalURI(path, isPath2, dirBase)
  {
    var url := path + "?" + query;
    var r := StripQuery(url);
    StripQueryPrefix(url);
    assert url[|path|] == '?';
    assert r == path;
  }

  /** A request maps to the same local file as its prefix before the first `?`. */
  lemma SameAsPrefix(originalUrl: string, isPath: bool, dirBase: string)
    ensures GetLocalURI(originalUrl, isPath, dirBase) == GetLocalURI(StripQuery(originalUrl), false, dirBase)
  {
    StripQueryPrefix(originalUrl);
    StripQueryPrefix(StripQuery(originalUrl));
  }
}
