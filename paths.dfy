/**
 * `processPublicImagePath` of utilities/utils.js: turns an image path into
 * one rooted at "/", optionally prefixed with the configured public base URL.
 * The base URL, read from the environment by the original, is a parameter here.
 */
module Paths {

  import opened Wrappers

  /** JavaScript falsiness of a string argument: missing, or the empty string. */
  predicate Falsy(path: Option<string>) {
    path.None? || path.value == ""
  }

  /** `if (!path.startsWith("/")) path = "/" + path;` */
  function LeadingSlash(p: string): (r: string)
    ensures |r| > 0 && r[0] == '/'
    ensures |p| <= |r| <= |p| + 1 && r[|r| - |p|..] == p
    ensures |p| > 0 && p[0] == '/' ==> r == p
  {
    if |p| > 0 && p[0] == '/' then p else "/" + p
  }

  /** `processPublicImagePath(path, usePublic = true)`, with `base` for `NEXT_PUBLIC_BASE_URL`. */
  function ProcessPublicImagePath(path: Option<string>, base: string, usePublic: bool := true): (r: string)
    ensures Falsy(path) ==> r == ""
    ensures !Falsy(path) && !usePublic ==> r == LeadingSlash(path.value)
    ensures !Falsy(path) && usePublic ==> r == base + LeadingSlash(path.value)
  {
    if Falsy(path) then ""
    else
      var p := LeadingSlash(path.value);
      if usePublic then base + p else p
  }

  /** Without the base, the result is empty exactly for a falsy path, and otherwise rooted at "/". */
  lemma LocalPathRooted(path: Option<string>, base: string)
    ensures var r := ProcessPublicImagePath(path, base, false);
      (r == "" <==> Falsy(path)) && (r != "" ==> r[0] == '/')
  {
  }

  /** Without the base, processing an already processed path changes nothing. */
  lemma LocalPathIdempotent(path: Option<string>, base: string)
    ensures var r := ProcessPublicImagePath(path, base, false);
      ProcessPublicImagePath(Some(r), base, false) == r
  {
  }

  /** By default the base is used: the result is the base followed by the rooted path, whatever the base. */
  lemma PublicPathSplits(p: string, base: string)
    requires p != ""
    ensures var r := ProcessPublicImagePath(Some(p), base);
      |r| > |base| && r[..|base|] == base && r[|base|..] == ProcessPublicImagePath(Some(p), base, false)
  {
  }
}
