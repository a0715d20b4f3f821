/**
 * The two pieces of `generators/app/index.js` that carry logic: the author record
 * the generator's constructor builds from git, and `_getGitHubVendorInfo`, which
 * turns the guessed vendor pair into a record whose slug and namespace are always
 * derived from its final name.
 */
module Generator {
  import opened JsStrings
  import opened StringHelper
  import opened GitHelper

  /** `this._author`. */
  datatype Author = Author(name: string, email: string, username: string)

  /** The author record: the configured name and email, and the guessed GitHub user name. */
  function NewAuthor(sh: Shell): (a: Author)
    ensures a.name == GetGitConfig(sh, "user.name")
    ensures a.email == GetGitConfig(sh, "user.email")
    ensures a.username == GuessGitHubUsername(sh)
  {
    Author(GetGitConfig(sh, "user.name"), GetGitConfig(sh, "user.email"), GuessGitHubUsername(sh))
  }

  /** The vendor record `_getGitHubVendorInfo` resolves to. */
  datatype VendorInfo = VendorInfo(name: string, username: string, slug: string, namespace: string)

  /** Slug and namespace are computed from the record's own name, never taken from elsewhere. */
  predicate IsDerived(v: VendorInfo) {
    v.slug == Slugify(v.name) && v.namespace == ToNamespace(v.name)
  }

  /** The record for a name and a user name. */
  function VendorRecord(name: string, username: string): (v: VendorInfo)
    ensures v.name == name && v.username == username && IsDerived(v)
  {
    VendorInfo(name, username, Slugify(name), ToNamespace(name))
  }

  /**
   * `_getGitHubVendorInfo()`, given how the awaited `guessGitHubVendorInfo` call
   * settled: `Some(pair)` when it gave a pair, `None` when it rejected, in which
   * case the record falls back to the author.
   */
  function GetGitHubVendorInfo(author: Author, settled: Option<(string, string)>): (v: VendorInfo)
    ensures IsDerived(v)
    ensures settled.Some? ==> (v.name, v.username) == settled.value
    ensures settled.None? ==> v.name == author.name && v.username == author.username
  {
    match settled
    case Some(pair) => VendorRecord(pair.0, pair.1)
    case None => VendorRecord(author.name, author.username)
  }

  /** The vendor record of a run: the helper asked with exactly the author's name and user name. */
  function ResolveVendor(sh: Shell, fetch: string -> FetchOutcome): (v: VendorInfo)
    ensures IsDerived(v)
    ensures var a := NewAuthor(sh);
      (v.name, v.username) == GuessGitHubVendorInfo(sh, fetch, a.name, a.username)
  {
    var author := NewAuthor(sh);
    GetGitHubVendorInfo(author, Some(GuessGitHubVendorInfo(sh, fetch, author.name, author.username)))
  }

  /** The error fallback is the record the helper's own fallback pair gives. */
  lemma VendorFallbackAgrees(sh: Shell, fetch: string -> FetchOutcome)
    requires RemoteOwner(sh) == ""
    ensures ResolveVendor(sh, fetch) == GetGitHubVendorInfo(NewAuthor(sh), None)
  {
    var a := NewAuthor(sh);
    VendorInfoWithoutOwner(sh, fetch, a.name, a.username);
  }

  /** The record's slug and namespace have the forms the string helpers promise. */
  lemma VendorRecordForms(sh: Shell, fetch: string -> FetchOutcome)
    ensures var v := ResolveVendor(sh, fetch);
      && (forall k :: 0 <= k < |v.slug| ==> IsSlugChar(v.slug[k]))
      && (v.slug == [] || (v.slug[0] != '-' && v.slug[|v.slug| - 1] != '-'))
      && ' ' !in v.namespace && '-' !in v.namespace
      && Slugify(v.slug) == v.slug
  {
    SlugifyIdempotent(ResolveVendor(sh, fetch).name);
  }

  /** An organisation answer with a name renames the vendor and re-derives slug and namespace from it. */
  lemma VendorFromOrganisation(sh: Shell, fetch: string -> FetchOutcome, name: string, login: Option<string>)
    requires RemoteOwner(sh) != "" && name != ""
    requires fetch(ApiBase + "orgs/" + RemoteOwner(sh)) == Response(200, Some(Object(Some(name), login)))
    ensures var v := ResolveVendor(sh, fetch);
      v.name == name && v.slug == Slugify(name) && v.namespace == ToNamespace(name)
      && v.username == OrDefault(login, NewAuthor(sh).username)
  {
    var a := NewAuthor(sh);
    VendorInfoFromOrg(sh, fetch, a.name, a.username, Some(name), login);
  }
}
