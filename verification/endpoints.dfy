/**
 * The request base of the chat controller (Chatbot.js, `base`): the
 * `apiBase` prop with one trailing slash removed and `/chatbot-api`
 * appended unless it is already there.
 */
module Endpoints {
  import opened Wrappers
  import opened Text

  /** The path segment under which the chatbot's HTTP API lives. */
  const ApiSuffix: string := "/chatbot-api"

  /** The `apiBase` the component uses when its parent passes none. */
  const DefaultApiBase: string := "/nomad-oasis"

  /** `s.replace(/\/$/, '')`: the text without its one trailing slash, if it has one. */
  function DropTrailingSlash(s: string): (r: string)
    ensures EndsWith(s, "/") ==> r + "/" == s
    ensures !EndsWith(s, "/") ==> r == s
  {
    if EndsWith(s, "/") then s[..|s| - 1] else s
  }

  /**
   * The base every request URL starts with. `apiBase` is `None` when the
   * prop is null; a falsy prop counts as the empty string. The base always
   * ends with `/chatbot-api`, and it is the trimmed prop itself when that
   * already ends so and the trimmed prop followed by `/chatbot-api` otherwise.
   */
  function Base(apiBase: Option<string>): (r: string)
    ensures EndsWith(r, ApiSuffix)
    ensures var trimmed := DropTrailingSlash(apiBase.GetOr(""));
      && trimmed <= r
      && (EndsWith(trimmed, ApiSuffix) <==> r == trimmed)
      && (!EndsWith(trimmed, ApiSuffix) <==> r == trimmed + ApiSuffix)
  {
    var trimmed := DropTrailingSlash(apiBase.GetOr(""));
    if EndsWith(trimmed, ApiSuffix) then trimmed else trimmed + ApiSuffix
  }

  /** Normalising a base again changes nothing. */
  lemma BaseIdempotent(apiBase: Option<string>)
    ensures Base(Some(Base(apiBase))) == Base(apiBase)
  {
    var b := Base(apiBase);
    assert !EndsWith(b, "/") by {
      assert b[|b| - 1] == ApiSuffix[|ApiSuffix| - 1];
    }
  }

  /** A prop without trailing slash or `/chatbot-api` gets `/chatbot-api` appended. */
  lemma SuffixAppended(p: string)
    requires !EndsWith(p, "/") && !EndsWith(p, ApiSuffix)
    ensures Base(Some(p)) == p + ApiSuffix
  {
  }

  /** With the default prop, requests go to `/nomad-oasis/chatbot-api`. */
  lemma DefaultBase()
    ensures Base(Some(DefaultApiBase)) == DefaultApiBase + ApiSuffix
  {
    assert DefaultApiBase[|DefaultApiBase| - 1] == 's';
    assert DefaultApiBase[1] != ApiSuffix[1];
    SuffixAppended(DefaultApiBase);
  }

  /**
   * A base given with one trailing slash is the base given without it; only
   * one slash is removed, so `p` itself must not end with one.
   */
  lemma TrailingSlashIgnored(p: string)
    requires !EndsWith(p, "/")
    ensures Base(Some(p + "/")) == Base(Some(p))
  {
    assert EndsWith(p + "/", "/");
    assert (p + "/")[..|p|] == p;
  }
}
