/**
 * The WHATWG URL parser is not modelled: a `UrlEnv` supplies its two entry
 * points as functions, `new URL(s)` and `new URL(href, base)`, each giving
 * the parsed URL or `None` where the constructor throws.
 */
module Urls {
  import opened Wrappers

  /** The components of a parsed URL that the server reads. */
  datatype Url = Url(href: string, origin: string, hostname: string, pathname: string)

  datatype UrlEnv = UrlEnv(
    parse: string -> Option<Url>,
    resolve: (string, string) -> Option<Url>)

  /**
   * The one fact about the parser used below: the serialization `href` of a
   * URL it produced parses back to that same URL.
   */
  ghost predicate WellBehaved(env: UrlEnv)
  {
    forall href, base :: env.resolve(href, base).Some? ==>
      env.parse(env.resolve(href, base).value.href) == env.resolve(href, base)
  }

  /** `new URL(s).hostname`, or `None` where the constructor throws. */
  function Hostname(env: UrlEnv, s: string): Option<string>
  {
    match env.parse(s)
    case None => None
    case Some(u) => Some(u.hostname)
  }
}
