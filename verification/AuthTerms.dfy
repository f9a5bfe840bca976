/** What SVC-003 speaks of, apart from how the evaluator looks for it: the approved
    modes by name, their fields and the signs of them in code, and the forms of values. */
module AuthTerms {
  import opened Text

  /** The fields an entry of a mode needs. */
  const NEEDED: map<string, set<string>> :=
    map["mode.user_oidc" := {"audience", "jwks_url"},
        "mode.service_rs256" := {"audience", "jwks_url"},
        "mode.api_key" := {"issuer"},
        "mode.bearer_legacy" := {"deprecation_close_date", "waiver_ref"}]

  /** The fields the evaluator lets it have. */
  const PERMITTED: map<string, set<string>> :=
    map["mode.user_oidc" := {"mode", "notes", "audience", "jwks_url"},
        "mode.service_rs256" := {"mode", "notes", "audience", "jwks_url"},
        "mode.api_key" := {"mode", "notes", "issuer", "key_id_prefix"},
        "mode.bearer_legacy" := {"mode", "notes", "deprecation_close_date", "waiver_ref"}]

  /** The texts in code that are taken for an implementation of it. */
  const SIGNS: map<string, set<string>> :=
    map["mode.user_oidc" := {"CT_JWKS_URL", "ControlTowerAuth", "create_bff_routes", "ct_auth."},
        "mode.service_rs256" :=
          {"algorithm=\"RS256\"", "algorithm='RS256'", "algorithms=[\"RS256\"]", "algorithms=['RS256']"},
        "mode.api_key" := {"X-API-Key", "x-api-key"},
        "mode.bearer_legacy" := {"secrets.compare_digest"}]

  predicate IsLetter(c: char) {
    'a' <= c <= 'z'
  }

  predicate IsDigit(c: char) {
    '0' <= c <= '9'
  }

  /** A bare app id: words of lower-case letters and digits, joined with dashes; it
      starts with a letter. */
  predicate AppId(s: string) {
    var words := Split(s, '-');
    && words[0] != "" && IsLetter(words[0][0])
    && forall w, c :: w in words && c in w ==> IsLetter(c) || IsDigit(c)
  }

  /** An http(s) URL as far as a pattern can tell: something without white space after
      the scheme. */
  ghost predicate WebUrl(s: string, isSpace: char -> bool) {
    exists rest :: (s == "http://" + rest || s == "https://" + rest) && Solid(rest, isSpace)
  }

  predicate Solid(s: string, isSpace: char -> bool) {
    s != "" && forall c :: c in s ==> !isSpace(c)
  }

  /** The text stands somewhere in the content. */
  ghost predicate Shows(content: string, sign: string) {
    exists before, after :: content == before + sign + after
  }

  /** "planned", in whatever case. */
  predicate FoldsToPlanned(s: string) {
    |s| == 7 && forall i :: 0 <= i < 7 ==> s[i] == "planned"[i] || s[i] == "PLANNED"[i]
  }
}
