/** The address normaliser of the shell (ensureHttpUrl, src/renderer/App.tsx). */
module HttpUrl {
  import opened Tabs
  import opened JsString

  predicate IsAsciiLetter(c: char) {
    ('a' <= c <= 'z') || ('A' <= c <= 'Z')
  }

  /** The characters of [a-zA-Z0-9+.-]. */
  predicate IsSchemeChar(c: char) {
    IsAsciiLetter(c) || ('0' <= c <= '9') || c == '+' || c == '.' || c == '-'
  }

  /** s[..k] is a scheme (a letter, then scheme characters) and "://" follows it. */
  predicate SchemeEndsAt(s: string, k: int)
    requires 1 <= k <= |s| - 3
  {
    IsAsciiLetter(s[0]) && (forall i :: 1 <= i < k ==> IsSchemeChar(s[i])) && s[k..k + 3] == "://"
  }

  /** The test /^[a-zA-Z][a-zA-Z0-9+.-]*:\/\//. */
  predicate HasScheme(s: string) {
    exists k :: 1 <= k <= |s| - 3 && SchemeEndsAt(s, k)
  }

  /** The length of the longest run of scheme characters at the start of s. */
  function SchemeRun(s: string): (n: nat)
    ensures n <= |s|
    ensures forall i :: 0 <= i < n ==> IsSchemeChar(s[i])
    ensures n < |s| ==> !IsSchemeChar(s[n])
  {
    if |s| == 0 || !IsSchemeChar(s[0]) then 0 else 1 + SchemeRun(s[1..])
  }

  /** The regular expression leaves no choice of where the scheme ends: ":" is not a scheme
      character, so the scheme is the longest run of scheme characters, and the address names a
      scheme exactly when it starts with a letter and "://" follows that run. */
  lemma {:induction false} HasSchemeDecided(s: string)
    ensures HasScheme(s) <==>
      |s| > 0 && IsAsciiLetter(s[0]) && SchemeRun(s) <= |s| - 3 && s[SchemeRun(s)..SchemeRun(s) + 3] == "://"
  {
    var n := SchemeRun(s);
    if HasScheme(s) {
      var k :| 1 <= k <= |s| - 3 && SchemeEndsAt(s, k);
      assert s[k] == s[k..k + 3][0] == ':';
      assert forall i :: 0 <= i < k ==> IsSchemeChar(s[i]);
      assert n == k;
    }
    if |s| > 0 && IsAsciiLetter(s[0]) && n <= |s| - 3 && s[n..n + 3] == "://" {
      assert n >= 1;
      assert SchemeEndsAt(s, n);
    }
  }

  const HTTPS_PREFIX: string := "https://"

  lemma PrefixedHasScheme(t: string)
    ensures HasScheme(HTTPS_PREFIX + t)
  {
    var s := HTTPS_PREFIX + t;
    assert s[5..8] == "://";
    assert SchemeEndsAt(s, 5);
  }

  /** ensureHttpUrl: null for blank input; the trimmed input when it already names a scheme;
      otherwise the trimmed input behind "https://". */
  function EnsureHttpUrl(value: string): (r: Option<string>)
    ensures r.None? <==> |Trim(value)| == 0
    ensures r.Some? ==> HasScheme(r.value) && IsTrimmed(r.value)
    ensures r.Some? && HasScheme(Trim(value)) ==> r.value == Trim(value)
    ensures r.Some? && !HasScheme(Trim(value)) ==> r.value == HTTPS_PREFIX + Trim(value)
  {
    var trimmed := Trim(value);
    if |trimmed| == 0 then None
    else if HasScheme(trimmed) then Some(trimmed)
    else
      PrefixedHasScheme(trimmed);
      var r := HTTPS_PREFIX + trimmed;
      assert r[|r| - 1] == trimmed[|trimmed| - 1];
      Some(r)
  }

  /** Normalising a normalised address changes nothing. */
  lemma EnsureHttpUrlIdempotent(value: string)
    ensures var r := EnsureHttpUrl(value);
      r.Some? ==> EnsureHttpUrl(r.value) == r
  {
    var r := EnsureHttpUrl(value);
    if r.Some? {
      TrimOfTrimmed(r.value);
    }
  }

  /** The home page address already carries a scheme, so normalising leaves it alone. */
  lemma HomeUrlIsNormal()
    ensures EnsureHttpUrl(HOME_URL) == Some(HOME_URL)
  {
    assert SchemeEndsAt(HOME_URL, 5);
    TrimOfTrimmed(HOME_URL);
  }

  /** An address without a colon (a bare host name, say) gets the https scheme. */
  lemma NoColonGetsHttps(value: string)
    requires ':' !in Trim(value) && |Trim(value)| > 0
    ensures EnsureHttpUrl(value) == Some(HTTPS_PREFIX + Trim(value))
  {
    var t := Trim(value);
    forall k | 1 <= k <= |t| - 3 ensures !SchemeEndsAt(t, k) {
      assert t[k..k + 3][0] == t[k];
    }
  }
}
