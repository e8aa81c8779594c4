/**
  The database URI chosen at start-up (`Config` in config.py): the environment's URL with the
  `postgres://` scheme renamed for SQLAlchemy and `sslmode=require` added for Neon hosts, or a
  local SQLite file when no URL is configured.
 */
module Config {
  import opened Wrappers
  import opened PyText

  const LegacyScheme := "postgres://"
  const Scheme := "postgresql://"
  const SslRequire := "sslmode=require"
  const SqliteUri := "sqlite:///attendance.db"

  /** Python truthiness of an optional string: present and non-empty. */
  predicate Truthy(v: Option<string>)
  {
    v.Some? && v.value != ""
  }

  /** `os.environ.get('DATABASE_URL') or os.environ.get('POSTGRES_URL')`. */
  function ConfiguredUrl(databaseUrl: Option<string>, postgresUrl: Option<string>): (r: Option<string>)
    ensures Truthy(databaseUrl) ==> r == databaseUrl
    ensures !Truthy(databaseUrl) ==> r == postgresUrl
  {
    if Truthy(databaseUrl) then databaseUrl else postgresUrl
  }

  /** Step one: `postgres://` becomes `postgresql://` through `replace(..., 1)`; any other URL,
      `postgresql://` ones included, is left alone. */
  function RenameScheme(url: string): (r: string)
    ensures StartsWith(url, LegacyScheme) ==> r == Scheme + url[|LegacyScheme|..]
    ensures !StartsWith(url, LegacyScheme) ==> r == url
  {
    if url != "" && StartsWith(url, LegacyScheme) then
      ReplaceFirstOfPrefix(url, LegacyScheme, Scheme);
      ReplaceFirst(url, LegacyScheme, Scheme)
    else url
  }

  /** The separator before an added query parameter. */
  function QueryJoiner(url: string): string
  {
    if Contains(url, "?") then "&" else "?"
  }

  /** Step two: a Neon URL without an `sslmode` gets `sslmode=require` appended. */
  function RequireSsl(url: string): (r: string)
  {
    if url != "" && Contains(url, "neon") && !Contains(url, "sslmode") then
      url + QueryJoiner(url) + SslRequire
    else url
  }

  /** Both rewriting steps, in the order config.py applies them. */
  function Normalise(url: string): string
  {
    RequireSsl(RenameScheme(url))
  }

  /** `SQLALCHEMY_DATABASE_URI`. */
  function DatabaseUri(databaseUrl: Option<string>, postgresUrl: Option<string>): (uri: string)
    ensures uri != ""
  {
    var url := ConfiguredUrl(databaseUrl, postgresUrl);
    if Truthy(url) then Normalise(url.value) else SqliteUri
  }

  // ---------------------------------------------------------------- properties

  /** `RequireSsl` only ever appends, and appends exactly when the URL names Neon without an
      `sslmode`; the joiner is '&' when a query string is already there. */
  lemma RequireSslAppends(url: string)
    ensures var r := RequireSsl(url);
      && StartsWith(r, url)
      && (r != url <==> Contains(url, "neon") && !Contains(url, "sslmode"))
      && (r != url ==> r[|url|..] == (if Contains(url, "?") then "&" else "?") + SslRequire)
  {
    var r := RequireSsl(url);
    assert r[..|url|] == url;
    if Contains(url, "neon") {
      assert url != "";
    }
  }

  /** Whenever step two appends, the result carries an `sslmode`. */
  lemma AppendedHasSslMode(u: string)
    ensures RequireSsl(u) != u ==> Contains(RequireSsl(u), "sslmode")
  {
    if RequireSsl(u) != u {
      var j := QueryJoiner(u);
      assert OccursAt(SslRequire, "sslmode", 0);
      ContainsConcat(u + j, SslRequire, "sslmode");
    }
  }

  /** After normalisation every URL that mentions Neon also carries an `sslmode`. */
  lemma NeonGetsSslMode(url: string)
    ensures Contains(Normalise(url), "neon") ==> Contains(Normalise(url), "sslmode")
  {
    var u := RenameScheme(url);
    if Contains(u, "neon") && !Contains(u, "sslmode") {
      AppendedHasSslMode(u);
    }
  }

  /** A URL that does not start with the legacy scheme keeps not doing so after step two. */
  lemma RequireSslKeepsScheme(u: string)
    requires !StartsWith(u, LegacyScheme)
    ensures !StartsWith(RequireSsl(u), LegacyScheme)
  {
    var r := RequireSsl(u);
    if r != u {
      if |u| >= |LegacyScheme| {
        assert r[..|LegacyScheme|] == u[..|LegacyScheme|];
      } else {
        // a URL this short that holds "neon" has an 'n' where "postgres://" has none
        var i := FindFirst(u, "neon").value;
        assert u[i] == 'n' by {
          assert u[i..i + 4] == "neon";
          assert u[i..i + 4][0] == u[i];
        }
        assert r[i] == u[i];
        assert LegacyScheme[i] != 'n';
        if |r| >= |LegacyScheme| {
          assert r[..|LegacyScheme|][i] == 'n';
        }
      }
    }
  }

  /** Normalising an already normalised URL changes nothing. */
  lemma NormaliseIdempotent(url: string)
    ensures Normalise(Normalise(url)) == Normalise(url)
  {
    var u1 := RenameScheme(url);
    var u2 := RequireSsl(u1);
    assert !StartsWith(u1, LegacyScheme) by {
      if StartsWith(url, LegacyScheme) {
        assert u1[8] == 'q' && LegacyScheme[8] == ':';
      }
    }
    RequireSslKeepsScheme(u1);
    assert RenameScheme(u2) == u2;
    AppendedHasSslMode(u1);
  }

  /** DATABASE_URL wins over POSTGRES_URL; with neither set to a non-empty value the
      application falls back to the SQLite file. */
  lemma UriPrecedence(databaseUrl: Option<string>, postgresUrl: Option<string>)
    ensures Truthy(databaseUrl) ==> DatabaseUri(databaseUrl, postgresUrl) == Normalise(databaseUrl.value)
    ensures !Truthy(databaseUrl) && Truthy(postgresUrl) ==>
      DatabaseUri(databaseUrl, postgresUrl) == Normalise(postgresUrl.value)
    ensures !Truthy(databaseUrl) && !Truthy(postgresUrl) ==> DatabaseUri(databaseUrl, postgresUrl) == SqliteUri
  {
  }
}
