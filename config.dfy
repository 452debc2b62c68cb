/**
 * The derived settings of src/config.py: the environment tests, the
 * Vercel test, the CORS origin list and the CSS class of the environment
 * badge.  Loading the values from the environment and `.env` is not
 * modelled; a `Settings` value holds what was loaded.
 */
module Config {
  import opened Wrappers
  import opened Strings

  /** The fields of `Settings` the derived values read. */
  datatype Settings = Settings(
    environment: string,
    vercel: Option<string>,
    databaseUrl: Option<string>,
    corsOrigins: string)

  const DefaultEnvironment := "development"
  const DefaultCorsOrigins := "http://localhost:3000,http://localhost:8000"

  /** The settings with nothing configured. */
  const Defaults := Settings(DefaultEnvironment, None, None, DefaultCorsOrigins)

  /** `is_production`: the environment, lower-cased, is "production". */
  predicate IsProduction(s: Settings) { Lower(s.environment) == "production" }

  /** `is_development`: the environment, lower-cased, is "development". */
  predicate IsDevelopment(s: Settings) { Lower(s.environment) == "development" }

  /** `is_vercel`: the `VERCEL` variable is set, to anything. */
  predicate IsVercel(s: Settings) { s.vercel.Some? }

  /** At most one of the two environments holds. */
  lemma ProductionNotDevelopment(s: Settings)
    ensures !(IsProduction(s) && IsDevelopment(s))
  {
    if IsProduction(s) {
      assert Lower(s.environment)[0] == 'p';
    }
  }

  /** The environment is compared without regard to case. */
  lemma ProductionAnyCase(s: Settings)
    requires s.environment == "Production"
    ensures IsProduction(s)
  {
    var e := s.environment;
    LowerAt(e);
    var l := Lower(e);
    assert l[0] == 'p';
    forall i | 1 <= i < |l| ensures l[i] == e[i] {
      assert LowerChar(e[i]) == e[i];
    }
  }

  /** The stripped string holds only characters of the original. */
  lemma {:induction false} StripInside(p: string)
    ensures forall c :: c in Strip(p) ==> c in p
  {
    var l := LStrip(p);
    LStripSuffix(p);
    forall c | c in Strip(p) ensures c in p {
      var r := Strip(p);
      var i :| 0 <= i < |r| && r[i] == c;
      assert r == l[..|r|];
      assert l[i] == c;
      assert p[|p| - |l| + i] == c;
    }
  }

  /** `cors_origins_list`: the comma-separated origins, each stripped. */
  function CorsOriginsList(s: Settings): (r: seq<string>)
    ensures |r| == CountChar(s.corsOrigins, ',') + 1
    ensures forall i :: 0 <= i < |r| ==> ',' !in r[i]
    ensures forall i :: 0 <= i < |r| ==> r[i] == [] || (!IsSpace(r[i][0]) && !IsSpace(r[i][|r[i]| - 1]))
  {
    var parts := Split(s.corsOrigins, ',');
    SplitCount(s.corsOrigins, ',');
    forall i | 0 <= i < |parts| ensures ',' !in Strip(parts[i]) {
      StripInside(parts[i]);
    }
    seq(|parts|, i requires 0 <= i < |parts| => Strip(parts[i]))
  }

  /** Origins written without blanks come back exactly: joining the list restores the setting. */
  lemma CorsRoundTrip(s: Settings)
    requires forall i :: 0 <= i < |s.corsOrigins| ==> !IsSpace(s.corsOrigins[i])
    ensures Join(CorsOriginsList(s), ',') == s.corsOrigins
  {
    var parts := Split(s.corsOrigins, ',');
    forall i | 0 <= i < |parts| ensures Strip(parts[i]) == parts[i] {
      PiecesOfPlain(s.corsOrigins, ',');
    }
    assert CorsOriginsList(s) == parts;
    SplitJoin(s.corsOrigins, ',');
  }

  /**
   * Blanks around an origin are dropped and nothing else is: origins
   * without commas and without blanks at their ends, each padded with
   * blanks on either side and joined by commas, come back as they were.
   */
  lemma CorsPadded(s: Settings, os: seq<string>, lefts: seq<string>, rights: seq<string>, padded: seq<string>)
    requires os != [] && |lefts| == |os| && |rights| == |os| && |padded| == |os|
    requires forall i :: 0 <= i < |os| ==> ',' !in os[i]
    requires forall i :: 0 <= i < |os| ==> os[i] == [] || (!IsSpace(os[i][0]) && !IsSpace(os[i][|os[i]| - 1]))
    requires forall i, k :: 0 <= i < |os| && 0 <= k < |lefts[i]| ==> IsSpace(lefts[i][k])
    requires forall i, k :: 0 <= i < |os| && 0 <= k < |rights[i]| ==> IsSpace(rights[i][k])
    requires forall i :: 0 <= i < |os| ==> padded[i] == lefts[i] + os[i] + rights[i]
    requires s.corsOrigins == Join(padded, ',')
    ensures CorsOriginsList(s) == os
  {
    assert !IsSpace(',');
    forall i, k | 0 <= i < |os| && 0 <= k < |padded[i]| ensures padded[i][k] != ',' {
      if k < |lefts[i]| {
        assert padded[i][k] == lefts[i][k];
      } else if k < |lefts[i]| + |os[i]| {
        assert padded[i][k] == os[i][k - |lefts[i]|];
      } else {
        assert padded[i][k] == rights[i][k - |lefts[i]| - |os[i]|];
      }
    }
    JoinSplit(padded, ',');
    forall i | 0 <= i < |os| ensures Strip(padded[i]) == os[i] {
      StripPadded(lefts[i], os[i], rights[i]);
    }
  }

  /** The pieces of a string without blanks have no blanks either. */
  lemma {:induction false} PiecesOfPlain(t: string, sep: char)
    requires forall i :: 0 <= i < |t| ==> !IsSpace(t[i])
    ensures forall k, i :: 0 <= k < |Split(t, sep)| && 0 <= i < |Split(t, sep)[k]| ==> !IsSpace(Split(t, sep)[k][i])
    decreases |t|
  {
    if t != [] {
      PiecesOfPlain(t[1..], sep);
      var rest := Split(t[1..], sep);
      if t[0] != sep {
        var first := [t[0]] + rest[0];
        forall i | 0 <= i < |first| ensures !IsSpace(first[i]) {
          if i > 0 { assert first[i] == rest[0][i - 1]; }
        }
      }
    }
  }

  /** Two origins written without blanks come back as the two of them. */
  lemma TwoOrigins(s: Settings, a: string, b: string)
    requires s.corsOrigins == a + "," + b && ',' !in a && ',' !in b
    requires forall i :: 0 <= i < |a| ==> !IsSpace(a[i])
    requires forall i :: 0 <= i < |b| ==> !IsSpace(b[i])
    ensures CorsOriginsList(s) == [a, b]
  {
    SplitPlain(b, ',');
    SplitPrefix(a, [','] + b, ',');
    assert a + "," + b == a + ([','] + b);
    assert ([','] + b)[1..] == b;
    assert Split(s.corsOrigins, ',') == [a, b];
  }

  /** `get_environment_class`: the badge class of a known environment, else the development one. */
  function EnvironmentClass(s: Settings): (c: string)
    ensures c == "env-production" <==> IsProduction(s)
    ensures c == "env-staging" <==> Lower(s.environment) == "staging"
    ensures c == "env-development" <==> !IsProduction(s) && Lower(s.environment) != "staging"
  {
    var env := Lower(s.environment);
    if env == "production" then "env-production"
    else if env == "staging" then "env-staging"
    else "env-development"
  }

  /** Development, and every environment the table does not know, share the development badge. */
  lemma DevelopmentBadge(s: Settings)
    requires IsDevelopment(s) || (!IsProduction(s) && Lower(s.environment) != "staging")
    ensures EnvironmentClass(s) == "env-development"
  {
  }

  /** With nothing configured the service is a development one, not on Vercel. */
  lemma DefaultsAreDevelopment()
    ensures IsDevelopment(Defaults) && !IsProduction(Defaults) && !IsVercel(Defaults)
    ensures EnvironmentClass(Defaults) == "env-development"
  {
    DevelopmentSettings(Defaults);
  }

  /** Settings whose environment is "development" and that set no `VERCEL`. */
  lemma DevelopmentSettings(s: Settings)
    requires s.environment == DefaultEnvironment && s.vercel.None?
    ensures IsDevelopment(s) && !IsProduction(s) && !IsVercel(s)
    ensures EnvironmentClass(s) == "env-development"
  {
    LowerOfLower(s.environment);
    ProductionNotDevelopment(s);
    DevelopmentBadge(s);
  }
}
