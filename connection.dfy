/**
 * `get_database_url` (src/database/connection.py): the configured
 * PostgreSQL URL rewritten for the driver in use.  For asyncpg the scheme
 * becomes `postgresql+asyncpg://` and every `sslmode` query parameter is
 * cut out, since asyncpg refuses it; for psycopg2 only the scheme changes.
 */
module Connection {
  import opened Wrappers
  import opened Strings
  import opened Sorting

  const PlainScheme := "postgresql://"
  const AsyncScheme := "postgresql+asyncpg://"
  const SyncScheme := "postgresql+psycopg2://"
  const SslKey := "sslmode="

  /** Why no URL can be produced. */
  datatype ConfigError = NotConfigured   // "DATABASE_URL not configured in environment"

  predicate Separator(c: char) { c == '?' || c == '&' }

  /** The pattern `[?&]sslmode=` occurs at `i`. */
  predicate SslAt(s: string, i: nat) {
    i < |s| && Separator(s[i]) && StartsWith(s[i + 1..], SslKey)
  }

  /** `"?sslmode=" in s or "&sslmode=" in s`. */
  predicate HasSsl(s: string) {
    exists i: nat | i < |s| :: SslAt(s, i)
  }

  /** The end of a parameter value starting at `i`: the next `&`, or the end. */
  function ValueEnd(s: string, i: nat): (j: nat)
    requires i <= |s|
    ensures i <= j <= |s|
    ensures j < |s| ==> s[j] == '&'
    ensures forall k :: i <= k < j ==> s[k] != '&'
    decreases |s| - i
  {
    if i == |s| || s[i] == '&' then i else ValueEnd(s, i + 1)
  }

  /** `re.sub(r"[?&]sslmode=[^&]*", "", s)`: left to right, non-overlapping. */
  function RemoveSsl(s: string): (r: string)
    ensures |r| <= |s|
    decreases |s|
  {
    if s == [] then []
    else if Separator(s[0]) && StartsWith(s[1..], SslKey) then RemoveSsl(s[ValueEnd(s, 1 + |SslKey|)..])
    else [s[0]] + RemoveSsl(s[1..])
  }

  /** Swaps a leading `postgresql://` for `scheme`, as `replace(..., 1)` after `startswith` does. */
  function WithDriver(u: string, scheme: string): (r: string)
    ensures StartsWith(u, PlainScheme) ==> StartsWith(r, scheme) && r[|scheme|..] == u[|PlainScheme|..]
    ensures !StartsWith(u, PlainScheme) ==> r == u
  {
    if StartsWith(u, PlainScheme) then scheme + u[|PlainScheme|..] else u
  }

  /** `get_database_url(async_mode)` as written. */
  function DatabaseUrl(databaseUrl: Option<string>, asyncMode: bool): (r: Result<string, ConfigError>)
    ensures r.Err? <==> databaseUrl.None? || databaseUrl.value == []
    ensures r.Ok? && StartsWith(databaseUrl.value, PlainScheme) ==>
      StartsWith(r.value, if asyncMode then AsyncScheme else SyncScheme)
    ensures r.Ok? && !asyncMode ==> r.value == WithDriver(databaseUrl.value, SyncScheme)
    ensures r.Ok? && asyncMode && !HasSsl(WithDriver(databaseUrl.value, AsyncScheme)) ==>
      r.value == WithDriver(databaseUrl.value, AsyncScheme)
  {
    if databaseUrl.None? || databaseUrl.value == [] then Err(NotConfigured)
    else if !asyncMode then Ok(WithDriver(databaseUrl.value, SyncScheme))
    else
      var u := WithDriver(databaseUrl.value, AsyncScheme);
      if HasSsl(u) then
        SchemeSurvives(u);
        Ok(RStripChars(RemoveSsl(u), {'?', '&'}))
      else Ok(u)
  }

  // ------------------------------------------------------- the ssl removal

  /** After a removal what is left is empty or starts a new parameter. */
  lemma {:induction false} AmpFirst(t: string)
    requires t == [] || t[0] == '&'
    ensures RemoveSsl(t) == [] || RemoveSsl(t)[0] == '&'
    decreases |t|
  {
    if t != [] && Separator(t[0]) && StartsWith(t[1..], SslKey) {
      AmpFirst(t[ValueEnd(t, 1 + |SslKey|)..]);
    }
  }

  /** A prefix free of `&` that the input does not start with is not made up by the removal. */
  lemma {:induction false} NoNewPrefix(u: string, w: string)
    requires w != [] && '&' !in w && !StartsWith(u, w)
    ensures !StartsWith(RemoveSsl(u), w)
    decreases |u|
  {
    if u != [] {
      if Separator(u[0]) && StartsWith(u[1..], SslKey) {
        AmpFirst(u[ValueEnd(u, 1 + |SslKey|)..]);
        assert w[0] != '&';
      } else if u[0] == w[0] && |w| > 1 {
        assert w == [w[0]] + w[1..] && u == [u[0]] + u[1..];
        NoNewPrefix(u[1..], w[1..]);
        assert RemoveSsl(u) == [u[0]] + RemoveSsl(u[1..]);
      }
    }
  }

  /** The removal leaves no `[?&]sslmode=` behind. */
  lemma {:induction false} NoSslLeft(s: string)
    ensures !HasSsl(RemoveSsl(s))
    decreases |s|
  {
    if s != [] {
      if Separator(s[0]) && StartsWith(s[1..], SslKey) {
        NoSslLeft(s[ValueEnd(s, 1 + |SslKey|)..]);
      } else {
        var rest := RemoveSsl(s[1..]);
        var r := [s[0]] + rest;
        NoSslLeft(s[1..]);
        if Separator(s[0]) {
          NoNewPrefix(s[1..], SslKey);
        }
        forall i: nat | i < |r| ensures !SslAt(r, i) {
          if i > 0 {
            assert r[i..] == rest[i - 1..];
            assert !SslAt(rest, i - 1);
          } else {
            assert r[1..] == rest;
          }
        }
      }
    }
  }

  /** A URL without an `sslmode` parameter is left as it is. */
  lemma {:induction false} RemoveSslClean(s: string)
    requires !HasSsl(s)
    ensures RemoveSsl(s) == s
    decreases |s|
  {
    if s != [] {
      assert !SslAt(s, 0);
      forall i: nat | i < |s[1..]| ensures !SslAt(s[1..], i) {
        assert !SslAt(s, i + 1);
        assert s[1..][i + 1..] == s[i + 2..];
      }
      RemoveSslClean(s[1..]);
    }
  }

  /** Characters before the first `?` or `&` are never touched. */
  lemma {:induction false} RemoveSslKeepsPrefix(p: string, s: string)
    requires forall k :: 0 <= k < |p| ==> !Separator(p[k])
    ensures RemoveSsl(p + s) == p + RemoveSsl(s)
    decreases |p|
  {
    if p != [] {
      assert (p + s)[1..] == p[1..] + s;
      RemoveSslKeepsPrefix(p[1..], s);
    } else {
      assert p + s == s;
    }
  }

  /** A dropped trailing `?` or `&` never reaches the scheme, which ends in `/`. */
  lemma SchemeSurvives(u: string)
    ensures StartsWith(u, AsyncScheme) ==> StartsWith(RStripChars(RemoveSsl(u), {'?', '&'}), AsyncScheme)
  {
    if StartsWith(u, AsyncScheme) {
      var rest := u[|AsyncScheme|..];
      assert u == AsyncScheme + rest;
      RemoveSslKeepsPrefix(AsyncScheme, rest);
      assert AsyncScheme[|AsyncScheme| - 1] == '/';
      RStripKeepsPrefix(AsyncScheme, RemoveSsl(rest), {'?', '&'});
    }
  }

  /** Stripping trailing characters never reaches into a prefix that ends in another character. */
  lemma RStripKeepsPrefix(p: string, x: string, chars: set<char>)
    requires p != [] && p[|p| - 1] !in chars
    ensures StartsWith(RStripChars(p + x, chars), p)
  {
    var s := p + x;
    var t := RStripChars(s, chars);
    assert s[|p| - 1] == p[|p| - 1];
    assert |t| >= |p|;
    assert t[..|p|] == s[..|p|] == p;
  }

  /** In async mode the URL handed to asyncpg never carries `sslmode`. */
  lemma AsyncUrlHasNoSsl(databaseUrl: Option<string>)
    requires DatabaseUrl(databaseUrl, true).Ok?
    ensures !HasSsl(DatabaseUrl(databaseUrl, true).value)
  {
    var u := WithDriver(databaseUrl.value, AsyncScheme);
    if HasSsl(u) {
      var r := RemoveSsl(u);
      NoSslLeft(u);
      var t := RStripChars(r, {'?', '&'});
      assert t == r[..|t|];
      forall i: nat | SslAt(t, i) ensures SslAt(r, i) {
        assert t[i + 1..] <= r[i + 1..];
      }
    }
  }

  // ----------------------------------------------- a lost query separator

  /** The query parameters of a URL: what follows the first `?`, split on `&`. */
  function QueryParams(u: string): seq<string> {
    var q := IndexOfSep(u);
    if q == |u| then [] else Split(u[q + 1..], '&')
  }

  /** Index of the first `?`, or `|u|`. */
  function IndexOfSep(u: string): (q: nat)
    ensures q <= |u| && (q < |u| ==> u[q] == '?')
    ensures forall k :: 0 <= k < q ==> u[k] != '?'
  {
    if u == [] then 0 else if u[0] == '?' then 0 else IndexOfSep(u[1..]) + 1
  }

  /** A URL whose first parameter is `sslmode`, followed by one more parameter. */
  function SslFirst(base: string, value: string, param: string): string {
    base + "?" + SslKey + value + "&" + param
  }

  /** What `SslFirst` asks of its pieces: a base without separators, and a second parameter other than `sslmode`. */
  predicate SslFirstShape(base: string, value: string, param: string) {
    (forall k :: 0 <= k < |base| ==> !Separator(base[k]))
    && '&' !in value
    && param != [] && (forall k :: 0 <= k < |param| ==> !Separator(param[k])) && !StartsWith(param, SslKey)
  }

  /** Such a URL carries the two parameters. */
  lemma SslFirstParams(base: string, value: string, param: string)
    requires SslFirstShape(base, value, param)
    ensures QueryParams(SslFirst(base, value, param)) == [SslKey + value, param]
  {
    var q := SslKey + value + "&" + param;
    assert SslFirst(base, value, param) == base + "?" + q;
    ParamsAfterBase(base, q);
    assert '&' !in SslKey;
    assert '&' !in SslKey + value;
    assert q == (SslKey + value) + ("&" + param);
    SplitPrefix(SslKey + value, "&" + param, '&');
    assert ("&" + param)[1..] == param;
    assert '&' !in param by {
      forall k | 0 <= k < |param| ensures param[k] != '&' { assert !Separator(param[k]); }
    }
    SplitPlain(param, '&');
  }

  /** The removal cuts `?sslmode=<value>` and keeps `&<param>`. */
  lemma SslFirstRemoval(value: string, param: string)
    requires '&' !in value && param != [] && !StartsWith(param, SslKey)
    requires forall k :: 0 <= k < |param| ==> !Separator(param[k])
    ensures RemoveSsl("?" + SslKey + value + "&" + param) == "&" + param
  {
    var tail := "?" + SslKey + value + "&" + param;
    var e := 1 + |SslKey| + |value|;
    SslValueAt(tail, value, "&" + param);
    RemoveAtStart(tail, e);
    KeptParam(param);
  }

  /** `?sslmode=<value>&...`: the pattern at the head, its value ending at the `&`. */
  lemma SslValueAt(tail: string, value: string, rest: string)
    requires '&' !in value && rest != [] && rest[0] == '&' && tail == "?" + SslKey + value + rest
    ensures SslAt(tail, 0) && ValueEnd(tail, 1 + |SslKey|) == 1 + |SslKey| + |value|
    ensures tail[1 + |SslKey| + |value|..] == rest
  {
    assert tail[1..] == SslKey + (value + rest);
    ValueEndAt(tail, 1 + |SslKey|, value);
  }

  /** A pattern at the head is cut up to the end of its value. */
  lemma RemoveAtStart(s: string, e: nat)
    requires SslAt(s, 0) && e == ValueEnd(s, 1 + |SslKey|)
    ensures RemoveSsl(s) == RemoveSsl(s[e..])
  {
  }

  /** A plain parameter behind an `&` survives the removal. */
  lemma KeptParam(param: string)
    requires param != [] && !StartsWith(param, SslKey)
    requires forall k :: 0 <= k < |param| ==> !Separator(param[k])
    ensures RemoveSsl("&" + param) == "&" + param
  {
    RemoveSslKeepsPrefix(param, []);
    assert param + [] == param;
    assert ("&" + param)[1..] == param;
    assert !SslAt("&" + param, 0);
  }

  /** The value of a parameter runs up to the `&` that follows it. */
  lemma ValueEndAt(s: string, i: nat, value: string)
    requires '&' !in value && i + |value| < |s| && s[i..i + |value|] == value && s[i + |value|] == '&'
    ensures ValueEnd(s, i) == i + |value|
  {
    forall k | i <= k < i + |value| ensures s[k] != '&' {
      assert s[k] == value[k - i];
    }
  }

  /** The base with its scheme swapped for asyncpg's. */
  function AsyncBase(base: string): string
    requires StartsWith(base, PlainScheme)
  {
    AsyncScheme + base[|PlainScheme|..]
  }

  /** Swapping the scheme keeps the shape of the URL. */
  lemma DriverOfSslFirst(base: string, value: string, param: string)
    requires StartsWith(base, PlainScheme) && SslFirstShape(base, value, param)
    ensures WithDriver(SslFirst(base, value, param), AsyncScheme) == SslFirst(AsyncBase(base), value, param)
    ensures SslFirstShape(AsyncBase(base), value, param)
  {
    var u := SslFirst(base, value, param);
    assert u[..|PlainScheme|] == base[..|PlainScheme|];
    assert u[|PlainScheme|..] == base[|PlainScheme|..] + "?" + SslKey + value + "&" + param;
    var b := AsyncBase(base);
    forall k | 0 <= k < |b| ensures !Separator(b[k]) {
      if k >= |AsyncScheme| { assert b[k] == base[k - |AsyncScheme| + |PlainScheme|]; }
    }
  }

  /** The written removal on such a URL drops `?sslmode=<value>` and keeps `&<param>`. */
  lemma RemovalOfSslFirst(b: string, value: string, param: string)
    requires SslFirstShape(b, value, param)
    ensures HasSsl(SslFirst(b, value, param))
    ensures RemoveSsl(SslFirst(b, value, param)) == b + "&" + param
  {
    var tail := "?" + SslKey + value + "&" + param;
    var a := SslFirst(b, value, param);
    assert a == b + tail;
    assert SslAt(a, |b|) by {
      assert a[|b|] == '?';
      assert a[|b| + 1..] == SslKey + value + "&" + param;
    }
    RemoveSslKeepsPrefix(b, tail);
    SslFirstRemoval(value, param);
  }

  /** Nothing is stripped from a URL ending in a plain parameter, and no `?` is left in it. */
  lemma GluedUrl(b: string, param: string)
    requires (forall k :: 0 <= k < |b| ==> !Separator(b[k]))
    requires param != [] && (forall k :: 0 <= k < |param| ==> !Separator(param[k]))
    ensures RStripChars(b + "&" + param, {'?', '&'}) == b + "&" + param
    ensures IndexOfSep(b + "&" + param) == |b + "&" + param|
  {
    var w := b + "&" + param;
    assert w[|w| - 1] == param[|param| - 1];
    assert !Separator(param[|param| - 1]);
    forall k | 0 <= k < |w| ensures w[k] != '?' {
      if k > |b| { assert w[k] == param[k - |b| - 1]; }
    }
  }

  /**
   * When `sslmode` comes first and other parameters follow, the written
   * rewrite removes the `?` with it: the remaining parameter is glued to
   * the database name and the URL is left without a query.
   */
  lemma SeparatorLost(base: string, value: string, param: string)
    requires StartsWith(base, PlainScheme) && SslFirstShape(base, value, param)
    ensures QueryParams(SslFirst(base, value, param)) == [SslKey + value, param]
    ensures DatabaseUrl(Some(SslFirst(base, value, param)), true) == Ok(AsyncBase(base) + "&" + param)
    ensures QueryParams(AsyncBase(base) + "&" + param) == []
  {
    SslFirstParams(base, value, param);
    DriverOfSslFirst(base, value, param);
    RemovalOfSslFirst(AsyncBase(base), value, param);
    GluedUrl(AsyncBase(base), param);
  }

  function IsSslParam(p: string): bool { StartsWith(p, SslKey) }
  function KeepParam(p: string): bool { !IsSslParam(p) }

  /**
   * The rewrite with the separator kept: the query string is split into
   * parameters, the `sslmode` ones are dropped, and the rest are joined
   * back behind a `?`.
   */
  function RemoveSslParams(u: string): (r: string)
    ensures IndexOfSep(u) == |u| ==> r == u
  {
    var q := IndexOfSep(u);
    if q == |u| then u
    else
      var kept := Filter(Split(u[q + 1..], '&'), KeepParam);
      if kept == [] then u[..q] else u[..q] + "?" + Join(kept, '&')
  }

  /** `get_database_url` with the corrected rewrite in async mode. */
  function DatabaseUrlFixed(databaseUrl: Option<string>, asyncMode: bool): (r: Result<string, ConfigError>)
    ensures r.Err? <==> databaseUrl.None? || databaseUrl.value == []
    ensures r.Ok? && !asyncMode ==> r == DatabaseUrl(databaseUrl, asyncMode)
  {
    if databaseUrl.None? || databaseUrl.value == [] then Err(NotConfigured)
    else if !asyncMode then Ok(WithDriver(databaseUrl.value, SyncScheme))
    else
      var u := WithDriver(databaseUrl.value, AsyncScheme);
      if HasSsl(u) then Ok(RemoveSslParams(u)) else Ok(u)
  }

  /** The corrected rewrite keeps every other parameter, in order, behind the `?`. */
  lemma {:induction false} RemoveSslParamsKeeps(u: string)
    requires IndexOfSep(u) < |u|
    ensures QueryParams(RemoveSslParams(u)) == Filter(QueryParams(u), KeepParam)
  {
    var q := IndexOfSep(u);
    var kept := Filter(Split(u[q + 1..], '&'), KeepParam);
    var base := u[..q];
    assert forall k :: 0 <= k < |base| ==> base[k] != '?';
    if kept == [] {
      assert RemoveSslParams(u) == base;
      NoParams(base);
    } else {
      assert RemoveSslParams(u) == base + "?" + Join(kept, '&');
      ParamsAfterBase(base, Join(kept, '&'));
      JoinSplit(kept, '&');
    }
  }

  /** A URL without `?` has no parameters. */
  lemma NoParams(base: string)
    requires forall k :: 0 <= k < |base| ==> base[k] != '?'
    ensures QueryParams(base) == []
  {
    assert IndexOfSep(base) == |base|;
  }

  /** Behind a `?`-free base, the parameters are what follows the `?`, split on `&`. */
  lemma ParamsAfterBase(base: string, rest: string)
    requires forall k :: 0 <= k < |base| ==> base[k] != '?'
    ensures QueryParams(base + "?" + rest) == Split(rest, '&')
  {
    BaseSep(base, rest);
    assert (base + "?" + rest)[|base| + 1..] == rest;
  }

  /** The first `?` after a `?`-free base is the one right behind it. */
  lemma {:induction false} BaseSep(base: string, rest: string)
    requires forall k :: 0 <= k < |base| ==> base[k] != '?'
    ensures IndexOfSep(base + "?" + rest) == |base|
    decreases |base|
  {
    if base != [] {
      assert (base + "?" + rest)[1..] == base[1..] + "?" + rest;
      BaseSep(base[1..], rest);
    }
  }

  /** Both rewrites agree on every URL without an `sslmode` parameter. */
  lemma FixedAgreesWithoutSsl(databaseUrl: Option<string>, asyncMode: bool)
    requires databaseUrl.Some? ==> !HasSsl(WithDriver(databaseUrl.value, AsyncScheme))
    ensures DatabaseUrlFixed(databaseUrl, asyncMode) == DatabaseUrl(databaseUrl, asyncMode)
  {
  }

  /** On the same URLs, the corrected rewrite keeps the other parameter behind the `?`. */
  lemma SeparatorKept(base: string, value: string, param: string)
    requires StartsWith(base, PlainScheme) && SslFirstShape(base, value, param)
    ensures DatabaseUrlFixed(Some(SslFirst(base, value, param)), true) == Ok(AsyncBase(base) + "?" + param)
  {
    DriverOfSslFirst(base, value, param);
    RemovalOfSslFirst(AsyncBase(base), value, param);
    ParamsOfSslFirst(AsyncBase(base), value, param);
  }

  /** The corrected rewrite on such a URL. */
  lemma ParamsOfSslFirst(b: string, value: string, param: string)
    requires SslFirstShape(b, value, param)
    ensures RemoveSslParams(SslFirst(b, value, param)) == b + "?" + param
  {
    var a := SslFirst(b, value, param);
    var q := SslKey + value + "&" + param;
    SslFirstParams(b, value, param);
    BaseSep(b, q);
    assert a == b + "?" + q;
    assert a[..|b|] == b;
    assert a[|b| + 1..] == q;
    KeepsSecond(SslKey + value, param);
    assert Join([param], '&') == param;
  }

  /** Of an `sslmode` parameter and another one, only the other is kept. */
  lemma KeepsSecond(ssl: string, param: string)
    requires StartsWith(ssl, SslKey) && !StartsWith(param, SslKey)
    ensures Filter([ssl, param], KeepParam) == [param]
  {
    assert [ssl, param][1..] == [param];
    assert [param][1..] == [];
  }
}
