/** Splitting a URL into its components, and putting it together again (sections 3 and 5.3 of RFC 3986). */
module UrlParse {
  datatype Option<T> = None | Some(value: T)

  /** host is present when there is an authority; user and password need one. */
  datatype Url = Url(scheme: Option<string>, user: Option<string>, password: Option<string>, host: Option<string>,
                     path: string, query: Option<string>, fragment: Option<string>)

  // ----- putting together -----

  function SchemeText(scheme: Option<string>): string { if scheme.Some? then scheme.value + ":" else "" }

  function UserText(user: string, password: Option<string>): string {
    if password.None? then user + "@" else user + (":" + (password.value + "@"))
  }

  function AuthorityText(user: Option<string>, password: Option<string>, host: Option<string>): string {
    if host.None? then ""
    else if user.None? then "//" + host.value
    else "//" + (UserText(user.value, password) + host.value)
  }

  function QueryText(query: Option<string>): string { if query.Some? then "?" + query.value else "" }

  function FragmentText(fragment: Option<string>): string { if fragment.Some? then "#" + fragment.value else "" }

  function Compose(u: Url): string {
    SchemeText(u.scheme)
    + (AuthorityText(u.user, u.password, u.host) + (u.path + (QueryText(u.query) + FragmentText(u.fragment))))
  }

  // ----- splitting -----

  /** How many characters come before the first of stops. */
  function Span(s: string, stops: set<char>): (n: nat)
    ensures n <= |s|
  {
    if |s| == 0 || s[0] in stops then 0 else 1 + Span(s[1..], stops)
  }

  lemma {:induction false} SpanEnds(s: string, stops: set<char>)
    ensures var n := Span(s, stops);
            (n < |s| ==> s[n] in stops) && forall k :: 0 <= k < n ==> s[k] !in stops
  {
    if |s| > 0 && s[0] !in stops {
      SpanEnds(s[1..], stops);
      var n := Span(s[1..], stops);
      assert forall k :: 1 <= k < n + 1 ==> s[k] == s[1..][k - 1];
    }
  }

  function ParseFragment(s: string): Option<string> { if |s| > 0 && s[0] == '#' then Some(s[1..]) else None }

  function ParseQuery(s: string): Option<string> {
    if |s| > 0 && s[0] == '?' then Some(s[1..1 + Span(s[1..], {'#'})]) else None
  }

  function AfterQuery(s: string): string {
    if |s| > 0 && s[0] == '?' then s[1 + Span(s[1..], {'#'})..] else s
  }

  predicate HasAuthority(s: string) { |s| >= 2 && s[0] == '/' && s[1] == '/' }

  function AuthorityLength(s: string): nat
    requires HasAuthority(s)
  {
    Span(s[2..], {'/', '?', '#'})
  }

  /** The authority at the front of a string, and where what follows it starts. */
  datatype Authority = Authority(user: Option<string>, password: Option<string>, host: Option<string>, length: nat)

  function ParseAuthority(s: string): (a: Authority)
    ensures a.length <= |s|
  {
    if HasAuthority(s) then
      var n := AuthorityLength(s);
      var a := s[2..2 + n];
      var at := Span(a, {'@'});
      if at < |a| then
        var colon := Span(a[..at], {':'});
        Authority(Some(a[..colon]), if colon < at then Some(a[colon + 1..at]) else None, Some(a[at + 1..]), 2 + n)
      else Authority(None, None, Some(a), 2 + n)
    else Authority(None, None, None, 0)
  }

  /** Everything after the scheme. */
  function ParseRest(scheme: Option<string>, s: string): Url {
    var a := ParseAuthority(s);
    var tail := s[a.length..];
    var p := Span(tail, {'?', '#'});
    Url(scheme, a.user, a.password, a.host, tail[..p], ParseQuery(tail[p..]), ParseFragment(AfterQuery(tail[p..])))
  }

  predicate StartsWith(s: string, chars: set<char>) { |s| == 0 || s[0] in chars }

  predicate HasScheme(s: string) {
    var n := Span(s, {':', '/', '?', '#'});
    n < |s| && s[n] == ':'
  }

  function Parse(s: string): Url {
    var n := Span(s, {':', '/', '?', '#'});
    if HasScheme(s) then ParseRest(Some(s[..n]), s[n + 1..]) else ParseRest(None, s)
  }

  // ----- which components a URL can have -----

  predicate Free(s: string, stops: set<char>) { forall c :: c in s ==> c !in stops }

  predicate Clean(o: Option<string>, stops: set<char>) { o.Some? ==> Free(o.value, stops) }

  /** Each component is free of the delimiters that would end it or the ones before it. */
  predicate Wellformed(u: Url) {
    && Clean(u.scheme, {':', '/', '?', '#'}) && Clean(u.user, {':', '@', '/', '?', '#'})
    && Clean(u.password, {'@', '/', '?', '#'}) && Clean(u.host, {'/', '?', '#'})
    && Free(u.path, {'?', '#'}) && Clean(u.query, {'#'})
    && (u.password.Some? ==> u.user.Some?) && (u.user.Some? ==> u.host.Some?)
    // Without user information the host cannot contain an @.
    && (u.host.Some? && u.user.None? ==> Free(u.host.value, {'@'}))
    // After an authority the path is empty or starts with a slash; without one it does not start with two.
    && (if u.host.Some? then |u.path| == 0 || u.path[0] == '/' else !HasAuthority(u.path))
    // A path at the very start must not look like a scheme.
    && (u.scheme.None? && u.host.None? ==> !HasScheme(u.path))
  }

  // ----- splitting and putting together again -----

  lemma FragmentRecomposes(s: string)
    requires StartsWith(s, {'#'})
    ensures s == FragmentText(ParseFragment(s))
  {
    if |s| > 0 {
      assert s == [s[0]] + s[1..];
    }
  }

  lemma QueryRecomposes(s: string)
    requires StartsWith(s, {'?'}) && |s| > 0
    ensures s == QueryText(ParseQuery(s)) + AfterQuery(s)
    ensures Clean(ParseQuery(s), {'#'}) && StartsWith(AfterQuery(s), {'#'})
  {
    var n := Span(s[1..], {'#'});
    FreeBeforeSpan(s[1..], {'#'});
    hide Free, Span;
    assert s[1..][..n] == s[1..1 + n];
    assert n < |s[1..]| ==> s[1..][n] == s[1 + n];
    assert s == ("?" + s[1..1 + n]) + s[1 + n..];
  }

  lemma Separators(s: string)
    ensures StartsWith(s, {'?', '#'}) ==> s == QueryText(ParseQuery(s)) + FragmentText(ParseFragment(AfterQuery(s)))
    ensures Clean(ParseQuery(s), {'#'})
  {
    if |s| > 0 && s[0] == '?' {
      QueryRecomposes(s);
      hide ParseQuery, AfterQuery, Free;
      FragmentRecomposes(AfterQuery(s));
    } else if StartsWith(s, {'?', '#'}) {
      FragmentRecomposes(s);
      assert "" + s == s;
    }
  }

  lemma PathAndRest(s: string)
    ensures var p := Span(s, {'?', '#'});
            var rest := s[p..];
            && s == s[..p] + (QueryText(ParseQuery(rest)) + FragmentText(ParseFragment(AfterQuery(rest))))
            && Free(s[..p], {'?', '#'}) && Clean(ParseQuery(rest), {'#'})
  {
    hide Free, Span, QueryText, FragmentText, ParseQuery, ParseFragment, AfterQuery;
    var p := Span(s, {'?', '#'});
    FreeBeforeSpan(s, {'?', '#'});
    Separators(s[p..]);
    assert s == s[..p] + s[p..];
  }

  lemma FreeSlice(s: string, stops: set<char>, i: nat, j: nat)
    requires Free(s, stops) && i <= j <= |s|
    ensures Free(s[i..j], stops)
  {
  }

  lemma FreeBeforeSpan(s: string, stops: set<char>)
    ensures Free(s[..Span(s, stops)], stops)
    ensures Span(s, stops) == |s| ==> Free(s, stops)
    ensures Span(s, stops) < |s| ==> s[Span(s, stops)] in stops
  {
    hide Span;
    SpanEnds(s, stops);
  }

  lemma FreeOfBoth(s: string, a: set<char>, b: set<char>)
    requires Free(s, a) && Free(s, b)
    ensures Free(s, a + b)
  {
  }

  /** The user information of an authority that has one. */
  lemma UserInfoText(info: string)
    ensures var colon := Span(info, {':'});
            info + "@" == UserText(info[..colon], if colon < |info| then Some(info[colon + 1..]) else None)
  {
    var colon := Span(info, {':'});
    FreeBeforeSpan(info, {':'});
    hide Free, Span;
    if colon < |info| {
      SplitAt(info, colon);
      Regroup(info[..colon], [info[colon]], info[colon + 1..], "@");
    } else {
      assert info[..colon] == info;
    }
  }

  lemma Regroup(a: string, b: string, c: string, d: string)
    ensures (a + (b + c)) + d == a + (b + (c + d))
  {
  }

  lemma SplitAt(s: string, i: nat)
    requires i < |s|
    ensures s == s[..i] + ([s[i]] + s[i + 1..])
  {
  }

  lemma UserInfoFree(info: string)
    requires Free(info, {'/', '?', '#'}) && Free(info, {'@'})
    ensures var colon := Span(info, {':'});
            && Free(info[..colon], {':', '@', '/', '?', '#'})
            && (colon < |info| ==> Free(info[colon + 1..], {'@', '/', '?', '#'}))
  {
    hide Free, Span;
    var colon := Span(info, {':'});
    FreeBeforeSpan(info, {':'});
    FreeOfBoth(info, {'@'}, {'/', '?', '#'});
    assert {'@'} + {'/', '?', '#'} == {'@', '/', '?', '#'};
    FreeSlice(info, {'@', '/', '?', '#'}, 0, colon);
    assert info[0..colon] == info[..colon];
    FreeOfBoth(info[..colon], {':'}, {'@', '/', '?', '#'});
    assert {':'} + {'@', '/', '?', '#'} == {':', '@', '/', '?', '#'};
    if colon < |info| {
      FreeSlice(info, {'@', '/', '?', '#'}, colon + 1, |info|);
      assert info[colon + 1..|info|] == info[colon + 1..];
    }
  }

  /** An authority with an @ in it is its user information, the @, and the host. */
  lemma AuthorityParts(a: string)
    requires Span(a, {'@'}) < |a|
    ensures var at := Span(a, {'@'});
            var colon := Span(a[..at], {':'});
            a == UserText(a[..colon], if colon < at then Some(a[colon + 1..at]) else None) + a[at + 1..]
  {
    var at := Span(a, {'@'});
    FreeBeforeSpan(a, {'@'});
    hide Free, UserText, Span;
    var info := a[..at];
    var colon := Span(info, {':'});
    UserInfoText(info);
    assert info[..colon] == a[..colon];
    assert colon < at ==> info[colon + 1..] == a[colon + 1..at];
    SplitAt(a, at);
    assert a == (info + "@") + a[at + 1..];
  }

  lemma AuthorityPartsFree(a: string)
    requires Free(a, {'/', '?', '#'})
    ensures var at := Span(a, {'@'});
            if at < |a| then
              var colon := Span(a[..at], {':'});
              && Free(a[..colon], {':', '@', '/', '?', '#'})
              && (colon < at ==> Free(a[colon + 1..at], {'@', '/', '?', '#'}))
              && Free(a[at + 1..], {'/', '?', '#'})
            else Free(a, {'@'})
  {
    hide Free, Span;
    var at := Span(a, {'@'});
    FreeBeforeSpan(a, {'@'});
    if at < |a| {
      var info := a[..at];
      var colon := Span(info, {':'});
      assert info == a[0..at];
      FreeSlice(a, {'/', '?', '#'}, 0, at);
      FreeSlice(a, {'/', '?', '#'}, at + 1, |a|);
      assert a[at + 1..|a|] == a[at + 1..];
      UserInfoFree(info);
      assert info[..colon] == a[..colon];
      assert colon < at ==> info[colon + 1..] == a[colon + 1..at];
    }
  }

  /** Everything after the scheme is recomposed from its components. */
  lemma RestRecomposes(scheme: Option<string>, s: string)
    ensures var u := ParseRest(scheme, s);
            && s == AuthorityText(u.user, u.password, u.host)
                 + (u.path + (QueryText(u.query) + FragmentText(u.fragment)))
            && u.scheme == scheme
  {
    hide Free, QueryText, FragmentText, ParseQuery, ParseFragment, AfterQuery, Span, AuthorityText, ParseAuthority;
    AuthorityRecomposes(s);
    PathAndRest(s[ParseAuthority(s).length..]);
  }

  lemma AuthorityRecomposes(s: string)
    ensures var a := ParseAuthority(s); s == AuthorityText(a.user, a.password, a.host) + s[a.length..]
  {
    hide Free, Span, AuthorityText;
    if HasAuthority(s) {
      var n := AuthorityLength(s);
      AuthorityJoined(s[2..2 + n]);
      TwoSlashes(s, n);
    } else {
      assert AuthorityText(None, None, None) == "" by { NoHost(); }
      assert "" + s == s == s[0..];
    }
  }

  lemma AuthorityJoined(a: string)
    ensures var at := Span(a, {'@'});
            var colon := Span(a[..at], {':'});
            "//" + a ==
            if at < |a| then AuthorityText(Some(a[..colon]), if colon < at then Some(a[colon + 1..at]) else None,
              Some(a[at + 1..]))
            else AuthorityText(None, None, Some(a))
  {
    hide Free, UserText, Span;
    if Span(a, {'@'}) < |a| {
      AuthorityParts(a);
    }
  }

  lemma NoHost()
    ensures AuthorityText(None, None, None) == ""
  {
  }

  lemma TwoSlashes(s: string, n: nat)
    requires HasAuthority(s) && 2 + n <= |s|
    ensures s == "//" + s[2..2 + n] + s[2 + n..]
  {
  }

  /** Recomposing the components of any string gives the string. */
  lemma {:induction false} ComposeParse(s: string)
    ensures Compose(Parse(s)) == s
  {
    hide ParseRest, AuthorityText, QueryText, FragmentText;
    var n := Span(s, {':', '/', '?', '#'});
    if HasScheme(s) {
      RestRecomposes(Some(s[..n]), s[n + 1..]);
      assert s == s[..n] + ":" + s[n + 1..];
    } else {
      RestRecomposes(None, s);
      assert s == "" + s;
    }
  }

  // ----- parsing what was put together -----

  lemma {:induction false} SpanOfConcat(a: string, rest: string, stops: set<char>)
    requires Free(a, stops) && (|rest| == 0 || rest[0] in stops)
    ensures Span(a + rest, stops) == |a|
  {
    if |a| == 0 {
      assert a + rest == rest;
    } else {
      assert a[0] in a;
      assert Free(a[1..], stops);
      SpanOfConcat(a[1..], rest, stops);
      assert (a + rest)[1..] == a[1..] + rest;
    }
  }

  lemma QueryBack(query: Option<string>, fragment: Option<string>)
    requires Clean(query, {'#'})
    ensures var rest := QueryText(query) + FragmentText(fragment);
            ParseQuery(rest) == query && ParseFragment(AfterQuery(rest)) == fragment && StartsWith(rest, {'?', '#'})
  {
    var f := FragmentText(fragment);
    var rest := QueryText(query) + f;
    if query.Some? {
      assert rest[1..] == query.value + f;
      SpanOfConcat(query.value, f, {'#'});
      assert rest[1..1 + |query.value|] == query.value;
      assert rest[1 + |query.value|..] == f;
    } else {
      assert rest == f;
    }
    if fragment.Some? {
      assert f[1..] == fragment.value;
    }
  }

  lemma PathBack(path: string, query: Option<string>, fragment: Option<string>)
    requires Free(path, {'?', '#'}) && Clean(query, {'#'})
    ensures var s := path + (QueryText(query) + FragmentText(fragment));
            var p := Span(s, {'?', '#'});
            && s[..p] == path && ParseQuery(s[p..]) == query && ParseFragment(AfterQuery(s[p..])) == fragment
  {
    var rest := QueryText(query) + FragmentText(fragment);
    QueryBack(query, fragment);
    hide Free, QueryText, FragmentText, ParseQuery, ParseFragment, AfterQuery, Span;
    SpanOfConcat(path, rest, {'?', '#'});
    assert (path + rest)[..|path|] == path && (path + rest)[|path|..] == rest;
  }

  /** An authority with user information is split where it was joined. */
  lemma UserBack(user: string, password: Option<string>, host: string)
    requires Free(user, {':', '@', '/', '?', '#'}) && Clean(password, {'@', '/', '?', '#'})
      && Free(host, {'/', '?', '#'})
    ensures var a := UserText(user, password) + host;
            var at := Span(a, {'@'});
            var colon := Span(a[..at], {':'});
            && at < |a| && a[..colon] == user && a[at + 1..] == host && Free(a, {'/', '?', '#'})
            && password == if colon < at then Some(a[colon + 1..at]) else None
  {
    var tail := if password.Some? then ":" + password.value else "";
    var info := user + tail;
    var a := UserText(user, password) + host;
    JoinedInfo(user, password, host);
    InfoFree(user, password);
    AllFree(info, host);
    SpanOfConcat(info, "@" + host, {'@'});
    SpanOfConcat(user, tail, {':'});
    hide Free, Span, UserText;
    assert a[..|info|] == info;
    assert a[..|user|] == user;
    assert a[|info| + 1..] == host;
    if password.Some? {
      assert a[|user| + 1..|info|] == info[|user| + 1..] == password.value;
    }
  }

  lemma JoinedInfo(user: string, password: Option<string>, host: string)
    ensures var info := user + (if password.Some? then ":" + password.value else "");
            UserText(user, password) + host == info + ("@" + host)
  {
    if password.Some? {
      Regroup(user, ":", password.value, "@");
    } else {
      assert user + "" == user;
    }
  }

  lemma AllFree(info: string, host: string)
    requires Free(info, {'@', '/', '?', '#'}) && Free(host, {'/', '?', '#'})
    ensures Free(info, {'@'}) && Free(info + ("@" + host), {'/', '?', '#'})
  {
  }

  lemma InfoFree(user: string, password: Option<string>)
    requires Free(user, {':', '@', '/', '?', '#'}) && Clean(password, {'@', '/', '?', '#'})
    ensures Free(user + (if password.Some? then ":" + password.value else ""), {'@', '/', '?', '#'})
  {
  }

  lemma AuthorityBack(user: Option<string>, password: Option<string>, host: string, tail: string)
    requires Clean(user, {':', '@', '/', '?', '#'}) && Clean(password, {'@', '/', '?', '#'})
      && Free(host, {'/', '?', '#'})
    requires (password.Some? ==> user.Some?) && (user.None? ==> Free(host, {'@'})) && StartsWith(tail, {'/', '?', '#'})
    ensures var text := AuthorityText(user, password, Some(host));
            && ParseAuthority(text + tail) == Authority(user, password, Some(host), |text|)
            && (text + tail)[|text|..] == tail && |text| > 0 && text[0] == '/'
  {
    var a := if user.Some? then UserText(user.value, password) + host else host;
    if user.Some? {
      UserBack(user.value, password, host);
    } else {
      SpanOfConcat(host, "", {'@'});
      assert host + "" == host;
    }
    hide Free, UserText, Span, ParseAuthority, HasAuthority, AuthorityLength;
    SlashesBack(a, tail);
    assert AuthorityText(user, password, Some(host)) == "//" + a;
    AuthorityInside(("//" + a) + tail, a);
  }

  /** The authority between the slashes and the first delimiter behind them. */
  lemma AuthorityInside(s: string, a: string)
    requires HasAuthority(s) && AuthorityLength(s) == |a| && s[2..2 + |a|] == a
    ensures var at := Span(a, {'@'});
            ParseAuthority(s) ==
            if at < |a| then
              var colon := Span(a[..at], {':'});
              Authority(Some(a[..colon]), if colon < at then Some(a[colon + 1..at]) else None, Some(a[at + 1..]),
                2 + |a|)
            else Authority(None, None, Some(a), 2 + |a|)
  {
    hide Span, AuthorityLength;
  }

  lemma SlashesBack(a: string, tail: string)
    requires Free(a, {'/', '?', '#'}) && StartsWith(tail, {'/', '?', '#'})
    ensures var s := ("//" + a) + tail;
            HasAuthority(s) && AuthorityLength(s) == |a| && s[2..2 + |a|] == a && s[2 + |a|..] == tail
  {
    hide Free, Span;
    var s := ("//" + a) + tail;
    assert s[2..] == a + tail;
    SpanOfConcat(a, tail, {'/', '?', '#'});
  }

  /** Parsing behind the scheme gives back the components that were put together. */
  lemma RestBack(u: Url)
    requires Wellformed(u)
    ensures var tail := u.path + (QueryText(u.query) + FragmentText(u.fragment));
            var s := AuthorityText(u.user, u.password, u.host) + tail;
            ParseRest(u.scheme, s) == u && (u.scheme.None? ==> !HasScheme(s))
  {
    var text := AuthorityText(u.user, u.password, u.host);
    var tail := u.path + (QueryText(u.query) + FragmentText(u.fragment));
    PathBack(u.path, u.query, u.fragment);
    TailStart(u);
    hide Free, QueryText, FragmentText, ParseQuery, ParseFragment, AfterQuery, Span, HasScheme, ParseAuthority;
    if u.host.Some? {
      hide AuthorityText;
      AuthorityBack(u.user, u.password, u.host.value, tail);
      SlashIsNoScheme(text + tail);
    } else {
      assert text + tail == tail == tail[0..];
      NoAuthority(tail);
      if u.scheme.None? {
        QueryBack(u.query, u.fragment);
        NoSchemeBehind(u.path, QueryText(u.query) + FragmentText(u.fragment));
      }
    }
  }

  lemma NoAuthority(s: string)
    requires !HasAuthority(s)
    ensures ParseAuthority(s) == Authority(None, None, None, 0)
  {
  }

  lemma TailStart(u: Url)
    requires Wellformed(u)
    ensures var tail := u.path + (QueryText(u.query) + FragmentText(u.fragment));
            if u.host.Some? then StartsWith(tail, {'/', '?', '#'}) else !HasAuthority(tail)
  {
    hide Free;
  }

  lemma SlashIsNoScheme(s: string)
    requires |s| > 0 && s[0] == '/'
    ensures !HasScheme(s)
  {
  }

  /** Text that does not look like a scheme still does not when a query or fragment follows. */
  lemma {:induction false} NoSchemeBehind(path: string, rest: string)
    requires !HasScheme(path) && StartsWith(rest, {'?', '#'})
    ensures !HasScheme(path + rest)
  {
    if |path| == 0 {
      assert path + rest == rest;
    } else if path[0] !in {':', '/', '?', '#'} {
      assert HasScheme(path[1..]) ==> HasScheme(path);
      NoSchemeBehind(path[1..], rest);
      assert (path + rest)[1..] == path[1..] + rest;
    }
  }

  /** Any well-formed components are found again in the string put together from them. */
  lemma {:induction false} ParseCompose(u: Url)
    requires Wellformed(u)
    ensures Parse(Compose(u)) == u
  {
    RestBack(u);
    var rest := AuthorityText(u.user, u.password, u.host) + (u.path + (QueryText(u.query) + FragmentText(u.fragment)));
    hide ParseRest, AuthorityText, QueryText, FragmentText;
    if u.scheme.Some? {
      var scheme := u.scheme.value;
      assert Compose(u) == scheme + (":" + rest);
      SpanOfConcat(scheme, ":" + rest, {':', '/', '?', '#'});
      assert Compose(u)[..|scheme|] == scheme && Compose(u)[|scheme| + 1..] == rest;
    } else {
      assert Compose(u) == rest;
    }
  }

  /** What parsing finds is always well-formed. */
  lemma {:induction false} ParseWellformed(s: string)
    ensures Wellformed(Parse(s))
  {
    hide ParseRest;
    var n := Span(s, {':', '/', '?', '#'});
    FreeBeforeSpan(s, {':', '/', '?', '#'});
    hide Free, Span;
    if HasScheme(s) {
      RestWellformed(Some(s[..n]), s[n + 1..]);
    } else {
      RestWellformed(None, s);
    }
  }

  lemma RestWellformed(scheme: Option<string>, s: string)
    requires Clean(scheme, {':', '/', '?', '#'}) && (scheme.None? ==> !HasScheme(s))
    ensures Wellformed(ParseRest(scheme, s))
  {
    hide Free, ParseQuery, ParseFragment, AfterQuery, Span, HasScheme, ParseAuthority;
    AuthorityFree(s);
    PathFree(s[ParseAuthority(s).length..]);
    PathBehind(s);
    if ParseAuthority(s).host.None? && scheme.None? {
      PathNoScheme(s, Span(s, {'?', '#'}));
    }
  }

  lemma AuthorityFree(s: string)
    ensures var a := ParseAuthority(s);
            && Clean(a.user, {':', '@', '/', '?', '#'}) && Clean(a.password, {'@', '/', '?', '#'})
            && Clean(a.host, {'/', '?', '#'})
            && (a.password.Some? ==> a.user.Some?) && (a.user.Some? ==> a.host.Some?)
            && (a.host.Some? && a.user.None? ==> Free(a.host.value, {'@'}))
  {
    hide Free, UserText, Span;
    if HasAuthority(s) {
      var n := AuthorityLength(s);
      FreeBeforeSpan(s[2..], {'/', '?', '#'});
      assert s[2..][..n] == s[2..2 + n];
      AuthorityPartsFree(s[2..2 + n]);
    }
  }

  lemma PathFree(s: string)
    ensures var p := Span(s, {'?', '#'});
            Free(s[..p], {'?', '#'}) && Clean(ParseQuery(s[p..]), {'#'})
  {
    hide Free, Span, QueryText, FragmentText, ParseQuery, ParseFragment, AfterQuery;
    PathAndRest(s);
  }

  /** Behind an authority the path is empty or starts with a slash; otherwise it does not start with two. */
  lemma PathBehind(s: string)
    ensures var a := ParseAuthority(s);
            var tail := s[a.length..];
            var path := tail[..Span(tail, {'?', '#'})];
            if a.host.Some? then |path| == 0 || path[0] == '/' else tail == s && !HasAuthority(path)
  {
    hide Free, Span;
    if HasAuthority(s) {
      var n := AuthorityLength(s);
      FreeBeforeSpan(s[2..], {'/', '?', '#'});
      var tail := s[2 + n..];
      if Span(tail, {'?', '#'}) > 0 {
        FirstOfPath(tail);
        assert s[2..][n] == tail[0];
      }
    }
  }

  lemma FirstOfPath(s: string)
    requires Span(s, {'?', '#'}) > 0
    ensures |s| > 0 && s[0] != '?' && s[0] != '#'
  {
  }

  lemma PathNoScheme(s: string, p: nat)
    requires !HasScheme(s) && p == Span(s, {'?', '#'})
    ensures !HasScheme(s[..p])
  {
    if HasScheme(s[..p]) {
      var n := Span(s[..p], {':', '/', '?', '#'});
      FreeBeforeSpan(s[..p], {':', '/', '?', '#'});
      assert s == s[..p][..n] + s[n..];
      SpanOfConcat(s[..p][..n], s[n..], {':', '/', '?', '#'});
    }
  }

  // ----- the code -----

  /** A part of the source, or the absence of one. */
  datatype Part = Absent | Part(from: nat, to: nat)

  datatype Components = Components(scheme: Part, user: Part, password: Part, host: Part, path: Part, query: Part,
                                   fragment: Part,
                                   segmentPtr: nat, segmentEnd: nat)

  predicate Within(p: Part, from: nat, to: nat) { p.Part? ==> from <= p.from <= p.to <= to }

  function TextOf(s: string, p: Part): Option<string>
    requires Within(p, 0, |s|)
  {
    if p.Absent? then None else Some(s[p.from..p.to])
  }

  function End(p: Part, otherwise: nat): nat { if p.Absent? then otherwise else p.to }

  /** The parts are in order and do not overlap. */
  predicate Ordered(s: string, c: Components) {
    && c.path.Part?
    && var e0 := End(c.scheme, 0);
    && Within(c.scheme, 0, |s|) && Within(c.user, e0, |s|)
    && var e1 := End(c.user, e0);
    && Within(c.password, e1, |s|)
    && var e2 := End(c.password, e1);
    && Within(c.host, e2, |s|) && Within(c.path, End(c.host, e2), |s|)
    && Within(c.query, c.path.to, |s|) && Within(c.fragment, End(c.query, c.path.to), |s|)
  }

  function UrlOf(s: string, c: Components): Url
    requires Ordered(s, c)
  {
    Url(TextOf(s, c.scheme), TextOf(s, c.user), TextOf(s, c.password), TextOf(s, c.host),
        s[c.path.from..c.path.to], TextOf(s, c.query), TextOf(s, c.fragment))
  }

  /** Advance from i until a stop character or end. */
  method ScanTo(s: string, i: nat, end: nat, stops: set<char>) returns (j: nat)
    requires i <= end <= |s|
    ensures i <= j <= end && j - i == Span(s[i..end], stops) && (j < end ==> s[j] in stops)
  {
    j := i;
    while j < end && s[j] !in stops
      invariant i <= j <= end && Span(s[i..end], stops) == j - i + Span(s[j..end], stops)
    {
      assert s[j..end][1..] == s[j + 1..end];
      j := j + 1;
    }
  }

  /** The query and the fragment, from the end of the path on. */
  method ParseTail(s: string, from: nat) returns (query: Part, fragment: Part)
    requires from <= |s|
    ensures Within(query, from, |s|) && Within(fragment, End(query, from), |s|)
    ensures TextOf(s, query) == ParseQuery(s[from..]) && TextOf(s, fragment) == ParseFragment(AfterQuery(s[from..]))
  {
    hide Span;
    var i := from;
    query, fragment := Absent, Absent;
    ghost var rest := s[from..];
    if i < |s| && s[i] == '?' {
      var j := ScanTo(s, i + 1, |s|, {'#'});
      assert rest[1..] == s[i + 1..|s|];
      assert rest[1..1 + (j - (i + 1))] == s[i + 1..j];
      query := Part(i + 1, j);
      i := j;
    }
    assert AfterQuery(rest) == s[i..];
    if i < |s| && s[i] == '#' {
      fragment := Part(i + 1, |s|);
      assert s[i..][1..] == s[i + 1..|s|];
    }
  }

  /** The authority between its slashes and its end. */
  method SplitAuthority(s: string, from: nat, end: nat) returns (user: Part, password: Part, host: Part)
    requires from <= end <= |s|
    ensures Within(user, from, end) && Within(password, End(user, from), end)
    ensures host.Part? && Within(host, End(password, End(user, from)), end)
    ensures var a := s[from..end];
            var at := Span(a, {'@'});
            var colon := Span(a[..at], {':'});
            if at < |a| then
              && TextOf(s, user) == Some(a[..colon]) && TextOf(s, host) == Some(a[at + 1..])
              && TextOf(s, password) == if colon < at then Some(a[colon + 1..at]) else None
            else user.Absent? && password.Absent? && TextOf(s, host) == Some(a)
  {
    hide Span;
    user, password := Absent, Absent;
    var infoEnd := ScanTo(s, from, end, {'@'});
    ghost var a := s[from..end];
    if infoEnd < end {
      var userEnd := ScanTo(s, from, infoEnd, {':'});
      assert a[..infoEnd - from] == s[from..infoEnd];
      user := Part(from, userEnd);
      assert s[from..userEnd] == a[..userEnd - from];
      if userEnd < infoEnd {
        password := Part(userEnd + 1, infoEnd);
        assert s[userEnd + 1..infoEnd] == a[userEnd + 1 - from..infoEnd - from];
      }
      host := Part(infoEnd + 1, end);
      assert s[infoEnd + 1..end] == a[infoEnd + 1 - from..];
    } else {
      host := Part(from, end);
    }
  }

  /** The authority, if there is one: two slashes, then everything up to a slash, query or fragment. */
  method ParseHost(s: string, start: nat) returns (user: Part, password: Part, host: Part, i: nat)
    requires start <= |s|
    ensures Within(user, start, |s|) && Within(password, End(user, start), |s|)
      && Within(host, End(password, End(user, start)), |s|)
    ensures start <= i <= |s| && End(host, End(password, End(user, start))) <= i
    ensures Authority(TextOf(s, user), TextOf(s, password), TextOf(s, host), i - start) == ParseAuthority(s[start..])
  {
    hide Span;
    user, password, host, i := Absent, Absent, Absent, start;
    ghost var rest := s[start..];
    if |s| - i >= 2 && s[i] == '/' && s[i + 1] == '/' {
      i := i + 2;
      var end := ScanTo(s, i, |s|, {'/', '?', '#'});
      assert rest[2..] == s[i..|s|];
      user, password, host := SplitAuthority(s, i, end);
      assert rest[2..2 + (end - i)] == s[i..end];
      i := end;
    }
  }

  /** Everything behind the scheme. */
  method ParseBehind(s: string, start: nat, ghost scheme: Option<string>)
      returns (user: Part, password: Part, host: Part, path: Part, query: Part, fragment: Part)
    requires start <= |s|
    ensures Within(user, start, |s|) && Within(password, End(user, start), |s|)
      && Within(host, End(password, End(user, start)), |s|)
    ensures path.Part? && Within(path, End(host, End(password, End(user, start))), |s|)
    ensures Within(query, path.to, |s|) && Within(fragment, End(query, path.to), |s|)
    ensures Url(scheme, TextOf(s, user), TextOf(s, password), TextOf(s, host),
                s[path.from..path.to], TextOf(s, query), TextOf(s, fragment)) == ParseRest(scheme, s[start..])
  {
    hide ParseQuery, ParseFragment, AfterQuery, Span, ParseAuthority;
    var i;
    user, password, host, i := ParseHost(s, start);
    var pathEnd := ScanTo(s, i, |s|, {'?', '#'});
    query, fragment := ParseTail(s, pathEnd);
    path := Part(i, pathEnd);
    Suffixes(s, start, i, pathEnd);
  }

  lemma Suffixes(s: string, i: nat, j: nat, k: nat)
    requires i <= j <= k <= |s|
    ensures s[i..][j - i..] == s[j..] == s[j..|s|] && s[i..][0..] == s[i..]
    ensures s[j..][..k - j] == s[j..k] && s[j..][k - j..] == s[k..]
  {
  }

  lemma SchemeSplit(s: string, n: nat)
    requires n <= |s| && n == Span(s[0..|s|], {':', '/', '?', '#'})
    ensures Parse(s) == if n < |s| && s[n] == ':' then ParseRest(Some(s[0..n]), s[n + 1..]) else ParseRest(None, s[0..])
  {
    hide ParseRest;
    assert s[0..|s|] == s && s[0..] == s && s[0..n] == s[..n];
  }

  /** URLParseComponents */
  method ParseComponents(s: string) returns (c: Components)
    ensures Ordered(s, c) && UrlOf(s, c) == Parse(s)
    ensures var path := s[c.path.from..c.path.to];
            && c.segmentPtr == c.path.from + (if |path| > 0 && path[0] == '/' then 1 else 0)
            && c.segmentEnd == c.path.to - (if |path| > 0 && path[|path| - 1] == '/' then 1 else 0)
  {
    hide ParseRest, Span, Parse;
    var scheme, start := Absent, 0;
    var n := ScanTo(s, 0, |s|, {':', '/', '?', '#'});
    SchemeSplit(s, n);
    if n < |s| && s[n] == ':' {
      scheme := Part(0, n);
      start := n + 1;
    }
    var user, password, host, path, query, fragment := ParseBehind(s, start, TextOf(s, scheme));
    c := Components(scheme, user, password, host, path, query, fragment,
                    if path.from < path.to && s[path.from] == '/' then path.from + 1 else path.from,
                    if path.from < path.to && s[path.to - 1] == '/' then path.to - 1 else path.to);
  }

  /** The path without its outer slashes is a proper range unless the path is a single slash. */
  lemma SegmentRange(from: nat, to: nat, path: string)
    requires to == from + |path|
    ensures var first := from + (if |path| > 0 && path[0] == '/' then 1 else 0);
            var last := to - (if |path| > 0 && path[|path| - 1] == '/' then 1 else 0);
            first <= last <==> path != "/"
  {
  }
}
