/** A formatted URI parses back to the same URI, if it is canonical. */
module UriLaws {
  import opened Basics
  import opened UriCodec
  import opened Uri

  // Fields as C strings.

  lemma {:induction false} TextWhole(s: seq<byte>)
    ensures Text(s) == s <==> 0 !in s
  {
    if s != [] && s[0] != 0 {
      TextWhole(s[1..]);
      assert s == [s[0]] + s[1..];
    }
  }

  /** A field reads back from its encoding exactly if there is no NUL in it. */
  lemma FieldExact(f: Field, s: seq<byte>)
    requires !Verbatim(f)
    ensures DecodeText(Encode(f, s)) == s <==> 0 !in s
  {
    DecodeEncode(f, s);
    TextWhole(s);
  }

  predicate NoNul(f: Option<seq<byte>>) {
    f.Some? ==> 0 !in f.value
  }

  // Hosts and ports.

  predicate EndsWith(s: seq<byte>, c: byte) {
    s != [] && s[|s| - 1] == c
  }

  /** The conditions under which a host and port parse back. */
  predicate GoodHost(h: seq<byte>, port: Option<seq<byte>>) {
    0 !in h &&
    match port
    case None => COLON !in h || EndsWith(h, BRACKET)
    case Some(p) => !EndsWith(p, BRACKET) && 0 !in p
  }

  function FormatHost(h: seq<byte>, port: Option<seq<byte>>): seq<byte> {
    Encode(HOST, h) + Part(PORT, [COLON], port)
  }

  /** Characters that the host field keeps as they are. */
  lemma {:induction false} HostKeeps(f: Field, s: seq<byte>, c: byte)
    requires !Escaped(c, f) && !Verbatim(f) && c != PERCENT && !(48 <= c <= 57) && !(65 <= c <= 70)
    ensures c in Encode(f, s) <==> c in s
  {
    if s != [] {
      HostKeeps(f, s[1..], c);
    }
  }

  lemma {:induction false} EncodeEnds(f: Field, s: seq<byte>, c: byte)
    requires !Escaped(c, f) && !Verbatim(f) && c != PERCENT && !(48 <= c <= 57) && !(65 <= c <= 70)
    ensures EndsWith(Encode(f, s), c) <==> EndsWith(s, c)
  {
    if s != [] {
      EncodeEnds(f, s[1..], c);
      if |s| == 1 {
        assert Encode(f, s) == EncodeChar(f, s[0]);
      } else {
        EncodeSome(f, s[1..]);
        var a, b := EncodeChar(f, s[0]), Encode(f, s[1..]);
        assert (a + b)[|a + b| - 1] == b[|b| - 1];
        assert s[|s| - 1] == s[1..][|s[1..]| - 1];
      }
    }
  }

  lemma EncodeSome(f: Field, s: seq<byte>)
    requires s != []
    ensures Encode(f, s) != []
  {
  }

  /** A colon that the search for the last one finds. */
  lemma {:induction false} CutLastSome(s: seq<byte>, c: byte)
    requires c in s
    ensures var (a, b) := CutLast(s, c); b.Some? && s == a + [c] + b.value
  {
    if c in s[1..] {
      CutLastSome(s[1..], c);
      var (a, b) := CutLast(s[1..], c);
      assert s == [s[0]] + (a + [c] + b.value);
    } else {
      CutLastNone(s[1..], c);
      assert s[0] == c;
      assert s == [] + [c] + s[1..];
    }
  }

  /** How a text is split into host and port. */
  lemma HostSplit(s: seq<byte>)
    ensures COLON !in s || EndsWith(s, BRACKET) ==> ParseHost(s) == (s, None)
    ensures COLON in s && !EndsWith(s, BRACKET) ==> ParseHost(s).1.Some?
  {
    if COLON in s {
      CutLastSome(s, COLON);
    } else {
      CutLastNone(s, COLON);
    }
  }

  lemma PortSplit(e: seq<byte>, q: seq<byte>)
    requires COLON !in q
    ensures EndsWith(q, BRACKET) ==> ParseHost(e + [COLON] + q).1.None?
    ensures !EndsWith(q, BRACKET) ==> ParseHost(e + [COLON] + q) == (e, Some(q))
  {
    CutLastAt(e, COLON, q);
    LastOf(e, q, e + [COLON] + q);
  }

  lemma HostAlone(h: seq<byte>)
    ensures var (a, b) := ParseHost(Encode(HOST, h)); (DecodeText(a) == h && b.None?) <==> GoodHost(h, None)
  {
    FieldExact(HOST, h);
    HostKeeps(HOST, h, COLON);
    EncodeEnds(HOST, h, BRACKET);
    HostSplit(Encode(HOST, h));
  }

  lemma HostAndPort(h: seq<byte>, p: seq<byte>)
    ensures var (a, b) := ParseHost(Encode(HOST, h) + [COLON] + Encode(PORT, p));
            (DecodeText(a) == h && DecodeField(b) == Some(p)) <==> GoodHost(h, Some(p))
  {
    FieldExact(HOST, h);
    FieldExact(PORT, p);
    EncodeAvoids(PORT, p, COLON);
    EncodeEnds(PORT, p, BRACKET);
    PortSplit(Encode(HOST, h), Encode(PORT, p));
  }

  lemma LastOf(e: seq<byte>, q: seq<byte>, s: seq<byte>)
    requires s == e + [COLON] + q
    ensures s != [] && (s[|s| - 1] == BRACKET <==> EndsWith(q, BRACKET))
  {
  }

  /**
    A host and port parse back exactly if a host without port has no colon or ends with a
    bracket, a port does not, and neither has a NUL.
   */
  lemma HostExact(h: seq<byte>, port: Option<seq<byte>>)
    ensures var (a, b) := ParseHost(FormatHost(h, port));
            (DecodeText(a) == h && DecodeField(b) == port) <==> GoodHost(h, port)
  {
    match port
    case None =>
      assert FormatHost(h, port) == Encode(HOST, h);
      HostAlone(h);
    case Some(p) =>
      assert FormatHost(h, port) == Encode(HOST, h) + [COLON] + Encode(PORT, p);
      HostAndPort(h, p);
  }

  // The authority.

  /** The authority fields of a canonical URI: a password needs a user, and the host and port parse back. */
  predicate GoodAuthority(u: Uri) {
    u.host.Some? && GoodHost(u.host.value, u.port) && (u.password.Some? ==> u.user.Some?) && NoNul(u.user) && NoNul(u.password)
  }

  /** `v` with the authority of `u`. */
  function WithAuthority(v: Uri, u: Uri): Uri {
    v.(user := u.user, password := u.password, host := u.host, port := u.port)
  }

  lemma {:induction false} EncodeAvoidsAll(f: Field, s: Option<seq<byte>>, prefix: seq<byte>, c: byte)
    requires !Verbatim(f) && c in Special(f) && c !in prefix
    ensures c !in Part(f, prefix, s)
  {
    if s.Some? {
      EncodeAvoids(f, s.value, c);
    }
  }

  lemma AuthorityRoundTrip(v: Uri, u: Uri)
    requires GoodAuthority(u) && v.user.None? && v.password.None?
    ensures ParseAuthority(v, FormatAuthority(u)) == WithAuthority(v, u)
  {
    var host := FormatHost(u.host.value, u.port);
    HostExact(u.host.value, u.port);
    if u.user.None? {
      NoUser(u, host);
      EncodeAvoids(HOST, u.host.value, AT);
      EncodeAvoidsAll(PORT, u.port, [COLON], AT);
      CutNone(host, AT);
    } else {
      var user := Encode(USER, u.user.value);
      var before := user + Part(PASSWORD, [COLON], u.password);
      WithUser(u, user, before, host);
      EncodeAvoids(USER, u.user.value, AT);
      EncodeAvoidsAll(PASSWORD, u.password, [COLON], AT);
      CutAt(before, AT, host);
      EncodeAvoids(USER, u.user.value, COLON);
      FieldExact(USER, u.user.value);
      match u.password {
        case None =>
          assert before == user;
          CutNone(user, COLON);
        case Some(p) =>
          assert before == user + [COLON] + Encode(PASSWORD, p);
          CutAt(user, COLON, Encode(PASSWORD, p));
          FieldExact(PASSWORD, p);
      }
    }
  }

  lemma NoUser(u: Uri, host: seq<byte>)
    requires u.host.Some? && u.user.None? && u.password.None? && host == FormatHost(u.host.value, u.port)
    ensures FormatAuthority(u) == host
  {
  }

  lemma WithUser(u: Uri, user: seq<byte>, before: seq<byte>, host: seq<byte>)
    requires u.host.Some? && u.user.Some? && user == Encode(USER, u.user.value)
    requires before == user + Part(PASSWORD, [COLON], u.password) && host == FormatHost(u.host.value, u.port)
    ensures FormatAuthority(u) == before + [AT] + host
  {
  }

  /** No character that ends the authority occurs in it. */
  lemma AuthorityAvoids(u: Uri, c: byte)
    requires c == SLASH || c == HASH || c == QUESTION
    ensures c !in FormatAuthority(u)
  {
    EncodeAvoidsAll(USER, u.user, [], c);
    EncodeAvoidsAll(PASSWORD, u.password, [COLON], c);
    EncodeAvoidsAll(HOST, u.host, if u.user.Some? then [AT] else [], c);
    EncodeAvoidsAll(PORT, u.port, [COLON], c);
  }

  // The path and query.

  predicate Printable(s: seq<byte>) {
    forall i | 0 <= i < |s| :: IsPrint(s[i]) && s[i] != 32
  }

  /** An encoded path that begins with a slash, and its decoded form. */
  predicate GoodPath(u: Uri) {
    && u.epath.Some? && Printable(u.epath.value) && u.epath.value != [] && u.epath.value[0] == SLASH
    && QUESTION !in u.epath.value && HASH !in u.epath.value && u.path == Some(DecodeText(u.epath.value))
  }

  predicate GoodQuery(u: Uri) {
    u.equery.Some? ==> Printable(u.equery.value) && HASH !in u.equery.value
  }

  function WithPath(v: Uri, u: Uri): Uri {
    v.(path := u.path, epath := u.epath, equery := u.equery)
  }

  /** Some text and the query. */
  lemma QueryRoundTrip(e: seq<byte>, u: Uri)
    requires QUESTION !in e && GoodQuery(u)
    ensures Cut(e + Part(EQUERY, [QUESTION], u.equery), QUESTION) == (e, u.equery)
  {
    match u.equery
    case None =>
      assert e + Part(EQUERY, [QUESTION], None) == e;
      CutNone(e, QUESTION);
    case Some(q) =>
      EncodeVerbatim(EQUERY, q);
      assert e + ([QUESTION] + q) == e + [QUESTION] + q;
      CutAt(e, QUESTION, q);
  }

  /** A path without an authority, which must not look like one. */
  lemma PathRoundTrip(v: Uri, u: Uri)
    requires GoodPath(u) && GoodQuery(u) && v.scheme.Some? && (|u.epath.value| >= 2 ==> u.epath.value[1] != SLASH)
    ensures ParseHierarchical(v, FormatPath(u)) == WithPath(v, u)
  {
    EncodeVerbatim(EPATH, u.epath.value);
    QueryRoundTrip(u.epath.value, u);
  }

  /** An authority, with or without a path, is cut where it was put together. */
  lemma NetPathCut(v: Uri, u: Uri)
    requires GoodQuery(u) && v.scheme.Some? && (GoodPath(u) || (u.epath.None? && u.path.None?))
    ensures var w := ParseAuthority(v.(equery := u.equery), FormatAuthority(u));
            ParseHierarchical(v, [SLASH, SLASH] + FormatAuthority(u) + FormatPath(u))
            == if u.epath.Some? then SetPath(w, u.epath.value) else w
  {
    var a, p := FormatAuthority(u), if u.epath.Some? then u.epath.value else [];
    var e := [SLASH, SLASH] + a + p;
    AuthorityAvoids(u, SLASH);
    AuthorityAvoids(u, QUESTION);
    if u.epath.Some? {
      EncodeVerbatim(EPATH, p);
    }
    QueryRoundTrip(e, u);
    NetText(u, a, p, e);
    ParseNet(v, e + Part(EQUERY, [QUESTION], u.equery), e, u.equery, a, p);
  }

  lemma NetPathRoundTrip(v: Uri, u: Uri)
    requires GoodAuthority(u) && GoodQuery(u) && v.scheme.Some? && v.user.None? && v.password.None?
    requires v.path.None? && v.epath.None?
    requires GoodPath(u) || (u.epath.None? && u.path.None?)
    ensures ParseHierarchical(v, [SLASH, SLASH] + FormatAuthority(u) + FormatPath(u)) == WithPath(WithAuthority(v, u), u)
  {
    NetPathCut(v, u);
    AuthorityRoundTrip(v.(equery := u.equery), u);
  }

  /** How a hierarchical part with an authority is taken apart. */
  lemma ParseNet(v: Uri, text: seq<byte>, e: seq<byte>, query: Option<seq<byte>>, a: seq<byte>, p: seq<byte>)
    requires v.scheme.Some? && Cut(text, QUESTION) == (e, query) && e == [SLASH, SLASH] + a + p
    requires SLASH !in a && (p == [] || p[0] == SLASH)
    ensures var w := ParseAuthority(v.(equery := query), a);
            ParseHierarchical(v, text) == if p == [] then w else SetPath(w, p)
  {
    NetSplit(e, a, p);
    if p == [] {
      CutNone(a, SLASH);
    } else {
      CutAt(a, SLASH, p[1..]);
      assert [SLASH] + p[1..] == p;
    }
  }

  lemma NetSplit(e: seq<byte>, a: seq<byte>, p: seq<byte>)
    requires e == [SLASH, SLASH] + a + p && (p == [] || p[0] == SLASH)
    ensures |e| >= 2 && e[0] == SLASH && e[1] == SLASH
    ensures e[2..] == if p == [] then a else a + [SLASH] + p[1..]
  {
    assert p != [] ==> p == [SLASH] + p[1..];
  }

  lemma NetText(u: Uri, a: seq<byte>, p: seq<byte>, e: seq<byte>)
    requires a == FormatAuthority(u) && e == [SLASH, SLASH] + a + p
    requires if u.epath.Some? then p == Encode(EPATH, u.epath.value) else p == [] && u.path.None?
    ensures [SLASH, SLASH] + a + FormatPath(u) == e + Part(EQUERY, [QUESTION], u.equery)
  {
    var q := Part(EQUERY, [QUESTION], u.equery);
    assert FormatPath(u) == p + q;
    assert [SLASH, SLASH] + a + (p + q) == [SLASH, SLASH] + a + p + q;
  }

  // The whole URI.

  /** The parameter list marker occurs in the string. */
  predicate HasParams(s: seq<byte>) {
    s != [] && (PARAMS <= s || HasParams(s[1..]))
  }

  lemma {:induction false} ParamsAbsent(s: seq<byte>)
    requires !HasParams(s)
    ensures WithoutParams(s) == s
  {
    if s != [] {
      ParamsAbsent(s[1..]);
      assert [s[0]] + s[1..] == s;
    }
  }

  /** The marker begins with a hash sign. */
  lemma {:induction false} ParamsNeedHash(a: seq<byte>, b: seq<byte>)
    requires HASH !in a && !HasParams(b)
    ensures !HasParams(a + b)
  {
    if a == [] {
      assert a + b == b;
    } else {
      ParamsNeedHash(a[1..], b);
      assert (a + b)[1..] == a[1..] + b;
      assert (a + b)[0] == a[0] && a[0] in a && PARAMS[0] == HASH;
    }
  }

  predicate GoodFragment(f: Option<seq<byte>>) {
    f.Some? ==> Printable(f.value) && !HasParams([HASH] + f.value)
  }

  predicate AllScheme(s: seq<byte>) {
    forall i | 0 <= i < |s| :: SchemeChar(s[i])
  }

  lemma {:induction false} SchemePlain(s: seq<byte>)
    requires AllScheme(s)
    ensures Encode(SCHEME, s) == s && Decode(s) == s && DecodeText(s) == s && HASH !in s
  {
    TextWhole(s);
    if s != [] {
      SchemePlain(s[1..]);
      DecodePlain(s[0], s[1..]);
      assert [s[0]] + s[1..] == s;
    }
  }

  lemma {:induction false} SchemeEnds(s: seq<byte>, rest: seq<byte>)
    requires AllScheme(s)
    ensures SchemeLength(s + [COLON] + rest) == |s|
  {
    if s != [] {
      SchemeEnds(s[1..], rest);
      assert (s + [COLON] + rest)[1..] == s[1..] + [COLON] + rest;
    }
  }

  /** A URI with no field but the scheme and the fragment. */
  function Bare(scheme: seq<byte>, fragment: Option<seq<byte>>): Uri {
    Uri(Some(scheme), None, None, None, None, None, None, None, None, fragment)
  }

  lemma CutFragment(text: seq<byte>, body: seq<byte>, fragment: Option<seq<byte>>)
    requires HASH !in body && GoodFragment(fragment) && text == body + Part(EFRAGMENT, [HASH], fragment)
    ensures Cut(WithoutParams(text), HASH) == (body, fragment)
  {
    match fragment
    case None =>
      assert text == body + [] == body;
      ParamsNeedHash(body, []);
      ParamsAbsent(body + []);
      CutNone(body, HASH);
    case Some(f) =>
      EncodeVerbatim(EFRAGMENT, f);
      ParamsNeedHash(body, [HASH] + f);
      ParamsAbsent(text);
      assert text == body + [HASH] + f;
      CutAt(body, HASH, f);
  }

  /** How an absolute URI is taken apart. */
  lemma ParseAbsolute(text: seq<byte>, scheme: seq<byte>, rest: seq<byte>, fragment: Option<seq<byte>>)
    requires AllScheme(scheme) && HASH !in rest && GoodFragment(fragment)
    requires text == scheme + [COLON] + rest + Part(EFRAGMENT, [HASH], fragment)
    ensures Parse(text) == if rest != [] && rest[0] == SLASH then ParseHierarchical(Bare(scheme, fragment), rest)
                           else Bare(scheme, fragment).(opaq := Some(DecodeText(rest)))
  {
    var body := scheme + [COLON] + rest;
    SchemePlain(scheme);
    CutFragment(text, body, fragment);
    SchemeEnds(scheme, rest);
    assert body[..|scheme|] == scheme && body[|scheme| + 1..] == rest && body[|scheme|] == COLON;
  }

  /** An absolute URI whose formatted form parses back: with an opaque part, with an authority, or with only a path. */
  predicate Canonical(u: Uri) {
    && u.scheme.Some? && AllScheme(u.scheme.value) && GoodFragment(u.efragment)
    && (IsOpaque(u) || IsNet(u) || IsPath(u))
  }

  predicate IsOpaque(u: Uri) {
    && u.opaq.Some? && 0 !in u.opaq.value && (u.opaq.value != [] ==> u.opaq.value[0] != SLASH)
    && u.user == u.password == u.host == u.port == u.path == u.epath == u.equery == None
  }

  predicate IsNet(u: Uri) {
    u.opaq.None? && GoodAuthority(u) && GoodQuery(u) && (GoodPath(u) || (u.epath.None? && u.path.None?))
  }

  predicate IsPath(u: Uri) {
    && u.opaq == u.user == u.password == u.host == u.port == None
    && GoodPath(u) && GoodQuery(u) && (|u.epath.value| >= 2 ==> u.epath.value[1] != SLASH)
  }

  /** The part between the scheme and the fragment. */
  function Middle(u: Uri): seq<byte> {
    (if u.host.Some? then [SLASH, SLASH] else []) + Part(OPAQUE, [], u.opaq) + FormatAuthority(u) + FormatPath(u)
  }

  lemma FormatMiddle(u: Uri)
    requires u.scheme.Some? && AllScheme(u.scheme.value)
    ensures Format(u) == u.scheme.value + [COLON] + Middle(u) + Part(EFRAGMENT, [HASH], u.efragment)
  {
    SchemePlain(u.scheme.value);
    Regroup5(u.scheme.value + [COLON], if u.host.Some? then [SLASH, SLASH] else [], Part(OPAQUE, [], u.opaq),
             FormatAuthority(u), FormatPath(u), Part(EFRAGMENT, [HASH], u.efragment));
  }

  lemma Regroup5(s: seq<byte>, h: seq<byte>, o: seq<byte>, a: seq<byte>, p: seq<byte>, f: seq<byte>)
    ensures s + h + o + a + p + f == s + (h + o + a + p) + f
  {
  }

  lemma OpaqueMiddle(u: Uri)
    requires IsOpaque(u)
    ensures Middle(u) == Encode(OPAQUE, u.opaq.value)
  {
  }

  lemma NetMiddle(u: Uri)
    requires IsNet(u)
    ensures Middle(u) == [SLASH, SLASH] + FormatAuthority(u) + FormatPath(u)
  {
    assert [SLASH, SLASH] + [] == [SLASH, SLASH];
  }

  lemma PathMiddle(u: Uri)
    requires IsPath(u)
    ensures Middle(u) == FormatPath(u)
  {
  }

  /** No hash sign before the fragment. */
  lemma MiddleAvoids(u: Uri)
    requires Canonical(u)
    ensures HASH !in Middle(u)
  {
    EncodeAvoidsAll(OPAQUE, u.opaq, [], HASH);
    if IsNet(u) {
      AuthorityAvoids(u, HASH);
    }
    if u.epath.Some? {
      EncodeVerbatim(EPATH, u.epath.value);
    }
    if u.equery.Some? {
      EncodeVerbatim(EQUERY, u.equery.value);
    }
  }

  lemma {:induction false} OpaqueStart(o: seq<byte>)
    requires o != [] ==> o[0] != SLASH
    ensures var e := Encode(OPAQUE, o); e != [] ==> e[0] != SLASH
  {
  }

  /** parse_uri() undoes format_uri(), for every canonical absolute URI. */
  lemma ParseFormat(u: Uri)
    requires Canonical(u)
    ensures Parse(Format(u)) == u
  {
    var scheme, m := u.scheme.value, Middle(u);
    FormatMiddle(u);
    MiddleAvoids(u);
    ParseAbsolute(Format(u), scheme, m, u.efragment);
    if IsOpaque(u) {
      OpaqueMiddle(u);
      OpaqueStart(u.opaq.value);
      FieldExact(OPAQUE, u.opaq.value);
    } else if IsNet(u) {
      NetMiddle(u);
      NetPathRoundTrip(Bare(scheme, u.efragment), u);
    } else {
      PathMiddle(u);
      EncodeVerbatim(EPATH, u.epath.value);
      PathRoundTrip(Bare(scheme, u.efragment), u);
    }
  }

  // No other absolute URI parses back.

  lemma {:induction false} CutParts(s: seq<byte>, c: byte)
    ensures var (a, b) := Cut(s, c); c !in a && if b.None? then a == s else s == a + [c] + b.value
  {
    if s != [] && s[0] != c {
      CutParts(s[1..], c);
      var (a, b) := Cut(s[1..], c);
      if b.Some? {
        assert s == [s[0]] + (a + [c] + b.value);
      }
    } else if s != [] {
      assert s == [] + [c] + s[1..];
    }
  }

  lemma {:induction false} EncodePrintable(f: Field, s: seq<byte>)
    ensures Printable(Encode(f, s))
  {
    if s != [] {
      EncodePrintable(f, s[1..]);
      assert Printable(EncodeChar(f, s[0]));
    }
  }

  lemma PartPrintable(f: Field, prefix: seq<byte>, value: Option<seq<byte>>)
    requires Printable(prefix)
    ensures Printable(Part(f, prefix, value))
  {
    if value.Some? {
      EncodePrintable(f, value.value);
    }
  }

  lemma FormatPrintable(u: Uri)
    ensures Printable(Format(u))
  {
    AuthorityPrintable(u);
    PathPrintable(u);
    PartPrintable(OPAQUE, [], u.opaq);
    PartPrintable(EFRAGMENT, [HASH], u.efragment);
    var h, o, a, p, f :=
      SchemePart(u), Part(OPAQUE, [], u.opaq), FormatAuthority(u), FormatPath(u), Part(EFRAGMENT, [HASH], u.efragment);
    SchemePartPrintable(u);
    PrintableJoin(h, o);
    PrintableJoin(h + o, a);
    PrintableJoin(h + o + a, p);
    PrintableJoin(h + o + a + p, f);
  }

  lemma PrintableJoin(a: seq<byte>, b: seq<byte>)
    requires Printable(a) && Printable(b)
    ensures Printable(a + b)
  {
  }

  /** What comes before the opaque part or the authority. */
  function SchemePart(u: Uri): seq<byte> {
    match u.scheme
    case None => []
    case Some(s) => Encode(SCHEME, s) + [COLON] + (if u.host.Some? then [SLASH, SLASH] else [])
  }

  lemma SchemePartPrintable(u: Uri)
    ensures Printable(SchemePart(u))
  {
    if u.scheme.Some? {
      var e := Encode(SCHEME, u.scheme.value);
      EncodePrintable(SCHEME, u.scheme.value);
      PrintableJoin(e, [COLON]);
      PrintableJoin(e + [COLON], if u.host.Some? then [SLASH, SLASH] else []);
    }
  }

  lemma AuthorityPrintable(u: Uri)
    ensures Printable(FormatAuthority(u))
  {
    PartPrintable(USER, [], u.user);
    PartPrintable(PASSWORD, [COLON], u.password);
    PartPrintable(HOST, if u.user.Some? then [AT] else [], u.host);
    PartPrintable(PORT, [COLON], u.port);
  }

  lemma PathPrintable(u: Uri)
    ensures Printable(FormatPath(u))
  {
    PartPrintable(EPATH, [], u.epath);
    PartPrintable(PATH, [], u.path);
    PartPrintable(EQUERY, [QUESTION], u.equery);
    if u.epath.Some? {
      EncodePrintable(EPATH, u.epath.value);
    }
  }

  lemma {:induction false} WithoutParamsIs(s: seq<byte>)
    ensures WithoutParams(s) <= s && !HasParams(WithoutParams(s))
  {
    if s != [] && !(PARAMS <= s) {
      WithoutParamsIs(s[1..]);
      var w := [s[0]] + WithoutParams(s[1..]);
      assert w[1..] == WithoutParams(s[1..]) && w <= s;
      PrefixOfPrefix(PARAMS, w, s);
    }
  }

  lemma PrefixOfPrefix(a: seq<byte>, b: seq<byte>, c: seq<byte>)
    requires b <= c
    ensures a <= b ==> a <= c
  {
  }

  lemma {:induction false} ParamsInTail(a: seq<byte>, b: seq<byte>)
    requires HasParams(b)
    ensures HasParams(a + b)
  {
    if a == [] {
      assert a + b == b;
    } else {
      ParamsInTail(a[1..], b);
      assert (a + b)[1..] == a[1..] + b;
    }
  }

  /** Printable, and without a hash sign. */
  predicate Tidy(s: seq<byte>) {
    Printable(s) && HASH !in s
  }

  lemma PrintableParts(a: seq<byte>, b: seq<byte>, c: seq<byte>)
    requires Printable(a + b + c)
    ensures Printable(a) && Printable(c)
  {
    var s := a + b + c;
    assert forall i | 0 <= i < |a| :: a[i] == s[i];
    assert forall i | 0 <= i < |c| :: c[i] == s[|a| + |b| + i];
  }

  lemma TidyParts(a: seq<byte>, b: seq<byte>, c: seq<byte>)
    requires Tidy(a + b + c)
    ensures Tidy(a) && Tidy(c)
  {
    PrintableParts(a, b, c);
  }

  /** The fragment of a text that has no parameter list. */
  lemma FragmentCut(w: seq<byte>)
    requires Printable(w) && !HasParams(w)
    ensures var (s, f) := Cut(w, HASH); s <= w && Tidy(s) && GoodFragment(f)
  {
    var (s, f) := Cut(w, HASH);
    CutParts(w, HASH);
    if f.Some? {
      PrintableParts(s, [HASH], f.value);
      assert w == s + ([HASH] + f.value);
      if HasParams([HASH] + f.value) {
        ParamsInTail(s, [HASH] + f.value);
      }
    }
  }

  /** The fragment of a printable text, and what comes before it. */
  lemma FragmentShape(text: seq<byte>)
    requires Printable(text)
    ensures var (s, f) := Cut(WithoutParams(text), HASH); s <= text && Tidy(s) && GoodFragment(f)
  {
    var w := WithoutParams(text);
    WithoutParamsIs(text);
    assert text == w + [] + text[|w|..];
    PrintableParts(w, [], text[|w|..]);
    FragmentCut(w);
  }

  lemma {:induction false} SchemePrefix(s: seq<byte>)
    ensures AllScheme(s[..SchemeLength(s)])
  {
    if s != [] && SchemeChar(s[0]) {
      SchemePrefix(s[1..]);
      assert s[..SchemeLength(s)] == [s[0]] + s[1..][..SchemeLength(s[1..])];
    }
  }

  /** An authority, of which the host and port are not looked at, and perhaps a path. */
  predicate NetShape(u: Uri) {
    && u.host.Some? && (u.password.Some? ==> u.user.Some?) && NoNul(u.user) && NoNul(u.password)
    && (GoodPath(u) || (u.epath.None? && u.path.None?))
  }

  /** A hierarchical part: an authority, or a path. */
  predicate Hierarchical(u: Uri) {
    u.opaq.None? && GoodQuery(u) && (IsPath(u) || NetShape(u))
  }

  lemma NetParsed(v: Uri, e: seq<byte>)
    requires v.scheme.Some? && v == Bare(v.scheme.value, v.efragment).(equery := v.equery)
    requires Tidy(e) && QUESTION !in e && |e| >= 2
    ensures var (authority, path) := Cut(e[2..], SLASH);
            var a := ParseAuthority(v, authority);
            NetShape(match path case None => a case Some(p) => SetPath(a, [SLASH] + p))
  {
    var (authority, path) := Cut(e[2..], SLASH);
    CutParts(e[2..], SLASH);
    if path.Some? {
      var p := [SLASH] + path.value;
      assert e == e[..2] + authority + p;
      TidyParts(e[..2], authority, p);
      assert QUESTION !in p;
    }
  }

  /** The hierarchical part of an absolute URI has an authority, or is a path. */
  lemma HierarchicalShape(v: Uri, rest: seq<byte>)
    requires v.scheme.Some? && v == Bare(v.scheme.value, v.efragment)
    requires Tidy(rest) && rest != [] && rest[0] == SLASH
    ensures Hierarchical(ParseHierarchical(v, rest))
  {
    var (e, query) := Cut(rest, QUESTION);
    CutParts(rest, QUESTION);
    if query.Some? {
      TidyParts(e, [QUESTION], query.value);
    }
    assert e[0] == SLASH;
    if |e| >= 2 && e[1] == SLASH {
      NetParsed(v.(equery := query), e);
    }
  }

  /** What follows the scheme. */
  function ParseRest(v: Uri, rest: seq<byte>): Uri {
    if rest != [] && rest[0] == SLASH then ParseHierarchical(v, rest) else v.(opaq := Some(DecodeText(rest)))
  }

  /** The parts of a text that parses as an absolute URI. */
  lemma ParseParts(text: seq<byte>) returns (scheme: seq<byte>, rest: seq<byte>, fragment: Option<seq<byte>>)
    requires Printable(text) && Parse(text).scheme.Some?
    ensures AllScheme(scheme) && GoodFragment(fragment) && Tidy(rest) && scheme + [COLON] + rest <= text
    ensures Parse(text) == ParseRest(Bare(scheme, fragment), rest)
  {
    var (s, f) := Cut(WithoutParams(text), HASH);
    FragmentShape(text);
    var n := SchemeLength(s);
    fragment, scheme, rest := f, s[..n], s[n + 1..];
    SchemePrefix(s);
    SchemePlain(scheme);
    SplitAt(s, n, scheme, rest);
    TidyParts(scheme, [COLON], rest);
  }

  lemma SplitAt(s: seq<byte>, n: nat, a: seq<byte>, b: seq<byte>)
    requires n < |s| && a == s[..n] && b == s[n + 1..]
    ensures s == a + [s[n]] + b
  {
  }

  /** What an absolute URI that is the result of parsing looks like. */
  lemma ParseShape(text: seq<byte>, u: Uri)
    requires Printable(text) && u == Parse(text) && u.scheme.Some?
    ensures AllScheme(u.scheme.value) && GoodFragment(u.efragment)
    ensures u.opaq.Some? ==>
              && u == Bare(u.scheme.value, u.efragment).(opaq := u.opaq) && 0 !in u.opaq.value
              && (u.opaq.value != [] ==> |u.scheme.value| + 1 < |text| && text[|u.scheme.value| + 1] != SLASH)
    ensures u.opaq.None? ==> Hierarchical(u)
  {
    var scheme, rest, fragment := ParseParts(text);
    if rest != [] && rest[0] == SLASH {
      HierarchicalShape(Bare(scheme, fragment), rest);
    } else if rest != [] {
      assert text[|scheme| + 1] == (scheme + [COLON] + rest)[|scheme| + 1] == rest[0];
    }
  }

  /** The host and port of an authority that parses back. */
  lemma AuthorityExact(v: Uri, u: Uri)
    requires u.host.Some? && (u.password.Some? ==> u.user.Some?) && NoNul(u.user) && NoNul(u.password)
    requires var w := ParseAuthority(v, FormatAuthority(u)); w.host == u.host && w.port == u.port
    ensures GoodAuthority(u)
  {
    var host := FormatHost(u.host.value, u.port);
    HostExact(u.host.value, u.port);
    if u.user.None? {
      NoUser(u, host);
      EncodeAvoids(HOST, u.host.value, AT);
      EncodeAvoidsAll(PORT, u.port, [COLON], AT);
      CutNone(host, AT);
    } else {
      var user := Encode(USER, u.user.value);
      var before := user + Part(PASSWORD, [COLON], u.password);
      WithUser(u, user, before, host);
      EncodeAvoids(USER, u.user.value, AT);
      EncodeAvoidsAll(PASSWORD, u.password, [COLON], AT);
      CutAt(before, AT, host);
    }
  }

  /** An absolute URI with an authority that parses back. */
  lemma NetExact(u: Uri)
    requires u.scheme.Some? && AllScheme(u.scheme.value) && GoodFragment(u.efragment)
    requires u.opaq.None? && GoodQuery(u) && NetShape(u) && Parse(Format(u)) == u
    ensures GoodAuthority(u)
  {
    var scheme, m := u.scheme.value, Middle(u);
    var v := Bare(scheme, u.efragment);
    FormatMiddle(u);
    assert m == [SLASH, SLASH] + FormatAuthority(u) + FormatPath(u) by {
      assert [SLASH, SLASH] + [] == [SLASH, SLASH];
    }
    NetAvoids(u);
    ParseAbsolute(Format(u), scheme, m, u.efragment);
    NetPathCut(v, u);
    AuthorityExact(v.(equery := u.equery), u);
  }

  lemma NetAvoids(u: Uri)
    requires GoodQuery(u) && (GoodPath(u) || (u.epath.None? && u.path.None?))
    ensures HASH !in [SLASH, SLASH] + FormatAuthority(u) + FormatPath(u)
  {
    AuthorityAvoids(u, HASH);
    if u.epath.Some? {
      EncodeVerbatim(EPATH, u.epath.value);
    }
    if u.equery.Some? {
      EncodeVerbatim(EQUERY, u.equery.value);
    }
  }

  /** An absolute URI parses back if and only if it is canonical. */
  lemma ParseFormatExact(u: Uri)
    requires u.scheme.Some?
    ensures Parse(Format(u)) == u <==> Canonical(u)
  {
    if Canonical(u) {
      ParseFormat(u);
    } else if Parse(Format(u)) == u {
      ParsedIsCanonical(u);
    }
  }

  lemma ParsedIsCanonical(u: Uri)
    requires u.scheme.Some? && Parse(Format(u)) == u
    ensures Canonical(u)
  {
    FormatPrintable(u);
    ParseShape(Format(u), u);
    if u.opaq.Some? {
      OpaqueExact(u);
    } else if !IsPath(u) {
      NetExact(u);
    }
  }

  /** An absolute URI with an opaque part that parses back. */
  lemma OpaqueExact(u: Uri)
    requires u.scheme.Some? && AllScheme(u.scheme.value) && u.opaq.Some?
    requires u == Bare(u.scheme.value, u.efragment).(opaq := u.opaq) && 0 !in u.opaq.value
    requires var t, n := Format(u), |u.scheme.value| + 1; u.opaq.value != [] ==> n < |t| && t[n] != SLASH
    ensures IsOpaque(u)
  {
    FormatMiddle(u);
    BareMiddle(u);
    if u.opaq.value != [] {
      SlashStays(u.scheme.value, u.opaq.value, Part(EFRAGMENT, [HASH], u.efragment));
    }
  }

  lemma BareMiddle(u: Uri)
    requires u.scheme.Some? && u.opaq.Some? && u == Bare(u.scheme.value, u.efragment).(opaq := u.opaq)
    ensures Middle(u) == Encode(OPAQUE, u.opaq.value)
  {
    var e := Encode(OPAQUE, u.opaq.value);
    assert [] + e == e;
    assert FormatAuthority(u) == [] && FormatPath(u) == [];
    assert e + [] + [] == e;
  }

  /** A slash at the start of the opaque part is not escaped. */
  lemma SlashStays(scheme: seq<byte>, o: seq<byte>, rest: seq<byte>)
    requires o != []
    ensures var t := scheme + [COLON] + Encode(OPAQUE, o) + rest;
            o[0] == SLASH ==> |scheme| + 1 < |t| && t[|scheme| + 1] == SLASH
  {
    var e := Encode(OPAQUE, o);
    assert o[0] == SLASH ==> EncodeChar(OPAQUE, o[0]) == [SLASH] && e[0] == SLASH;
  }

  /** A host name with a colon but no brackets does not parse back: its tail becomes the port. */
  lemma ColonInHost()
    ensures var u := Uri(Some([104]), None, None, None, Some([97, COLON, 98]), None, None, None, None, None);
            Parse(Format(u)) == u.(host := Some([97]), port := Some([98]))
  {
    var u := Uri(Some([104]), None, None, None, Some([97, COLON, 98]), None, None, None, None, None);
    var v := u.(host := Some([97]), port := Some([98]));
    SameText(u, v);
    ParseFormat(v);
  }

  lemma SameText(u: Uri, v: Uri)
    requires u == Uri(Some([104]), None, None, None, Some([97, COLON, 98]), None, None, None, None, None)
    requires v == u.(host := Some([97]), port := Some([98]))
    ensures Format(u) == Format(v)
  {
    FormatMiddle(u);
    FormatMiddle(v);
    HostLetters();
    assert FormatAuthority(u) == [97, COLON, 98];
    assert FormatAuthority(v) == [97, COLON, 98];
    assert Middle(u) == Middle(v);
  }

  lemma HostLetters()
    ensures Encode(HOST, [97, COLON, 98]) == [97, COLON, 98]
    ensures Encode(HOST, [97]) == [97] && Encode(PORT, [98]) == [98]
  {
    var e := [97, COLON, 98];
    assert e[1..] == [COLON, 98] && [COLON, 98][1..] == [98];
    assert Encode(HOST, [98]) == [98] + Encode(HOST, []);
    assert Encode(HOST, [COLON, 98]) == [COLON] + Encode(HOST, [98]);
    assert Encode(HOST, e) == [97] + Encode(HOST, [COLON, 98]);
    assert Encode(HOST, [97]) == [97] + Encode(HOST, []);
    assert Encode(PORT, [98]) == [98] + Encode(PORT, []);
  }
}
