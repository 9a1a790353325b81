/** Parsing and formatting URIs, as in section 3 of RFC 3986 with the simplifications of uri.c. */
module Uri {
  import opened Basics
  import opened UriCodec

  /** struct uri: fields that are absent are None. */
  datatype Uri = Uri(scheme: Option<seq<byte>>, opaq: Option<seq<byte>>, user: Option<seq<byte>>,
                     password: Option<seq<byte>>, host: Option<seq<byte>>, port: Option<seq<byte>>,
                     path: Option<seq<byte>>, epath: Option<seq<byte>>, equery: Option<seq<byte>>,
                     efragment: Option<seq<byte>>)

  // Splitting strings.

  /** The part before the first `c`, and the part after it if there is one (strchr() and a NUL). */
  function Cut(s: seq<byte>, c: byte): (seq<byte>, Option<seq<byte>>) {
    if s == [] then ([], None)
    else if s[0] == c then ([], Some(s[1..]))
    else
      var (a, b) := Cut(s[1..], c);
      ([s[0]] + a, b)
  }

  /** The same for the last `c` (strrchr()). */
  function CutLast(s: seq<byte>, c: byte): (seq<byte>, Option<seq<byte>>) {
    if s == [] then ([], None)
    else
      var (a, b) := CutLast(s[1..], c);
      if b.Some? then ([s[0]] + a, b)
      else if s[0] == c then ([], Some(s[1..]))
      else (s, None)
  }

  lemma {:induction false} CutNone(s: seq<byte>, c: byte)
    requires c !in s
    ensures Cut(s, c) == (s, None)
  {
    if s != [] {
      CutNone(s[1..], c);
      assert [s[0]] + s[1..] == s;
    }
  }

  lemma {:induction false} CutAt(a: seq<byte>, c: byte, b: seq<byte>)
    requires c !in a
    ensures Cut(a + [c] + b, c) == (a, Some(b))
  {
    var s := a + [c] + b;
    if a == [] {
      assert s[1..] == b;
    } else {
      assert s[1..] == a[1..] + [c] + b;
      CutAt(a[1..], c, b);
      assert [a[0]] + a[1..] == a;
    }
  }

  lemma {:induction false} CutLastNone(s: seq<byte>, c: byte)
    requires c !in s
    ensures CutLast(s, c) == (s, None)
  {
    if s != [] {
      CutLastNone(s[1..], c);
    }
  }

  lemma {:induction false} CutLastAt(a: seq<byte>, c: byte, b: seq<byte>)
    requires c !in b
    ensures CutLast(a + [c] + b, c) == (a, Some(b))
  {
    var s := a + [c] + b;
    if a == [] {
      assert s[1..] == b;
      CutLastNone(b, c);
    } else {
      assert s[1..] == a[1..] + [c] + b;
      CutLastAt(a[1..], c, b);
      assert [a[0]] + a[1..] == a;
    }
  }

  // Parsing.

  /** Characters allowed in a scheme. */
  predicate SchemeChar(c: byte) {
    IsAlpha(c) || c == 45 || c == 95
  }

  function SchemeLength(s: seq<byte>): (n: nat)
    ensures n <= |s|
  {
    if s == [] || !SchemeChar(s[0]) then 0 else 1 + SchemeLength(s[1..])
  }

  /** "##params" */
  const PARAMS: seq<byte> := [35, 35, 112, 97, 114, 97, 109, 115]

  /** The string up to the parameter list, if there is one. */
  function WithoutParams(s: seq<byte>): seq<byte> {
    if PARAMS <= s || s == [] then [] else [s[0]] + WithoutParams(s[1..])
  }

  /** The C string at the start of some bytes: it ends at the first NUL. */
  function Text(s: seq<byte>): (r: seq<byte>)
    ensures 0 !in r
  {
    if s == [] || s[0] == 0 then [] else [s[0]] + Text(s[1..])
  }

  /** A field decoded in place, as the C string that it is from then on. */
  function DecodeText(s: seq<byte>): (r: seq<byte>)
    ensures 0 !in r
  {
    Text(Decode(s))
  }

  function DecodeField(f: Option<seq<byte>>): Option<seq<byte>> {
    match f case None => None case Some(s) => Some(DecodeText(s))
  }

  /** host[:port], where a colon within brackets at the end belongs to the host. */
  function ParseHost(s: seq<byte>): (seq<byte>, Option<seq<byte>>) {
    var (h, p) := CutLast(s, COLON);
    if p.Some? && s[|s| - 1] != BRACKET then (h, p) else (s, None)
  }

  /** The authority part: [user[:password]@]host[:port]. */
  function ParseAuthority(u: Uri, s: seq<byte>): Uri {
    var (before, after) := Cut(s, AT);
    var hp := ParseHost(match after case None => s case Some(h) => h);
    var v := u.(host := Some(DecodeText(hp.0)), port := DecodeField(hp.1));
    if after.None? then v
    else
      var (user, password) := Cut(before, COLON);
      v.(user := Some(DecodeText(user)), password := DecodeField(password))
  }

  function SetPath(u: Uri, epath: seq<byte>): Uri {
    u.(path := Some(DecodeText(epath)), epath := Some(epath))
  }

  /** The hierarchical part: [//authority][path][?query]. */
  function ParseHierarchical(u: Uri, s: seq<byte>): Uri {
    var (e, query) := Cut(s, QUESTION);
    var v := u.(equery := query);
    if e == [] then v
    else if u.scheme.Some? && |e| >= 2 && e[0] == SLASH && e[1] == SLASH then
      var (authority, path) := Cut(e[2..], SLASH);
      var a := ParseAuthority(v, authority);
      match path case None => a case Some(p) => SetPath(a, [SLASH] + p)
    else SetPath(v, e)
  }

  /** parse_uri() */
  function Parse(text: seq<byte>): Uri {
    var (s, fragment) := Cut(WithoutParams(text), HASH);
    var u := Uri(None, None, None, None, None, None, None, None, None, fragment);
    var n := SchemeLength(s);
    if n < |s| && s[n] == COLON then
      var v := u.(scheme := Some(DecodeText(s[..n])));
      var rest := s[n + 1..];
      if rest != [] && rest[0] == SLASH then ParseHierarchical(v, rest) else v.(opaq := Some(DecodeText(rest)))
    else ParseHierarchical(u, s)
  }

  // Formatting.

  /** A field with its prefix, if the field is present. */
  function Part(f: Field, prefix: seq<byte>, value: Option<seq<byte>>): seq<byte> {
    match value case None => [] case Some(s) => prefix + Encode(f, s)
  }

  /** The authority part. */
  function FormatAuthority(u: Uri): seq<byte> {
    Part(USER, [], u.user) + Part(PASSWORD, [COLON], u.password) +
    Part(HOST, if u.user.Some? then [AT] else [], u.host) + Part(PORT, [COLON], u.port)
  }

  /** What follows the authority. */
  function FormatPath(u: Uri): seq<byte> {
    (if u.epath.Some? then Encode(EPATH, u.epath.value) else Part(PATH, [], u.path)) + Part(EQUERY, [QUESTION], u.equery)
  }

  /** format_uri() */
  function Format(u: Uri): seq<byte> {
    (match u.scheme
     case None => []
     case Some(s) => Encode(SCHEME, s) + [COLON] + (if u.host.Some? then [SLASH, SLASH] else [])) +
    Part(OPAQUE, [], u.opaq) + FormatAuthority(u) + FormatPath(u) + Part(EFRAGMENT, [HASH], u.efragment)
  }
}
