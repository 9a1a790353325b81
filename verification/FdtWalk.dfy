/** Walking a device tree token by token: the reader functions, for any buffer whatsoever. */
module FdtWalk {
  import opened Basics
  import opened FdtFormat

  /** The tokens of a structure block by offset; an offset without one cannot be described. */
  type Tokens = map<nat, Desc>

  /** Every token lies within `len` bytes and ends beyond its start. */
  ghost predicate Advances(t: Tokens, len: nat) {
    forall off | off in t :: t[off].offset == off < t[off].next <= len
  }

  /** A token position. */
  predicate Pos(f: Fdt, off: nat) {
    off <= f.len && off % 4 == 0
  }

  /** The token at `off`: it can be described, and ends within the tree as fdt_describe() asserts. */
  predicate IsToken(f: Fdt, off: nat) {
    Pos(f, off) && Describe(f, off).Ok? && Describe(f, off).value.next <= f.len
  }

  /** The tokens at offset `from` and beyond. */
  function TokensFrom(f: Fdt, from: nat): Tokens
    decreases f.len + 1 - from
  {
    if from > f.len then map[]
    else
      var t := TokensFrom(f, from + 1);
      if IsToken(f, from) then t[from := Describe(f, from).value] else t
  }

  lemma {:induction false} TokensFromAt(f: Fdt, from: nat, off: nat)
    ensures off in TokensFrom(f, from) <==> from <= off && IsToken(f, off)
    ensures off in TokensFrom(f, from) ==> TokensFrom(f, from)[off] == Describe(f, off).value
    decreases f.len + 1 - from
  {
    if from <= f.len {
      TokensFromAt(f, from + 1, off);
    }
  }

  /** All tokens; each one strictly advances and stays within the tree. */
  ghost function TokensOf(f: Fdt): (t: Tokens)
    ensures Advances(t, f.len)
  {
    var t := TokensFrom(f, 0);
    assert Advances(t, f.len) by {
      forall off | off in t
        ensures t[off].offset == off < t[off].next <= f.len
      {
        TokensFromAt(f, 0, off);
      }
    }
    t
  }

  /** The error of a failed step, for a caller with another kind of result. */
  function Failed<T, U>(r: Result<T>): Result<U> {
    match r
    case Err(e) => Err(e)
    case Ok(_) => Err(EINVAL)
  }

  /** One step of a walk; a token that fails the assertion of fdt_describe() ends it. */
  method NextToken(f: Fdt, off: nat) returns (r: Result<Desc>)
    requires Pos(f, off)
    ensures r.Ok? <==> off in TokensOf(f)
    ensures r.Ok? ==> r.value == TokensOf(f)[off] && r.value.offset == off < r.value.next && Pos(f, r.value.next)
    ensures r.Err? ==> r.error == EINVAL
  {
    TokensFromAt(f, 0, off);
    r := Describe(f, off);
    if r.Ok? {
      DescribeAligned(f, off);
      if r.value.next > f.len {
        r := Err(EINVAL);
      }
    }
  }

  // Names.

  /** Characters permitted in node and property names. */
  predicate Permitted(c: byte) {
    || 48 <= c <= 57 || 65 <= c <= 90 || 97 <= c <= 122
    || c == 44 || c == 46 || c == 95 || c == 43 || c == 63 || c == 35 || c == 45
  }

  /** fdt_match(): the looked-up name continues only with a character that cannot be part of a name. */
  predicate Match(name: seq<byte>, lookup: seq<byte>) {
    name <= lookup && (|lookup| == |name| || !Permitted(lookup[|name|]))
  }

  /** Matching is equality for every token name exactly when the looked-up name is all permitted characters. */
  lemma MatchExactly(lookup: seq<byte>)
    requires 0 !in lookup
    ensures (forall name: seq<byte> | 0 !in name :: Match(name, lookup) <==> name == lookup)
            <==> (forall i | 0 <= i < |lookup| :: Permitted(lookup[i]))
  {
    if i :| 0 <= i < |lookup| && !Permitted(lookup[i]) {
      assert Match(lookup[..i], lookup) && lookup[..i] != lookup;
    }
    if forall i | 0 <= i < |lookup| :: Permitted(lookup[i]) {
      forall name: seq<byte> | 0 !in name
        ensures Match(name, lookup) <==> name == lookup
      {
      }
    }
  }

  // The walks, as recursive functions of the tokens.

  /** fdt_enter(): skip NOPs to the beginning of a node. */
  ghost function Enter(t: Tokens, len: nat, off: nat): Result<Desc>
    requires Advances(t, len)
    decreases len - off
  {
    if off !in t then Err(EINVAL)
    else
      var d := t[off];
      if d.depth > 0 then Ok(d)
      else if d.depth != 0 || d.name.Some? then Err(EINVAL)
      else Enter(t, len, d.next)
  }

  ghost function DepthFrom(t: Tokens, len: nat, off: nat, depth: nat, target: nat): Result<nat>
    requires Advances(t, len)
    decreases len - off
  {
    if off !in t then Err(EINVAL)
    else
      var d := t[off];
      if d.offset == target then Ok(depth)
      else if depth + d.depth < 0 then Err(ENOENT)
      else DepthFrom(t, len, d.next, depth + d.depth, target)
  }

  ghost function ParentFrom(t: Tokens, len: nat, off: nat, depth: nat, pdepth: int, target: nat, parent: nat): Result<nat>
    requires Advances(t, len)
    decreases len - off
  {
    if off !in t then Err(EINVAL)
    else
      var d := t[off];
      var parent' := if depth == pdepth && d.name.Some? && d.data.None? then d.offset else parent;
      if d.offset == target then Ok(parent')
      else if depth + d.depth < 0 then Err(ENOENT)
      else ParentFrom(t, len, d.next, depth + d.depth, pdepth, target, parent')
  }

  ghost function ChildFrom(t: Tokens, len: nat, off: nat, depth: nat, name: seq<byte>): Result<nat>
    requires Advances(t, len)
    decreases len - off
  {
    if off !in t then Err(EINVAL)
    else
      var d := t[off];
      if depth == 0 && d.name.Some? && d.data.None? && Match(d.name.value, name) then Ok(d.offset)
      else if depth + d.depth < 0 then Err(ENOENT)
      else ChildFrom(t, len, d.next, depth + d.depth, name)
  }

  ghost function EndFrom(t: Tokens, len: nat, off: nat, depth: nat): Result<nat>
    requires Advances(t, len)
    decreases len - off
  {
    if off !in t then Err(EINVAL)
    else
      var d := t[off];
      if depth + d.depth < 0 then Ok(d.offset)
      else EndFrom(t, len, d.next, depth + d.depth)
  }

  ghost function PropertyFrom(t: Tokens, len: nat, off: nat, name: seq<byte>): Result<Desc>
    requires Advances(t, len)
    decreases len - off
  {
    if off !in t then Err(EINVAL)
    else
      var d := t[off];
      if d.data.Some? && d.name.Some? && Match(d.name.value, name) then Ok(d)
      else if d.depth != 0 then Err(ENOENT)
      else PropertyFrom(t, len, d.next, name)
  }

  ghost function Depth(t: Tokens, len: nat, off: nat, target: nat): Result<nat>
    requires Advances(t, len)
  {
    match Enter(t, len, off)
    case Err(e) => Err(e)
    case Ok(d) => DepthFrom(t, len, d.next, 0, target)
  }

  ghost function Parent(t: Tokens, len: nat, target: nat): Result<nat>
    requires Advances(t, len)
  {
    match Depth(t, len, 0, target)
    case Err(e) => Err(e)
    case Ok(depth) =>
      match Enter(t, len, 0)
      case Err(e) => Err(e)
      case Ok(d) => ParentFrom(t, len, d.next, 0, depth - 1, target, d.offset)
  }

  ghost function Child(t: Tokens, len: nat, off: nat, name: seq<byte>): Result<nat>
    requires Advances(t, len)
  {
    match Enter(t, len, off)
    case Err(e) => Err(e)
    case Ok(d) => ChildFrom(t, len, d.next, 0, name)
  }

  ghost function End(t: Tokens, len: nat, off: nat): Result<nat>
    requires Advances(t, len)
  {
    match Enter(t, len, off)
    case Err(e) => Err(e)
    case Ok(d) => EndFrom(t, len, d.next, 0)
  }

  ghost function Property(t: Tokens, len: nat, off: nat, name: seq<byte>): Result<Desc>
    requires Advances(t, len)
  {
    match Enter(t, len, off)
    case Err(e) => Err(e)
    case Ok(d) => PropertyFrom(t, len, d.next, name)
  }

  // The walks, as the loops of the C code.

  method FdtEnter(f: Fdt, off: nat) returns (r: Result<Desc>)
    requires Pos(f, off)
    ensures r == Enter(TokensOf(f), f.len, off)
    ensures r.Ok? ==> Pos(f, r.value.next)
  {
    var offset := off;
    while true
      invariant Pos(f, offset) && Enter(TokensOf(f), f.len, offset) == Enter(TokensOf(f), f.len, off)
      decreases f.len - offset
    {
      r := NextToken(f, offset);
      if r.Err? || r.value.depth > 0 {
        return;
      }
      if r.value.depth != 0 || r.value.name.Some? {
        return Err(EINVAL);
      }
      offset := r.value.next;
    }
  }

  method FdtDepth(f: Fdt, off: nat, target: nat) returns (r: Result<nat>)
    requires Pos(f, off)
    ensures r == Depth(TokensOf(f), f.len, off, target)
  {
    var d := FdtEnter(f, off);
    if d.Err? {
      return Failed(d);
    }
    ghost var start := d.value.next;
    var depth := 0;
    while depth >= 0
      invariant d.Ok? && Pos(f, d.value.next)
      invariant depth >= 0 ==> DepthFrom(TokensOf(f), f.len, d.value.next, depth, target) == DepthFrom(TokensOf(f), f.len, start, 0, target)
      invariant depth < 0 ==> DepthFrom(TokensOf(f), f.len, start, 0, target) == Err(ENOENT)
      decreases f.len - d.value.next
    {
      d := NextToken(f, d.value.next);
      if d.Err? {
        return Failed(d);
      }
      if d.value.offset == target {
        return Ok(depth);
      }
      depth := depth + d.value.depth;
    }
    r := Err(ENOENT);
  }

  method FdtParent(f: Fdt, target: nat) returns (r: Result<nat>)
    requires Pos(f, 0)
    ensures r == Parent(TokensOf(f), f.len, target)
  {
    var found := FdtDepth(f, 0, target);
    if found.Err? {
      return Failed(found);
    }
    var pdepth := (found.value as int) - 1;
    var d := FdtEnter(f, 0);
    if d.Err? {
      return Failed(d);
    }
    var parent := d.value.offset;
    ghost var start, root := d.value.next, d.value.offset;
    var depth := 0;
    while depth >= 0
      invariant d.Ok? && Pos(f, d.value.next)
      invariant depth >= 0 ==> ParentFrom(TokensOf(f), f.len, d.value.next, depth, pdepth, target, parent)
                               == ParentFrom(TokensOf(f), f.len, start, 0, pdepth, target, root)
      invariant depth < 0 ==> ParentFrom(TokensOf(f), f.len, start, 0, pdepth, target, root) == Err(ENOENT)
      decreases f.len - d.value.next
    {
      d := NextToken(f, d.value.next);
      if d.Err? {
        return Failed(d);
      }
      if depth == pdepth && d.value.name.Some? && d.value.data.None? {
        parent := d.value.offset;
      }
      if d.value.offset == target {
        return Ok(parent);
      }
      depth := depth + d.value.depth;
    }
    r := Err(ENOENT);
  }

  method FdtChild(f: Fdt, off: nat, name: seq<byte>) returns (r: Result<nat>)
    requires Pos(f, off)
    ensures r == Child(TokensOf(f), f.len, off, name)
  {
    var d := FdtEnter(f, off);
    if d.Err? {
      return Failed(d);
    }
    ghost var start := d.value.next;
    var depth := 0;
    while depth >= 0
      invariant d.Ok? && Pos(f, d.value.next)
      invariant depth >= 0 ==> ChildFrom(TokensOf(f), f.len, d.value.next, depth, name) == ChildFrom(TokensOf(f), f.len, start, 0, name)
      invariant depth < 0 ==> ChildFrom(TokensOf(f), f.len, start, 0, name) == Err(ENOENT)
      decreases f.len - d.value.next
    {
      d := NextToken(f, d.value.next);
      if d.Err? {
        return Failed(d);
      }
      if depth == 0 && d.value.name.Some? && d.value.data.None? && Match(d.value.name.value, name) {
        return Ok(d.value.offset);
      }
      depth := depth + d.value.depth;
    }
    r := Err(ENOENT);
  }

  method FdtEnd(f: Fdt, off: nat) returns (r: Result<nat>)
    requires Pos(f, off)
    ensures r == End(TokensOf(f), f.len, off)
  {
    var d := FdtEnter(f, off);
    if d.Err? {
      return Failed(d);
    }
    ghost var start := d.value.next;
    var depth := 0;
    while depth >= 0
      invariant d.Ok? && Pos(f, d.value.next)
      invariant depth >= 0 ==> EndFrom(TokensOf(f), f.len, d.value.next, depth) == EndFrom(TokensOf(f), f.len, start, 0)
      invariant depth < 0 ==> EndFrom(TokensOf(f), f.len, start, 0) == Ok(d.value.offset)
      decreases f.len - d.value.next
    {
      d := NextToken(f, d.value.next);
      if d.Err? {
        return Failed(d);
      }
      depth := depth + d.value.depth;
    }
    r := Ok(d.value.offset);
  }

  method FdtProperty(f: Fdt, off: nat, name: seq<byte>) returns (r: Result<Desc>)
    requires Pos(f, off)
    ensures r == Property(TokensOf(f), f.len, off, name)
  {
    var d := FdtEnter(f, off);
    if d.Err? {
      return d;
    }
    ghost var start := d.value.next;
    var depth := 0;
    while depth == 0
      invariant d.Ok? && Pos(f, d.value.next)
      invariant depth == 0 ==> PropertyFrom(TokensOf(f), f.len, d.value.next, name) == PropertyFrom(TokensOf(f), f.len, start, name)
      invariant depth != 0 ==> PropertyFrom(TokensOf(f), f.len, start, name) == Err(ENOENT)
      decreases f.len - d.value.next
    {
      d := NextToken(f, d.value.next);
      if d.Err? {
        return d;
      }
      if d.value.data.Some? && d.value.name.Some? && Match(d.value.name.value, name) {
        return d;
      }
      depth := depth + d.value.depth;
    }
    r := Err(ENOENT);
  }

  // Paths.

  const SLASH: byte := 47

  /** The path after its leading slashes. */
  function SkipSlashes(path: seq<byte>): (r: seq<byte>)
    ensures |r| <= |path| && (r != [] ==> r[0] != SLASH)
  {
    if path != [] && path[0] == SLASH then SkipSlashes(path[1..]) else path
  }

  /** The path from its first slash on: `strchr ( tmp, '/' )`, or empty if there is none. */
  function FromSlash(path: seq<byte>): (r: seq<byte>)
    ensures |r| <= |path|
    ensures path != [] && path[0] != SLASH ==> |r| < |path|
  {
    if path == [] || path[0] == SLASH then path else FromSlash(path[1..])
  }

  /** fdt_path() from a given node. */
  ghost function PathFrom(t: Tokens, len: nat, off: nat, path: seq<byte>): Result<nat>
    requires Advances(t, len)
    decreases |path|
  {
    var tmp := SkipSlashes(path);
    if tmp == [] then Ok(off)
    else
      match Child(t, len, off, tmp)
      case Err(e) => Err(e)
      case Ok(child) => PathFrom(t, len, child, FromSlash(tmp))
  }

  lemma {:induction false} ChildIsToken(t: Tokens, len: nat, off: nat, depth: nat, name: seq<byte>)
    requires Advances(t, len) && ChildFrom(t, len, off, depth, name).Ok?
    ensures ChildFrom(t, len, off, depth, name).value in t
    decreases len - off
  {
    var d := t[off];
    if depth == 0 && d.name.Some? && d.data.None? && Match(d.name.value, name) {
    } else {
      ChildIsToken(t, len, d.next, depth + d.depth, name);
    }
  }

  method FdtPath(f: Fdt, path: seq<byte>) returns (r: Result<nat>)
    requires Pos(f, 0)
    ensures r == PathFrom(TokensOf(f), f.len, 0, path)
  {
    var offset, tmp := 0, path;
    while true
      invariant Pos(f, offset) && PathFrom(TokensOf(f), f.len, offset, tmp) == PathFrom(TokensOf(f), f.len, 0, path)
      decreases |tmp|
    {
      ghost var before := tmp;
      while tmp != [] && tmp[0] == SLASH
        invariant SkipSlashes(tmp) == SkipSlashes(before) && |tmp| <= |before|
        decreases |tmp|
      {
        tmp := tmp[1..];
      }
      if tmp == [] {
        return Ok(offset);
      }
      r := FdtChild(f, offset, tmp);
      if r.Err? {
        return;
      }
      ChildIsToken(TokensOf(f), f.len, Enter(TokensOf(f), f.len, offset).value.next, 0, tmp);
      TokensFromAt(f, 0, r.value);
      offset, tmp := r.value, FromSlash(tmp);
    }
  }
}
