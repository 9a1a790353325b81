/** A blob for every tree, and one on which setting a property fails and loses it. */
module FdtBuild {
  import opened Basics
  import opened FdtFormat
  import opened FdtWalk
  import opened FdtSpec
  import opened FdtRead
  import opened FdtReadLaws
  import opened FdtSplice
  import opened FdtBlob
  import opened FdtEdit
  import opened FdtUpdate
  import opened FdtProps

  const FDT_MAGIC: nat := 0xd00d_feed
  const FDT_VERSION: nat := 16

  /** Big-endian words, one after the other. */
  function WordsOf(ws: seq<nat>): (r: seq<byte>)
    requires forall i | 0 <= i < |ws| :: ws[i] < WORD_SPACE
    ensures |r| == 4 * |ws|
  {
    if ws == [] then [] else BE32(ws[0]) + WordsOf(ws[1..])
  }

  lemma WordShift(x: seq<byte>, y: seq<byte>, i: nat)
    requires |x| == 4
    ensures Word(x + y, i + 4) == Word(y, i)
  {
    forall k: nat
      ensures At(x + y, k + 4) == At(y, k)
    {
    }
    assert At(x + y, i + 4) == At(y, i) && At(x + y, (i + 1) + 4) == At(y, i + 1);
    assert At(x + y, (i + 2) + 4) == At(y, i + 2) && At(x + y, (i + 3) + 4) == At(y, i + 3);
  }

  lemma {:induction false} WordIs(ws: seq<nat>, rest: seq<byte>, i: nat)
    requires (forall k | 0 <= k < |ws| :: ws[k] < WORD_SPACE) && i < |ws|
    ensures Word(WordsOf(ws) + rest, 4 * i) == ws[i]
  {
    var x, y := BE32(ws[0]), WordsOf(ws[1..]) + rest;
    assert WordsOf(ws) + rest == x + y;
    if i == 0 {
      assert (x + y)[0..4] == x;
      WordOfBE32(x + y, 0, ws[0]);
    } else {
      WordIs(ws[1..], rest, i - 1);
      WordShift(x, y, 4 * (i - 1));
    }
  }

  /** The words of a header. */
  function HeaderWords(h: Fields): seq<nat> {
    [h.magic, h.totalsize, h.offStruct, h.offStrings, h.offReservations,
     h.version, h.lastCompatible, h.bootCpu, h.sizeStrings, h.sizeStruct]
  }

  lemma HeaderIs(h: Fields, raw: seq<byte>)
    requires forall k | 0 <= k < |HeaderWords(h)| :: HeaderWords(h)[k] < WORD_SPACE
    requires raw == WordsOf(HeaderWords(h))
    ensures |raw| == HEADER && Header(raw) == h
  {
    var ws := HeaderWords(h);
    assert raw + [] == raw;
    WordIs(ws, [], 0);
    WordIs(ws, [], 1);
    WordIs(ws, [], 2);
    WordIs(ws, [], 3);
    WordIs(ws, [], 4);
    WordIs(ws, [], 5);
    WordIs(ws, [], 6);
    WordIs(ws, [], 7);
    WordIs(ws, [], 8);
    WordIs(ws, [], 9);
  }

  /** The header of a blob with no reservations, then the structure block, then the strings block. */
  function BuildHeader(s: nat, n: nat, total: nat): Fields {
    Fields(FDT_MAGIC, total, 56, 56 + s, HEADER, FDT_VERSION + 1, FDT_VERSION, 0, n, s)
  }

  /** A blob with the given structure and strings blocks, and some free space. */
  function Assemble(structure: seq<byte>, names: seq<byte>, free: nat): Blob
    requires 56 + |structure| + |names| + free < WORD_SPACE
  {
    var s, n := |structure|, |names|;
    var head := WordsOf(HeaderWords(BuildHeader(s, n, 56 + s + n + free)));
    Blob(head + Zeros(16) + structure + names + Zeros(free), 56 + s + n + free, 56 + s + n, 56, s, 56 + s, n, HEADER)
  }

  lemma FiveParts(a: seq<byte>, b: seq<byte>, c: seq<byte>, d: seq<byte>, z: seq<byte>, s: seq<byte>)
    requires s == a + b + c + d + z
    ensures |s| == |a| + |b| + |c| + |d| + |z| && s[..|a|] == a
    ensures Block(s, |a| + |b|, |c|) == c && Block(s, |a| + |b| + |c|, |d|) == d
  {
  }

  lemma AssembleHeader(structure: seq<byte>, names: seq<byte>, free: nat)
    requires 56 + |structure| + |names| + free < WORD_SPACE
    ensures var b, s, n := Assemble(structure, names, free), |structure|, |names|;
            && |b.raw| == b.len && Header(b.raw) == BuildHeader(s, n, 56 + s + n + free)
            && Block(b.raw, 56, s) == structure && Block(b.raw, 56 + s, n) == names
  {
    var s, n := |structure|, |names|;
    var h := BuildHeader(s, n, 56 + s + n + free);
    var head, raw := WordsOf(HeaderWords(h)), Assemble(structure, names, free).raw;
    HeaderIs(h, head);
    FiveParts(head, Zeros(16), structure, names, Zeros(free), raw);
    assert head[..HEADER] == head;
    HeaderSame(head, raw);
  }

  lemma AssembleLayout(structure: seq<byte>, names: seq<byte>, free: nat)
    requires 56 + |structure| + |names| + free < WORD_SPACE
    ensures var b := Assemble(structure, names, free);
            Layout(b, 16) && StructBytes(b) == structure && StringBytes(b) == names && b.len - b.used == free
  {
    AssembleHeader(structure, names, free);
  }

  /** A blob that encodes `e`, with some free space. */
  function Build(e: Elems, names: seq<byte>, free: nat): Blob
    requires Wf(e) && 60 + |Enc(e)| + |names| + free < WORD_SPACE
  {
    Assemble(Enc(e) + BE32(FDT_END), names, free)
  }

  /** Every tree has a blob. */
  lemma BuildEncodes(e: Elems, names: seq<byte>, free: nat)
    requires Wf(e) && Shaped(e, names) && 60 + |Enc(e)| + |names| + free < WORD_SPACE
    ensures var b := Build(e, names, free);
            Encodes(b, e, 16) && StringBytes(b) == names && b.len - b.used == free
  {
    AssembleLayout(Enc(e) + BE32(FDT_END), names, free);
  }

  // Losing a property.

  /** A root node with one empty property, named "a". */
  predicate Sample(e: Elems, names: seq<byte>) {
    e == Node([], [0, 0, 0], Prop(0, [], [], Nil), Nil) && names == [97, 0]
  }

  lemma SampleIs(e: Elems, names: seq<byte>)
    requires Sample(e, names)
    ensures Wf(e) && |Enc(e)| == 24 && Shaped(e, names) && IsPath(e, [0])
    ensures KidsOf(names, e) == [Tree([], [Entry([97], [])], [])]
  {
    EncSize(e);
    assert names[0..2] == [97] + [0];
    CStrIs(names, 0, [97]);
    assert PropsOf(names, e.body) == [Entry([97], [])];
    assert KidsOf(names, e.body) == [];
  }

  /** What setting the property to one byte takes, and what is left if that fails. */
  lemma SampleSet(t: Tree, name: seq<byte>, data: seq<byte>)
    requires t == Tree([], [Entry([97], [])], []) && name == [97] && |data| == 1
    ensures SetSpace(Had(t, name), name, Some(data)) == 8
    ensures PutAt([t], [0], SetProp(t, name, None)) == [Tree([], [], [])]
  {
    assert Match(t.props[0].name, name);
    assert FirstEntry(t.props, name) == Some(0);
    assert ReplaceEntry(t.props, name, []) == [];
  }

  /** Without free space and unable to grow, replacing the empty property by one byte fails, and the property is gone. */
  method LoseProperty(data: seq<byte>) returns (r: Result<()>, ghost before: seq<Tree>, ghost after: seq<Tree>)
    requires |data| == 1
    ensures r == Err(ENOTSUP)
    ensures before == [Tree([], [Entry([97], [])], [])] && after == [Tree([], [], [])]
  {
    var e, names, name := Node([], [0, 0, 0], Prop(0, [], [], Nil), Nil), [97, 0], [97];
    SampleIs(e, names);
    BuildEncodes(e, names, 0);
    var ed := new Editor(Build(e, names, 0), false);
    before := KidsOf(StringBytes(ed.State()), e);
    ghost var t := before[0];
    SampleSet(t, name, data);
    ghost var u;
    r, u := Set(ed, 0, name, Some(data), e, [0], 16);
    after := KidsOf(StringBytes(ed.State()), u);
  }
}
