/** HAMT nodes and their byte encoding (`registry-core/src/hamt.rs`, `record.rs`). */
module NodeCodec {
  import opened Wrappers
  import opened Digests

  datatype LeafEntry = LeafEntry(
    key: string, hash: Hash, size: nat, addedAt: int, contentCode: Option<nat>)

  const FANOUT: nat := 256
  const TAG_LEAF: byte := 0
  const TAG_INTERMEDIATE: byte := 1
  const NEWLINE: byte := 10

  type Slots = s: seq<Option<Hash>> | |s| == FANOUT witness seq(FANOUT, _ => None)

  datatype HamtNode =
    | Leaf(entries: seq<LeafEntry>)
    | Intermediate(slots: Slots)

  function EmptySlots(): Slots {
    seq(FANOUT, _ => None)
  }

  /** `serde_json` on one entry, left uninterpreted. */
  const SerializeEntry: LeafEntry -> Bytes
  const ParseEntry: Bytes -> Option<LeafEntry>

  /** What the codec needs of the entry serializer: it can be undone, and its output is one
      non-empty line. */
  ghost predicate EntrySerializer() {
    forall e :: ParseEntry(SerializeEntry(e)) == Some(e) && SerializeEntry(e) != [] && NEWLINE !in SerializeEntry(e)
  }

  datatype HamtError =
    | StoreError
    | CorruptNode(node: Hash)
    | MissingNode(node: Hash)
    | DepthExhausted(key: string, depth: nat)

  // ----- Encoding

  function EncodeEntries(entries: seq<LeafEntry>): Bytes {
    if entries == [] then [] else SerializeEntry(entries[0]) + [NEWLINE] + EncodeEntries(entries[1..])
  }

  function Block(slot: Option<Hash>): Digest {
    match slot case Some(h) => h.bytes case None => Zeros()
  }

  /** 256 blocks of 32 bytes, in slot order. */
  function EncodeSlots(slots: Slots): Bytes {
    seq(FANOUT * 32, i requires 0 <= i < FANOUT * 32 => Block(slots[i / 32])[i % 32])
  }

  function Encode(n: HamtNode): Bytes {
    match n
    case Leaf(entries) => [TAG_LEAF] + EncodeEntries(entries)
    case Intermediate(slots) => [TAG_INTERMEDIATE] + EncodeSlots(slots)
  }

  /** Where the encoding puts what: a leaf's lines in entry order, each ended by a newline, after tag 0; slot
      `i` of an intermediate node in the 32 bytes from `1 + 32 i`, all zeros where there is no child, after
      tag 1. */
  lemma EncodingLayout(slots: Slots, i: nat, entries: seq<LeafEntry>, e: LeafEntry)
    requires i < 256
    ensures |Encode(Intermediate(slots))| == 8193 && Encode(Intermediate(slots))[0] == 1
    ensures Encode(Intermediate(slots))[1 + 32 * i..33 + 32 * i] == if slots[i].Some? then slots[i].value.bytes else seq(32, _ => 0)
    ensures Encode(Leaf([])) == [0] && Encode(Leaf(entries + [e])) == Encode(Leaf(entries)) + SerializeEntry(e) + [10]
  {
    hide *;
    SlotLayout(slots, i);
    LeafLayout(entries, e);
  }

  lemma LeafLayout(entries: seq<LeafEntry>, e: LeafEntry)
    ensures Encode(Leaf([])) == [0] && Encode(Leaf(entries + [e])) == Encode(Leaf(entries)) + SerializeEntry(e) + [10]
  {
    EntriesAppend(entries, e);
    var line := SerializeEntry(e);
    assert [TAG_LEAF] + (EncodeEntries(entries) + line + [NEWLINE]) == [TAG_LEAF] + EncodeEntries(entries) + line + [NEWLINE];
  }

  lemma SlotLayout(slots: Slots, i: nat)
    requires i < 256
    ensures |Encode(Intermediate(slots))| == 8193 && Encode(Intermediate(slots))[0] == 1
    ensures Encode(Intermediate(slots))[1 + 32 * i..33 + 32 * i] == if slots[i].Some? then slots[i].value.bytes else seq(32, _ => 0)
  {
    var bytes := Encode(Intermediate(slots));
    var slice := bytes[1 + 32 * i..33 + 32 * i];
    forall j | 0 <= j < 32 ensures slice[j] == Block(slots[i])[j] {
      assert slice[j] == EncodeSlots(slots)[32 * i + j];
      assert (32 * i + j) / 32 == i && (32 * i + j) % 32 == j;
    }
    assert slice == Block(slots[i]);
  }

  lemma {:induction false} EntriesAppend(entries: seq<LeafEntry>, e: LeafEntry)
    ensures EncodeEntries(entries + [e]) == EncodeEntries(entries) + SerializeEntry(e) + [NEWLINE]
  {
    if entries == [] {
      assert entries + [e] == [e] && [e][1..] == [];
      assert EncodeEntries([e]) == SerializeEntry(e) + [NEWLINE] + [];
    } else {
      assert (entries + [e])[1..] == entries[1..] + [e];
      EntriesAppend(entries[1..], e);
    }
  }

  method EncodeNode(n: HamtNode) returns (out: Bytes)
    ensures out == Encode(n)
  {
    match n
    case Leaf(entries) =>
      out := [TAG_LEAF];
      for i := 0 to |entries|
        invariant out + EncodeEntries(entries[i..]) == Encode(n)
      {
        assert entries[i..][0] == entries[i] && entries[i..][1..] == entries[i + 1..];
        out := out + SerializeEntry(entries[i]);
        out := out + [NEWLINE];
      }
      assert out + EncodeEntries([]) == out;
    case Intermediate(slots) =>
      out := EncodeIntermediate(slots);
  }

  method EncodeIntermediate(slots: Slots) returns (out: Bytes)
    ensures out == [TAG_INTERMEDIATE] + EncodeSlots(slots)
  {
    var buffer := new byte[1 + FANOUT * 32](_ => 0);
    buffer[0] := TAG_INTERMEDIATE;
    for i := 0 to FANOUT
      invariant buffer[0] == TAG_INTERMEDIATE
      invariant forall k :: 1 <= k < 1 + i * 32 ==> buffer[k] == Block(slots[(k - 1) / 32])[(k - 1) % 32]
      invariant forall k :: 1 + i * 32 <= k < 1 + FANOUT * 32 ==> buffer[k] == 0
    {
      if slots[i].Some? {
        var start := 1 + i * 32;
        forall j | 0 <= j < 32 {
          buffer[start + j] := slots[i].value.bytes[j];
        }
      }
    }
    out := buffer[..];
  }

  // ----- Decoding

  /** `split` on newlines: always one piece more than there are newlines. */
  function SplitLines(bytes: Bytes): (lines: seq<Bytes>)
    ensures |lines| >= 1
  {
    if bytes == [] then [[]]
    else if bytes[0] == NEWLINE then [[]] + SplitLines(bytes[1..])
    else
      var rest := SplitLines(bytes[1..]);
      [[bytes[0]] + rest[0]] + rest[1..]
  }

  function ParseLines(lines: seq<Bytes>, node: Hash): Result<seq<LeafEntry>, HamtError> {
    if lines == [] then Success([])
    else if lines[0] == [] then ParseLines(lines[1..], node)
    else
      match ParseEntry(lines[0])
      case None => Failure(CorruptNode(node))
      case Some(e) =>
        match ParseLines(lines[1..], node)
        case Failure(err) => Failure(err)
        case Success(rest) => Success([e] + rest)
  }

  function ChildBytes(bytes: Bytes, i: nat): Digest
    requires |bytes| == 1 + FANOUT * 32 && i < FANOUT
  {
    bytes[1 + i * 32..1 + i * 32 + 32]
  }

  function SlotAt(bytes: Bytes, i: nat): Option<Hash>
    requires |bytes| == 1 + FANOUT * 32 && i < FANOUT
  {
    if ChildBytes(bytes, i) == Zeros() then None else Some(Hash(ChildBytes(bytes, i)))
  }

  function DecodeSlots(bytes: Bytes): Slots
    requires |bytes| == 1 + FANOUT * 32
  {
    seq(FANOUT, i requires 0 <= i < FANOUT => SlotAt(bytes, i))
  }

  function Decode(bytes: Bytes, node: Hash): Result<HamtNode, HamtError> {
    if bytes == [] then Failure(CorruptNode(node))
    else if bytes[0] == TAG_LEAF then
      match ParseLines(SplitLines(bytes[1..]), node)
      case Failure(err) => Failure(err)
      case Success(entries) => Success(Leaf(entries))
    else if bytes[0] == TAG_INTERMEDIATE then
      if |bytes| != 1 + FANOUT * 32 then Failure(CorruptNode(node))
      else Success(Intermediate(DecodeSlots(bytes)))
    else Failure(CorruptNode(node))
  }

  lemma {:induction false} ParseLinesSkip(a: seq<Bytes>, b: seq<Bytes>, node: Hash)
    requires ParseLines(a, node).Success?
    ensures ParseLines(a + b, node) ==
            match ParseLines(b, node)
            case Failure(err) => Failure(err)
            case Success(rest) => Success(ParseLines(a, node).value + rest)
  {
    if a == [] {
      assert a + b == b;
      assert forall rest: seq<LeafEntry> :: [] + rest == rest;
    } else {
      assert (a + b)[0] == a[0] && (a + b)[1..] == a[1..] + b;
      ParseLinesSkip(a[1..], b, node);
      var rest := ParseLines(b, node);
      if a[0] != [] && rest.Success? {
        var tail := ParseLines(a[1..], node).value;
        var e := ParseEntry(a[0]).value;
        assert [e] + (tail + rest.value) == [e] + tail + rest.value;
      }
    }
  }

  lemma {:induction false} ParseLinesFails(a: seq<Bytes>, b: seq<Bytes>, node: Hash)
    requires ParseLines(a, node).Failure?
    ensures ParseLines(a + b, node) == Failure(CorruptNode(node))
  {
    assert (a + b)[1..] == a[1..] + b;
    if a[0] == [] || ParseEntry(a[0]).Some? {
      ParseLinesFails(a[1..], b, node);
    }
  }

  method DecodeNode(bytes: Bytes, node: Hash) returns (r: Result<HamtNode, HamtError>)
    ensures r == Decode(bytes, node)
  {
    if bytes == [] {
      return Failure(CorruptNode(node));
    }
    if bytes[0] == TAG_LEAF {
      var lines := SplitLines(bytes[1..]);
      var entries := [];
      for i := 0 to |lines|
        invariant ParseLines(lines[..i], node) == Success(entries)
      {
        assert lines[..i + 1] == lines[..i] + [lines[i]];
        assert lines == lines[..i + 1] + lines[i + 1..];
        var one: seq<Bytes> := [lines[i]];
        assert one[1..] == [];
        assert ParseLines([], node) == Success([]);
        if lines[i] == [] {
          ParseLinesSkip(lines[..i], [lines[i]], node);
          assert entries + [] == entries;
          continue;
        }
        ParseLinesSkip(lines[..i], [lines[i]], node);
        match ParseEntry(lines[i]) {
          case None =>
            ParseLinesFails(lines[..i + 1], lines[i + 1..], node);
            return Failure(CorruptNode(node));
          case Some(entry) =>
            assert [entry] + [] == [entry];
            entries := entries + [entry];
        }
      }
      assert lines[..|lines|] == lines;
      return Success(Leaf(entries));
    }
    if bytes[0] == TAG_INTERMEDIATE {
      if |bytes| != 1 + FANOUT * 32 {
        return Failure(CorruptNode(node));
      }
      var slots: Slots := EmptySlots();
      for i := 0 to FANOUT
        invariant forall k :: 0 <= k < i ==> slots[k] == SlotAt(bytes, k)
        invariant forall k :: i <= k < FANOUT ==> slots[k] == None
      {
        var start := 1 + i * 32;
        var h := bytes[start..start + 32];
        if h != Zeros() {
          slots := slots[i := Some(Hash(h))];
        }
      }
      assert slots == Decode(bytes, node).value.slots;
      return Success(Intermediate(slots));
    }
    return Failure(CorruptNode(node));
  }

  // ----- Round trip

  predicate NoZeroChild(n: HamtNode) {
    n.Intermediate? ==> Some(ZeroHash()) !in n.slots
  }

  lemma {:induction false} SplitLine(line: Bytes, rest: Bytes)
    requires NEWLINE !in line
    ensures SplitLines(line + [NEWLINE] + rest) == [line] + SplitLines(rest)
  {
    var all := line + [NEWLINE] + rest;
    if line == [] {
      assert all[1..] == rest;
    } else {
      assert all[1..] == line[1..] + [NEWLINE] + rest;
      SplitLine(line[1..], rest);
      assert [line[0]] + line[1..] == line;
    }
  }

  lemma {:induction false} EntriesRoundTrip(entries: seq<LeafEntry>, node: Hash)
    requires EntrySerializer()
    ensures ParseLines(SplitLines(EncodeEntries(entries)), node) == Success(entries)
  {
    if entries != [] {
      var line, rest := SerializeEntry(entries[0]), EncodeEntries(entries[1..]);
      SplitLine(line, rest);
      EntriesRoundTrip(entries[1..], node);
      var lines := SplitLines(EncodeEntries(entries));
      assert lines[0] == line && lines[1..] == SplitLines(rest);
      assert [entries[0]] + entries[1..] == entries;
    }
  }

  /** Decoding undoes encoding, whatever hash the error messages would carry. */
  lemma RoundTrip(n: HamtNode, node: Hash)
    requires EntrySerializer() && NoZeroChild(n)
    ensures Decode(Encode(n), node) == Success(n)
  {
    var bytes := Encode(n);
    match n
    case Leaf(entries) =>
      assert bytes[1..] == EncodeEntries(entries);
      EntriesRoundTrip(entries, node);
    case Intermediate(slots) =>
      forall i | 0 <= i < FANOUT ensures SlotAt(bytes, i) == slots[i] {
        assert slots[i] in slots;
        forall j | 0 <= j < 32 ensures bytes[1 + i * 32..1 + i * 32 + 32][j] == Block(slots[i])[j] {
          assert (i * 32 + j) / 32 == i && (i * 32 + j) % 32 == j;
        }
        assert bytes[1 + i * 32..1 + i * 32 + 32] == Block(slots[i]);
      }
      assert Decode(bytes, node).value.slots == slots;
  }

  /** Distinct nodes have distinct encodings. */
  lemma EncodeInjective(a: HamtNode, b: HamtNode)
    requires EntrySerializer() && NoZeroChild(a) && NoZeroChild(b)
    requires Encode(a) == Encode(b)
    ensures a == b
  {
    RoundTrip(a, ZeroHash());
    RoundTrip(b, ZeroHash());
  }

  /** The zero-child proviso is exact: a node with an all-zero child never decodes to itself. */
  lemma RoundTripOnlyWithoutZeroChild(n: HamtNode, node: Hash)
    requires EntrySerializer()
    ensures Decode(Encode(n), node) == Success(n) <==> NoZeroChild(n)
  {
    if NoZeroChild(n) {
      RoundTrip(n, node);
    } else {
      var i :| 0 <= i < FANOUT && n.slots[i] == Some(ZeroHash());
      assert Decode(Encode(n), node).value.slots[i] == SlotAt(Encode(n), i);
    }
  }

  // ----- What decodes

  /** Only the encoding of an intermediate node decodes to it. */
  lemma DecodesToIntermediate(bytes: Bytes, node: Hash, slots: Slots)
    ensures Decode(bytes, node) == Success(Intermediate(slots)) <==>
              bytes == Encode(Intermediate(slots)) && forall i :: 0 <= i < 256 ==> slots[i] != Some(ZeroHash())
  {
    hide Encode, Decode;
    if Decode(bytes, node) == Success(Intermediate(slots)) { OnlyFromEncoding(bytes, node, slots); }
    if bytes == Encode(Intermediate(slots)) && forall i :: 0 <= i < 256 ==> slots[i] != Some(ZeroHash()) {
      FromEncoding(bytes, node, slots);
    }
  }

  lemma FromEncoding(bytes: Bytes, node: Hash, slots: Slots)
    requires bytes == Encode(Intermediate(slots)) && forall i :: 0 <= i < 256 ==> slots[i] != Some(ZeroHash())
    ensures Decode(bytes, node) == Success(Intermediate(slots))
  {
    hide Encode, ParseLines, SplitLines;
    SlotLayout(slots, 0);
    forall i | 0 <= i < FANOUT ensures SlotAt(bytes, i) == slots[i] {
      SlotLayout(slots, i);
      assert ChildBytes(bytes, i) == bytes[1 + 32 * i..33 + 32 * i];
    }
    assert DecodeSlots(bytes) == slots;
  }

  lemma OnlyFromEncoding(bytes: Bytes, node: Hash, slots: Slots)
    requires Decode(bytes, node) == Success(Intermediate(slots))
    ensures bytes == Encode(Intermediate(slots)) && forall i :: 0 <= i < 256 ==> slots[i] != Some(ZeroHash())
  {
    hide Encode, ParseLines, SplitLines;
    forall i | 0 <= i < 256 ensures slots[i] != Some(ZeroHash()) && Block(slots[i]) == ChildBytes(bytes, i) {
      assert slots[i] == SlotAt(bytes, i);
    }
    BlocksAreSlots(bytes, slots);
  }

  lemma BlocksAreSlots(bytes: Bytes, slots: Slots)
    requires |bytes| == 1 + FANOUT * 32 && bytes[0] == TAG_INTERMEDIATE
    requires forall i :: 0 <= i < 256 ==> Block(slots[i]) == ChildBytes(bytes, i)
    ensures bytes == Encode(Intermediate(slots))
  {
    forall k | 0 <= k < FANOUT * 32 ensures EncodeSlots(slots)[k] == bytes[1 + k] {
      assert Block(slots[k / 32])[k % 32] == ChildBytes(bytes, k / 32)[k % 32];
    }
    assert bytes[1..] == EncodeSlots(slots);
  }

  /** What does not decode: no bytes, another tag, an intermediate node of another length, or a leaf with a
      line that is neither empty nor an entry. */
  lemma DecodesUnlessCorrupt(bytes: Bytes, node: Hash)
    ensures Decode(bytes, node).Failure? <==>
              || bytes == [] || bytes[0] > 1 || (bytes[0] == 1 && |bytes| != 8193)
              || (bytes[0] == 0 && exists line :: line in SplitLines(bytes[1..]) && line != [] && ParseEntry(line) == None)
    ensures Decode(bytes, node).Failure? ==> Decode(bytes, node).error == CorruptNode(node)
    ensures bytes != [] && bytes[0] == 0 && Decode(bytes, node).Success? ==> Decode(bytes, node).value.Leaf?
  {
    if bytes != [] && bytes[0] == 0 { LinesParse(SplitLines(bytes[1..]), node); }
  }

  lemma {:induction false} LinesParse(lines: seq<Bytes>, node: Hash)
    ensures ParseLines(lines, node).Failure? <==> exists line :: line in lines && line != [] && ParseEntry(line) == None
    ensures ParseLines(lines, node).Failure? ==> ParseLines(lines, node).error == CorruptNode(node)
  {
    if lines != [] { LinesParse(lines[1..], node); }
  }

  /** The lines of a leaf: its bytes cut at every newline. */
  lemma {:induction false} LinesAreCut(bytes: Bytes)
    ensures Unlines(SplitLines(bytes)) == bytes && forall line :: line in SplitLines(bytes) ==> NEWLINE !in line
  {
    if bytes != [] {
      LinesAreCut(bytes[1..]);
      assert bytes == [bytes[0]] + bytes[1..];
    }
  }

  ghost function Unlines(lines: seq<Bytes>): Bytes {
    if lines == [] then [] else if |lines| == 1 then lines[0] else lines[0] + [NEWLINE] + Unlines(lines[1..])
  }
}
