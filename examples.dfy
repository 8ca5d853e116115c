/** Concrete buffers: what the decoder makes of the smallest values, of the
    forms it refuses, of a short payload and of a repeated key, and the
    sample dictionary `d3:bar4:spam3:fooi42ee` in both directions. */
module Examples {
  import opened Wrappers
  import opened Builtins
  import D = Decoder
  import E = Encoder
  import opened RoundTrip

  // ---------------------------------------------------------------------
  // Small encodings

  lemma JoinTwo(a: seq<byte>, b: seq<byte>)
    ensures E.Join([a, b]) == a + b
  {
    var one, two := [a], [a, b];
    assert one[..0] == [];
    assert E.Join(one) == a;
    assert two[..1] == one;
    assert E.Join(two) == E.Join(one) + b;
  }

  lemma JoinThree(a: seq<byte>, b: seq<byte>, c: seq<byte>)
    ensures E.Join([a, b, c]) == (a + b) + c
  {
    var three := [a, b, c];
    assert three[..2] == [a, b];
    JoinTwo(a, b);
  }

  lemma SmallInt(n: nat)
    requires n < 10
    ensures E.Encode(Embed(D.Int(n))) == [LowerI, Zero + n, LowerE]
  {
  }

  lemma ShortBytes(b: seq<byte>)
    requires 0 < |b| < 10
    ensures E.EncodeBytes(b) == [Zero + |b|, Colon] + b
    ensures E.Encode(Embed(D.Bytes(b))) == E.EncodeBytes(b)
  {
  }

  // ---------------------------------------------------------------------
  // The smallest values and the refused forms

  /** `i0e` decodes to zero. */
  lemma ZeroInt()
    ensures D.DecodeBuffer([LowerI, Zero, LowerE]) == Some(D.Int(0))
  {
    SmallInt(0);
    DecodeEncode(D.Int(0), []);
    assert [LowerI, Zero, LowerE] + [] == [LowerI, Zero, LowerE];
  }

  /** `0:` decodes to the empty byte-string. */
  lemma EmptyBytes()
    ensures D.DecodeBuffer([Zero, Colon]) == Some(D.Bytes([]))
  {
    assert E.Encode(Embed(D.Bytes([]))) == [Zero, Colon];
    DecodeEncode(D.Bytes([]), []);
    assert [Zero, Colon] + [] == [Zero, Colon];
  }

  /** `le` decodes to the empty list. */
  lemma EmptyList()
    ensures D.DecodeBuffer([LowerL, LowerE]) == Some(D.Value.List([]))
  {
    EncodeEmbedList([]);
    assert Parts([]) == [];
    DecodeEncode(D.Value.List([]), []);
    assert [LowerL] + [] + [LowerE] + [] == [LowerL, LowerE];
  }

  /** `de` decodes to the empty dictionary. */
  lemma EmptyDict()
    ensures D.DecodeBuffer([LowerD, LowerE]) == Some(D.Dict([]))
  {
    EncodeEmbedDict([]);
    assert EntryParts([]) == [];
    DecodeEncode(D.Dict([]), []);
    assert [LowerD] + [] + [LowerE] + [] == [LowerD, LowerE];
  }

  /** An empty buffer, or one whose first byte opens no primitive, is
      refused. */
  lemma UnknownLeadRefused(data: seq<byte>)
    requires |data| == 0 || (!IsDigit(data[0]) && data[0] !in [LowerI, LowerL, LowerD])
    ensures D.DecodeBuffer(data) == None
  {
    if |data| > 0 {
      D.ParseAtDispatch(data, 0);
    }
  }

  /** `i-0e` and `i-05e` are refused, and so is anything else that starts
      `i-0`. */
  lemma MinusZeroRefused(rest: seq<byte>)
    ensures D.DecodeBuffer([LowerI, Minus, Zero] + rest) == None
  {
    D.ParseAtDispatch([LowerI, Minus, Zero] + rest, 0);
  }

  /** `i03e` is refused. */
  lemma LeadingZeroIntRefused()
    ensures D.DecodeBuffer([LowerI, Zero, 0x33, LowerE]) == None
  {
    D.ParseAtDispatch([LowerI, Zero, 0x33, LowerE], 0);
  }

  /** `03:abc` is refused. */
  lemma LeadingZeroLengthRefused()
    ensures D.DecodeBuffer([Zero, 0x33, Colon, 0x61, 0x62, 0x63]) == None
  {
    D.ParseAtDispatch([Zero, 0x33, Colon, 0x61, 0x62, 0x63], 0);
  }

  /** A list whose closing `e` is missing, such as `l4:spam`, is refused:
      the loop runs off the end of the buffer. */
  lemma UnterminatedList(v: D.Value)
    ensures D.DecodeBuffer([LowerL] + E.Encode(Embed(v))) == None
  {
    var data := [LowerL] + E.Encode(Embed(v));
    assert data[1..|data|] == E.Encode(Embed(v));
    ParseEncoded(data, 1, v, |data|);
    OpensWithoutEnd(v);
    D.ParseAtList(data, 0);
    D.ListItemsStep(data, 1, [], v, |data|);
  }

  /** `4:sp` reads the two bytes there are and no error is raised. */
  lemma ShortPayload()
    ensures D.DecodeBuffer([0x34, Colon, 0x73, 0x70]) == Some(D.Bytes([0x73, 0x70]))
  {
    var data: seq<byte> := [0x34, Colon, 0x73, 0x70];
    D.ParseAtDispatch(data, 0);
    assert Find(data, Colon, 0) == Some(1);
    assert data[0..1] == [0x34] && [0x34][..0] == [];
    assert Slice(data, 2, 6) == data[2..4] == [0x73, 0x70];
    assert D.StrAt(data, 0) == Some(([0x73, 0x70], 6));
  }

  // ---------------------------------------------------------------------
  // The sample dictionary

  // "bar", "spam", "foo"
  const Bar: seq<byte> := [0x62, 0x61, 0x72]
  const Spam: seq<byte> := [0x73, 0x70, 0x61, 0x6D]
  const Foo: seq<byte> := [0x66, 0x6F, 0x6F]

  /** `3:bar4:spam`: the first entry of the sample. */
  const BarEntry: seq<byte> := ([0x33, Colon] + Bar) + ([0x34, Colon] + Spam)
  /** `3:fooi42e`: the second entry of the sample. */
  const FooEntry: seq<byte> := ([0x33, Colon] + Foo) + [LowerI, 0x34, 0x32, LowerE]
  /** `d3:bar4:spam3:fooi42ee` */
  const Sample: seq<byte> := [LowerD] + (BarEntry + FooEntry) + [LowerE]

  /** `i42e` */
  lemma FortyTwo()
    ensures E.Encode(Embed(D.Int(42))) == [LowerI, 0x34, 0x32, LowerE]
  {
    assert Digits(4) == [0x34];
    assert Digits(42) == Digits(4) + [0x32];
  }

  /** A dictionary of two entries encodes as `d`, each key and value, `e`. */
  lemma EncodeTwoEntries(k0: seq<byte>, v0: D.Value, k1: seq<byte>, v1: D.Value)
    ensures E.Encode(Embed(D.Dict([(k0, v0), (k1, v1)])))
         == [LowerD] + ((E.EncodeBytes(k0) + E.Encode(Embed(v0))) + (E.EncodeBytes(k1) + E.Encode(Embed(v1)))) + [LowerE]
  {
    var entries := [(k0, v0), (k1, v1)];
    EncodeEmbedDict(entries);
    assert EntryParts(entries) == [E.EncodeBytes(k0) + E.Encode(Embed(v0)), E.EncodeBytes(k1) + E.Encode(Embed(v1))];
    JoinTwo(E.EncodeBytes(k0) + E.Encode(Embed(v0)), E.EncodeBytes(k1) + E.Encode(Embed(v1)));
  }

  /** The sample is the encoding of `bar` -> `spam`, `foo` -> 42. */
  lemma SampleEncodes()
    ensures E.Encode(Embed(D.Dict([(Bar, D.Bytes(Spam)), (Foo, D.Int(42))]))) == Sample
  {
    EncodeTwoEntries(Bar, D.Bytes(Spam), Foo, D.Int(42));
    FortyTwo();
    ShortBytes(Bar);
    ShortBytes(Spam);
    ShortBytes(Foo);
  }

  /** The sample decodes to `bar` -> `spam`, `foo` -> 42, in that order,
      and that value re-encodes byte for byte. */
  lemma SampleRoundTrip()
    ensures D.DecodeBuffer(Sample) == Some(D.Dict([(Bar, D.Bytes(Spam)), (Foo, D.Int(42))]))
    ensures E.Encode(Embed(D.Dict([(Bar, D.Bytes(Spam)), (Foo, D.Int(42))]))) == Sample
  {
    var v := D.Dict([(Bar, D.Bytes(Spam)), (Foo, D.Int(42))]);
    SampleEncodes();
    assert D.KeysOf(v.entries) == [Bar, Foo];
    DecodeEncode(v, []);
    assert Sample + [] == Sample;
  }

  // ---------------------------------------------------------------------
  // A repeated key

  /** `1:ai1e`, `1:bi2e` and `1:ai3e`: three entries, the last repeating
      the first one's key. */
  const EntryA1: seq<byte> := [0x31, Colon, 0x61] + [LowerI, 0x31, LowerE]
  const EntryB2: seq<byte> := [0x31, Colon, 0x62] + [LowerI, 0x32, LowerE]
  const EntryA3: seq<byte> := [0x31, Colon, 0x61] + [LowerI, 0x33, LowerE]
  /** `d1:ai1e1:bi2e1:ai3ee` */
  const Repeated: seq<byte> := [LowerD] + ((EntryA1 + EntryB2) + EntryA3) + [LowerE]

  /** The wire value of `Repeated`: every entry kept, in order. */
  const RepeatedWire: D.Value := D.Dict([([0x61], D.Int(1)), ([0x62], D.Int(2)), ([0x61], D.Int(3))])

  /** An entry with a one-byte key and a one-digit integer. */
  lemma SmallEntry(key: byte, n: nat)
    requires n < 10
    ensures E.EncodeBytes([key]) + E.Encode(Embed(D.Int(n))) == [0x31, Colon, key] + [LowerI, Zero + n, LowerE]
  {
    SmallInt(n);
  }

  /** A dictionary of three entries encodes as `d`, each key and value,
      `e`. */
  lemma EncodeThreeEntries(k0: seq<byte>, v0: D.Value, k1: seq<byte>, v1: D.Value, k2: seq<byte>, v2: D.Value)
    ensures E.Encode(Embed(D.Dict([(k0, v0), (k1, v1), (k2, v2)])))
         == [LowerD] + (((E.EncodeBytes(k0) + E.Encode(Embed(v0))) + (E.EncodeBytes(k1) + E.Encode(Embed(v1))))
                        + (E.EncodeBytes(k2) + E.Encode(Embed(v2)))) + [LowerE]
  {
    var entries := [(k0, v0), (k1, v1), (k2, v2)];
    EncodeEmbedDict(entries);
    var p0, p1, p2 := E.EncodeBytes(k0) + E.Encode(Embed(v0)), E.EncodeBytes(k1) + E.Encode(Embed(v1)), E.EncodeBytes(k2) + E.Encode(Embed(v2));
    assert EntryParts(entries) == [p0, p1, p2];
    JoinThree(p0, p1, p2);
  }

  /** The repeated-key buffer is the encoding of its wire value. */
  lemma RepeatedEncodes()
    ensures E.Encode(Embed(RepeatedWire)) == Repeated
  {
    EncodeThreeEntries([0x61], D.Int(1), [0x62], D.Int(2), [0x61], D.Int(3));
    SmallEntry(0x61, 1);
    SmallEntry(0x62, 2);
    SmallEntry(0x61, 3);
  }

  /** Assigning the three entries in order leaves `a` -> 3, `b` -> 2. */
  lemma RepeatedCollapses()
    ensures D.Collapse(RepeatedWire) == D.Dict([([0x61], D.Int(3)), ([0x62], D.Int(2))])
  {
    var entries := RepeatedWire.entries;
    var collapsed := seq(|entries|, k requires 0 <= k < |entries| => (entries[k].0, D.Collapse(entries[k].1)));
    assert collapsed == entries;
    var one, two := entries[..1], entries[..2];
    assert two[..1] == one && one[..0] == [];
    assert D.Assign(one) == [([0x61], D.Int(1))];
    assert D.Assign(two) == [([0x61], D.Int(1)), ([0x62], D.Int(2))];
  }

  /** The key `a` is assigned twice: it keeps its first place and takes its
      last value. */
  lemma RepeatedKey()
    ensures D.DecodeBuffer(Repeated) == Some(D.Dict([([0x61], D.Int(3)), ([0x62], D.Int(2))]))
  {
    RepeatedEncodes();
    assert Repeated[0..|Repeated|] == Repeated;
    ParseEncoded(Repeated, 0, RepeatedWire, |Repeated|);
    RepeatedCollapses();
  }
}
