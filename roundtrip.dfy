/** How the two halves fit together: decoding an encoding gives the value
    back with its keys in the same order, the cursor ends exactly at the end
    of the encoding, and a buffer the decoder reads to its end without a
    repeated key is the encoding of what it reads. */
module RoundTrip {
  import opened Wrappers
  import opened Builtins
  import Common
  import D = Decoder
  import E = Encoder

  /** A decoded value as the encoder's input: byte-strings stay bytes and
      dictionary keys become byte-string values. */
  function Embed(v: D.Value): E.Encodable {
    match v
    case Bytes(b) => E.Encodable.Bytes(b)
    case Int(n) => E.Int(n)
    case List(items) => E.Encodable.List(seq(|items|, k requires 0 <= k < |items| => Embed(items[k])))
    case Dict(entries) =>
      E.Dict(seq(|entries|, k requires 0 <= k < |entries| => (E.Encodable.Bytes(entries[k].0), Embed(entries[k].1))))
  }

  /** The bytes `s` sit in `data` from position `p` on. */
  predicate Occurs(data: seq<byte>, p: nat, s: seq<byte>) {
    p + |s| <= |data| && data[p..p + |s|] == s
  }

  lemma OccursThree(data: seq<byte>, p: nat, a: seq<byte>, b: seq<byte>, c: seq<byte>)
    requires Occurs(data, p, a + b + c)
    ensures Occurs(data, p, a) && Occurs(data, p + |a|, b) && Occurs(data, p + |a| + |b|, c)
  {
    OccursSplit(data, p, a + b, c);
    OccursSplit(data, p, a, b);
  }

  lemma OccursByte(data: seq<byte>, p: nat, c: byte)
    requires Occurs(data, p, [c])
    ensures p < |data| && data[p] == c
  {
    assert data[p] == data[p..p + 1][0];
  }

  lemma OccursSplit(data: seq<byte>, p: nat, a: seq<byte>, b: seq<byte>)
    requires Occurs(data, p, a + b)
    ensures Occurs(data, p, a) && Occurs(data, p + |a|, b)
  {
    assert data[p..p + |a|] == (a + b)[..|a|];
    assert data[p + |a|..p + |a| + |b|] == (a + b)[|a|..];
  }

  // ---------------------------------------------------------------------
  // The encodings of decoded values, piece by piece

  function Parts(items: seq<D.Value>): seq<seq<byte>> {
    seq(|items|, k requires 0 <= k < |items| => E.Encode(Embed(items[k])))
  }

  function EntryParts(entries: D.Entries): seq<seq<byte>> {
    seq(|entries|, k requires 0 <= k < |entries| => E.EncodeBytes(entries[k].0) + E.Encode(Embed(entries[k].1)))
  }

  lemma EncodeEmbedList(items: seq<D.Value>)
    ensures E.Encode(Embed(D.Value.List(items))) == [LowerL] + E.Join(Parts(items)) + [LowerE]
  {
    var embedded := Embed(D.Value.List(items));
    assert seq(|embedded.items|, k requires 0 <= k < |embedded.items| => E.Encode(embedded.items[k])) == Parts(items);
  }

  lemma EncodeEmbedDict(entries: D.Entries)
    ensures E.Encode(Embed(D.Dict(entries))) == [LowerD] + E.Join(EntryParts(entries)) + [LowerE]
  {
    var embedded := Embed(D.Dict(entries));
    var es := embedded.entries;
    assert seq(|es|, k requires 0 <= k < |es| => E.Encode(es[k].0) + E.Encode(es[k].1)) == EntryParts(entries);
  }

  lemma EncodeEmbedListOf(v: D.Value)
    requires v.List?
    ensures E.Encode(Embed(v)) == [LowerL] + E.Join(Parts(v.items)) + [LowerE]
  {
    EncodeEmbedList(v.items);
  }

  lemma EncodeEmbedDictOf(v: D.Value)
    requires v.Dict?
    ensures E.Encode(Embed(v)) == [LowerD] + E.Join(EntryParts(v.entries)) + [LowerE]
  {
    EncodeEmbedDict(v.entries);
  }

  /** An encoding that opens with the byte `c`: `c` at `p`, the rest
      after it. */
  lemma OccursOpen(data: seq<byte>, p: nat, c: byte, rest: seq<byte>)
    requires Occurs(data, p, [c] + rest)
    ensures p < |data| && data[p] == c && Occurs(data, p + 1, rest)
  {
    assert data[p] == ([c] + rest)[0];
    assert data[p + 1..p + 1 + |rest|] == ([c] + rest)[1..];
  }

  /** A list's encoding in a buffer: the `l`, then the elements' encodings
      and the closing `e`. */
  lemma OccursList(data: seq<byte>, p: nat, v: D.Value)
    requires v.List? && Occurs(data, p, E.Encode(Embed(v)))
    ensures p < |data| && data[p] == LowerL
    ensures Occurs(data, p + 1, E.Join(Parts(v.items)) + [LowerE])
    ensures |E.Encode(Embed(v))| == |E.Join(Parts(v.items))| + 2
  {
    EncodeEmbedListOf(v);
    OccursOpen(data, p, LowerL, E.Join(Parts(v.items)) + [LowerE]);
  }

  /** A dictionary's encoding in a buffer: the `d`, then the entries'
      encodings and the closing `e`. */
  lemma OccursDict(data: seq<byte>, p: nat, v: D.Value)
    requires v.Dict? && Occurs(data, p, E.Encode(Embed(v)))
    ensures p < |data| && data[p] == LowerD
    ensures Occurs(data, p + 1, E.Join(EntryParts(v.entries)) + [LowerE])
    ensures |E.Encode(Embed(v))| == |E.Join(EntryParts(v.entries))| + 2
  {
    EncodeEmbedDictOf(v);
    OccursOpen(data, p, LowerD, E.Join(EntryParts(v.entries)) + [LowerE]);
  }

  /** A part made of two halves, in the join of the parts at `p`: the
      halves from `q` and from `mid`, up to `next`. */
  lemma OccursHalves(data: seq<byte>, p: nat, parts: seq<seq<byte>>, j: nat, a: seq<byte>, b: seq<byte>, q: nat, mid: nat, next: nat)
    requires j < |parts| && Occurs(data, p, E.Join(parts)) && parts[j] == a + b
    requires q == p + |E.Join(parts[..j])| && mid == q + |a| && next == p + |E.Join(parts[..j + 1])|
    ensures Occurs(data, q, a) && Occurs(data, mid, b) && next == mid + |b|
  {
    OccursPart(data, p, parts, j);
    OccursSplit(data, q, a, b);
  }

  /** The `k`-th part sits right after the join of the parts before it. */
  lemma OccursPart(data: seq<byte>, p: nat, parts: seq<seq<byte>>, k: nat)
    requires k < |parts| && Occurs(data, p, E.Join(parts))
    ensures Occurs(data, p + |E.Join(parts[..k])|, parts[k])
    ensures E.Join(parts[..k + 1]) == E.Join(parts[..k]) + parts[k]
  {
    assert parts[..k + 1][..k] == parts[..k];
    assert parts == parts[..k + 1] + parts[k + 1..];
    E.JoinAppend(parts[..k + 1], parts[k + 1..]);
    OccursSplit(data, p, E.Join(parts[..k + 1]), E.Join(parts[k + 1..]));
    OccursSplit(data, p, E.Join(parts[..k]), parts[k]);
  }

  // ---------------------------------------------------------------------
  // Decoding an encoding

  /** A byte-string's encoding reads back as the same bytes. */
  lemma StrAtEncoded(data: seq<byte>, p: nat, b: seq<byte>)
    requires Occurs(data, p, E.EncodeBytes(b))
    ensures D.StrAt(data, p) == Some((b, p + |E.EncodeBytes(b)|))
  {
    var colon := p + |Digits(|b|)|;
    StrLaidOut(data, p, b, colon);
    CanonicalLength(data, p, Digits(|b|), colon);
    ParseNatDigits(|b|);
    D.StrAtOf(data, p, colon, |b|);
    assert Slice(data, colon + 1, colon + 1 + |b|) == b;
  }

  /** The length's digits from `p`, a colon, then the payload. */
  lemma StrLaidOut(data: seq<byte>, p: nat, b: seq<byte>, colon: nat)
    requires Occurs(data, p, E.EncodeBytes(b)) && colon == p + |Digits(|b|)|
    ensures colon < |data| && data[p..colon] == Digits(|b|) && data[colon] == Colon
    ensures Occurs(data, colon + 1, b) && |E.EncodeBytes(b)| == colon + 1 + |b| - p
  {
    var digits := Digits(|b|);
    assert E.EncodeBytes(b) == digits + [Colon] + b;
    OccursThree(data, p, digits, [Colon], b);
    OccursByte(data, colon, Colon);
  }

  /** Canonical digits and then a colon: the colon is the first one, and a
      leading zero is the whole length. */
  lemma CanonicalLength(data: seq<byte>, p: nat, digits: seq<byte>, colon: nat)
    requires CanonicalDigits(digits) && colon < |data| && data[colon] == Colon
    requires colon == p + |digits| && data[p..colon] == digits
    ensures Find(data, Colon, p) == Some(colon)
    ensures data[p] == Zero ==> p + 1 < |data| && data[p + 1] == Colon
  {
    assert forall k :: p <= k < colon ==> data[k] == digits[k - p];
    FindFirst(data, Colon, p, colon);
    assert data[p] == digits[0];
  }

  /** The first `c` at or after `from`. */
  lemma FindFirst(data: seq<byte>, c: byte, from: nat, at: nat)
    requires from <= at < |data| && data[at] == c
    requires forall k :: from <= k < at ==> data[k] != c
    ensures Find(data, c, from) == Some(at)
  {
  }

  lemma IntAtEncoded(data: seq<byte>, p: nat, n: int)
    requires Occurs(data, p, E.EncodeInt(n))
    ensures D.IntAt(data, p) == Some((n, p + |E.EncodeInt(n)|))
  {
    var end := p + 1 + |ShowInt(n)|;
    IntLaidOut(data, p, n, end);
    ParseIntShowInt(n);
    IntAtOf(data, p, end, n);
  }

  /** The `i`, the decimal, then the first `e` after it. */
  lemma IntLaidOut(data: seq<byte>, p: nat, n: int, end: nat)
    requires Occurs(data, p, E.EncodeInt(n)) && end == p + 1 + |ShowInt(n)|
    ensures Find(data, LowerE, p + 1) == Some(end) && data[p + 1..end] == ShowInt(n)
    ensures |E.EncodeInt(n)| == end + 1 - p
  {
    var text := ShowInt(n);
    assert E.EncodeInt(n) == [LowerI] + text + [LowerE];
    OccursThree(data, p, [LowerI], text, [LowerE]);
    OccursByte(data, end, LowerE);
    assert forall k :: p + 1 <= k < end ==> data[k] == text[k - p - 1];
    FindFirst(data, LowerE, p + 1, end);
  }

  /** `_decode_int` reads a canonical decimal up to its `e`. */
  lemma IntAtOf(data: seq<byte>, p: nat, end: nat, n: int)
    requires Find(data, LowerE, p + 1) == Some(end) && data[p + 1..end] == ShowInt(n)
    requires ParseInt(ShowInt(n)) == Some(n)
    ensures D.IntAt(data, p) == Some((n, end + 1))
  {
    var text := ShowInt(n);
    assert data[p + 1] == text[0];
    if text[0] == Minus {
      assert Digits(-n)[0] != Zero;
      assert data[p + 2] == text[1] == Digits(-n)[0];
    }
    if text[0] == Zero {
      assert n == 0 && |text| == 1;
    }
  }

  lemma ParseBytesEncoded(data: seq<byte>, p: nat, b: seq<byte>, end: nat)
    requires Occurs(data, p, E.EncodeBytes(b)) && end == p + |E.EncodeBytes(b)|
    ensures D.ParseAt(data, p) == Some((D.Bytes(b), end))
  {
    assert data[p] == Digits(|b|)[0];
    D.ParseAtDispatch(data, p);
    StrAtEncoded(data, p, b);
  }

  lemma ParseIntEncoded(data: seq<byte>, p: nat, n: int, end: nat)
    requires Occurs(data, p, E.EncodeInt(n)) && end == p + |E.EncodeInt(n)|
    ensures D.ParseAt(data, p) == Some((D.Int(n), end))
  {
    assert data[p] == data[p..end][0] == LowerI;
    D.ParseAtDispatch(data, p);
    IntAtEncoded(data, p, n);
  }

  /** No encoding opens with the byte that closes a list or a dictionary,
      so the decoder's loops never mistake an element for their end. */
  lemma OpensWithoutEnd(v: D.Value)
    ensures |E.Encode(Embed(v))| >= 2 && E.Encode(Embed(v))[0] != LowerE
  {
    E.EncodingOpensWithKind(Embed(v));
    Common.FromCodeCases(LowerE);
  }

  /** Decoding the encoding of any value, wherever it sits in a buffer,
      gives the value back with its keys in the same order and leaves the
      cursor just past the encoding: encodings are self-delimiting. */
  lemma {:induction false} ParseEncoded(data: seq<byte>, p: nat, v: D.Value, end: nat)
    requires Occurs(data, p, E.Encode(Embed(v))) && end == p + |E.Encode(Embed(v))|
    ensures D.ParseAt(data, p) == Some((v, end))
    decreases v, 6
  {
    match v
    case Bytes(b) =>
      assert E.Encode(Embed(v)) == E.EncodeBytes(b);
      ParseBytesEncoded(data, p, b, end);
    case Int(n) =>
      assert E.Encode(Embed(v)) == E.EncodeInt(n);
      ParseIntEncoded(data, p, n, end);
    case List(_) => ParseListCase(data, p, v, end);
    case Dict(_) => ParseDictCase(data, p, v, end);
  }

  lemma {:induction false} ParseListCase(data: seq<byte>, p: nat, v: D.Value, end: nat)
    requires v.List? && Occurs(data, p, E.Encode(Embed(v))) && end == p + |E.Encode(Embed(v))|
    ensures D.ParseAt(data, p) == Some((v, end))
    decreases v, 5
  {
    OccursList(data, p, v);
    ParseListEncoded(data, p, v, end);
  }

  lemma {:induction false} ParseDictCase(data: seq<byte>, p: nat, v: D.Value, end: nat)
    requires v.Dict? && Occurs(data, p, E.Encode(Embed(v))) && end == p + |E.Encode(Embed(v))|
    ensures D.ParseAt(data, p) == Some((v, end))
    decreases v, 5
  {
    OccursDict(data, p, v);
    ParseDictEncoded(data, p, v, end);
  }

  /** A list laid out from `p`: its `l`, its elements' encodings and an
      `e`, read back as the list, ending at `end`. */
  lemma {:induction false} ParseListEncoded(data: seq<byte>, p: nat, v: D.Value, end: nat)
    requires v.List? && p < |data| && data[p] == LowerL
    requires Occurs(data, p + 1, E.Join(Parts(v.items)) + [LowerE])
    requires end == p + |E.Join(Parts(v.items))| + 2
    ensures D.ParseAt(data, p) == Some((v, end))
    decreases v, 4
  {
    ItemsEncoded(data, p + 1, v, end);
    D.ParseAtList(data, p);
  }

  /** A dictionary laid out from `p`: its `d`, its entries' encodings and
      an `e`, read back as the dictionary, ending at `end`. */
  lemma {:induction false} ParseDictEncoded(data: seq<byte>, p: nat, v: D.Value, end: nat)
    requires v.Dict? && p < |data| && data[p] == LowerD
    requires Occurs(data, p + 1, E.Join(EntryParts(v.entries)) + [LowerE])
    requires end == p + |E.Join(EntryParts(v.entries))| + 2
    ensures D.ParseAt(data, p) == Some((v, end))
    decreases v, 4
  {
    EntriesEncoded(data, p + 1, v, end);
    D.ParseAtDict(data, p);
  }

  /** The list loop, started on the body of a list's encoding at `p`,
      reads every element back and stops past the closing `e`. */
  lemma ItemsEncoded(data: seq<byte>, p: nat, v: D.Value, stop: nat)
    requires v.List? && Occurs(data, p, E.Join(Parts(v.items)) + [LowerE])
    requires stop == p + |E.Join(Parts(v.items))| + 1
    ensures D.ParseListItems(data, p, []) == Some((v, stop))
    decreases v, 3
  {
    assert v == D.Value.List(v.items);
    var pos := ItemsLaidOut(data, p, v);
    D.ListItemsRead(data, v.items, pos, p, stop - 1, stop);
  }

  /** Where each element of a list's body starts, and what the decoder
      reads there. */
  lemma {:induction false} ItemsLaidOut(data: seq<byte>, p: nat, v: D.Value) returns (pos: seq<nat>)
    requires v.List? && Occurs(data, p, E.Join(Parts(v.items)) + [LowerE])
    ensures |pos| == |v.items| + 1 && pos[0] == p && pos[|v.items|] == p + |E.Join(Parts(v.items))|
    ensures forall j :: 0 <= j < |v.items| ==> D.ElementRead(data, v.items, pos, j)
    ensures pos[|v.items|] < |data| && data[pos[|v.items|]] == LowerE
    decreases v, 2
  {
    var parts := Parts(v.items);
    var stop := p + |E.Join(parts)|;
    ClosingEnd(data, p, E.Join(parts), stop);
    pos := Offsets(p, parts);
    assert |parts| == |v.items| && pos[|v.items|] == stop;
    ElementsRead(data, p, v, pos);
  }

  /** Every element of a list's body reads back where `Offsets` places it. */
  lemma {:induction false} ElementsRead(data: seq<byte>, p: nat, v: D.Value, pos: seq<nat>)
    requires v.List? && Occurs(data, p, E.Join(Parts(v.items))) && pos == Offsets(p, Parts(v.items))
    ensures forall j :: 0 <= j < |v.items| ==> D.ElementRead(data, v.items, pos, j)
    decreases v, 1
  {
    forall j | 0 <= j < |v.items| ensures D.ElementRead(data, v.items, pos, j) {
      ElementEncoded(data, p, v, j, pos[j], pos[j + 1]);
    }
  }

  /** The dictionary loop, started on the body of a dictionary's encoding at
      `p`, reads every entry back, in order, and stops past the closing
      `e`. */
  lemma EntriesEncoded(data: seq<byte>, p: nat, v: D.Value, stop: nat)
    requires v.Dict? && Occurs(data, p, E.Join(EntryParts(v.entries)) + [LowerE])
    requires stop == p + |E.Join(EntryParts(v.entries))| + 1
    ensures D.ParseDictItems(data, p, []) == Some((v, stop))
    decreases v, 3
  {
    var pos, mid := EntriesLaidOut(data, p, v);
    D.DictItemsRead(data, v.entries, pos, mid, p, stop - 1, stop);
  }

  /** Where each entry of a dictionary's body starts and where its value
      starts, and what the decoder reads there. */
  lemma {:induction false} EntriesLaidOut(data: seq<byte>, p: nat, v: D.Value) returns (pos: seq<nat>, mid: seq<nat>)
    requires v.Dict? && Occurs(data, p, E.Join(EntryParts(v.entries)) + [LowerE])
    ensures |pos| == |v.entries| + 1 && |mid| == |v.entries|
    ensures pos[0] == p && pos[|v.entries|] == p + |E.Join(EntryParts(v.entries))|
    ensures forall j :: 0 <= j < |v.entries| ==> D.EntryRead(data, v.entries, pos, mid, j)
    ensures pos[|v.entries|] < |data| && data[pos[|v.entries|]] == LowerE
    decreases v, 2
  {
    var parts := EntryParts(v.entries);
    var stop := p + |E.Join(parts)|;
    ClosingEnd(data, p, E.Join(parts), stop);
    pos := Offsets(p, parts);
    assert |parts| == |v.entries| && pos[|v.entries|] == stop;
    mid := KeyEnds(pos, v.entries);
    EntriesRead(data, p, v, pos, mid);
  }

  /** Where each entry's value starts: just past its key's encoding. */
  function KeyEnds(pos: seq<nat>, entries: D.Entries): (mid: seq<nat>)
    requires |pos| == |entries| + 1
    ensures |mid| == |entries| && forall j :: 0 <= j < |entries| ==> mid[j] == pos[j] + |E.EncodeBytes(entries[j].0)|
  {
    seq(|entries|, j requires 0 <= j < |entries| => pos[j] + |E.EncodeBytes(entries[j].0)|)
  }

  /** Every entry of a dictionary's body reads back where `Offsets` and
      `KeyEnds` place its key and its value. */
  lemma {:induction false} EntriesRead(data: seq<byte>, p: nat, v: D.Value, pos: seq<nat>, mid: seq<nat>)
    requires v.Dict? && Occurs(data, p, E.Join(EntryParts(v.entries)))
    requires pos == Offsets(p, EntryParts(v.entries)) && mid == KeyEnds(pos, v.entries)
    ensures forall j :: 0 <= j < |v.entries| ==> D.EntryRead(data, v.entries, pos, mid, j)
    decreases v, 1
  {
    forall j | 0 <= j < |v.entries| ensures D.EntryRead(data, v.entries, pos, mid, j) {
      EntryEncoded(data, p, v, j, pos[j], mid[j], pos[j + 1]);
    }
  }

  /** Where the parts of a body laid out from `p` start, and where the last
      one ends. */
  function Offsets(p: nat, parts: seq<seq<byte>>): (pos: seq<nat>)
    ensures |pos| == |parts| + 1 && pos[0] == p && pos[|parts|] == p + |E.Join(parts)|
    ensures forall j :: 0 <= j <= |parts| ==> pos[j] == p + |E.Join(parts[..j])|
  {
    assert parts[..|parts|] == parts && parts[..0] == [];
    seq(|parts| + 1, j requires 0 <= j <= |parts| => p + |E.Join(parts[..j])|)
  }

  /** The `e` that closes a body laid out from `p`. */
  lemma ClosingEnd(data: seq<byte>, p: nat, body: seq<byte>, stop: nat)
    requires Occurs(data, p, body + [LowerE]) && stop == p + |body|
    ensures Occurs(data, p, body) && stop < |data| && data[stop] == LowerE
  {
    OccursSplit(data, p, body, [LowerE]);
    assert data[stop] == data[stop..stop + 1][0];
  }

  /** Element `j` of a list, in the body at `p`, reads back as itself from
      `q` and ends at `next`, where the next one starts. */
  lemma {:induction false} ElementEncoded(data: seq<byte>, p: nat, v: D.Value, j: nat, q: nat, next: nat)
    requires v.List? && j < |v.items| && Occurs(data, p, E.Join(Parts(v.items)))
    requires q == p + |E.Join(Parts(v.items)[..j])| && next == p + |E.Join(Parts(v.items)[..j + 1])|
    ensures q < |data| && data[q] != LowerE && D.ParseAt(data, q) == Some((v.items[j], next))
    decreases v, 0
  {
    var parts := Parts(v.items);
    var x := v.items[j];
    OccursPart(data, p, parts, j);
    assert parts[j] == E.Encode(Embed(x));
    ParseEncoded(data, q, x, next);
    OpensWithoutEnd(x);
    assert data[q] == data[q..q + |parts[j]|][0];
  }

  /** Entry `j` of a dictionary, in the body at `p`, reads back as its key
      from `q` to `mid` and then its value, which ends at `next`, where the
      next entry starts. */
  lemma {:induction false} EntryEncoded(data: seq<byte>, p: nat, v: D.Value, j: nat, q: nat, mid: nat, next: nat)
    requires v.Dict? && j < |v.entries| && Occurs(data, p, E.Join(EntryParts(v.entries)))
    requires q == p + |E.Join(EntryParts(v.entries)[..j])| && mid == q + |E.EncodeBytes(v.entries[j].0)|
    requires next == p + |E.Join(EntryParts(v.entries)[..j + 1])|
    ensures q < |data| && data[q] != LowerE
    ensures D.StrAt(data, q) == Some((v.entries[j].0, mid))
    ensures D.ParseAt(data, mid) == Some((v.entries[j].1, next))
    decreases v, 0
  {
    EntryLaidOut(data, p, v.entries, j, q, mid, next);
    KeyEncoded(data, q, v.entries[j].0, mid);
    assert v.entries[j].1 < v;
    ParseEncoded(data, mid, v.entries[j].1, next);
  }

  /** Entry `j` of a dictionary's body at `p` is its key's encoding from
      `q` to `mid` and then its value's encoding up to `next`. */
  lemma EntryLaidOut(data: seq<byte>, p: nat, entries: D.Entries, j: nat, q: nat, mid: nat, next: nat)
    requires j < |entries| && Occurs(data, p, E.Join(EntryParts(entries)))
    requires q == p + |E.Join(EntryParts(entries)[..j])| && mid == q + |E.EncodeBytes(entries[j].0)|
    requires next == p + |E.Join(EntryParts(entries)[..j + 1])|
    ensures Occurs(data, q, E.EncodeBytes(entries[j].0))
    ensures Occurs(data, mid, E.Encode(Embed(entries[j].1))) && next == mid + |E.Encode(Embed(entries[j].1))|
  {
    assert EntryParts(entries)[j] == E.EncodeBytes(entries[j].0) + E.Encode(Embed(entries[j].1));
    OccursHalves(data, p, EntryParts(entries), j, E.EncodeBytes(entries[j].0), E.Encode(Embed(entries[j].1)), q, mid, next);
  }

  /** A key's encoding at `q` opens with a digit, not an `e`, and reads
      back as the key, ending at `mid`. */
  lemma KeyEncoded(data: seq<byte>, q: nat, key: seq<byte>, mid: nat)
    requires Occurs(data, q, E.EncodeBytes(key)) && mid == q + |E.EncodeBytes(key)|
    ensures q < |data| && data[q] != LowerE
    ensures D.StrAt(data, q) == Some((key, mid))
  {
    StrAtEncoded(data, q, key);
    assert data[q] == data[q..mid][0] == Digits(|key|)[0];
    assert IsDigit(Digits(|key|)[0]);
  }

  // ---------------------------------------------------------------------
  // The round trip from values

  /** Decoding, at `p`, the encoding of a value in which no dictionary
      repeats a key gives back that value, its keys in the same order, and
      leaves the cursor just past the encoding. */
  lemma DecodeEncodedAt(data: seq<byte>, p: nat, v: D.Value)
    requires D.UniqueKeys(v) && Occurs(data, p, E.Encode(Embed(v)))
    ensures D.DecodeAt(data, p) == Some((v, p + |E.Encode(Embed(v))|))
  {
    var end := p + |E.Encode(Embed(v))|;
    ParseEncoded(data, p, v, end);
    D.CollapseUnique(v);
  }

  /** `decode(encode(v) + rest) == v`: whatever follows an encoding is
      ignored. */
  lemma DecodeEncode(v: D.Value, rest: seq<byte>)
    requires D.UniqueKeys(v)
    ensures D.DecodeBuffer(E.Encode(Embed(v)) + rest) == Some(v)
  {
    var enc := E.Encode(Embed(v));
    assert (enc + rest)[0..|enc|] == enc;
    DecodeEncodedAt(enc + rest, 0, v);
  }

  /** Every dictionary key in an encoder input is text or bytes, as the
      decoder needs them to be. */
  predicate KeysAreStrings(e: E.Encodable) {
    match e
    case Dict(entries) =>
      forall k :: 0 <= k < |entries| ==>
        (entries[k].0.Str? || entries[k].0.Bytes?) && KeysAreStrings(entries[k].1)
    case List(items) => forall k :: 0 <= k < |items| ==> KeysAreStrings(items[k])
    case _ => true
  }

  /** The bytes a text or byte-string key travels as. */
  function KeyBytes(key: E.Encodable): seq<byte> {
    match key
    case Str(s) => E.AsciiBytes(s)
    case Bytes(b) => b
    case _ => []
  }

  /** What the decoder is to give back for an encoder input: text turns
      into its bytes, everything else keeps its shape and order. */
  function Wire(e: E.Encodable): D.Value {
    match e
    case Dict(entries) =>
      D.Dict(seq(|entries|, k requires 0 <= k < |entries| => (KeyBytes(entries[k].0), Wire(entries[k].1))))
    case Str(s) => D.Bytes(E.AsciiBytes(s))
    case List(items) => D.Value.List(seq(|items|, k requires 0 <= k < |items| => Wire(items[k])))
    case Int(n) => D.Int(n)
    case Bytes(b) => D.Bytes(b)
  }

  /** An encoder input and its decoded form encode to the same bytes. */
  lemma {:induction false} EncodeWire(e: E.Encodable)
    requires KeysAreStrings(e)
    ensures E.Encode(Embed(Wire(e))) == E.Encode(e)
  {
    match e
    case Dict(entries) =>
      var w := Embed(Wire(e));
      forall k | 0 <= k < |entries|
        ensures E.Encode(w.entries[k].0) + E.Encode(w.entries[k].1) == E.Encode(entries[k].0) + E.Encode(entries[k].1)
      {
        EncodeWire(entries[k].1);
        if entries[k].0.Str? {
          E.StrEncodesAsBytes(entries[k].0.text);
        }
      }
      assert seq(|w.entries|, k requires 0 <= k < |w.entries| => E.Encode(w.entries[k].0) + E.Encode(w.entries[k].1))
          == seq(|entries|, k requires 0 <= k < |entries| => E.Encode(entries[k].0) + E.Encode(entries[k].1));
    case Str(s) =>
      E.StrEncodesAsBytes(s);
    case List(items) =>
      var w := Embed(Wire(e));
      forall k | 0 <= k < |items| ensures E.Encode(w.items[k]) == E.Encode(items[k]) {
        EncodeWire(items[k]);
      }
      assert seq(|w.items|, k requires 0 <= k < |w.items| => E.Encode(w.items[k]))
          == seq(|items|, k requires 0 <= k < |items| => E.Encode(items[k]));
    case Int(_) =>
    case Bytes(_) =>
  }

  /** `BDecoder().decode(BEncoder().encode(e))` for any encoder input whose
      keys are text or bytes and whose dictionaries never repeat a key's
      bytes: the same shape, text turned into bytes, keys in the same
      order; bytes after the encoding are ignored. */
  lemma DecodeEncodeInput(e: E.Encodable, rest: seq<byte>)
    requires KeysAreStrings(e) && D.UniqueKeys(Wire(e))
    ensures D.DecodeBuffer(E.Encode(e) + rest) == Some(Wire(e))
  {
    EncodeWire(e);
    DecodeEncode(Wire(e), rest);
  }
}
