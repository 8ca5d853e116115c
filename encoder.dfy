/** The encoder: a pure recursive serialiser that dispatches on the type of
    the value it is given. */
module Encoder {
  import opened Wrappers
  import opened Builtins
  import Common

  /** A character that encodes to the single byte of its code point. */
  type AsciiChar = c: char | c < 128 as char witness 'a'

  /** `BEncodeType`: a dictionary, a text string, a list, an integer or a
      byte-string. A dictionary's keys go through the same dispatch as its
      values. */
  datatype Encodable =
    | Dict(entries: seq<(Encodable, Encodable)>)
    | Str(text: seq<AsciiChar>)
    | List(items: seq<Encodable>)
    | Int(num: int)
    | Bytes(bytes: seq<byte>)

  /** `EncodeType`: one member per accepted type, in declaration order. */
  datatype EncodeType = Dictionary | String | List | Integer | Bytes

  const Members: seq<EncodeType> := [Dictionary, String, EncodeType.List, Integer, EncodeType.Bytes]

  /** `isinstance(value, m.value)` for the member `t`. */
  predicate IsInstance(v: Encodable, t: EncodeType) {
    match t
    case Dictionary => v.Dict?
    case String => v.Str?
    case List => v.List?
    case Integer => v.Int?
    case Bytes => v.Bytes?
  }

  /** `next(filter(lambda m: isinstance(value, m.value), members))`: the
      first member, in order, that the value is an instance of. */
  function FirstInstance(v: Encodable, members: seq<EncodeType>): (r: Option<EncodeType>)
    ensures r.Some? ==> r.value in members && IsInstance(v, r.value)
    ensures r.None? <==> forall t :: t in members ==> !IsInstance(v, t)
  {
    if members == [] then None
    else if IsInstance(v, members[0]) then Some(members[0])
    else FirstInstance(v, members[1..])
  }

  /** `EncodeType.from_value`: on the closed type, every value is an
      instance of exactly one member, and that member is chosen. */
  function FromValue(v: Encodable): (t: EncodeType)
    ensures IsInstance(v, t)
    ensures forall u :: IsInstance(v, u) ==> u == t
  {
    var r := FirstInstance(v, Members);
    assert IsInstance(v, Members[0]) || IsInstance(v, Members[1]) || IsInstance(v, Members[2])
           || IsInstance(v, Members[3]) || IsInstance(v, Members[4]);
    r.value
  }

  /** `b"".join(parts)`. */
  function Join(parts: seq<seq<byte>>): seq<byte> {
    if parts == [] then [] else Join(parts[..|parts| - 1]) + parts[|parts| - 1]
  }

  /** `encode`: run the encoder chosen for the value's type. */
  function Encode(v: Encodable): seq<byte>
    decreases v, 1
  {
    match FromValue(v)
    case Dictionary => EncodeDict(v)
    case String => EncodeStr(v.text)
    case List => EncodeList(v)
    case Integer => EncodeInt(v.num)
    case Bytes => EncodeBytes(v.bytes)
  }

  /** `_encode_dict`: `d`, each key's encoding followed by its value's in
      the dictionary's own order (nothing is sorted), then `e`. */
  function EncodeDict(d: Encodable): seq<byte>
    requires d.Dict?
    decreases d, 0
  {
    var entries := d.entries;
    [LowerD]
    + Join(seq(|entries|, k requires 0 <= k < |entries| => Encode(entries[k].0) + Encode(entries[k].1)))
    + [LowerE]
  }

  /** `s.encode()` for ASCII text: one byte per character. */
  function AsciiBytes(s: seq<AsciiChar>): (r: seq<byte>)
    ensures |r| == |s|
  {
    seq(|s|, k requires 0 <= k < |s| => s[k] as int)
  }

  /** `_encode_str`: the number of characters, a colon, the text. */
  function EncodeStr(s: seq<AsciiChar>): seq<byte> {
    ShowInt(|s|) + [Colon] + AsciiBytes(s)
  }

  /** `_encode_list`: `l`, the elements' encodings in list order, `e`. */
  function EncodeList(l: Encodable): seq<byte>
    requires l.List?
    decreases l, 0
  {
    var items := l.items;
    [LowerL] + Join(seq(|items|, k requires 0 <= k < |items| => Encode(items[k]))) + [LowerE]
  }

  /** `_encode_int`: `i`, `str(i)`, `e`. */
  function EncodeInt(i: int): seq<byte> {
    [LowerI] + ShowInt(i) + [LowerE]
  }

  /** `_encode_bytes`: the length, a colon, the bytes unchanged. */
  function EncodeBytes(b: seq<byte>): seq<byte> {
    ShowInt(|b|) + [Colon] + b
  }

  /** The classifier's kind for the primitive that encodes a value: text
      and byte-strings both travel as byte-strings. */
  function WireKind(v: Encodable): Common.CodeType {
    match v
    case Dict(_) => Common.Dictionary
    case Str(_) => Common.String
    case List(_) => Common.List
    case Int(_) => Common.Integer
    case Bytes(_) => Common.String
  }

  /** Every encoding is at least two bytes long and opens with the byte
      that the classifier maps to the value's kind. */
  lemma EncodingOpensWithKind(v: Encodable)
    ensures |Encode(v)| >= 2
    ensures Common.FromCode(Encode(v)[0]) == Some(WireKind(v))
  {
    match v
    case Dict(_) =>
      Common.FromCodeCases(LowerD);
    case Str(s) =>
      assert Encode(v)[0] == Digits(|s|)[0];
      Common.FromCodeCases(Digits(|s|)[0]);
    case List(_) =>
      Common.FromCodeCases(LowerL);
    case Int(_) =>
      Common.FromCodeCases(LowerI);
    case Bytes(b) =>
      assert Encode(v)[0] == Digits(|b|)[0];
      Common.FromCodeCases(Digits(|b|)[0]);
  }

  /** Text is written as its ASCII bytes are: the length prefix counts
      characters, and for ASCII each character is one byte. */
  lemma StrEncodesAsBytes(s: seq<AsciiChar>)
    ensures Encode(Str(s)) == Encode(Encodable.Bytes(AsciiBytes(s)))
  {
  }

  /** Joining two runs of parts is joining each and concatenating. */
  lemma {:induction false} JoinAppend(a: seq<seq<byte>>, b: seq<seq<byte>>)
    ensures Join(a + b) == Join(a) + Join(b)
  {
    if b != [] {
      var last := b[|b| - 1];
      JoinAppend(a, b[..|b| - 1]);
      assert (a + b)[..|a + b| - 1] == a + b[..|b| - 1];
    } else {
      assert a + b == a;
    }
  }
}
