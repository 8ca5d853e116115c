/** The decoder: a recursive-descent parser over a byte buffer.

    The specification is given by pure functions over the buffer and a
    position: `ParseAt` reads one primitive and returns the value as it
    stands on the wire together with the position just past it, and
    `DecodeAt` is what the decoder returns, where each dictionary has been
    built by assigning its entries one after another (a repeated key keeps
    its first place and its last value). The class `BDecoder` is the
    decoder itself, with the buffer and the cursor that its methods
    advance; each method is proved to agree with these functions. */
module Decoder {
  import opened Wrappers
  import opened Builtins
  import Common

  /** `BDecodeType`: a byte-string, an integer, a list, or a dictionary with
      byte-string keys kept in insertion order. */
  datatype Value =
    | Bytes(bytes: seq<byte>)
    | Int(num: int)
    | List(items: seq<Value>)
    | Dict(entries: seq<(seq<byte>, Value)>)

  type Entries = seq<(seq<byte>, Value)>

  // ---------------------------------------------------------------------
  // The decoder's own classifier

  /** `DecodeType`: the decoder's copy of the classifier's enum. */
  datatype DecodeType = Dictionary | String | List | Integer

  function DecodeMembers(): seq<(DecodeType, seq<byte>)> {
    [(Dictionary, [LowerD]),
     (String, [0x31, 0x32, 0x33, 0x34, 0x35, 0x36, 0x37, 0x38, 0x39, 0x30]),
     (DecodeType.List, [LowerL]),
     (Integer, [LowerI])]
  }

  /** `DecodeType.from_code`. */
  function DecodeTypeFromCode(code: byte): Option<DecodeType> {
    Common.FirstMatch(DecodeMembers(), code)
  }

  /** The member of the shared enum that bears the same name. */
  function Kind(t: DecodeType): Common.CodeType {
    match t
    case Dictionary => Common.Dictionary
    case String => Common.String
    case List => Common.List
    case Integer => Common.Integer
  }

  /** The decoder's copy classifies every byte exactly as the shared
      classifier does. */
  lemma SameClassification(code: byte)
    ensures DecodeTypeFromCode(code).None? <==> Common.FromCode(code).None?
    ensures DecodeTypeFromCode(code).Some? ==> Common.FromCode(code) == Some(Kind(DecodeTypeFromCode(code).value))
  {
    Common.FromCodeCases(code);
    DecodeTypeCases(code);
  }

  /** The decoder's table written out, as `Common.FromCodeCases` writes out
      the shared one. */
  lemma DecodeTypeCases(code: byte)
    ensures DecodeTypeFromCode(code) == (if code == LowerD then Some(Dictionary)
                                         else if IsDigit(code) then Some(String)
                                         else if code == LowerL then Some(DecodeType.List)
                                         else if code == LowerI then Some(Integer)
                                         else None)
  {
    var t0 := DecodeMembers();
    var t1 := t0[1..];
    var t2 := t1[1..];
    var t3 := t2[1..];
    var t4 := t3[1..];
    assert IsDigit(code) <==> code in t1[0].1;
    assert t2[0] == (DecodeType.List, [LowerL]) && t3[0] == (Integer, [LowerI]) && t4 == [];
    assert DecodeTypeFromCode(code) == if code == LowerD then Some(Dictionary) else Common.FirstMatch(t1, code);
    assert Common.FirstMatch(t1, code) == if IsDigit(code) then Some(String) else Common.FirstMatch(t2, code);
    assert Common.FirstMatch(t2, code) == if code == LowerL then Some(DecodeType.List) else Common.FirstMatch(t3, code);
    assert Common.FirstMatch(t3, code) == if code == LowerI then Some(Integer) else None;
  }

  // ---------------------------------------------------------------------
  // Python dictionaries as association lists

  function KeysOf(m: Entries): (keys: seq<seq<byte>>)
    ensures |keys| == |m| && forall k :: 0 <= k < |m| ==> keys[k] == m[k].0
  {
    seq(|m|, k requires 0 <= k < |m| => m[k].0)
  }

  predicate DistinctKeys(m: Entries) {
    forall a, b :: 0 <= a < b < |m| ==> m[a].0 != m[b].0
  }

  /** `m.get(key)`. */
  function Lookup(m: Entries, key: seq<byte>): Option<Value> {
    if m == [] then None
    else if m[0].0 == key then Some(m[0].1)
    else Lookup(m[1..], key)
  }

  /** `m.get(key)` finds a value exactly for the keys of `m`. */
  lemma {:induction false} LookupPresent(m: Entries, key: seq<byte>)
    ensures Lookup(m, key).Some? <==> key in KeysOf(m)
  {
    if m != [] {
      KeysOfCons(m[0], m[1..]);
      assert [m[0]] + m[1..] == m;
      LookupPresent(m[1..], key);
    }
  }

  /** `m[key] = val`: a present key keeps its place and takes the new
      value, an absent one is appended. */
  function Put(m: Entries, key: seq<byte>, val: Value): (r: Entries)
    ensures Lookup(r, key) == Some(val)
    ensures key !in KeysOf(m) ==> r == m + [(key, val)]
  {
    if m == [] then [(key, val)]
    else if m[0].0 == key then [(key, val)] + m[1..]
    else
      var rest := Put(m[1..], key, val);
      assert key !in KeysOf(m) ==> key !in KeysOf(m[1..]) by {
        assert KeysOf(m) == [m[0].0] + KeysOf(m[1..]);
      }
      [m[0]] + rest
  }

  /** Assigning a key adds it to the keys, at the end, only when it is new. */
  lemma {:induction false} PutKeys(m: Entries, key: seq<byte>, val: Value)
    ensures KeysOf(Put(m, key, val)) == if key in KeysOf(m) then KeysOf(m) else KeysOf(m) + [key]
  {
    if m != [] && m[0].0 != key {
      PutKeys(m[1..], key, val);
      KeysOfCons(m[0], m[1..]);
      KeysOfCons(m[0], Put(m[1..], key, val));
      assert m == [m[0]] + m[1..];
    }
  }

  lemma KeysOfCons(e: (seq<byte>, Value), m: Entries)
    ensures KeysOf([e] + m) == [e.0] + KeysOf(m)
  {
  }

  /** Assigning a key leaves every other key's value as it was. */
  lemma {:induction false} PutOthers(m: Entries, key: seq<byte>, val: Value, other: seq<byte>)
    requires other != key
    ensures Lookup(Put(m, key, val), other) == Lookup(m, other)
  {
    if m != [] && m[0].0 != key {
      PutOthers(m[1..], key, val, other);
      assert ([m[0]] + Put(m[1..], key, val))[1..] == Put(m[1..], key, val);
    }
  }

  /** Assignment never creates a second entry for a key. */
  lemma {:induction false} PutDistinct(m: Entries, key: seq<byte>, val: Value)
    requires DistinctKeys(m)
    ensures DistinctKeys(Put(m, key, val))
  {
    if m != [] && m[0].0 != key {
      var rest := Put(m[1..], key, val);
      PutDistinct(m[1..], key, val);
      PutKeys(m[1..], key, val);
      assert m[0].0 !in KeysOf(m[1..]) by {
        forall k | 0 <= k < |m| - 1 ensures KeysOf(m[1..])[k] != m[0].0 {
          assert m[1..][k] == m[k + 1];
        }
      }
      assert m[0].0 !in KeysOf(rest);
      forall a, b | 0 <= a < b < |rest| + 1 ensures ([m[0]] + rest)[a].0 != ([m[0]] + rest)[b].0 {
        if a == 0 {
          assert KeysOf(rest)[b - 1] == rest[b - 1].0;
        }
      }
    }
  }

  /** The dictionary that the assignments `result[k] = v`, one per entry of
      `es` in order, build from an empty one. */
  function Assign(es: Entries): (r: Entries)
    ensures DistinctKeys(r)
  {
    if es == [] then []
    else
      var last := es[|es| - 1];
      PutDistinct(Assign(es[..|es| - 1]), last.0, last.1);
      Put(Assign(es[..|es| - 1]), last.0, last.1)
  }

  /** The value of the last entry of `es` with the given key. */
  function LastValue(es: Entries, key: seq<byte>): Option<Value> {
    if es == [] then None
    else if es[|es| - 1].0 == key then Some(es[|es| - 1].1)
    else LastValue(es[..|es| - 1], key)
  }

  /** The keys in order of first occurrence, each once. */
  function FirstOccurrences(keys: seq<seq<byte>>): seq<seq<byte>> {
    if keys == [] then []
    else
      var seen := FirstOccurrences(keys[..|keys| - 1]);
      if keys[|keys| - 1] in seen then seen else seen + [keys[|keys| - 1]]
  }

  /** A repeated key keeps the value of its last assignment. */
  lemma {:induction false} AssignKeepsLastValue(es: Entries, key: seq<byte>)
    ensures Lookup(Assign(es), key) == LastValue(es, key)
  {
    if es != [] {
      AssignKeepsLastValue(es[..|es| - 1], key);
      if es[|es| - 1].0 != key {
        PutOthers(Assign(es[..|es| - 1]), es[|es| - 1].0, es[|es| - 1].1, key);
      }
    }
  }

  /** The keys stay in the order of their first assignment: nothing is
      sorted, and a repeated key does not move. */
  lemma {:induction false} AssignKeepsFirstOrder(es: Entries)
    ensures KeysOf(Assign(es)) == FirstOccurrences(KeysOf(es))
  {
    if es != [] {
      var init := es[..|es| - 1];
      AssignKeepsFirstOrder(init);
      PutKeys(Assign(init), es[|es| - 1].0, es[|es| - 1].1);
      assert KeysOf(es)[..|es| - 1] == KeysOf(init);
    }
  }

  /** Entries with distinct keys come out as they went in. */
  lemma {:induction false} AssignDistinct(es: Entries)
    requires DistinctKeys(es)
    ensures Assign(es) == es
  {
    if es != [] {
      DistinctSplit(es);
      AssignDistinct(es[..|es| - 1]);
      assert es == es[..|es| - 1] + [es[|es| - 1]];
    }
  }

  /** Without its last entry, a dictionary with distinct keys still has
      distinct keys, none of them the last entry's. */
  lemma DistinctSplit(es: Entries)
    requires es != [] && DistinctKeys(es)
    ensures DistinctKeys(es[..|es| - 1]) && es[|es| - 1].0 !in KeysOf(es[..|es| - 1])
  {
    var init := es[..|es| - 1];
    forall a, b | 0 <= a < b < |init| ensures init[a].0 != init[b].0 {
      assert init[a] == es[a] && init[b] == es[b];
    }
    forall k | 0 <= k < |init| ensures KeysOf(init)[k] != es[|es| - 1].0 {
      assert init[k] == es[k];
    }
  }

  // ---------------------------------------------------------------------
  // The grammar, one primitive at a time

  /** `_decode_str` with the cursor at `i`: the length's digits up to the
      first colon, then that many payload bytes. A length that starts with
      '0' must be "0" itself. The payload is sliced without a bounds check,
      so a short buffer yields a shorter payload, and the position returned
      is just past where the payload should end, whether or not the buffer
      reaches it. */
  function StrAt(data: seq<byte>, i: nat): (r: Option<(seq<byte>, nat)>)
    ensures r.Some? ==> r.value.1 >= i + 2
  {
    if i >= |data| then None
    else if data[i] == Zero && (i + 1 >= |data| || data[i + 1] != Colon) then None
    else match Find(data, Colon, i)
      case None => None
      case Some(colon) =>
        match ParseNat(data[i..colon])
        case None => None
        case Some(n) => Some((Slice(data, colon + 1, colon + 1 + n), colon + 1 + n))
  }

  /** What `_decode_str` reads once it has found the colon and the length
      before it. */
  lemma StrAtOf(data: seq<byte>, p: nat, colon: nat, n: nat)
    requires Find(data, Colon, p) == Some(colon) && ParseNat(data[p..colon]) == Some(n)
    requires data[p] == Zero ==> p + 1 < |data| && data[p + 1] == Colon
    ensures StrAt(data, p) == Some((Slice(data, colon + 1, colon + 1 + n), colon + 1 + n))
  {
  }

  /** `_decode_str` at `i`, where the first colon at or after `i` stands at
      `colon`: it succeeds exactly when the bytes before the colon are a
      decimal length without a leading zero, and then returns the `n` bytes
      after the colon, or as many of them as the buffer holds, with the
      cursor at `colon + 1 + n` whether or not the buffer reaches it. */
  lemma StrAtReads(data: seq<byte>, i: nat, colon: nat)
    requires i <= colon < |data| && data[colon] == Colon
    requires forall k :: i <= k < colon ==> data[k] != Colon
    ensures StrAt(data, i).Some? <==> CanonicalDigits(data[i..colon])
    ensures CanonicalDigits(data[i..colon]) ==>
      var n := DigitsValue(data[i..colon]);
      StrAt(data, i) == Some((if colon + 1 + n <= |data| then data[colon + 1..colon + 1 + n] else data[colon + 1..],
                              colon + 1 + n))
  {
    var digits := data[i..colon];
    assert Find(data, Colon, i) == Some(colon);
    if i < colon {
      assert digits[0] == data[i];
    }
    if data[i] == Zero && i + 1 < |data| && data[i + 1] == Colon {
      assert colon == i + 1;
    }
  }

  /** With no colon at or after `i`, `_decode_str` fails: `bytes.index`
      raises. */
  lemma StrAtWithoutColon(data: seq<byte>, i: nat)
    requires forall k :: i <= k < |data| ==> data[k] != Colon
    ensures StrAt(data, i) == None
  {
  }

  /** `_decode_str` exactly as written: the length goes through `int()`,
      which also takes a leading minus sign. At the top level a digit has
      already been seen, but a dictionary key is read without looking at
      its first byte, so its length can be negative and the cursor moves
      back. Apart from a leading minus it reads what `StrAt` reads. */
  function StrAtAsWritten(data: seq<byte>, i: nat): (r: Option<(seq<byte>, int)>)
    ensures i >= |data| || data[i] != Minus ==>
      (r.None? <==> StrAt(data, i).None?) && (r.Some? ==> r.value == (StrAt(data, i).value.0, StrAt(data, i).value.1 as int))
  {
    if i >= |data| then None
    else if data[i] == Zero && (i + 1 >= |data| || data[i + 1] != Colon) then None
    else match Find(data, Colon, i)
      case None => None
      case Some(colon) =>
        UnsignedLength(data, i, colon);
        match ParseInt(data[i..colon])
        case None => None
        case Some(n) => Some((Slice(data, colon + 1, colon + 1 + n), colon + 1 + n))
  }

  /** A length that does not open with a minus sign reads the same through
      `int()` as through the digits-only reader. */
  lemma UnsignedLength(data: seq<byte>, i: nat, colon: nat)
    requires i <= colon <= |data|
    ensures i < |data| && data[i] != Minus ==>
      (ParseInt(data[i..colon]).None? <==> ParseNat(data[i..colon]).None?) &&
      (ParseInt(data[i..colon]).Some? ==> ParseInt(data[i..colon]).value == ParseNat(data[i..colon]).value as int)
  {
    if i < colon {
      assert data[i..colon][0] == data[i];
    }
  }

  /** `d1:k1:v-6:`: after the entry `k` -> `v` the cursor is at 7, on the
      key `-6:`. As written, that key is empty and sends the cursor back to
      4, where the value `v` is read again and the cursor comes back to 7:
      the dictionary loop never ends. `StrAt` refuses the key, and the
      buffer is refused. */
  lemma NegativeKeyLength()
    ensures var data: seq<byte> := [LowerD, 0x31, Colon, 0x6B, 0x31, Colon, 0x76, Minus, 0x36, Colon];
      && data[7] != LowerE
      && StrAtAsWritten(data, 7) == Some(([], 4))
      && ParseAt(data, 4) == Some((Bytes([0x76]), 7))
      && StrAt(data, 7) == None
  {
    var data: seq<byte> := [LowerD, 0x31, Colon, 0x6B, 0x31, Colon, 0x76, Minus, 0x36, Colon];
    assert Find(data, Colon, 9) == Some(9);
    assert Find(data, Colon, 8) == Find(data, Colon, 9);
    assert data[7..9] == [Minus, 0x36] && data[8..9] == [0x36];
    assert ParseNat([0x36]) == Some(6);
    assert ParseInt(data[7..9]) == Some(-6);
    assert Slice(data, 10, 4) == [];
    DecodeTypeCases(data[4]);
    assert Find(data, Colon, 4) == Some(5);
    assert data[4..5] == [0x31] && ParseNat([0x31]) == Some(1);
    assert Slice(data, 6, 7) == [0x76];
  }

  /** `_decode_int` with the cursor on the `i` at `i`: the body runs to the
      first `e` after it and must be an optional minus sign and digits;
      "-0..." is refused, and so is a '0' that is not the whole body. */
  function IntAt(data: seq<byte>, i: nat): (r: Option<(int, nat)>)
    ensures r.Some? ==> r.value.1 >= i + 3
  {
    var start := i + 1;
    if start >= |data| then None
    else if data[start] == Minus && (start + 1 >= |data| || data[start + 1] == Zero) then None
    else if data[start] == Zero && (start + 1 >= |data| || data[start + 1] != LowerE) then None
    else match Find(data, LowerE, start)
      case None => None
      case Some(end) =>
        match ParseInt(data[start..end])
        case None => None
        case Some(n) => Some((n, end + 1))
  }

  /** `d-2:0:e`: as written, the key `-2:` is empty and sends the cursor
      back to 2, where the value `2:` reads the two bytes `0:` and stops on
      the closing `e`, so the buffer decodes to a dictionary mapping the
      empty key to `0:`. `StrAt` refuses the key, and the buffer is
      refused. */
  lemma NegativeKeyDecodes()
    ensures var data: seq<byte> := [LowerD, Minus, 0x32, Colon, Zero, Colon, LowerE];
      && StrAtAsWritten(data, 1) == Some(([], 2))
      && ParseAt(data, 2) == Some((Bytes([Zero, Colon]), 6))
      && data[6] == LowerE
      && StrAt(data, 1) == None
      && DecodeBuffer(data) == None
  {
    var data: seq<byte> := [LowerD, Minus, 0x32, Colon, Zero, Colon, LowerE];
    assert Find(data, Colon, 3) == Some(3);
    assert Find(data, Colon, 2) == Find(data, Colon, 3);
    assert Find(data, Colon, 1) == Find(data, Colon, 2);
    assert data[1..3] == [Minus, 0x32] && data[2..3] == [0x32];
    assert ParseNat([0x32]) == Some(2);
    assert ParseInt(data[1..3]) == Some(-2);
    assert ParseNat(data[1..3]) == None;
    assert Slice(data, 4, 2) == [];
    assert Slice(data, 4, 6) == [Zero, Colon];
    assert StrAt(data, 1) == None;
    DecodeTypeCases(data[2]);
    ParseAtDict(data, 0);
    assert ParseDictItems(data, 1, []) == None;
  }

  /** `_decode_int` with the `i` at `i`, where the first `e` after it
      stands at `end`: it succeeds exactly when the body between them is a
      decimal without a leading zero, negative or not but never `-0`, and
      then returns its value with the cursor just past the `e`. */
  lemma IntAtReads(data: seq<byte>, i: nat, end: nat)
    requires i + 1 <= end < |data| && data[end] == LowerE
    requires forall k :: i + 1 <= k < end ==> data[k] != LowerE
    ensures IntAt(data, i).Some? <==> CanonicalInt(data[i + 1..end])
    ensures CanonicalInt(data[i + 1..end]) ==> IntAt(data, i) == Some((IntValue(data[i + 1..end]), end + 1))
  {
    var start := i + 1;
    var body := data[start..end];
    assert Find(data, LowerE, start) == Some(end);
    if start < end {
      assert body[0] == data[start];
      if data[start] == Minus && start + 1 < end {
        assert body[1] == data[start + 1];
        assert body[1..] == data[start + 1..end];
      }
    }
    if data[start] == Zero && start + 1 < |data| && data[start + 1] == LowerE {
      assert end == start + 1;
    }
  }

  /** With no `e` after the `i`, `_decode_int` fails: `bytes.index`
      raises. */
  lemma IntAtWithoutEnd(data: seq<byte>, i: nat)
    requires forall k :: i + 1 <= k < |data| ==> data[k] != LowerE
    ensures IntAt(data, i) == None
  {
  }

  /** One primitive, read at `i` as it stands on the wire (every dictionary
      entry kept, in wire order), and the position just past it. The byte at
      `i` chooses the primitive, as `_get_decoder` does. */
  function ParseAt(data: seq<byte>, i: nat): (r: Option<(Value, nat)>)
    ensures r.Some? ==> r.value.1 > i
    decreases |data| - i, 0
  {
    if i >= |data| then None
    else match DecodeTypeFromCode(data[i])
      case None => None
      case Some(Dictionary) => ParseDictItems(data, i + 1, [])
      case Some(String) =>
        (match StrAt(data, i)
         case None => None
         case Some((s, j)) => Some((Bytes(s), j)))
      case Some(List) => ParseListItems(data, i + 1, [])
      case Some(Integer) =>
        (match IntAt(data, i)
         case None => None
         case Some((n, j)) => Some((Int(n), j)))
  }

  /** The dispatch table `_get_decoder` follows, written out: a digit opens a
      byte-string, `i` an integer, `l` a list, `d` a dictionary, and any
      other byte, or none at all past the end of the buffer, is refused. */
  lemma ParseAtDispatch(data: seq<byte>, i: nat)
    ensures i < |data| && IsDigit(data[i]) ==>
      (ParseAt(data, i) == if StrAt(data, i).None? then None
                           else Some((Bytes(StrAt(data, i).value.0), StrAt(data, i).value.1)))
    ensures i < |data| && data[i] == LowerI ==>
      (ParseAt(data, i) == if IntAt(data, i).None? then None
                           else Some((Int(IntAt(data, i).value.0), IntAt(data, i).value.1)))
    ensures i < |data| && data[i] == LowerL ==> ParseAt(data, i) == ParseListItems(data, i + 1, [])
    ensures i < |data| && data[i] == LowerD ==> ParseAt(data, i) == ParseDictItems(data, i + 1, [])
    ensures i < |data| && !IsDigit(data[i]) && data[i] !in [LowerI, LowerL, LowerD] ==> ParseAt(data, i).None?
    ensures i >= |data| ==> ParseAt(data, i) == None
  {
    if i < |data| {
      DecodeTypeCases(data[i]);
    }
  }

  /** A list opens at `i`: `ParseAt` hands over to the list loop. */
  lemma ParseAtList(data: seq<byte>, i: nat)
    requires i < |data| && data[i] == LowerL
    ensures ParseAt(data, i) == ParseListItems(data, i + 1, [])
  {
    DecodeTypeCases(data[i]);
  }

  /** A dictionary opens at `i`: `ParseAt` hands over to the dictionary
      loop. */
  lemma ParseAtDict(data: seq<byte>, i: nat)
    requires i < |data| && data[i] == LowerD
    ensures ParseAt(data, i) == ParseDictItems(data, i + 1, [])
  {
    DecodeTypeCases(data[i]);
  }

  /** The loop of `_decode_list` from position `i`, with `acc` read so far:
      elements up to the closing `e`, and the position past it. */
  function ParseListItems(data: seq<byte>, i: nat, acc: seq<Value>): (r: Option<(Value, nat)>)
    ensures r.Some? ==> r.value.1 > i && r.value.0.List?
    decreases |data| - i, 1
  {
    if i >= |data| then None
    else if data[i] == LowerE then Some((Value.List(acc), i + 1))
    else match ParseAt(data, i)
      case None => None
      case Some((v, j)) => ParseListItems(data, j, acc + [v])
  }

  /** The loop of `_decode_dict` from position `i`, with the entries `acc`
      read so far: a byte-string key and a value per entry, up to the
      closing `e`, and the position past it. */
  function ParseDictItems(data: seq<byte>, i: nat, acc: Entries): (r: Option<(Value, nat)>)
    ensures r.Some? ==> r.value.1 > i && r.value.0.Dict?
    decreases |data| - i, 1
  {
    if i >= |data| then None
    else if data[i] == LowerE then Some((Dict(acc), i + 1))
    else match StrAt(data, i)
      case None => None
      case Some((key, j)) =>
        match ParseAt(data, j)
        case None => None
        case Some((v, k)) => ParseDictItems(data, k, acc + [(key, v)])
  }

  /** One turn of the list loop: an element read at `i` is appended and
      the loop goes on after it. */
  lemma ListItemsStep(data: seq<byte>, i: nat, acc: seq<Value>, x: Value, next: nat)
    requires i < |data| && data[i] != LowerE
    requires ParseAt(data, i) == Some((x, next))
    ensures ParseListItems(data, i, acc) == ParseListItems(data, next, acc + [x])
  {
  }

  /** One turn of the dictionary loop: a key and a value read at `i` are
      appended and the loop goes on after them. */
  lemma DictItemsStep(data: seq<byte>, i: nat, acc: Entries, key: seq<byte>, j: nat, x: Value, next: nat)
    requires i < |data| && data[i] != LowerE
    requires StrAt(data, i) == Some((key, j))
    requires ParseAt(data, j) == Some((x, next))
    ensures ParseDictItems(data, i, acc) == ParseDictItems(data, next, acc + [(key, x)])
  {
  }

  /** Element `j` of a run is read at `pos[j]`, which is not an `e`, and
      ends at `pos[j + 1]`. */
  predicate ElementRead(data: seq<byte>, items: seq<Value>, pos: seq<nat>, j: nat)
    requires j < |items| && |pos| == |items| + 1
  {
    pos[j] < |data| && data[pos[j]] != LowerE && ParseAt(data, pos[j]) == Some((items[j], pos[j + 1]))
  }

  /** Entry `j` of a run has its key read at `pos[j]`, which is not an `e`,
      up to `mid[j]`, and its value from there up to `pos[j + 1]`. */
  predicate EntryRead(data: seq<byte>, entries: Entries, pos: seq<nat>, mid: seq<nat>, j: nat)
    requires j < |entries| && |pos| == |entries| + 1 && |mid| == |entries|
  {
    pos[j] < |data| && data[pos[j]] != LowerE && StrAt(data, pos[j]) == Some((entries[j].0, mid[j]))
    && ParseAt(data, mid[j]) == Some((entries[j].1, pos[j + 1]))
  }

  /** The list loop over a run of elements: if every element is read where
      the run places it and an `e` follows the last, the loop started at
      `pos[k]` with the first `k` elements read returns all of them and
      stops past the `e`. */
  lemma {:induction false} ListItemsRun(data: seq<byte>, items: seq<Value>, pos: seq<nat>, k: nat, stop: nat)
    requires |pos| == |items| + 1 && k <= |items|
    requires forall j :: 0 <= j < |items| ==> ElementRead(data, items, pos, j)
    requires pos[|items|] < |data| && data[pos[|items|]] == LowerE && stop == pos[|items|] + 1
    ensures ParseListItems(data, pos[k], items[..k]) == Some((Value.List(items), stop))
    decreases |items| - k
  {
    if k == |items| {
      assert items[..k] == items;
    } else {
      assert ElementRead(data, items, pos, k);
      ListItemsStep(data, pos[k], items[..k], items[k], pos[k + 1]);
      assert items[..k] + [items[k]] == items[..k + 1];
      ListItemsRun(data, items, pos, k + 1, stop);
    }
  }

  /** The dictionary loop over a run of entries: if every entry is read
      where the run places it and an `e` follows the last, the loop started
      at `pos[k]` returns all the entries, in order, and stops past the
      `e`. */
  lemma {:induction false} DictItemsRun(data: seq<byte>, entries: Entries, pos: seq<nat>, mid: seq<nat>, k: nat, stop: nat)
    requires |pos| == |entries| + 1 && |mid| == |entries| && k <= |entries|
    requires forall j :: 0 <= j < |entries| ==> EntryRead(data, entries, pos, mid, j)
    requires pos[|entries|] < |data| && data[pos[|entries|]] == LowerE && stop == pos[|entries|] + 1
    ensures ParseDictItems(data, pos[k], entries[..k]) == Some((Dict(entries), stop))
    decreases |entries| - k
  {
    if k == |entries| {
      assert entries[..k] == entries;
    } else {
      assert EntryRead(data, entries, pos, mid, k);
      DictItemsStep(data, pos[k], entries[..k], entries[k].0, mid[k], entries[k].1, pos[k + 1]);
      assert entries[..k] + [(entries[k].0, entries[k].1)] == entries[..k + 1];
      DictItemsRun(data, entries, pos, mid, k + 1, stop);
    }
  }

  /** `ListItemsRun` from the loop's first turn, with the positions where
      the body starts, where its `e` stands and where the loop stops named
      by the caller. */
  lemma ListItemsRead(data: seq<byte>, items: seq<Value>, pos: seq<nat>, start: nat, last: nat, stop: nat)
    requires |pos| == |items| + 1 && pos[0] == start && pos[|items|] == last
    requires forall j :: 0 <= j < |items| ==> ElementRead(data, items, pos, j)
    requires last < |data| && data[last] == LowerE && stop == last + 1
    ensures ParseListItems(data, start, []) == Some((Value.List(items), stop))
  {
    ListItemsRun(data, items, pos, 0, stop);
    assert items[..0] == [];
  }

  /** `DictItemsRun` from the loop's first turn. */
  lemma DictItemsRead(data: seq<byte>, entries: Entries, pos: seq<nat>, mid: seq<nat>, start: nat, last: nat, stop: nat)
    requires |pos| == |entries| + 1 && |mid| == |entries| && pos[0] == start && pos[|entries|] == last
    requires forall j :: 0 <= j < |entries| ==> EntryRead(data, entries, pos, mid, j)
    requires last < |data| && data[last] == LowerE && stop == last + 1
    ensures ParseDictItems(data, start, []) == Some((Dict(entries), stop))
  {
    DictItemsRun(data, entries, pos, mid, 0, stop);
    assert entries[..0] == [];
  }

  // ---------------------------------------------------------------------
  // What `decode` returns

  /** The value the decoder builds from a wire value: lists element by
      element, and each dictionary by assigning its entries in wire order. */
  function Collapse(v: Value): Value {
    match v
    case Bytes(_) => v
    case Int(_) => v
    case List(items) => Value.List(seq(|items|, k requires 0 <= k < |items| => Collapse(items[k])))
    case Dict(entries) =>
      Dict(Assign(seq(|entries|, k requires 0 <= k < |entries| => (entries[k].0, Collapse(entries[k].1)))))
  }

  function Decoded(p: Option<(Value, nat)>): Option<(Value, nat)> {
    match p
    case None => None
    case Some((w, j)) => Some((Collapse(w), j))
  }

  /** The primitive the decoder returns with its cursor at `i`, and where the
      cursor ends. */
  function DecodeAt(data: seq<byte>, i: nat): Option<(Value, nat)> {
    Decoded(ParseAt(data, i))
  }

  /** `BDecoder().decode(data)`: one primitive read from position 0; the
      bytes after it are ignored. */
  function DecodeBuffer(data: seq<byte>): Option<Value> {
    match DecodeAt(data, 0)
    case None => None
    case Some((v, _)) => Some(v)
  }

  /** No dictionary anywhere in `v` repeats a key. */
  predicate UniqueKeys(v: Value) {
    match v
    case Bytes(_) => true
    case Int(_) => true
    case List(items) => forall k :: 0 <= k < |items| ==> UniqueKeys(items[k])
    case Dict(entries) => DistinctKeys(entries) && forall k :: 0 <= k < |entries| ==> UniqueKeys(entries[k].1)
  }

  /** Every dictionary the decoder returns has distinct keys. */
  lemma {:induction false} CollapseUniqueKeys(v: Value)
    ensures UniqueKeys(Collapse(v))
  {
    match v
    case Bytes(_) =>
    case Int(_) =>
    case List(items) =>
      forall k | 0 <= k < |items| ensures UniqueKeys(Collapse(items[k])) {
        CollapseUniqueKeys(items[k]);
      }
    case Dict(entries) =>
      var collapsed := seq(|entries|, k requires 0 <= k < |entries| => (entries[k].0, Collapse(entries[k].1)));
      forall k | 0 <= k < |entries| ensures UniqueKeys(collapsed[k].1) {
        CollapseUniqueKeys(entries[k].1);
      }
      AssignPreserves(collapsed);
  }

  /** Assigning values in which no dictionary repeats a key leaves no
      value of the result with a repeated key. */
  lemma {:induction false} AssignPreserves(es: Entries)
    requires forall k :: 0 <= k < |es| ==> UniqueKeys(es[k].1)
    ensures forall k :: 0 <= k < |Assign(es)| ==> UniqueKeys(Assign(es)[k].1)
  {
    if es != [] {
      AssignPreserves(es[..|es| - 1]);
      PutPreserves(Assign(es[..|es| - 1]), es[|es| - 1].0, es[|es| - 1].1);
    }
  }

  lemma {:induction false} PutPreserves(m: Entries, key: seq<byte>, val: Value)
    requires forall k :: 0 <= k < |m| ==> UniqueKeys(m[k].1)
    requires UniqueKeys(val)
    ensures forall k :: 0 <= k < |Put(m, key, val)| ==> UniqueKeys(Put(m, key, val)[k].1)
  {
    if m != [] && m[0].0 != key {
      PutPreserves(m[1..], key, val);
    }
  }

  /** Where every dictionary repeats no key, decoding leaves the wire value
      as it is. */
  lemma {:induction false} CollapseUnique(v: Value)
    requires UniqueKeys(v)
    ensures Collapse(v) == v
  {
    match v
    case Bytes(_) =>
    case Int(_) =>
    case List(items) =>
      forall k | 0 <= k < |items| ensures Collapse(items[k]) == items[k] {
        CollapseUnique(items[k]);
      }
    case Dict(entries) =>
      var collapsed := seq(|entries|, k requires 0 <= k < |entries| => (entries[k].0, Collapse(entries[k].1)));
      forall k | 0 <= k < |entries| ensures collapsed[k] == entries[k] {
        CollapseUnique(entries[k].1);
      }
      assert collapsed == entries;
      AssignDistinct(entries);
  }

  /** Decoding one more list element appends its decoded value. */
  lemma CollapseListStep(acc: seq<Value>, w: Value)
    ensures Collapse(Value.List(acc + [w])) == Value.List(Collapse(Value.List(acc)).items + [Collapse(w)])
  {
    var items := acc + [w];
    assert forall k :: 0 <= k < |acc| ==> items[k] == acc[k];
  }

  /** Decoding one more dictionary entry assigns its decoded value to its key. */
  lemma CollapseDictStep(acc: Entries, key: seq<byte>, w: Value)
    ensures Collapse(Dict(acc + [(key, w)])) == Dict(Put(Collapse(Dict(acc)).entries, key, Collapse(w)))
  {
    var es := acc + [(key, w)];
    var collapsed := seq(|es|, k requires 0 <= k < |es| => (es[k].0, Collapse(es[k].1)));
    var before := seq(|acc|, k requires 0 <= k < |acc| => (acc[k].0, Collapse(acc[k].1)));
    assert collapsed[..|acc|] == before;
  }

  // ---------------------------------------------------------------------
  // The decoder object

  /** A method's result `r` and final cursor agree with the specification's
      outcome: failure, or the same value and the cursor just past it. */
  predicate Agrees<T(==)>(r: Option<T>, cursor: nat, spec: Option<(T, nat)>) {
    match spec
    case None => r.None?
    case Some((x, j)) => r == Some(x) && cursor == j
  }

  /** `BDecoder`: the buffer being read and the cursor `_i` that every
      `_decode_*` method advances. */
  class BDecoder {
    var data: seq<byte>
    var cursor: nat

    constructor ()
      ensures data == [] && cursor == 0
    {
      data := [];
      cursor := 0;
    }

    /** `decode`: take the buffer, reset the cursor to 0 and read one
        primitive. */
    method Decode(input: seq<byte>) returns (r: Option<Value>)
      modifies this
      ensures data == input
      ensures r == DecodeBuffer(input)
      ensures r.Some? ==> cursor == DecodeAt(input, 0).value.1
    {
      data := input;
      cursor := 0;
      r := DecodeNext();
    }

    /** `_get_decoder()()`: classify the byte under the cursor and run the
        matching `_decode_*` method. */
    method DecodeNext() returns (r: Option<Value>)
      modifies this`cursor
      ensures Agrees(r, cursor, DecodeAt(data, old(cursor)))
      decreases |data| - cursor, 1
    {
      if cursor >= |data| {
        return None;
      }
      match DecodeTypeFromCode(data[cursor])
      case None =>
        r := None;
      case Some(Dictionary) =>
        r := DecodeDict();
      case Some(String) =>
        var s := DecodeStr();
        r := if s.Some? then Some(Bytes(s.value)) else None;
      case Some(List) =>
        r := DecodeList();
      case Some(Integer) =>
        var n := DecodeInt();
        r := if n.Some? then Some(Int(n.value)) else None;
    }

    /** `_decode_dict`: step over the `d`, then read a key and a value and
        assign them until the `e`, and step over that. */
    method DecodeDict() returns (r: Option<Value>)
      requires cursor < |data|
      modifies this`cursor
      ensures Agrees(r, cursor, Decoded(ParseDictItems(data, old(cursor) + 1, [])))
      decreases |data| - cursor, 0
    {
      var result: Entries := [];
      ghost var wire: Entries := [];
      ghost var start := cursor;
      cursor := cursor + 1;
      while cursor < |data| && data[cursor] != LowerE
        invariant start < cursor
        invariant ParseDictItems(data, cursor, wire) == ParseDictItems(data, start + 1, [])
        invariant result == Collapse(Dict(wire)).entries
        decreases |data| - cursor
      {
        ghost var here := cursor;
        var key := DecodeStr();
        if key.None? {
          return None;
        }
        ghost var afterKey := cursor;
        var value := DecodeNext();
        if value.None? {
          return None;
        }
        ghost var w := ParseAt(data, afterKey).value.0;
        CollapseDictStep(wire, key.value, w);
        result := Put(result, key.value, value.value);
        wire := wire + [(key.value, w)];
      }
      if cursor >= |data| {
        return None;
      }
      cursor := cursor + 1;
      r := Some(Dict(result));
    }

    /** `_decode_str`: the length up to the first colon, then the payload. */
    method DecodeStr() returns (r: Option<seq<byte>>)
      modifies this`cursor
      ensures Agrees(r, cursor, StrAt(data, old(cursor)))
    {
      var buf, i := data, cursor;
      if i >= |buf| {
        return None;
      }
      if buf[i] == Zero && (i + 1 >= |buf| || buf[i + 1] != Colon) {
        return None;
      }
      var colon := Find(buf, Colon, i);
      if colon.None? {
        assert StrAt(buf, i).None?;
        return None;
      }
      var length := ParseNat(buf[i..colon.value]);
      if length.None? {
        assert StrAt(buf, i).None?;
        return None;
      }
      StrAtOf(buf, i, colon.value, length.value);
      var start := colon.value + 1;
      var end := start + length.value;
      cursor := end;
      r := Some(Slice(buf, start, end));
    }

    /** `_decode_list`: step over the `l`, then read and append primitives
        until the `e`, and step over that. */
    method DecodeList() returns (r: Option<Value>)
      requires cursor < |data|
      modifies this`cursor
      ensures Agrees(r, cursor, Decoded(ParseListItems(data, old(cursor) + 1, [])))
      decreases |data| - cursor, 0
    {
      var result: seq<Value> := [];
      ghost var wire: seq<Value> := [];
      ghost var start := cursor;
      cursor := cursor + 1;
      while cursor < |data| && data[cursor] != LowerE
        invariant start < cursor
        invariant ParseListItems(data, cursor, wire) == ParseListItems(data, start + 1, [])
        invariant result == Collapse(Value.List(wire)).items
        decreases |data| - cursor
      {
        ghost var here := cursor;
        var item := DecodeNext();
        if item.None? {
          return None;
        }
        ghost var w := ParseAt(data, here).value.0;
        CollapseListStep(wire, w);
        result := result + [item.value];
        wire := wire + [w];
      }
      if cursor >= |data| {
        return None;
      }
      cursor := cursor + 1;
      r := Some(Value.List(result));
    }

    /** `_decode_int`: step over the `i`, check the sign and leading zero,
        and read the body up to the first `e`. */
    method DecodeInt() returns (r: Option<int>)
      modifies this`cursor
      ensures Agrees(r, cursor, IntAt(data, old(cursor)))
    {
      cursor := cursor + 1;
      if cursor >= |data| {
        return None;
      }
      if data[cursor] == Minus && (cursor + 1 >= |data| || data[cursor + 1] == Zero) {
        return None;
      }
      if data[cursor] == Zero && (cursor + 1 >= |data| || data[cursor + 1] != LowerE) {
        return None;
      }
      var start := cursor;
      var end := Find(data, LowerE, cursor);
      if end.None? {
        return None;
      }
      cursor := end.value + 1;
      r := ParseInt(data[start..end.value]);
    }
  }
}
