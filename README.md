# bcoder in Dafny

A model of the bencode codec `bcoder`: the `bencoding` format of BitTorrent
BEP 3, with its four primitives — byte-strings `<length>:<bytes>`, integers
`i<decimal>e`, lists `l…e` and dictionaries `d…e` — and the library's two
halves.

- **Classifier** (`common.dfy`, module `Common`): the enum `CodeType` with the
  bytes that open each primitive, and `from_code`, the first member whose
  bytes hold a given byte.
- **Decoder** (`decoder.dfy`, module `Decoder`): `BDecoder`, a recursive-descent
  parser over a byte buffer with one cursor that every `_decode_*` method
  advances. It is modelled as a class `BDecoder` with the fields `data` and
  `cursor` and one method per Python method. Each method is proved to agree
  with pure specification functions:
  - `ParseAt` reads one primitive as it stands on the wire, every dictionary
    entry kept;
  - `Collapse` builds each dictionary by the assignments `result[key] = value`
    in wire order (`Assign`/`Put` on an association list that keeps Python's
    insertion order);
  - `DecodeAt` is what the decoder returns, and `DecodeBuffer` is
    `BDecoder().decode(data)`.
- **Encoder** (`encoder.dfy`, module `Encoder`): `BEncoder`, a pure recursive
  serialiser that dispatches on the runtime type of its input (`dict`, `str`,
  `list`, `int`, `bytes`, checked in that order). `str` is restricted to ASCII.
- **Host services** (`builtins.dfy`, module `Builtins`): `bytes.index`,
  slicing with Python's clamping, `str(n)` and `int(text)` on ASCII decimals.
- **Round trips** (`roundtrip.dfy`, `canonical.dfy`): decoding an encoding
  gives the value back with its keys in the same order, and the cursor ends
  exactly past the encoding. Conversely, a buffer that the decoder reads to
  its end, with no repeated key, is the encoding of what it returns.
- **Examples** (`examples.dfy`): the concrete buffers the format names: `i0e`,
  `0:`, `le`, `de`, `i-0e`, `i03e`, `03:abc`, `l4:spam`, `4:sp`,
  `d3:bar4:spam3:fooi42ee`, and a dictionary with a repeated key.

Python exceptions (DecodeError, IndexError, ValueError, StopIteration) are all
the `None` of an `Option`. Integers are unbounded, as Python's `int` is; the
interpreter's limit on the digits of `int`/`str` conversions is left out (see
below).
The cursor is a `nat` and may run past the end of the buffer, as `_i` can
after a short payload.

## Model

| member | source | states |
|---|---|---|
| Common.FirstMatch | src/bencoder/common.py:10-12 | no contract of its own: `next(filter(lambda m: code in m.value, cls))` over a table; `Common.FirstMatchSpec` states what it returns |
| Common.FromCode | src/bencoder/common.py:10-12 | no contract of its own: `CodeType.from_code`; `Common.FromCodeCases` and `Common.FromCodeExact` state its table |
| Common.FirstMatchSpec | src/bencoder/common.py:10-12 | `next(filter(...))` fails exactly when no member holds the byte; otherwise it names the first member in declaration order that holds it |
| Common.FromCodeCases | src/bencoder/common.py:4-12 | `d` classifies as DICTIONARY, each of the ten digits as STRING, `l` as LIST, `i` as INTEGER, and every other byte as a failure |
| Common.FromCodeExact | src/bencoder/common.py:4-8 | the members' byte sets are disjoint: a byte is classified as a member if and only if it is among that member's bytes |
| Decoder.DecodeTypeFromCode | src/bencoder/decoder.py:20-22 | no contract of its own: `DecodeType.from_code`; `Decoder.DecodeTypeCases` and `Decoder.SameClassification` state it |
| Decoder.DecodeTypeCases | src/bencoder/decoder.py:14-22 | the decoder's own `DecodeType.from_code` table, written out: `d`, digits, `l`, `i`, and failure on anything else |
| Decoder.SameClassification | src/bencoder/decoder.py:14-22 | `DecodeType.from_code` fails exactly when `CodeType.from_code` does, and otherwise returns the member of the same name |
| Decoder.Lookup | src/bencoder/decoder.py:53 | no contract of its own: reading a key of a dictionary; `Decoder.LookupPresent` states when it finds one |
| Decoder.LookupPresent | src/bencoder/decoder.py:53 | a dictionary holds a value for a key exactly when the key is among its keys |
| Decoder.Put | src/bencoder/decoder.py:53 | after `m[key] = val`, looking up `key` gives `val`; an absent key is appended at the end |
| Decoder.PutKeys | src/bencoder/decoder.py:53 | `m[key] = val` leaves the key order unchanged for a present key and appends an absent one |
| Decoder.PutOthers | src/bencoder/decoder.py:53 | `m[key] = val` does not change the lookup of any other key |
| Decoder.PutDistinct | src/bencoder/decoder.py:53 | after `m[key] = val` the dictionary still has no repeated key |
| Decoder.Assign | src/bencoder/decoder.py:47-53 | a dictionary built by assignments never holds the same key twice |
| Decoder.AssignKeepsLastValue | src/bencoder/decoder.py:51-53 | a key assigned several times holds the value of its last assignment |
| Decoder.AssignKeepsFirstOrder | src/bencoder/decoder.py:51-53 | keys are ordered by their first assignment: nothing is sorted and a repeated key does not move |
| Decoder.AssignDistinct | src/bencoder/decoder.py:51-53 | entries with distinct keys come out exactly as they went in, in wire order |
| Decoder.StrAt | src/bencoder/decoder.py:59-71 | a byte-string that is read moves the cursor at least past the length and the colon |
| Decoder.StrAtReads | src/bencoder/decoder.py:59-71 | with the first colon at or after the cursor at `colon`, `_decode_str` succeeds exactly when the bytes before it are a decimal length `n` without a leading zero (`0` itself allowed), and then returns `data[colon+1 .. min(colon+1+n, len(data))]` with the cursor at `colon+1+n` |
| Decoder.StrAtWithoutColon | src/bencoder/decoder.py:63 | with no colon at or after the cursor, `_decode_str` fails |
| Decoder.StrAtAsWritten | src/bencoder/decoder.py:59-71 | `_decode_str` with `int()` on the length: apart from a length that opens with `-`, it reads exactly what `StrAt` reads |
| Decoder.NegativeKeyLength | src/bencoder/decoder.py:51-53 | in `d1:k1:v-6:` the key `-6:` sends the cursor back from 7 to 4, and the value read there returns it to 7, so the loop never ends; `StrAt` refuses that key |
| Decoder.NegativeKeyDecodes | src/bencoder/decoder.py:51-53 | in `d-2:0:e` the key `-2:` is empty and sends the cursor back to 2, the value `2:` there reads `0:` and stops on the closing `e`, so the source decodes the buffer to a value; `StrAt` refuses the key and the model refuses the buffer |
| Decoder.IntAt | src/bencoder/decoder.py:85-98 | an integer that is read covers at least `i`, one digit and `e` |
| Decoder.IntAtReads | src/bencoder/decoder.py:85-98 | with the first `e` after the `i` at `end`, `_decode_int` succeeds exactly when the body between them is a decimal without a leading zero, with an optional `-` but never `-0`, and then returns its value with the cursor at `end + 1` |
| Decoder.IntAtWithoutEnd | src/bencoder/decoder.py:94 | with no `e` after the `i`, `_decode_int` fails |
| Decoder.ParseAt | src/bencoder/decoder.py:43-44 | any primitive that is read moves the cursor forward |
| Decoder.ParseAtDispatch | src/bencoder/decoder.py:43-44 | a digit reads a byte-string, `i` an integer, `l` a list, `d` a dictionary; any other byte fails, and so does a cursor past the end of the buffer, where indexing raises IndexError |
| Decoder.ParseListItems | src/bencoder/decoder.py:78-81 | the list loop, when it succeeds, returns a list and a cursor past where it started |
| Decoder.ParseDictItems | src/bencoder/decoder.py:51-55 | the dictionary loop, when it succeeds, returns a dictionary and a cursor past where it started |
| Decoder.ListItemsRun | src/bencoder/decoder.py:78-81 | if each element is read where the buffer places it and an `e` follows the last one, the loop returns all the elements in wire order and stops past the `e` |
| Decoder.DictItemsRun | src/bencoder/decoder.py:51-55 | if each key and value are read where the buffer places them and an `e` follows, the loop returns all the entries in wire order and stops past the `e` |
| Decoder.ListItemsRead | src/bencoder/decoder.py:73-83 | `ListItemsRun` from the loop's first turn |
| Decoder.DictItemsRead | src/bencoder/decoder.py:46-57 | `DictItemsRun` from the loop's first turn |
| Decoder.Collapse | src/bencoder/decoder.py:46-57 | no contract of its own: the value the decoder builds from a wire value; `Decoder.CollapseUnique`, `Decoder.CollapseUniqueKeys`, `Decoder.AssignKeepsLastValue` and `Decoder.AssignKeepsFirstOrder` state it |
| Decoder.DecodeAt | src/bencoder/decoder.py:43-44 | no contract of its own: the primitive decoded at a position; `RoundTrip.DecodeEncodedAt` and `Decoder.BDecoder.DecodeNext` state it |
| Decoder.DecodeBuffer | src/bencoder/decoder.py:37-41 | no contract of its own: `BDecoder().decode(data)`; `RoundTrip.DecodeEncode`, `Canonical.EncodeDecode` and `Decoder.BDecoder.Decode` state it |
| Decoder.CollapseUniqueKeys | src/bencoder/decoder.py:46-57 | no dictionary that the decoder returns holds a key twice, at any depth |
| Decoder.AssignPreserves | src/bencoder/decoder.py:51-53 | if no assigned value holds a repeated key at any depth, neither does any value of the dictionary the assignments build |
| Decoder.PutPreserves | src/bencoder/decoder.py:53 | if no value of `m`, and not `val`, holds a repeated key at any depth, the same is true after `m[key] = val` |
| Decoder.CollapseUnique | src/bencoder/decoder.py:46-57 | where no dictionary repeats a key, the decoder returns the wire value exactly, entries in wire order |
| Decoder.CollapseListStep | src/bencoder/decoder.py:78-79 | `result.append(x)` appends the decoded element |
| Decoder.CollapseDictStep | src/bencoder/decoder.py:51-53 | `result[key] = value` assigns the decoded value to the key |
| Decoder.BDecoder.constructor | src/bencoder/decoder.py:26-28 | a new decoder holds an empty buffer and a cursor of 0, where the source holds `None` in both; `decode` sets both before any read, so no method observes the difference |
| Decoder.BDecoder.Decode | src/bencoder/decoder.py:37-41 | `decode` takes the buffer, resets the cursor to 0 and returns exactly the one primitive the specification reads there; bytes after it are ignored |
| Decoder.BDecoder.DecodeNext | src/bencoder/decoder.py:43-44 | the decoder chosen by the byte under the cursor returns what `DecodeAt` gives there and leaves the cursor just past it, or fails exactly when `DecodeAt` does |
| Decoder.BDecoder.DecodeDict | src/bencoder/decoder.py:46-57 | the loop returns the dictionary built by assigning every wire entry in order, with the cursor past the `e`; it fails exactly when the specification does |
| Decoder.BDecoder.DecodeStr | src/bencoder/decoder.py:59-71 | `_decode_str` returns the payload that `StrAt` gives and moves the cursor to the end of the payload, or fails exactly when `StrAt` does |
| Decoder.BDecoder.DecodeList | src/bencoder/decoder.py:73-83 | the loop returns every decoded element in wire order, with the cursor past the `e`; it fails exactly when the specification does |
| Decoder.BDecoder.DecodeInt | src/bencoder/decoder.py:85-98 | `_decode_int` returns the integer that `IntAt` gives and moves the cursor past the first `e`, or fails exactly when `IntAt` does |
| Encoder.FirstInstance | src/bencoder/encoder.py:20-22 | `next(filter(isinstance...))` returns a member the value is an instance of, and fails only when it is an instance of none |
| Encoder.FromValue | src/bencoder/encoder.py:13-22 | every value of the closed type is an instance of exactly one member, and that member is chosen |
| Encoder.AsciiBytes | src/bencoder/encoder.py:53 | ASCII text encodes to one byte per character |
| Encoder.Join | src/bencoder/encoder.py:44-47 | no contract of its own: `b"".join(parts)`; `Encoder.JoinAppend` states how it splits |
| Encoder.Encode | src/bencoder/encoder.py:37-41 | no contract of its own: `encode`; `Encoder.EncodingOpensWithKind`, `RoundTrip.DecodeEncodeInput` and `Canonical.EncodeDecode` state it |
| Encoder.EncodeDict | src/bencoder/encoder.py:43-49 | no contract of its own: `_encode_dict`; `RoundTrip.EntriesEncoded` and `Examples.EncodeTwoEntries` state it |
| Encoder.EncodeStr | src/bencoder/encoder.py:51-55 | no contract of its own: `_encode_str`; `Encoder.StrEncodesAsBytes` states it |
| Encoder.EncodeList | src/bencoder/encoder.py:57-63 | no contract of its own: `_encode_list`; `RoundTrip.ItemsEncoded` and `Canonical.EncodedListItems` state it |
| Encoder.EncodeInt | src/bencoder/encoder.py:65-66 | no contract of its own: `_encode_int`; `RoundTrip.IntAtEncoded` and `Canonical.EncodedIntAt` state it |
| Encoder.EncodeBytes | src/bencoder/encoder.py:68-71 | no contract of its own: `_encode_bytes`; `RoundTrip.StrAtEncoded` and `Canonical.EncodedStrAt` state it |
| Encoder.EncodingOpensWithKind | src/bencoder/encoder.py:37-71 | every encoding is at least two bytes long, and its first byte is classified as the value's kind (text and bytes as STRING) |
| Encoder.StrEncodesAsBytes | src/bencoder/encoder.py:51-55 | ASCII text encodes exactly as the bytes of the same content: the length prefix counts characters, which are bytes here |
| Encoder.JoinAppend | src/bencoder/encoder.py:44-47 | `b"".join` of two runs of parts is the concatenation of the two joins |
| Builtins.Find | src/bencoder/decoder.py:63 | `bytes.index` finds the first position at or after the start that holds the byte, and fails if and only if there is none |
| Builtins.Slice | src/bencoder/decoder.py:71 | a slice inside the buffer is the bytes between its ends; an end past the buffer is clamped to it, so the slice is the rest of the buffer; a start past the buffer or a non-negative end at or before the start gives nothing; a negative end counts back from the end of the buffer, as Python's slices do (only the as-written reading of a negative key length reaches it); any slice is no longer than the buffer |
| Builtins.Digits | src/bencoder/encoder.py:69 | `str(n)` for `n >= 0` is one or more digits without a leading zero, and opens with `0` only for zero |
| Builtins.ShowInt | src/bencoder/encoder.py:66 | `str(n)` is non-empty, opens with `-` exactly for negatives, and holds no `e` and no `:` |
| Builtins.ParseNat | src/bencoder/decoder.py:64 | `int()` on a length succeeds exactly on a non-empty run of ASCII digits |
| Builtins.ParseInt | src/bencoder/decoder.py:98 | `int()` on an integer body succeeds exactly on an optional `-` followed by digits, with the sign of the result following the `-` |
| Builtins.ParseNatDigits | src/bencoder/decoder.py:64 | `int(str(n)) == n` for lengths |
| Builtins.CanonicalIsPositive | src/bencoder/decoder.py:90-91 | a numeral without a leading zero other than `0` denotes a positive number |
| Builtins.DigitsOfCanonical | src/bencoder/decoder.py:60-64 | a length without a leading zero is the only spelling of its value: `str(int(s)) == s` |
| Builtins.ParseIntShowInt | src/bencoder/encoder.py:66 | `int(str(n)) == n` for every integer |
| Builtins.ShowIntOfCanonical | src/bencoder/decoder.py:88-98 | an integer body that passes the `-0` and leading-zero checks and `int()` is exactly `str()` of its value |
| RoundTrip.StrAtEncoded | src/bencoder/decoder.py:59-71 | `_decode_str` on a bytes encoding returns the same bytes and ends exactly past the encoding |
| RoundTrip.IntAtEncoded | src/bencoder/decoder.py:85-98 | `_decode_int` on an integer encoding returns the same integer, with the cursor past its `e` |
| RoundTrip.IntLaidOut | src/bencoder/encoder.py:65-66 | in an integer's encoding, the first `e` after the `i` is the closing one, and the decimal lies between them |
| RoundTrip.OpensWithoutEnd | src/bencoder/decoder.py:51 | no encoding opens with `e`, so the list and dictionary loops never mistake an element for their end |
| RoundTrip.ParseEncoded | src/bencoder/decoder.py:43-98 | reading the encoding of any value, anywhere in a buffer, gives back the value with its keys in the same order and stops exactly past the encoding: encodings are self-delimiting |
| RoundTrip.ItemsEncoded | src/bencoder/decoder.py:73-83 | the list loop on a list's encoding reads every element back in order and stops past the closing `e` |
| RoundTrip.EntriesEncoded | src/bencoder/decoder.py:46-57 | the dictionary loop on a dictionary's encoding reads every key and value back in order and stops past the closing `e` |
| RoundTrip.KeyEncoded | src/bencoder/decoder.py:52 | a key's encoding opens with a digit, not `e`, and `_decode_str` reads the key back |
| RoundTrip.DecodeEncodedAt | src/bencoder/decoder.py:43-98 | decoding the encoding of a value whose dictionaries repeat no key gives the value back, with the cursor exactly past the encoding |
| RoundTrip.DecodeEncode | src/bencoder/decoder.py:37-41 | `decode(encode(v) + rest) == v` for every value without repeated keys: the bytes after the encoding are ignored |
| RoundTrip.EncodeWire | src/bencoder/encoder.py:43-55 | an encoder input with text or byte keys encodes exactly like its decoded form, text turned into bytes |
| RoundTrip.DecodeEncodeInput | src/bencoder/encoder.py:37-71 | `decode(encode(e) + rest)` for any encoder input returns it with text turned into bytes, the same shape and the same key order |
| Canonical.EncodedStrAt | src/bencoder/decoder.py:60-71 | a byte-string the decoder reads inside the buffer is spelled exactly as `_encode_bytes` writes it |
| Canonical.EncodedIntAt | src/bencoder/decoder.py:85-98 | an integer the decoder reads is spelled exactly as `_encode_int` writes it |
| Canonical.EncodedParse | src/bencoder/decoder.py:43-98 | whatever the decoder reads from one position to another inside the buffer is the encoding of the wire value read |
| Canonical.EncodedListItems | src/bencoder/decoder.py:73-83 | the bytes the list loop goes over are its elements' encodings followed by `e` |
| Canonical.EncodedDictItems | src/bencoder/decoder.py:46-57 | the bytes the dictionary loop goes over are its keys' and values' encodings followed by `e` |
| Canonical.EncodeDecode | src/bencoder/encoder.py:43-49 | `encode(decode(b)) == b` for a buffer the decoder reads to its end in which no dictionary repeats a key |
| Examples.ZeroInt | src/bencoder/decoder.py:85-98 | `i0e` decodes to 0 |
| Examples.EmptyBytes | src/bencoder/decoder.py:59-71 | `0:` decodes to the empty byte-string |
| Examples.EmptyList | src/bencoder/decoder.py:73-83 | `le` decodes to the empty list |
| Examples.EmptyDict | src/bencoder/decoder.py:46-57 | `de` decodes to the empty dictionary |
| Examples.UnknownLeadRefused | src/bencoder/decoder.py:43-44 | an empty buffer, or one whose first byte opens no primitive, is refused |
| Examples.MinusZeroRefused | src/bencoder/decoder.py:88-89 | every buffer that opens with `i-0`, such as `i-0e` and `i-05e`, is refused |
| Examples.LeadingZeroIntRefused | src/bencoder/decoder.py:90-91 | `i03e` is refused |
| Examples.LeadingZeroLengthRefused | src/bencoder/decoder.py:60-61 | `03:abc` is refused |
| Examples.UnterminatedList | src/bencoder/decoder.py:78-81 | a list with one element and no closing `e`, such as `l4:spam`, is refused |
| Examples.ShortPayload | src/bencoder/decoder.py:66-71 | `4:sp` decodes to `sp`: the payload is not bounds-checked |
| Examples.FortyTwo | src/bencoder/encoder.py:65-66 | 42 encodes as `i42e` |
| Examples.EncodeTwoEntries | src/bencoder/encoder.py:43-49 | a two-entry dictionary encodes as `d`, each key and value in order, `e` |
| Examples.SampleEncodes | src/bencoder/encoder.py:43-49 | bar -> spam, foo -> 42 encodes as `d3:bar4:spam3:fooi42ee` |
| Examples.SampleRoundTrip | src/bencoder/decoder.py:46-57 | `d3:bar4:spam3:fooi42ee` decodes to bar -> spam, foo -> 42, in that order, and re-encodes byte for byte |
| Examples.RepeatedCollapses | src/bencoder/decoder.py:51-53 | assigning `a`=1, `b`=2, `a`=3 in turn leaves `a` -> 3 first and `b` -> 2 second |
| Examples.RepeatedKey | src/bencoder/decoder.py:46-57 | `d1:ai1e1:bi2e1:ai3ee` decodes to `a` -> 3, `b` -> 2: the repeated key keeps its first place and its last value |

## Left out

- Text encoding: `_encode_str`, `_encode_int` and the length of `_encode_bytes` go through `str.encode` with a configurable codec (encoder.py:26-27, 52-53, 66, 69). The model fixes the default, utf-8, or any ASCII-compatible codec: ASCII text, digits and `-` are one byte each, the byte of their code point. Codecs such as utf-16, utf-32 (a byte-order mark, then two or four bytes per character) or EBCDIC code pages write other bytes and are not modelled; for non-ASCII text the character-count prefix would also be wrong.
- Python's open typing: `bool` (encoded as `iTruee`), `float` and `None` (which make `next()` raise) are outside the closed `Encodable` datatype.
- Unhashable keys: `Encodable.Dict` admits lists and dictionaries as keys, which a Python dictionary cannot hold, so such values never reach `_encode_dict`. The model encodes such a key as it encodes that list or dictionary anywhere else, an output Python never produces. `RoundTrip.DecodeEncodeInput` requires `KeysAreStrings`, so the round trip is stated only for `str` and `bytes` keys.
- `int()` leniency: `int()` also accepts surrounding whitespace, a `+` sign and `_` separators (decoder.py:64 and 98). The model reads an integer body as an optional `-` and ASCII digits, and a length as ASCII digits only, so it refuses buffers such as `i+5e`, or `+3:abc` as a dictionary key, which Python accepts.
- Negative key lengths: `int()` at decoder.py:64 also takes a `-` on a dictionary key's length, which the source then follows backwards (see "## Findings"). The model refuses every key whose length opens with `-`, including buffers the source decodes to a value, such as `d-2:0:e` (`Decoder.NegativeKeyDecodes`), as well as those on which it never ends.
- Builtins.ParseInt, Builtins.ShowInt, RoundTrip.DecodeEncode: no bound on the number of digits. CPython 3.11 and later (and the 3.7.14, 3.8.14, 3.9.14 and 3.10.7 releases) make `int()` at decoder.py:64 and 98 and `str()` at encoder.py:66 and 69 raise ValueError above 4300 digits by default; the model decodes and encodes integers of any size.
- The exception types: DecodeError, IndexError, ValueError and StopIteration all become `None`. The `errors` module, which defines DecodeError, is not part of this model.
- The `_decoders` and `_encoders` dictionaries of bound methods become a `match` on the classified kind.
- Recursion depth: Python's recursion limit on deeply nested buffers is not modelled, and the library sets none of its own.
- Concurrency and the reuse of one decoder object across calls from several threads.
- Encoder keys: a `str` key and a `bytes` key with the same content encode identically, so a dictionary holding both decodes to one entry. `RoundTrip.DecodeEncodeInput` therefore requires that the keys' bytes are distinct (`UniqueKeys(Wire(e))`).
- Short payloads: a byte-string whose length runs past the buffer, such as `4:sp`, is not refused. The code slices without a bounds check and returns the shorter payload, and the model follows the code (`Builtins.Slice`, `Decoder.StrAtReads`, `Examples.ShortPayload`). A shorter payload inside a list or dictionary still fails, once the loop reads past the end.
- Decoder.StrAt, Decoder.IntAt, Decoder.ParseAt, Decoder.ParseListItems, Decoder.ParseDictItems: these specification functions state only how far the cursor moves in their own contracts. What they read is stated by `Decoder.StrAtReads`, `Decoder.IntAtReads`, `Decoder.ParseAtDispatch`, the loop lemmas `Decoder.ListItemsRun` and `Decoder.DictItemsRun`, and the two round trips.
- Decoder.BDecoder.Decode: the final cursor is stated only when decoding succeeds. After a failure Python leaves `_i` wherever the exception was raised, and the model leaves it unstated.
- Decoder.BDecoder.DecodeNext, DecodeDict, DecodeList, DecodeStr, DecodeInt: likewise, the cursor after a failure is not stated.

## Findings

| source | as written | input that shows it | evidently intended | confidence | as-written member | corrected member |
|---|---|---|---|---|---|---|
| src/bencoder/decoder.py:51-53, 63-69 | a dictionary key is read by `_decode_str` without classifying its first byte, and `int()` accepts a negative length, so `end` lies before the colon and the cursor moves backwards | `d1:k1:v-6:`: the key `-6:` at position 7 is read as empty and sends the cursor to 4, the value `1:v` there brings it back to 7, and the dictionary loop never ends; `d-2:0:e`: the key `-2:` sends the cursor back into its own length, and the buffer decodes to a dictionary mapping the empty key to `0:` | a key's length is a non-negative decimal, as for a byte-string at the top level, and such buffers are refused | not executed | Decoder.StrAtAsWritten, Decoder.NegativeKeyLength, Decoder.NegativeKeyDecodes | Decoder.StrAt |
