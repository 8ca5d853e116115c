/** The other direction of the round trip: because the decoder refuses
    leading zeros in lengths and integers and "-0", whatever it reads from
    a stretch of the buffer is the encoding of what it returns, byte for
    byte. A buffer it reads to the end without a repeated key therefore
    re-encodes to itself. */
module Canonical {
  import opened Wrappers
  import opened Builtins
  import D = Decoder
  import E = Encoder
  import opened RoundTrip

  // ---------------------------------------------------------------------
  // Joining parts from the front

  /** `b"".join` of one part followed by more. */
  lemma JoinCons(a: seq<byte>, rest: seq<seq<byte>>)
    ensures E.Join([a] + rest) == a + E.Join(rest)
  {
    E.JoinAppend([a], rest);
    assert [a][..0] == [];
  }

  lemma JoinPartsCons(x: D.Value, rest: seq<D.Value>)
    ensures E.Join(Parts([x] + rest)) == E.Encode(Embed(x)) + E.Join(Parts(rest))
  {
    var items := [x] + rest;
    PartsTail(items);
    assert items[1..] == rest;
    JoinCons(Parts(items)[0], Parts(rest));
  }

  /** The parts of a non-empty list: its first element's, then the rest's. */
  lemma PartsTail(items: seq<D.Value>)
    requires |items| >= 1
    ensures Parts(items) == [Parts(items)[0]] + Parts(items[1..])
  {
    var parts := Parts(items);
    forall k | 0 <= k < |items| - 1 ensures parts[k + 1] == Parts(items[1..])[k] {
      assert items[k + 1] == items[1..][k];
    }
    assert parts[1..] == Parts(items[1..]);
  }

  lemma JoinEntryPartsCons(key: seq<byte>, x: D.Value, rest: D.Entries)
    ensures E.Join(EntryParts([(key, x)] + rest)) == E.EncodeBytes(key) + E.Encode(Embed(x)) + E.Join(EntryParts(rest))
  {
    var entries := [(key, x)] + rest;
    EntryPartsTail(entries);
    assert entries[1..] == rest;
    JoinCons(EntryParts(entries)[0], EntryParts(rest));
  }

  /** The parts of a non-empty dictionary: its first entry's, then the
      rest's. */
  lemma EntryPartsTail(entries: D.Entries)
    requires |entries| >= 1
    ensures EntryParts(entries) == [EntryParts(entries)[0]] + EntryParts(entries[1..])
  {
    var parts := EntryParts(entries);
    forall k | 0 <= k < |entries| - 1 ensures parts[k + 1] == EntryParts(entries[1..])[k] {
      assert entries[k + 1] == entries[1..][k];
    }
    assert parts[1..] == EntryParts(entries[1..]);
  }

  // ---------------------------------------------------------------------
  // Primitives

  /** A byte-string the decoder reads from `i` to `j`, with the payload all
      inside the buffer, is spelled exactly as the encoder writes it: the
      leading-zero check leaves only the canonical length. */
  lemma EncodedStrAt(data: seq<byte>, i: nat, s: seq<byte>, j: nat)
    requires D.StrAt(data, i) == Some((s, j)) && j <= |data|
    ensures data[i..j] == E.EncodeBytes(s)
  {
    var colon := Find(data, Colon, i).value;
    var digits := data[i..colon];
    var n := ParseNat(digits).value;
    assert digits[0] == Zero ==> colon == i + 1;
    DigitsOfCanonical(digits);
    assert s == data[colon + 1..j] && |s| == n;
    assert data[i..j] == digits + [data[colon]] + data[colon + 1..j];
  }

  /** An integer the decoder reads from the `i` at `i` to `j` is spelled
      exactly as the encoder writes it: the `-0` and leading-zero checks
      leave only the canonical decimal. */
  lemma EncodedIntAt(data: seq<byte>, i: nat, n: int, j: nat)
    requires i < |data| && data[i] == LowerI && D.IntAt(data, i) == Some((n, j))
    ensures data[i..j] == E.EncodeInt(n)
  {
    var end := Find(data, LowerE, i + 1).value;
    var body := data[i + 1..end];
    assert body[0] == Zero ==> end == i + 2;
    ShowIntOfCanonical(body);
    assert data[i..j] == [data[i]] + body + [data[end]];
  }

  // ---------------------------------------------------------------------
  // Any primitive

  /** Whatever the decoder reads from `i` to `j`, inside the buffer, is the
      encoding of the wire value it reads. */
  lemma {:induction false} EncodedParse(data: seq<byte>, i: nat, w: D.Value, j: nat)
    requires D.ParseAt(data, i) == Some((w, j)) && j <= |data|
    ensures data[i..j] == E.Encode(Embed(w))
    decreases |data| - i, 2
  {
    assert i < |data|;
    D.ParseAtDispatch(data, i);
    if IsDigit(data[i]) {
      EncodedStrAt(data, i, w.bytes, j);
    } else if data[i] == LowerI {
      EncodedIntAt(data, i, w.num, j);
    } else if data[i] == LowerL {
      EncodedListParse(data, i, w, j);
    } else {
      assert data[i] == LowerD;
      EncodedDictParse(data, i, w, j);
    }
  }

  lemma {:induction false} EncodedListParse(data: seq<byte>, i: nat, w: D.Value, j: nat)
    requires i < |data| && data[i] == LowerL
    requires D.ParseListItems(data, i + 1, []) == Some((w, j)) && j <= |data|
    ensures data[i..j] == E.Encode(Embed(w))
    decreases |data| - i, 1
  {
    EncodedListItems(data, i + 1, [], w, j);
    WholeSuffix(w.items);
    EncodeEmbedListOf(w);
    SplitHead(data, i, j);
  }

  lemma {:induction false} EncodedDictParse(data: seq<byte>, i: nat, w: D.Value, j: nat)
    requires i < |data| && data[i] == LowerD
    requires D.ParseDictItems(data, i + 1, []) == Some((w, j)) && j <= |data|
    ensures data[i..j] == E.Encode(Embed(w))
    decreases |data| - i, 1
  {
    EncodedDictItems(data, i + 1, [], w, j);
    WholeSuffix(w.entries);
    EncodeEmbedDictOf(w);
    SplitHead(data, i, j);
  }

  // ---------------------------------------------------------------------
  // The loops

  /** The list loop, from `k` with `acc` read, returns `acc` followed by the
      rest of the elements, and the bytes it went over are their encodings
      and the closing `e`. */
  lemma {:induction false} EncodedListItems(data: seq<byte>, k: nat, acc: seq<D.Value>, w: D.Value, j: nat)
    requires D.ParseListItems(data, k, acc) == Some((w, j)) && j <= |data|
    ensures w.List? && |acc| <= |w.items| && w.items[..|acc|] == acc
    ensures data[k..j] == E.Join(Parts(w.items[|acc|..])) + [LowerE]
    decreases |data| - k, 3
  {
    assert k < |data|;
    if data[k] == LowerE {
      assert w.items == acc && j == k + 1;
      assert w.items[|acc|..] == [];
    } else {
      var (x, next) := D.ParseAt(data, k).value;
      D.ListItemsStep(data, k, acc, x, next);
      EncodedListItems(data, next, acc + [x], w, j);
      EncodedParse(data, k, x, next);
      ElementThenRest(data, k, next, j, acc, x, w.items);
    }
  }

  /** An element's encoding from `k` to `next` followed by the encodings of
      the elements after it and the `e`, up to `j`. */
  lemma ElementThenRest(data: seq<byte>, k: nat, next: nat, j: nat, acc: seq<D.Value>, x: D.Value, items: seq<D.Value>)
    requires k <= next <= j <= |data| && |acc| + 1 <= |items| && items[..|acc| + 1] == acc + [x]
    requires data[k..next] == E.Encode(Embed(x))
    requires data[next..j] == E.Join(Parts(items[|acc| + 1..])) + [LowerE]
    ensures items[..|acc|] == acc
    ensures data[k..j] == E.Join(Parts(items[|acc|..])) + [LowerE]
  {
    SnocPrefix(items, acc, x);
    JoinPartsCons(x, items[|acc| + 1..]);
    SplitTwo(data, k, next, j);
  }

  /** The dictionary loop, from `k` with `acc` read, returns `acc` followed
      by the rest of the entries, and the bytes it went over are their keys'
      and values' encodings and the closing `e`. */
  lemma {:induction false} EncodedDictItems(data: seq<byte>, k: nat, acc: D.Entries, w: D.Value, j: nat)
    requires D.ParseDictItems(data, k, acc) == Some((w, j)) && j <= |data|
    ensures w.Dict? && |acc| <= |w.entries| && w.entries[..|acc|] == acc
    ensures data[k..j] == E.Join(EntryParts(w.entries[|acc|..])) + [LowerE]
    decreases |data| - k, 3
  {
    assert k < |data|;
    if data[k] == LowerE {
      assert w.entries == acc && j == k + 1;
      assert w.entries[|acc|..] == [];
    } else {
      var (key, mid) := D.StrAt(data, k).value;
      var (x, next) := D.ParseAt(data, mid).value;
      D.DictItemsStep(data, k, acc, key, mid, x, next);
      EncodedDictItems(data, next, acc + [(key, x)], w, j);
      EncodedStrAt(data, k, key, mid);
      EncodedParse(data, mid, x, next);
      EntryThenRest(data, k, mid, next, j, acc, key, x, w.entries);
    }
  }

  /** An entry's key encoding from `k` to `mid` and value encoding up to
      `next`, followed by the encodings of the entries after it and the
      `e`, up to `j`. */
  lemma EntryThenRest(data: seq<byte>, k: nat, mid: nat, next: nat, j: nat, acc: D.Entries, key: seq<byte>, x: D.Value, entries: D.Entries)
    requires k <= mid <= next <= j <= |data| && |acc| + 1 <= |entries| && entries[..|acc| + 1] == acc + [(key, x)]
    requires data[k..mid] == E.EncodeBytes(key) && data[mid..next] == E.Encode(Embed(x))
    requires data[next..j] == E.Join(EntryParts(entries[|acc| + 1..])) + [LowerE]
    ensures entries[..|acc|] == acc
    ensures data[k..j] == E.Join(EntryParts(entries[|acc|..])) + [LowerE]
  {
    SnocPrefix(entries, acc, (key, x));
    JoinEntryPartsCons(key, x, entries[|acc| + 1..]);
    SplitThree(data, k, mid, next, j);
  }

  // ---------------------------------------------------------------------
  // Sequence slicing facts the loop lemmas above use. Each is a single
  // step of sequence extensionality, kept as a lemma so that the solver
  // sees only the one equation at its call site.

  /** A sequence that starts with `acc` and then `x` continues from `acc`
      with `x`. */
  lemma SnocPrefix<T>(s: seq<T>, acc: seq<T>, x: T)
    requires |acc| + 1 <= |s| && s[..|acc| + 1] == acc + [x]
    ensures s[..|acc|] == acc && s[|acc|..] == [x] + s[|acc| + 1..]
  {
    assert s[..|acc|] == s[..|acc| + 1][..|acc|];
  }

  lemma WholeSuffix<T>(s: seq<T>)
    ensures s[0..] == s
  {
  }

  lemma SplitHead<T>(s: seq<T>, a: nat, b: nat)
    requires a < b <= |s|
    ensures s[a..b] == [s[a]] + s[a + 1..b]
  {
  }

  lemma SplitTwo<T>(s: seq<T>, a: nat, b: nat, c: nat)
    requires a <= b <= c <= |s|
    ensures s[a..c] == s[a..b] + s[b..c]
  {
  }

  lemma SplitThree<T>(s: seq<T>, a: nat, b: nat, c: nat, d: nat)
    requires a <= b <= c <= d <= |s|
    ensures s[a..d] == s[a..b] + s[b..c] + s[c..d]
  {
  }

  // ---------------------------------------------------------------------
  // The round trip from canonical buffers

  /** `encode(decode(b)) == b` for a buffer the decoder reads to its very
      end and in which no dictionary repeats a key: the decoder returns the
      wire value itself, and that value encodes back to the buffer. */
  lemma EncodeDecode(data: seq<byte>, w: D.Value)
    requires D.ParseAt(data, 0) == Some((w, |data|)) && D.UniqueKeys(w)
    ensures D.DecodeBuffer(data) == Some(w)
    ensures E.Encode(Embed(w)) == data
  {
    D.CollapseUnique(w);
    EncodedParse(data, 0, w, |data|);
  }
}
