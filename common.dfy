/** The leading-byte classifier shared by the format's two halves: the enum
    `CodeType`, whose members are declared with the bytes that open each
    primitive, and `from_code`, which picks the member holding a byte. */
module Common {
  import opened Wrappers
  import opened Builtins

  /** The four primitive kinds, in the enum's declaration order. */
  datatype CodeType = Dictionary | String | List | Integer

  /** The ten digit bytes in the order the enum spells them, "1234567890". */
  const DigitCodes: seq<byte> := [0x31, 0x32, 0x33, 0x34, 0x35, 0x36, 0x37, 0x38, 0x39, 0x30]

  /** The enum's members paired with their values, in declaration order. */
  function Members(): seq<(CodeType, seq<byte>)> {
    [(Dictionary, [LowerD]), (String, DigitCodes), (List, [LowerL]), (Integer, [LowerI])]
  }

  /** `next(filter(lambda m: code in m.value, members))`: the first member,
      in table order, whose value holds `code`; `None` where `next` would
      raise StopIteration. */
  function FirstMatch<K>(table: seq<(K, seq<byte>)>, code: byte): Option<K> {
    if table == [] then None
    else if code in table[0].1 then Some(table[0].0)
    else FirstMatch(table[1..], code)
  }

  /** `FirstMatch` finds nothing exactly when no member holds the code, and
      otherwise names the member at the first position that holds it. */
  lemma {:induction false} FirstMatchSpec<K>(table: seq<(K, seq<byte>)>, code: byte)
    ensures FirstMatch(table, code).None? <==> forall k :: 0 <= k < |table| ==> code !in table[k].1
    ensures FirstMatch(table, code).Some? ==>
      exists k :: 0 <= k < |table| && table[k].0 == FirstMatch(table, code).value && code in table[k].1
                  && forall m :: 0 <= m < k ==> code !in table[m].1
  {
    if table != [] && code !in table[0].1 {
      var rest := table[1..];
      FirstMatchSpec(rest, code);
      assert forall k :: 1 <= k < |table| ==> table[k] == rest[k - 1];
      if FirstMatch(rest, code).Some? {
        var k :| 0 <= k < |rest| && rest[k].0 == FirstMatch(rest, code).value && code in rest[k].1
                 && forall m :: 0 <= m < k ==> code !in rest[m].1;
        assert table[k + 1] == rest[k];
      }
    }
  }

  /** `CodeType.from_code`. */
  function FromCode(code: byte): (r: Option<CodeType>) {
    FirstMatch(Members(), code)
  }

  /** The classification table written out: `d` opens a dictionary, each of
      the ten digits a byte-string, `l` a list and `i` an integer; every
      other byte opens nothing. */
  lemma FromCodeCases(code: byte)
    ensures FromCode(code) == (if code == LowerD then Some(Dictionary)
                               else if IsDigit(code) then Some(String)
                               else if code == LowerL then Some(List)
                               else if code == LowerI then Some(Integer)
                               else None)
  {
    assert IsDigit(code) <==> code in DigitCodes;
    var t0 := Members();
    var t1 := t0[1..];
    var t2 := t1[1..];
    var t3 := t2[1..];
    var t4 := t3[1..];
    assert t1[0] == (String, DigitCodes) && t2[0] == (List, [LowerL]) && t3[0] == (Integer, [LowerI]) && t4 == [];
    assert FirstMatch(t0, code) == if code == LowerD then Some(Dictionary) else FirstMatch(t1, code);
    assert FirstMatch(t1, code) == if code in DigitCodes then Some(String) else FirstMatch(t2, code);
    assert FirstMatch(t2, code) == if code == LowerL then Some(List) else FirstMatch(t3, code);
    assert FirstMatch(t3, code) == if code == LowerI then Some(Integer) else None;
  }

  /** The members' byte sets are pairwise disjoint, so a byte is classified
      as a member exactly when it is among that member's bytes. */
  lemma FromCodeExact(code: byte, t: CodeType)
    ensures FromCode(code) == Some(t) <==> code in Members()[Index(t)].1
  {
    FromCodeCases(code);
    assert IsDigit(code) <==> code in DigitCodes;
  }

  /** The position of a member in the declaration order. */
  function Index(t: CodeType): (k: nat)
    ensures k < |Members()| && Members()[k].0 == t
  {
    match t
    case Dictionary => 0
    case String => 1
    case List => 2
    case Integer => 3
  }
}
