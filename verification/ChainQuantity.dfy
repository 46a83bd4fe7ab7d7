/** Decoding what the chain RPC returns: quantities, 32-byte words and deployed code. */
module ChainQuantity {
  import opened Json
  import opened Radix

  const MAX_UINT64: nat := 0xffff_ffff_ffff_ffff

  datatype Parsed = Number(value: nat) | Syntax | Range

  lemma EmptyValue(base: nat)
    ensures Value("", base) == Some(0)
  {
  }

  /** strconv.ParseUint(s, 16, 64), with the unsigned arithmetic and the overflow tests of the library. */
  method ParseUint(s: string) returns (r: Parsed)
    ensures forall v: nat :: r == Number(v) <==> s != "" && Value(s, 16) == Some(v) && v <= MAX_UINT64
    ensures r == Range ==> exists k :: 0 <= k <= |s| && Value(s[..k], 16).Some? && Value(s[..k], 16).value > MAX_UINT64
  {
    if s == "" {
      return Syntax;
    }
    hide Value, DigitOf;
    assert s[..0] == "" && Value("", 16) == Some(0) by { EmptyValue(16); }
    var cutoff := MAX_UINT64 / 16 + 1;
    var n := 0;
    for i := 0 to |s|
      invariant Value(s[..i], 16) == Some(n) && n <= MAX_UINT64
    {
      ValueSnoc(s, i, 16);
      ValuePrefix(s, i + 1, 16);
      var d := DigitOf(s[i]);
      if d.None? {
        return Syntax;
      }
      if n >= cutoff {
        return Range;
      }
      ShiftIn(n, d.value);
      n := n * 16;
      var n1 := (n + d.value) % (MAX_UINT64 + 1);
      if n1 < n {
        return Range;
      }
      n := n1;
    }
    assert s[..|s|] == s;
    r := Number(n);
  }

  /** The library's overflow test after its cutoff test. */
  lemma ShiftIn(n: nat, d: nat)
    requires n < MAX_UINT64 / 16 + 1 && d < 16
    ensures var n1 := (n * 16 + d) % (MAX_UINT64 + 1);
      if n * 16 + d <= MAX_UINT64 then n1 == n * 16 + d else n1 < n * 16
  {
  }

  /**
   * rpcQuantity on the string that the endpoint returned; None where the program stops with an error.
   * It inverts minimal hexadecimal encoding below 2^64 and accepts nothing else, up to letter case.
   */
  method RpcQuantity(value: string) returns (r: Option<nat>)
    ensures forall n: nat :: r == Some(n) <==> n <= MAX_UINT64 && "0x" <= value && Lower(value[2..]) == Format(n, 16)
  {
    if !("0x" <= value) || |value| < 3 || |value| > 18 || (|value| > 3 && value[2] == '0') {
      QuantityShape(value);
      return None;
    }
    var parsed := ParseUint(value[2..]);
    QuantityMeaning(value[2..]);
    NoRange(value[2..]);
    assert parsed != Range;
    r := if parsed.Number? then Some(parsed.value) else None;
  }

  /** The range error of ParseUint cannot occur on sixteen digits or fewer. */
  lemma NoRange(digits: string)
    requires |digits| <= 16
    ensures forall k :: 0 <= k <= |digits| && Value(digits[..k], 16).Some? ==>
      Value(digits[..k], 16).value <= MAX_UINT64
  {
    forall k | 0 <= k <= |digits| && Value(digits[..k], 16).Some? ensures Value(digits[..k], 16).value <= MAX_UINT64 {
      ValueBound(digits[..k], 16);
      PowUpTo(k);
    }
  }

  lemma PowUpTo(k: nat)
    requires k <= 16
    ensures Pow(16, k) <= MAX_UINT64 + 1
    decreases 16 - k
  {
    if k == 16 {
      assert Pow(16, 4) == 0x1_0000;
      assert Pow(16, 8) == 0x1_0000_0000;
      assert Pow(16, 12) == 0x1_0000_0000_0000;
      assert Pow(16, 16) == 0x1_0000_0000_0000_0000;
    } else {
      PowUpTo(k + 1);
    }
  }

  lemma QuantityMeaning(digits: string)
    requires Minimal(digits)
    ensures forall n: nat :: Value(digits, 16) == Some(n) <==> Lower(digits) == Format(n, 16)
  {
    forall n: nat ensures Value(digits, 16) == Some(n) <==> Lower(digits) == Format(n, 16) {
      if Value(digits, 16) == Some(n) { MinimalIsFormat(digits, 16); }
      if Lower(digits) == Format(n, 16) {
        ValueOfLower(digits, 16);
        ValueOfFormat(n, 16);
      }
    }
  }

  /** Every encoding of a 64-bit number passes the tests on prefix, length and leading zero. */
  lemma QuantityShape(value: string)
    ensures forall n: nat :: n <= MAX_UINT64 && "0x" <= value && Lower(value[2..]) == Format(n, 16) ==>
      3 <= |value| <= 18 && (|value| > 3 ==> value[2] != '0')
  {
    forall n: nat | n <= MAX_UINT64 && "0x" <= value && Lower(value[2..]) == Format(n, 16)
      ensures 3 <= |value| <= 18 && (|value| > 3 ==> value[2] != '0')
    {
      FormatMinimal(n, 16);
      assert Pow(16, 4) == 0x1_0000;
      assert Pow(16, 8) == 0x1_0000_0000;
      assert Pow(16, 12) == 0x1_0000_0000_0000;
      assert Pow(16, 16) == 0x1_0000_0000_0000_0000;
      FormatLength(n, 16, 16);
      assert |Lower(value[2..])| == |value| - 2;
      if value[2] == '0' { assert Lower(value[2..])[0] == '0'; }
    }
  }

  // ---- bytes ----

  /** The number that bytes denote, most significant first. */
  function BigEndian(bytes: seq<nat>): nat {
    if bytes == [] then 0 else BigEndian(bytes[..|bytes| - 1]) * 256 + bytes[|bytes| - 1]
  }

  ghost predicate Bytes(bytes: seq<nat>) {
    forall i :: 0 <= i < |bytes| ==> bytes[i] < 256
  }

  lemma EmptyBytes()
    ensures BigEndian([]) == 0
  {
  }

  lemma BigEndianSnoc(bytes: seq<nat>, b: nat)
    ensures BigEndian(bytes + [b]) == BigEndian(bytes) * 256 + b
  {
  }

  /** hex.DecodeString */
  method DecodeHex(s: string) returns (r: Option<seq<nat>>)
    ensures r.Some? <==> |s| % 2 == 0 && Value(s, 16).Some?
    ensures r.Some? ==> |r.value| * 2 == |s| && Bytes(r.value) && BigEndian(r.value) == Value(s, 16).value
  {
    hide Value, DigitOf, BigEndian;
    EmptyValue(16);
    EmptyBytes();
    var bytes: seq<nat> := [];
    var i := 0;
    while i + 2 <= |s|
      invariant i <= |s| && |bytes| * 2 == i && Bytes(bytes)
      invariant Value(s[..i], 16) == Some(BigEndian(bytes))
    {
      var hi, lo := DigitOf(s[i]), DigitOf(s[i + 1]);
      ValueSnoc(s, i, 16);
      ValueSnoc(s, i + 1, 16);
      ValuePrefix(s, i + 2, 16);
      if hi.None? || lo.None? {
        return None;
      }
      BigEndianSnoc(bytes, hi.value * 16 + lo.value);
      bytes := bytes + [hi.value * 16 + lo.value];
      i := i + 2;
    }
    if |s| % 2 == 1 {
      return None;
    }
    assert s[..i] == s;
    r := Some(bytes);
  }

  /** allZero */
  method AllZero(value: seq<nat>) returns (zero: bool)
    ensures zero <==> BigEndian(value) == 0
  {
    for i := 0 to |value|
      invariant BigEndian(value[..i]) == 0
    {
      assert value[..i + 1][..i] == value[..i];
      if value[i] != 0 {
        PrefixPositive(value, i + 1);
        return false;
      }
    }
    assert value[..|value|] == value;
    return true;
  }

  lemma {:induction false} PrefixPositive(value: seq<nat>, k: nat)
    requires k <= |value| && BigEndian(value[..k]) > 0
    ensures BigEndian(value) > 0
    decreases |value|
  {
    if k == |value| {
      assert value[..k] == value;
    } else {
      assert value[..|value| - 1][..k] == value[..k];
      PrefixPositive(value[..|value| - 1], k);
    }
  }

  lemma SplitWord(word: seq<nat>)
    requires |word| == 32 && Bytes(word)
    ensures BigEndian(word) == BigEndian(word[..28]) * 0x1_0000_0000 + BigEndian(word[28..])
    ensures BigEndian(word[28..]) ==
      word[28] * 0x100_0000 + word[29] * 0x1_0000 + word[30] * 0x100 + word[31] < 0x1_0000_0000
  {
    assert word[..32] == word;
    Snoc(word, 31);
    Snoc(word, 30);
    Snoc(word, 29);
    Snoc(word, 28);
    var t := word[28..];
    assert t[..4] == t && t[..0] == [];
    Snoc(t, 3);
    Snoc(t, 2);
    Snoc(t, 1);
    Snoc(t, 0);
  }

  lemma Snoc(bytes: seq<nat>, k: nat)
    requires k < |bytes|
    ensures BigEndian(bytes[..k + 1]) == BigEndian(bytes[..k]) * 256 + bytes[k]
  {
    assert bytes[..k + 1][..k] == bytes[..k];
  }

  /** rpcMailboxDomain on the returned string: exactly the 32-byte words below 2^32, and their value. */
  method RpcMailboxDomain(value: string) returns (r: Option<nat>)
    ensures forall n: nat :: r == Some(n) <==>
      n < 0x1_0000_0000 && "0x" <= value && |value| == 66 && Value(value[2..], 16) == Some(n)
  {
    if !("0x" <= value) || |value| != 66 {
      return None;
    }
    var decoded := DecodeHex(value[2..]);
    if decoded.None? {
      return None;
    }
    var word := decoded.value;
    SplitWord(word);
    var high := AllZero(word[..28]);
    if !high {
      return None;
    }
    r := Some(word[28] * 0x100_0000 + word[29] * 0x1_0000 + word[30] * 0x100 + word[31]);
  }

  /** hasDeployedCode: whole bytes of hexadecimal, and not all of them zero. */
  method HasDeployedCode(value: string) returns (r: bool)
    ensures r <==> "0x" <= value && |value| % 2 == 0 && Value(value[2..], 16).Some? && Value(value[2..], 16).value > 0
  {
    if !("0x" <= value) || |value| <= 2 || |value| % 2 != 0 {
      if "0x" <= value && |value| == 2 { assert value[2..] == ""; }
      return false;
    }
    var code := DecodeHex(value[2..]);
    if code.None? {
      return false;
    }
    var zero := AllZero(code.value);
    r := !zero;
  }
}
