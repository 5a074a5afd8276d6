/**
 `calc_subnet_mask`: from an IPv4 CIDR prefix length (the number of leading
 one-bits of a 32-bit network mask, section 3.1 of RFC 4632) to the mask in
 dotted-decimal notation, "24" giving "255.255.255.0".

 The calculation goes through text: a string of 32 '1'/'0' characters, cut
 into four slices of eight, each slice read as a binary number and written
 back in decimal, the four results joined with dots.
 */
module NetHelpers {
  import opened Text
  import opened Numerals

  /** What a call produces: a value, or a raised `ValueError` and its message. */
  datatype Result<T> = Ok(value: T) | ValueError(message: string)

  const RangeMessage := "CIDR values are between 0 and 32 inclusive, received "

  predicate InRange(cidr: int) { 0 <= cidr <= 32 }

  /** The message raised for an out-of-range prefix: the fixed text,
      then the offending value as `str` writes it. */
  function OutOfRangeMessage(cidr: int): (r: string)
    ensures |r| > |RangeMessage| && r[..|RangeMessage|] == RangeMessage
    ensures IsIntString(r[|RangeMessage|..]) && ParseInt(r[|RangeMessage|..]) == cidr
  {
    var r := RangeMessage + IntToString(cidr);
    assert r[|RangeMessage|..] == IntToString(cidr);
    r
  }

  /** `cidr` ones padded with zeros to 32 characters. */
  function BitString(cidr: nat): (r: string)
    requires cidr <= 32
    ensures |r| == 32 && IsBitString(r)
    ensures forall i :: 0 <= i < 32 ==> (r[i] == '1' <==> i < cidr)
  {
    LJust(Repeat('1', cidr), 32, '0')
  }

  lemma BitStringParts(cidr: nat)
    requires cidr <= 32
    ensures BitString(cidr) == Repeat('1', cidr) + Repeat('0', 32 - cidr)
  {
  }

  /** Slicing a string of binary digits yields strings of binary digits. */
  lemma ChunksOfBits(s: string)
    requires IsBitString(s)
    ensures forall j :: 0 <= j < |Chunks8(s)| ==> IsBitString(Chunks8(s)[j])
  {
    forall j | 0 <= j < |Chunks8(s)|
      ensures IsBitString(Chunks8(s)[j])
    {
      Chunks8At(s, j);
    }
  }

  /** The binary value of every slice, in order. */
  function ByteValues(byteStrings: seq<string>): (r: seq<nat>)
    requires forall j :: 0 <= j < |byteStrings| ==> IsBitString(byteStrings[j])
    ensures |r| == |byteStrings|
    ensures forall j :: 0 <= j < |r| ==> r[j] < Pow2(|byteStrings[j]|)
  {
    seq(|byteStrings|, j requires 0 <= j < |byteStrings| => BinToNat(byteStrings[j]))
  }

  /** The decimal rendering of every number, in order. */
  function Decimals(vs: seq<nat>): (r: seq<string>)
    ensures |r| == |vs|
    ensures forall j :: 0 <= j < |r| ==> IsCanonicalDecimal(r[j]) && DecimalValue(r[j]) == vs[j]
  {
    seq(|vs|, j requires 0 <= j < |vs| => NatToDecimal(vs[j]))
  }

  /** The numbers the four slices of the bit string of `cidr` denote: four
      octets, each below 256. */
  function MaskOctets(cidr: nat): (r: seq<nat>)
    requires cidr <= 32
    ensures |r| == 4
    ensures forall k :: 0 <= k < 4 ==> r[k] <= 255
  {
    var byteStrings := Chunks8(BitString(cidr));
    ChunksOfBits(BitString(cidr));
    Pow2Eight();
    ByteValues(byteStrings)
  }

  /** The prefix length `cidr` as a dotted-decimal subnet mask, or the
      `ValueError` raised when it is outside 0..32. */
  function CalcSubnetMask(cidr: int): (r: Result<string>)
    ensures r.ValueError? <==> !InRange(cidr)
    ensures r.ValueError? ==> r.message == OutOfRangeMessage(cidr)
  {
    if !InRange(cidr) then ValueError(OutOfRangeMessage(cidr))
    else Ok(Join('.', Decimals(MaskOctets(cidr))))
  }

  // ---------------------------------------------------------------------
  // What the octets mean

  /** How many of the eight bits of octet `k` a prefix of `cidr` covers. */
  function OnesInOctet(cidr: nat, k: nat): nat
  {
    if cidr >= 8 * (k + 1) then 8 else if cidr <= 8 * k then 0 else cidr - 8 * k
  }

  /** Octet `k` of the mask in closed form: 255 when the prefix covers it,
      0 when the prefix ends before it, 256 - 2^(8(k+1) - cidr) in between. */
  function OctetValue(cidr: nat, k: nat): (r: nat)
    requires cidr <= 32 && k < 4
    ensures r <= 255
  {
    if cidr >= 8 * (k + 1) then 255
    else if cidr <= 8 * k then 0
    else
      Pow2Increasing(8 * (k + 1) - cidr, 8);
      Pow2Eight();
      256 - Pow2(8 * (k + 1) - cidr)
  }

  /** The 32-bit value of the mask: the top `cidr` bits set. */
  function MaskValue(cidr: nat): nat
    requires cidr <= 32
  {
    Pow2AtMostThirtyTwo(32 - cidr);
    0x1_0000_0000 - Pow2(32 - cidr)
  }

  /** A list of octets read as one number, most significant octet first. */
  function BigEndian(os: seq<nat>): nat
  {
    if |os| == 0 then 0 else os[0] * Pow2(8 * (|os| - 1)) + BigEndian(os[1..])
  }

  /** Four octets read most significant first. */
  lemma BigEndianFour(os: seq<nat>)
    requires |os| == 4
    ensures BigEndian(os) == os[0] * 0x100_0000 + os[1] * 0x1_0000 + os[2] * 0x100 + os[3]
  {
    Pow2Eight();
    Pow2MiddleOctets();
    assert os[1..][1..] == os[2..] && os[2..][1..] == os[3..];
    assert BigEndian(os[3..]) == os[3] by {
      assert os[3..][1..] == [];
    }
    assert BigEndian(os[2..]) == os[2] * 0x100 + os[3];
    assert BigEndian(os[1..]) == os[1] * 0x1_0000 + os[2] * 0x100 + os[3];
  }

  /** Slice `k` of the bit string is its share of ones, then zeros. */
  lemma {:induction false} ByteStringContents(cidr: nat, k: nat)
    requires cidr <= 32 && k < 4
    ensures Chunks8(BitString(cidr))[k] == Repeat('1', OnesInOctet(cidr, k)) + Repeat('0', 8 - OnesInOctet(cidr, k))
  {
    var s := BitString(cidr);
    var m := OnesInOctet(cidr, k);
    var c := Chunks8(s)[k];
    assert c == s[8 * k .. 8 * k + 8] by {
      Chunks8At(s, k);
    }
    var want := Repeat('1', m) + Repeat('0', 8 - m);
    forall i | 0 <= i < 8
      ensures c[i] == want[i]
    {
      assert c[i] == s[8 * k + i];
      assert want[i] == if i < m then '1' else '0';
    }
  }

  /** Octet `k` is the binary value of slice `k`. */
  lemma MaskOctetAt(cidr: nat, k: nat)
    requires cidr <= 32 && k < 4
    ensures IsBitString(Chunks8(BitString(cidr))[k])
    ensures MaskOctets(cidr)[k] == BinToNat(Chunks8(BitString(cidr))[k])
  {
    ChunksOfBits(BitString(cidr));
  }

  /** Octet `k` is worth 256 - 2^z where z is the number of zero-bits in its slice. */
  lemma {:induction false} MaskOctetOnes(cidr: nat, k: nat)
    requires cidr <= 32 && k < 4
    ensures MaskOctets(cidr)[k] == 256 - Pow2(8 - OnesInOctet(cidr, k))
  {
    var m := OnesInOctet(cidr, k);
    var slice := Repeat('1', m) + Repeat('0', 8 - m);
    OctetOfOnes(m);
    assert MaskOctets(cidr)[k] == BinToNat(slice) by {
      MaskOctetAt(cidr, k);
      ByteStringContents(cidr, k);
    }
  }

  /** The closed form, restated by the bits of the octet the prefix covers. */
  lemma OnesInOctetValue(cidr: nat, k: nat)
    requires cidr <= 32 && k < 4
    ensures OctetValue(cidr, k) == 256 - Pow2(8 - OnesInOctet(cidr, k))
  {
    if cidr <= 8 * k {
      Pow2Eight();
    }
  }

  /** Each octet that `calc_subnet_mask` computes equals the closed form. */
  lemma MaskOctetClosedForm(cidr: nat, k: nat)
    requires cidr <= 32 && k < 4
    ensures MaskOctets(cidr)[k] == OctetValue(cidr, k)
  {
    MaskOctetOnes(cidr, k);
    OnesInOctetValue(cidr, k);
  }

  /** The octets never grow from left to right. */
  lemma OctetsNonIncreasing(cidr: nat, k: nat)
    requires cidr <= 32 && k < 3
    ensures MaskOctets(cidr)[k] >= MaskOctets(cidr)[k + 1]
  {
    MaskOctetClosedForm(cidr, k);
    MaskOctetClosedForm(cidr, k + 1);
  }

  lemma {:induction false} FlattenBits(ss: seq<string>)
    requires forall j :: 0 <= j < |ss| ==> IsBitString(ss[j])
    ensures IsBitString(Flatten(ss))
  {
    if |ss| > 0 {
      FlattenBits(ss[1..]);
    }
  }

  /** Reading a string of 8-bit slices as one binary number is reading the
      slices' values as octets, most significant first. */
  lemma {:induction false} FlattenBigEndian(ss: seq<string>)
    requires forall j :: 0 <= j < |ss| ==> IsBitString(ss[j]) && |ss[j]| == 8
    ensures IsBitString(Flatten(ss))
    ensures BinToNat(Flatten(ss)) == BigEndian(ByteValues(ss))
  {
    FlattenBits(ss);
    if |ss| > 0 {
      var tail := ss[1..];
      FlattenBigEndian(tail);
      FlattenLength(tail, 8);
      FlattenBits(tail);
      BinToNatAppend(ss[0], Flatten(tail));
      assert ByteValues(ss)[1..] == ByteValues(tail);
    }
  }

  lemma MaskOctetsAsBits(cidr: nat)
    requires cidr <= 32
    ensures BigEndian(MaskOctets(cidr)) == BinToNat(BitString(cidr))
  {
    var s := BitString(cidr);
    var cs := Chunks8(s);
    assert forall j :: 0 <= j < |cs| ==> IsBitString(cs[j]) && |cs[j]| == 8 by {
      ChunksOfBits(s);
    }
    assert MaskOctets(cidr) == ByteValues(cs);
    FlattenBigEndian(cs);
    FlattenChunks8(s);
  }

  /** The bit string of `cidr`, read in binary, is 2^32 - 2^(32 - cidr). */
  lemma BitStringValue(cidr: nat)
    requires cidr <= 32
    ensures BinToNat(BitString(cidr)) == MaskValue(cidr)
  {
    var ones, zeros := Repeat('1', cidr), Repeat('0', 32 - cidr);
    assert BitString(cidr) == ones + zeros by {
      BitStringParts(cidr);
    }
    assert BinToNat(ones + zeros) == 0x1_0000_0000 - Pow2(32 - cidr) by {
      OnesThenZeros(cidr, 32 - cidr);
      Pow2ThirtyTwo();
    }
  }

  /** The octets of `calc_subnet_mask`, read most significant first, are the
      number 2^32 - 2^(32 - cidr). */
  lemma MaskOctetsValue(cidr: nat)
    requires cidr <= 32
    ensures BigEndian(MaskOctets(cidr)) == MaskValue(cidr)
  {
    MaskOctetsAsBits(cidr);
    BitStringValue(cidr);
  }

  /** A longer prefix never gives a smaller mask, and a strictly longer one
      gives a strictly larger mask. */
  lemma MaskValueMonotone(c1: nat, c2: nat)
    requires c1 <= c2 <= 32
    ensures MaskValue(c1) <= MaskValue(c2)
    ensures c1 < c2 ==> MaskValue(c1) < MaskValue(c2)
  {
    if c1 < c2 {
      Pow2Increasing(32 - c2, 32 - c1);
    }
  }

  /** The mask as shifting 0xFFFFFFFF left by `32 - cidr` bits and keeping
      the low 32 bits, with 0 for the empty prefix. */
  function ShiftMask(cidr: nat): nat
    requires cidr <= 32
  {
    if cidr == 0 then 0 else (0xFFFF_FFFF * Pow2(32 - cidr)) % 0x1_0000_0000
  }

  lemma ModOfMultiplePlus(q: nat, r: nat)
    requires r < 0x1_0000_0000
    ensures (q * 0x1_0000_0000 + r) % 0x1_0000_0000 == r
  {
  }

  /** The textual construction agrees with the shift-and-mask construction. */
  lemma MaskValueIsShiftMask(cidr: nat)
    requires cidr <= 32
    ensures MaskValue(cidr) == ShiftMask(cidr)
  {
    Pow2ThirtyTwo();
    if cidr > 0 {
      var p := Pow2(32 - cidr);
      Pow2Increasing(32 - cidr, 32);
      PredecessorProduct(0x1_0000_0000, p);
      PredecessorProduct(p, 0x1_0000_0000);
      assert 0xFFFF_FFFF * p == (p - 1) * 0x1_0000_0000 + (0x1_0000_0000 - p);
      ModOfMultiplePlus(p - 1, 0x1_0000_0000 - p);
    }
  }

  // ---------------------------------------------------------------------
  // What the string means

  /** The closed-form octets of the mask. */
  function Octets(cidr: nat): (r: seq<nat>)
    requires cidr <= 32
    ensures |r| == 4
    ensures forall k :: 0 <= k < 4 ==> r[k] == OctetValue(cidr, k)
  {
    seq(4, k requires 0 <= k < 4 => OctetValue(cidr, k))
  }

  /** For a prefix in range, the result is the closed-form octets in
      decimal, joined with dots. */
  lemma CalcSubnetMaskOctets(cidr: int)
    requires InRange(cidr)
    ensures CalcSubnetMask(cidr) == Ok(Join('.', Decimals(Octets(cidr))))
  {
    MaskOctetsAreOctets(cidr);
  }

  /** The octets computed through text are the closed-form octets. */
  lemma MaskOctetsAreOctets(cidr: nat)
    requires cidr <= 32
    ensures MaskOctets(cidr) == Octets(cidr)
  {
    forall k | 0 <= k < 4
      ensures MaskOctets(cidr)[k] == Octets(cidr)[k]
    {
      MaskOctetClosedForm(cidr, k);
    }
  }

  /** No decimal numeral contains a dot. */
  lemma DecimalsWithoutDot(vs: seq<nat>)
    ensures forall j :: 0 <= j < |vs| ==> '.' !in Decimals(vs)[j]
  {
    forall j | 0 <= j < |vs|
      ensures '.' !in Decimals(vs)[j]
    {
      var piece := Decimals(vs)[j];
      assert forall i :: 0 <= i < |piece| ==> piece[i] != '.';
    }
  }

  /** For a prefix in range, splitting the result at its dots gives back
      the decimal numerals of the four closed-form octets. */
  lemma CalcSubnetMaskSplits(cidr: int)
    requires InRange(cidr)
    ensures CalcSubnetMask(cidr).Ok?
    ensures Split(CalcSubnetMask(cidr).value, '.') == Decimals(Octets(cidr))
  {
    var pieces := Decimals(Octets(cidr));
    CalcSubnetMaskOctets(cidr);
    DecimalsWithoutDot(Octets(cidr));
    SplitJoin(pieces, '.');
  }

  /** The closed-form octets, read most significant first, are the mask. */
  lemma OctetsValue(cidr: nat)
    requires cidr <= 32
    ensures BigEndian(Octets(cidr)) == MaskValue(cidr)
  {
    MaskOctetsAreOctets(cidr);
    MaskOctetsValue(cidr);
  }

  /** For a prefix in range, the result splits at its dots into exactly four
      decimal numerals without leading zeros, numeral `k` denoting octet `k`
      (at most 255), and the four read most significant first are the
      32-bit number 2^32 - 2^(32 - cidr). */
  lemma CalcSubnetMaskTokens(cidr: int)
    requires InRange(cidr)
    ensures CalcSubnetMask(cidr).Ok?
    ensures var tokens := Split(CalcSubnetMask(cidr).value, '.');
      && |tokens| == 4
      && (forall k :: 0 <= k < 4 ==>
            IsCanonicalDecimal(tokens[k]) && DecimalValue(tokens[k]) == OctetValue(cidr, k) <= 255)
      && DecimalValue(tokens[0]) * 0x100_0000 + DecimalValue(tokens[1]) * 0x1_0000
         + DecimalValue(tokens[2]) * 0x100 + DecimalValue(tokens[3]) == MaskValue(cidr)
  {
    CalcSubnetMaskSplits(cidr);
    OctetsValue(cidr);
    BigEndianFour(Octets(cidr));
  }

  /** The dotted rendering of four given octets. */
  lemma DottedOctets(o: seq<nat>, t: seq<string>)
    requires |o| == 4 && |t| == 4
    requires forall k :: 0 <= k < 4 ==> NatToDecimal(o[k]) == t[k]
    ensures Join('.', Decimals(o)) == t[0] + "." + t[1] + "." + t[2] + "." + t[3]
  {
    assert Decimals(o) == t;
    JoinFour(t);
  }

  lemma RenderZeroAndFull()
    ensures NatToDecimal(0) == "0"
    ensures NatToDecimal(255) == "255"
  {
    assert NatToDecimal(25) == "25";
  }

  /** calc_subnet_mask(0) is "0.0.0.0". */
  lemma ExampleZero()
    ensures CalcSubnetMask(0) == Ok("0.0.0.0")
  {
    assert Octets(0) == [0, 0, 0, 0];
    calc {
      CalcSubnetMask(0);
      { CalcSubnetMaskOctets(0); }
      Ok(Join('.', Decimals(Octets(0))));
      { RenderZeroAndFull(); DottedOctets(Octets(0), ["0", "0", "0", "0"]); }
      Ok("0" + "." + "0" + "." + "0" + "." + "0");
      { assert "0" + "." + "0" + "." + "0" + "." + "0" == "0.0.0.0"; }
      Ok("0.0.0.0");
    }
  }

  /** calc_subnet_mask(32) is "255.255.255.255". */
  lemma ExampleThirtyTwo()
    ensures CalcSubnetMask(32) == Ok("255.255.255.255")
  {
    assert Octets(32) == [255, 255, 255, 255];
    calc {
      CalcSubnetMask(32);
      { CalcSubnetMaskOctets(32); }
      Ok(Join('.', Decimals(Octets(32))));
      { RenderZeroAndFull(); DottedOctets(Octets(32), ["255", "255", "255", "255"]); }
      Ok("255" + "." + "255" + "." + "255" + "." + "255");
      { assert "255" + "." + "255" + "." + "255" + "." + "255" == "255.255.255.255"; }
      Ok("255.255.255.255");
    }
  }

  /** calc_subnet_mask(16) is "255.255.0.0". */
  lemma ExampleSixteen()
    ensures CalcSubnetMask(16) == Ok("255.255.0.0")
  {
    assert Octets(16) == [255, 255, 0, 0];
    calc {
      CalcSubnetMask(16);
      { CalcSubnetMaskOctets(16); }
      Ok(Join('.', Decimals(Octets(16))));
      { RenderZeroAndFull(); DottedOctets(Octets(16), ["255", "255", "0", "0"]); }
      Ok("255" + "." + "255" + "." + "0" + "." + "0");
      { assert "255" + "." + "255" + "." + "0" + "." + "0" == "255.255.0.0"; }
      Ok("255.255.0.0");
    }
  }

  /** calc_subnet_mask(24) is "255.255.255.0". */
  lemma ExampleTwentyFour()
    ensures CalcSubnetMask(24) == Ok("255.255.255.0")
  {
    assert Octets(24) == [255, 255, 255, 0];
    calc {
      CalcSubnetMask(24);
      { CalcSubnetMaskOctets(24); }
      Ok(Join('.', Decimals(Octets(24))));
      { RenderZeroAndFull(); DottedOctets(Octets(24), ["255", "255", "255", "0"]); }
      Ok("255" + "." + "255" + "." + "255" + "." + "0");
      { assert "255" + "." + "255" + "." + "255" + "." + "0" == "255.255.255.0"; }
      Ok("255.255.255.0");
    }
  }

  /** calc_subnet_mask(-1) raises ValueError naming -1. */
  lemma ExampleNegative()
    ensures CalcSubnetMask(-1) == ValueError("CIDR values are between 0 and 32 inclusive, received -1")
  {
    assert IntToString(-1) == "-1";
  }

  /** calc_subnet_mask(33) raises ValueError naming 33. */
  lemma ExampleTooHigh()
    ensures CalcSubnetMask(33) == ValueError("CIDR values are between 0 and 32 inclusive, received 33")
  {
    assert NatToDecimal(3) == "3";
    assert NatToDecimal(33) == "33";
  }
}
