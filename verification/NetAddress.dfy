/**
 Addresses, masks and networks as Go's `net` package treats them, and what containment in a network means:
 CIDR prefixes as in section 3.1 of RFC 4632, IPv4-mapped addresses as in section 2.5.5.2 of RFC 4291.
 */
module NetAddress {
  import opened Wrappers

  /** An address or a mask, bit by bit, the highest first; the empty sequence is also what a nil slice looks like. */
  type Bits = seq<bool>

  datatype IPNet = IPNet(ip: Bits, mask: Bits)

  /** A text handed to `ParseCIDR`: an address with a prefix length, or something else. */
  datatype Cidr = Malformed | Cidr(addr: Bits, ones: nat)

  const V4: nat := 32
  const V6: nat := 128

  // ---------------------------------------------------------------- addresses

  /** Eighty zeros and sixteen ones in front of an IPv4 address. */
  predicate IsMapped(ip: Bits) {
    |ip| == V6 && (forall i :: 0 <= i < 80 ==> !ip[i]) && (forall i :: 80 <= i < 96 ==> ip[i])
  }

  function To4(ip: Bits): (r: Option<Bits>)
    ensures r.Some? ==> |r.value| == V4
  {
    if |ip| == V4 then Some(ip) else if IsMapped(ip) then Some(ip[96..]) else None
  }

  /** The form `Contains` compares: four bytes if the address has such a form. */
  function Canonical(ip: Bits): Bits {
    if To4(ip).Some? then To4(ip).value else ip
  }

  predicate Equal(a: Bits, b: Bits) {
    if |a| == |b| then a == b
    else if |a| == V4 && |b| == V6 then IsMapped(b) && a == b[96..]
    else if |a| == V6 && |b| == V4 then IsMapped(a) && a[96..] == b
    else false
  }

  /** 127.0.0.0/8 and ::1. */
  predicate IsLoopback(ip: Bits) {
    match To4(ip)
    case Some(v4) => !v4[0] && forall i :: 1 <= i < 8 ==> v4[i]
    case None => |ip| == V6 && (forall i :: 0 <= i < 127 ==> !ip[i]) && ip[127]
  }

  // ---------------------------------------------------------------- masks

  function CIDRMask(ones: nat, length: nat): (m: Bits)
    ensures |m| == length
    ensures forall i :: 0 <= i < length ==> m[i] == (i < ones)
  {
    seq(length, i => i < ones)
  }

  function And(a: Bits, m: Bits): (r: Bits)
    requires |a| == |m|
    ensures |r| == |a| && forall i :: 0 <= i < |a| ==> r[i] == (a[i] && m[i])
  {
    seq(|a|, i requires 0 <= i < |a| => a[i] && m[i])
  }

  function LeadingOnes(m: Bits): (n: nat)
    ensures n <= |m| && (forall i :: 0 <= i < n ==> m[i]) && (n < |m| ==> !m[n])
  {
    if m == [] || !m[0] then 0 else 1 + LeadingOnes(m[1..])
  }

  /** The number of leading ones, if nothing but zeros follows them. */
  function SimpleMaskLength(m: Bits): Option<nat> {
    var n := LeadingOnes(m);
    if forall i :: n <= i < |m| ==> !m[i] then Some(n) else None
  }

  // ---------------------------------------------------------------- networks

  /** Go's `networkNumberAndMask`; a network it cannot make sense of has the empty number. */
  function NumberAndMask(n: IPNet): (r: (Bits, Bits))
    ensures |r.0| == |r.1| && |r.0| in {0, V4, V6}
  {
    var ip := Canonical(n.ip);
    if |ip| != V4 && |ip| != V6 then ([], [])
    else if |n.mask| == |ip| then (ip, n.mask)
    else if |n.mask| == V6 && |ip| == V4 then (ip, n.mask[96..])
    else ([], [])
  }

  predicate AgreeUnder(a: Bits, b: Bits, m: Bits)
    requires |a| == |b| == |m|
  {
    forall i :: 0 <= i < |a| && m[i] ==> a[i] == b[i]
  }

  predicate Contains(n: IPNet, ip: Bits) {
    var (number, mask) := NumberAndMask(n);
    var x := Canonical(ip);
    |x| == |number| && AgreeUnder(number, x, mask)
  }

  /** Go's `ParseCIDR`: the network, masked; an error unless the address and the length make sense. */
  function ParseCIDR(text: Cidr): Option<IPNet> {
    match text
    case Malformed => None
    case Cidr(addr, ones) =>
      if (|addr| == V4 || |addr| == V6) && ones <= |addr| then
        Some(IPNet(And(addr, CIDRMask(ones, |addr|)), CIDRMask(ones, |addr|)))
      else None
  }

  function NibbleValue(nibble: Bits): (v: nat)
    requires |nibble| == 4
    ensures v < 16 && (v == 0 <==> nibble == [false, false, false, false])
  {
    (if nibble[0] then 8 else 0) + (if nibble[1] then 4 else 0)
    + (if nibble[2] then 2 else 0) + (if nibble[3] then 1 else 0)
  }

  function HexDigits(m: Bits): (digits: seq<nat>)
    requires |m| % 4 == 0
    ensures |digits| == |m| / 4
    ensures forall k :: 0 <= k < |digits| ==> digits[k] == NibbleValue(m[4 * k..4 * k + 4])
  {
    seq(|m| / 4, k requires 0 <= k < |m| / 4 => NibbleValue(m[4 * k..4 * k + 4]))
  }

  /** Hexadecimal digits read as a decimal number; leading zeros are skipped, a letter is an error. */
  function ReadDecimal(digits: seq<nat>): Option<nat> {
    if digits == [] then Some(0)
    else
      var last := digits[|digits| - 1];
      match ReadDecimal(digits[..|digits| - 1])
      case None => None
      case Some(front) => if last <= 9 then Some(10 * front + last) else None
  }

  /**
   What `ParseCIDR` reads after the slash: a contiguous mask is printed as its length in decimal, any other in
   hexadecimal without a prefix, and read back in decimal all the same.
   */
  function PrintedLength(m: Bits): Option<nat>
    requires |m| % 4 == 0
  {
    if SimpleMaskLength(m).Some? then SimpleMaskLength(m) else ReadDecimal(HexDigits(m))
  }

  /** How a network prints, as far as `ParseCIDR` can tell. */
  function Text(n: IPNet): Cidr {
    var (number, mask) := NumberAndMask(n);
    if number == [] then Malformed
    else
      match PrintedLength(mask)
      case None => Malformed
      case Some(ones) => Cidr(number, ones)
  }

  // ---------------------------------------------------------------- what the functions mean

  /** The 16-byte form of an IPv4 address: eighty zeros, sixteen ones, and its 32 bits. */
  function Mapped(v4: Bits): (r: Bits)
    requires |v4| == V4
    ensures |r| == V6
  {
    seq(80, i => false) + seq(16, i => true) + v4
  }

  /** An address has an IPv4 form exactly if it is one in either of its two forms, and that form is the address. */
  lemma FormsOfIPv4(ip: Bits, v4: Bits)
    requires |v4| == V4
    ensures To4(ip) == Some(v4) <==> ip == v4 || ip == Mapped(v4)
    ensures Canonical(v4) == Canonical(Mapped(v4)) == v4
  {
    var m := Mapped(v4);
    assert m[96..] == v4;
    assert forall i :: 0 <= i < 80 ==> !m[i];
    assert forall i :: 80 <= i < 96 ==> m[i];
    if IsMapped(ip) && ip[96..] == v4 { assert ip == m; }
  }

  /** Two addresses are equal exactly when they agree, an IPv4 address in either form being the same address. */
  lemma EqualIsSameAddress(a: Bits, b: Bits)
    ensures Equal(a, b) <==> a == b || (exists v4 :: |v4| == V4 && {a, b} == {v4, Mapped(v4)})
  {
    if |a| == V4 { FormsOfIPv4(b, a); }
    if |b| == V4 { FormsOfIPv4(a, b); }
    if v4 :| |v4| == V4 && {a, b} == {v4, Mapped(v4)} {
      assert v4 in {a, b} && Mapped(v4) in {a, b} && a in {v4, Mapped(v4)} && b in {v4, Mapped(v4)};
    }
    if Equal(a, b) && a != b {
      var v4 := if |a| == V4 then a else b;
      assert {a, b} == {v4, Mapped(v4)};
    }
  }

  /** Equal addresses, in 4-byte or mapped 16-byte form, lie in the same networks. */
  lemma EqualAddressesAgree(n: IPNet, a: Bits, b: Bits)
    requires Equal(a, b)
    ensures Contains(n, a) == Contains(n, b)
  {
    assert Canonical(a) == Canonical(b);
  }

  ghost predicate SamePrefix(a: Bits, b: Bits, ones: nat) {
    |a| == |b| && ones <= |a| && a[..ones] == b[..ones]
  }

  lemma MaskIsPrefix(a: Bits, b: Bits, ones: nat)
    requires |a| == |b| && ones <= |a|
    ensures AgreeUnder(And(a, CIDRMask(ones, |a|)), b, CIDRMask(ones, |a|)) <==> SamePrefix(a, b, ones)
  {
    var m := CIDRMask(ones, |a|);
    if AgreeUnder(And(a, m), b, m) {
      forall i | 0 <= i < ones ensures a[i] == b[i] { assert And(a, m)[i] == b[i]; }
    }
    if SamePrefix(a, b, ones) {
      forall i | 0 <= i < ones ensures a[i] == b[i] { assert a[..ones][i] == b[..ones][i]; }
    }
  }

  lemma MappedBase(addr: Bits, ones: nat)
    requires |addr| == V6 && ones <= V6
    ensures IsMapped(And(addr, CIDRMask(ones, V6))) <==> IsMapped(addr) && ones >= 96
  {
    var base := And(addr, CIDRMask(ones, V6));
    if ones < 96 { assert !base[95]; }
  }

  /**
   A parsed CIDR expression contains exactly the addresses of its family that share its prefix, where an
   IPv4-mapped address belongs to IPv4, and a mapped expression does if its prefix covers the 96-bit marker.
   */
  lemma ParsedContains(addr: Bits, ones: nat, ip: Bits)
    requires (|addr| == V4 || |addr| == V6) && ones <= |addr|
    ensures Contains(ParseCIDR(Cidr(addr, ones)).value, ip) <==>
      if |addr| == V4 then To4(ip).Some? && SamePrefix(addr, To4(ip).value, ones)
      else if IsMapped(addr) && ones >= 96 then To4(ip).Some? && SamePrefix(addr[96..], To4(ip).value, ones - 96)
      else To4(ip).None? && SamePrefix(addr, ip, ones)
  {
    var m := CIDRMask(ones, |addr|);
    var base := And(addr, m);
    var x := Canonical(ip);
    if |addr| == V4 {
      if |x| == V4 { MaskIsPrefix(addr, x, ones); }
    } else {
      MappedBase(addr, ones);
      if IsMapped(addr) && ones >= 96 {
        assert m[96..] == CIDRMask(ones - 96, V4);
        assert base[96..] == And(addr[96..], m[96..]);
        if |x| == V4 { MaskIsPrefix(addr[96..], x, ones - 96); }
      } else if |x| == V6 {
        MaskIsPrefix(addr, x, ones);
      }
    }
  }

  /** Loopback addresses are those of 127.0.0.0/8, in either form, and ::1. */
  lemma LoopbackNetworks(ip: Bits)
    ensures IsLoopback(ip) <==>
      || Contains(ParseCIDR(Cidr(seq(V4, i => 1 <= i < 8), 8)).value, ip)
      || Contains(ParseCIDR(Cidr(seq(V6, i => i == 127), 128)).value, ip)
  {
    var v4, v6 := seq(V4, i => 1 <= i < 8), seq(V6, i => i == 127);
    ParsedContains(v4, 8, ip);
    ParsedContains(v6, 128, ip);
    assert !v6[80];
    if To4(ip).Some? {
      var x := To4(ip).value;
      assert SamePrefix(v4, x, 8) ==> forall i :: 0 <= i < 8 ==> v4[i] == x[i] by {
        if SamePrefix(v4, x, 8) { forall i | 0 <= i < 8 ensures v4[i] == x[i] { assert v4[..8][i] == x[..8][i]; } }
      }
    } else if SamePrefix(v6, ip, 128) {
      assert v6[..128] == v6 && ip[..128] == ip;
    }
  }

  /** `ip` is in the network that parsing the text of `n` yields. */
  ghost predicate InReparsed(n: IPNet, ip: Bits) {
    ParseCIDR(Text(n)).Some? && Contains(ParseCIDR(Text(n)).value, ip)
  }

  /** A mask is contiguous when it is the mask of some prefix length. */
  lemma ContiguousMask(m: Bits)
    ensures SimpleMaskLength(m).Some? <==> exists ones :: 0 <= ones <= |m| && m == CIDRMask(ones, |m|)
    ensures SimpleMaskLength(m).Some? ==>
      SimpleMaskLength(m).value <= |m| && m == CIDRMask(SimpleMaskLength(m).value, |m|)
  {
    if SimpleMaskLength(m).Some? {
      assert m == CIDRMask(LeadingOnes(m), |m|);
    }
  }

  lemma ReparsedContains(number: Bits, ones: nat, ip: Bits)
    requires (|number| == V4 || |number| == V6) && ones <= |number| && Canonical(number) == number
    ensures Contains(ParseCIDR(Cidr(number, ones)).value, ip) <==> SamePrefix(number, Canonical(ip), ones)
  {
    var m, x := CIDRMask(ones, |number|), Canonical(ip);
    if |number| == V6 { MappedBase(number, ones); }
    if |x| == |number| { MaskIsPrefix(number, x, ones); }
  }

  lemma NumberIsCanonical(n: IPNet)
    ensures Canonical(NumberAndMask(n).0) == NumberAndMask(n).0
  {
  }

  /**
   Printing a network and parsing the text: the result is an error unless the printed length can be read and is
   within the address, and then it contains the addresses sharing that much of the number.
   */
  lemma TextReadsPrefix(n: IPNet, ip: Bits)
    ensures var (number, mask) := NumberAndMask(n); var ones := PrintedLength(mask);
      && (ParseCIDR(Text(n)).Some? <==> number != [] && ones.Some? && ones.value <= |number|)
      && (InReparsed(n, ip) <==> ParseCIDR(Text(n)).Some? && SamePrefix(number, Canonical(ip), ones.value))
  {
    var (number, mask) := NumberAndMask(n);
    NumberIsCanonical(n);
    if ParseCIDR(Text(n)).Some? {
      ReparsedContains(number, PrintedLength(mask).value, ip);
    }
  }

  function Pow10(digits: nat): (p: nat)
    ensures p > 0
  {
    if digits == 0 then 1 else 10 * Pow10(digits - 1)
  }

  /** The bits of a nibble are those of its value. */
  lemma NibbleBits(nibble: Bits)
    requires |nibble| == 4
    ensures var v := NibbleValue(nibble);
      && (nibble[0] <==> v >= 8) && (nibble[1] <==> v % 8 >= 4)
      && (nibble[2] <==> v % 4 >= 2) && (nibble[3] <==> v % 2 == 1)
  {
  }

  /** A hexadecimal text reads as a decimal exactly if none of its digits is a letter. */
  lemma {:induction false} ReadsUnlessLetters(digits: seq<nat>)
    ensures ReadDecimal(digits).Some? <==> forall k :: 0 <= k < |digits| ==> digits[k] < 10
  {
    if digits != [] {
      ReadsUnlessLetters(digits[..|digits| - 1]);
      assert forall k :: 0 <= k < |digits| - 1 ==> digits[..|digits| - 1][k] == digits[k];
    }
  }

  lemma {:induction false} ZeroReadingIsZeros(digits: seq<nat>)
    ensures ReadDecimal(digits) == Some(0) <==> forall k :: 0 <= k < |digits| ==> digits[k] == 0
  {
    if digits != [] {
      ZeroReadingIsZeros(digits[..|digits| - 1]);
    }
  }

  /** A number below `Pow10(n)` leaves nothing but zeros in front of the last `n` digits. */
  lemma {:induction false} SmallReadingStartsWithZeros(digits: seq<nat>, n: nat)
    requires ReadDecimal(digits).Some? && ReadDecimal(digits).value < Pow10(n)
    ensures forall k :: 0 <= k < |digits| - n ==> digits[k] == 0
  {
    if n == 0 {
      ZeroReadingIsZeros(digits);
    } else if digits != [] {
      SmallReadingStartsWithZeros(digits[..|digits| - 1], n - 1);
    }
  }

  lemma ZeroDigitIsZeros(m: Bits, i: nat)
    requires |m| % 4 == 0 && i < |m| && HexDigits(m)[i / 4] == 0
    ensures !m[i]
  {
    assert !m[4 * (i / 4)..4 * (i / 4) + 4][i % 4];
  }

  lemma PrefixAgrees(a: Bits, b: Bits, ones: nat)
    requires |a| == |b| && ones <= |a|
    ensures AgreeUnder(a, b, CIDRMask(ones, |a|)) <==> SamePrefix(a, b, ones)
  {
    var m := CIDRMask(ones, |a|);
    if SamePrefix(a, b, ones) {
      forall i | 0 <= i < ones ensures a[i] == b[i] { assert a[..ones][i] == b[..ones][i]; }
    }
  }

  /** Flipping one bit behind the marker of a mapped address leaves the form of the address alone. */
  lemma FlippedIsCanonical(number: Bits, i: nat)
    requires (|number| == V4 || |number| == V6) && Canonical(number) == number && |number| - V4 <= i < |number|
    ensures Canonical(number[i := !number[i]]) == number[i := !number[i]]
  {
    var flipped := number[i := !number[i]];
    assert forall k :: 0 <= k < |number| - V4 ==> flipped[k] == number[k];
  }

  /** A bit set behind at least twenty bits unset, and so far behind the marker of a mapped address. */
  lemma SetBitOfMisreadMask(mask: Bits) returns (c: nat)
    requires (|mask| == V4 || |mask| == V6) && SimpleMaskLength(mask).None?
    requires ReadDecimal(HexDigits(mask)).Some? && ReadDecimal(HexDigits(mask)).value <= |mask|
    ensures |mask| - 12 <= c < |mask| && mask[c] && forall i :: 0 <= i < |mask| - 12 ==> !mask[i]
  {
    assert Pow10(3) == 1000;
    SmallReadingStartsWithZeros(HexDigits(mask), 3);
    forall i | 0 <= i < |mask| - 12 ensures !mask[i] { ZeroDigitIsZeros(mask, i); }
    assert LeadingOnes(mask) == 0;
    c :| 0 <= c < |mask| && mask[c];
  }

  /** A mask that is not contiguous never reads back as one with the same meaning. */
  lemma MisreadMaskDiffers(n: IPNet) returns (ip: Bits)
    requires NumberAndMask(n).0 != [] && SimpleMaskLength(NumberAndMask(n).1).None?
    ensures InReparsed(n, ip) != Contains(n, ip)
  {
    var (number, mask) := NumberAndMask(n);
    NumberIsCanonical(n);
    ip := number;
    if ParseCIDR(Text(n)).Some? {
      TextReadsPrefix(n, number);
      var c := SetBitOfMisreadMask(mask);
      var ones := PrintedLength(mask).value;
      var i := if ones <= c then c else |mask| - 28;
      ip := number[i := !number[i]];
      FlippedIsCanonical(number, i);
      TextReadsPrefix(n, ip);
      if ones <= c {
        assert number[..ones] == ip[..ones] && !AgreeUnder(number, ip, mask);
      } else {
        assert number[..ones][i] != ip[..ones][i] && AgreeUnder(number, ip, mask);
      }
    }
  }

  /** Printing an interface's network and parsing the text keeps its addresses exactly when its mask is contiguous. */
  lemma TextKeepsAddresses(n: IPNet)
    ensures (forall ip :: InReparsed(n, ip) <==> Contains(n, ip)) <==>
      NumberAndMask(n).0 != [] && SimpleMaskLength(NumberAndMask(n).1).Some?
  {
    var (number, mask) := NumberAndMask(n);
    if number == [] {
      assert Contains(n, []) && !InReparsed(n, []);
    } else if SimpleMaskLength(mask).None? {
      var _ := MisreadMaskDiffers(n);
    } else {
      ContiguousMask(mask);
      forall ip ensures InReparsed(n, ip) <==> Contains(n, ip) {
        TextReadsPrefix(n, ip);
        if |Canonical(ip)| == |number| { PrefixAgrees(number, Canonical(ip), SimpleMaskLength(mask).value); }
      }
    }
  }

  /**
   The mask 0.0.0.8 is printed as 00000008 and so read as a prefix length of eight. An interface on Linux never
   carries such a mask, since the system makes its masks from prefix lengths.
   */
  lemma HexMaskIsMisread(ip: Bits)
    requires |ip| == V4
    ensures ParseCIDR(Text(IPNet(ip, seq(V4, i => i == 28)))) == ParseCIDR(Cidr(ip, 8)) != None
  {
    var mask := seq(V4, i => i == 28);
    var digits := HexDigits(mask);
    forall k | 0 <= k < 7 ensures digits[k] == 0 { assert mask[4 * k..4 * k + 4] == [false, false, false, false]; }
    assert mask[28..32] == [true, false, false, false];
    ZeroReadingIsZeros(digits[..7]);
    assert !mask[0] && mask[28] && LeadingOnes(mask) == 0;
  }
}
