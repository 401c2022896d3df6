/** Which instance addresses may become certificate principals: `isValidIP` and
    `isValidPrivateIP` of ca/ca.go, over the dotted-decimal IPv4 text form that
    `net.ParseIP(s).To4()` accepts. */
module IpPolicy {
  import opened Wrappers
  import opened Text

  /** A Go `byte`. */
  type Octet = x: int | 0 <= x < 256

  /** One field of a dotted-decimal address: a canonical numeral up to 255
      (Go's `net` package rejects empty fields, non-digits, leading zeros and
      values above 255). */
  function ParseOctet(field: string): (r: Option<Octet>)
  {
    if IsCanonicalNumeral(field) && DecimalValue(field) <= 255
    then Some(DecimalValue(field))
    else None
  }

  /** The four octets of a dotted-decimal IPv4 address, or None. */
  function ParseIPv4(s: string): (r: Option<seq<Octet>>)
    ensures r.Some? ==> |r.value| == 4
  {
    var fields := Split(s, '.');
    if |fields| != 4 then None
    else
      match (ParseOctet(fields[0]), ParseOctet(fields[1]), ParseOctet(fields[2]), ParseOctet(fields[3]))
      case (Some(a), Some(b), Some(c), Some(d)) => Some([a, b, c, d])
      case _ => None
  }

  /** The canonical text of a four-octet address. */
  function FormatIPv4(ip: seq<Octet>): string
    requires |ip| == 4
  {
    Join([DecimalString(ip[0]), DecimalString(ip[1]),
          DecimalString(ip[2]), DecimalString(ip[3])], '.')
  }

  /** `isValidIP`: the string is an IPv4 address. */
  predicate IsValidIP(s: string) {
    ParseIPv4(s).Some?
  }

  /** `isValidPrivateIP`, written with the source's byte tests: first octet 10,
      or 172 with the high nibble of the second octet equal to 1, or 192.168. */
  predicate IsValidPrivateIP(s: string) {
    match ParseIPv4(s)
    case None => false
    case Some(ip) =>
      ip[0] == 10 || (ip[0] == 172 && ip[1] as bv8 & 0xF0 == 16) || (ip[0] == 192 && ip[1] == 168)
  }

  /** Every address prints to text that parses back to it. */
  lemma ParseFormat(ip: seq<Octet>)
    requires |ip| == 4
    ensures ParseIPv4(FormatIPv4(ip)) == Some(ip)
  {
    var fields := [DecimalString(ip[0]), DecimalString(ip[1]),
                   DecimalString(ip[2]), DecimalString(ip[3])];
    forall i, k | 0 <= i < 4 && 0 <= k < |fields[i]| ensures fields[i][k] != '.' {
      assert IsDigit(fields[i][k]);
    }
    SplitJoin(fields, '.');
    assert Split(FormatIPv4(ip), '.') == fields;
    assert ParseOctet(fields[0]) == Some(ip[0]);
    assert ParseOctet(fields[1]) == Some(ip[1]);
    assert ParseOctet(fields[2]) == Some(ip[2]);
    assert ParseOctet(fields[3]) == Some(ip[3]);
    assert ip == [ip[0], ip[1], ip[2], ip[3]];
  }

  /** Every accepted string is the canonical text of the address it denotes, so
      `IsValidIP` accepts exactly the `FormatIPv4` images. */
  lemma FormatParse(s: string)
    requires ParseIPv4(s).Some?
    ensures FormatIPv4(ParseIPv4(s).value) == s
  {
    var fields := Split(s, '.');
    var ip := ParseIPv4(s).value;
    assert |fields| == 4;
    forall i | 0 <= i < 4 ensures DecimalString(ip[i]) == fields[i] {
      assert ParseOctet(fields[i]).Some?;
      CanonicalNumeralIsDecimalString(fields[i]);
    }
    assert fields == [fields[0], fields[1], fields[2], fields[3]];
  }

  /** The mask test at ca/ca.go:211 selects exactly second octets 16 to 31. */
  lemma HighNibbleMask(b: Octet)
    ensures (b as bv8 & 0xF0 == 16) <==> 16 <= b <= 31
  {
  }

  /** A private address is in particular a valid one. */
  lemma PrivateIsValid(s: string)
    ensures IsValidPrivateIP(s) ==> IsValidIP(s)
  {
  }

  /** The 32-bit value of a four-octet address, most significant octet first. */
  function Address32(ip: seq<Octet>): nat
    requires |ip| == 4
  {
    ((ip[0] as int * 0x100 + ip[1]) * 0x100 + ip[2]) * 0x100 + ip[3]
  }

  /** `a` lies in the CIDR block that starts at `network` and spans `size`
      addresses (`size` is 2 to the power 32 minus the prefix length). */
  predicate InBlock(a: nat, network: nat, size: nat)
    requires size > 0
  {
    a / size == network / size
  }

  /** Membership in one of the three private blocks of section 3 of RFC 1918:
      10.0.0.0/8, 172.16.0.0/12 and 192.168.0.0/16. */
  predicate InRfc1918(a: nat) {
    || InBlock(a, 0x0A00_0000, 0x100_0000)
    || InBlock(a, 0xAC10_0000, 0x10_0000)
    || InBlock(a, 0xC0A8_0000, 0x1_0000)
  }

  /** The byte tests agree with the RFC 1918 CIDR blocks. */
  lemma PrivateIffRfc1918(s: string)
    ensures IsValidPrivateIP(s) <==> IsValidIP(s) && InRfc1918(Address32(ParseIPv4(s).value))
  {
    if IsValidIP(s) {
      var ip := ParseIPv4(s).value;
      Rfc1918Octets(ip);
      HighNibbleMask(ip[1]);
    }
  }

  lemma Rfc1918Octets(ip: seq<Octet>)
    requires |ip| == 4
    ensures InRfc1918(Address32(ip))
        <==> ip[0] == 10 || (ip[0] == 172 && 16 <= ip[1] <= 31) || (ip[0] == 192 && ip[1] == 168)
  {
    var a := Address32(ip);
    var low16: int := ip[2] as int * 0x100 + ip[3];
    var high16: int := ip[0] as int * 0x100 + ip[1];
    assert a == high16 * 0x1_0000 + low16;
    assert a / 0x1_0000 == high16;
    assert a / 0x100_0000 == ip[0];
    var high12: int := ip[0] as int * 0x10 + ip[1] / 0x10;
    assert a == high12 * 0x10_0000 + ((ip[1] % 0x10) * 0x1_0000 + low16);
    assert a / 0x10_0000 == high12;
  }

  /** The cases of ca/ca_test.go:16-21: "1" is rejected by both checks. */
  lemma TestVectorShortString()
    ensures !IsValidIP("1") && !IsValidPrivateIP("1")
  {
    assert Split("1", '.') == ["1"] by { SplitNoSeparator("1", '.'); }
  }

  /** "17.0.0.0" is a valid address but not a private one. */
  lemma TestVectorPublic()
    ensures IsValidIP("17.0.0.0") && !IsValidPrivateIP("17.0.0.0")
  {
    assert DecimalString(1) == "1" && DecimalString(7) == "7" && DecimalString(0) == "0";
    assert DecimalString(17) == "17";
    assert Join(["0", "0", "0"], '.') == "0.0.0";
    assert FormatIPv4([17, 0, 0, 0]) == "17.0.0.0";
    ParseFormat([17, 0, 0, 0]);
  }

  /** "10.0.0.0" is a valid private address. */
  lemma TestVectorPrivate()
    ensures IsValidIP("10.0.0.0") && IsValidPrivateIP("10.0.0.0")
  {
    assert DecimalString(1) == "1" && DecimalString(0) == "0";
    assert DecimalString(10) == "10";
    assert Join(["0", "0", "0"], '.') == "0.0.0";
    assert FormatIPv4([10, 0, 0, 0]) == "10.0.0.0";
    ParseFormat([10, 0, 0, 0]);
  }
}
