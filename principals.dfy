/** The principal-selection loop of `signKeysInProject` (ca/ca.go:132-146): which
    addresses of an instance's network interfaces a certificate is issued for. */
module PrincipalSelection {
  import opened IpPolicy
  import Text

  datatype AccessConfig = AccessConfig(natIP: string)

  datatype NetworkInterface = NetworkInterface(networkIP: string, accessConfigs: seq<AccessConfig>)

  /** The NAT addresses of `acs` that are valid IPv4, in access-config order. */
  function ValidNatIPs(acs: seq<AccessConfig>): seq<string> {
    if acs == [] then []
    else
      var last := acs[|acs| - 1];
      ValidNatIPs(acs[..|acs| - 1]) + (if IsValidIP(last.natIP) then [last.natIP] else [])
  }

  /** The principals one interface contributes: its eligible NAT addresses, then
      its internal address when that is private. */
  function NicPrincipals(nic: NetworkInterface, signExternalIPs: bool, signInternalIPs: bool): seq<string> {
    (if signExternalIPs then ValidNatIPs(nic.accessConfigs) else [])
    + (if signInternalIPs && IsValidPrivateIP(nic.networkIP) then [nic.networkIP] else [])
  }

  /** The principals of an instance: interface by interface, in order. */
  function Principals(nics: seq<NetworkInterface>, signExternalIPs: bool, signInternalIPs: bool): seq<string> {
    if nics == [] then []
    else
      Principals(nics[..|nics| - 1], signExternalIPs, signInternalIPs)
      + NicPrincipals(nics[|nics| - 1], signExternalIPs, signInternalIPs)
  }

  /** Every NAT address of every interface, flattened in order. */
  function AllNatIPs(nics: seq<NetworkInterface>): seq<string> {
    if nics == [] then []
    else
      var acs := nics[|nics| - 1].accessConfigs;
      AllNatIPs(nics[..|nics| - 1]) + seq(|acs|, k requires 0 <= k < |acs| => acs[k].natIP)
  }

  /** Every internal address, one per interface, in order. */
  function AllNetworkIPs(nics: seq<NetworkInterface>): (r: seq<string>)
    ensures |r| == |nics|
  {
    seq(|nics|, k requires 0 <= k < |nics| => nics[k].networkIP)
  }

  /** The elements of `xs` that pass `IsValidIP`, in order. */
  function KeepValid(xs: seq<string>): seq<string> {
    if xs == [] then []
    else KeepValid(xs[..|xs| - 1]) + (if IsValidIP(xs[|xs| - 1]) then [xs[|xs| - 1]] else [])
  }

  /** The elements of `xs` that pass `IsValidPrivateIP`, in order. */
  function KeepPrivate(xs: seq<string>): seq<string> {
    if xs == [] then []
    else KeepPrivate(xs[..|xs| - 1]) + (if IsValidPrivateIP(xs[|xs| - 1]) then [xs[|xs| - 1]] else [])
  }

  lemma {:induction false} KeepValidAppend(a: seq<string>, b: seq<string>)
    ensures KeepValid(a + b) == KeepValid(a) + KeepValid(b)
  {
    if b != [] {
      KeepValidAppend(a, b[..|b| - 1]);
      assert (a + b)[..|a + b| - 1] == a + b[..|b| - 1];
    } else {
      assert a + b == a;
    }
  }

  lemma {:induction false} KeepPrivateAppend(a: seq<string>, b: seq<string>)
    ensures KeepPrivate(a + b) == KeepPrivate(a) + KeepPrivate(b)
  {
    if b != [] {
      KeepPrivateAppend(a, b[..|b| - 1]);
      assert (a + b)[..|a + b| - 1] == a + b[..|b| - 1];
    } else {
      assert a + b == a;
    }
  }

  lemma {:induction false} ValidNatIPsIsKeepValid(acs: seq<AccessConfig>)
    ensures ValidNatIPs(acs) == KeepValid(seq(|acs|, k requires 0 <= k < |acs| => acs[k].natIP))
  {
    var xs := seq(|acs|, k requires 0 <= k < |acs| => acs[k].natIP);
    if acs != [] {
      var init := acs[..|acs| - 1];
      ValidNatIPsIsKeepValid(init);
      assert xs[..|xs| - 1] == seq(|init|, k requires 0 <= k < |init| => init[k].natIP);
    }
  }

  /** Every selected principal is a valid IPv4 address. */
  lemma {:induction false} PrincipalsAreValid(nics: seq<NetworkInterface>, signExternalIPs: bool, signInternalIPs: bool)
    ensures forall ip :: ip in Principals(nics, signExternalIPs, signInternalIPs) ==> IsValidIP(ip)
  {
    if nics != [] {
      PrincipalsAreValid(nics[..|nics| - 1], signExternalIPs, signInternalIPs);
      PrivateIsValid(nics[|nics| - 1].networkIP);
      NatIPsAreValid(nics[|nics| - 1].accessConfigs);
    }
  }

  lemma {:induction false} NatIPsAreValid(acs: seq<AccessConfig>)
    ensures forall ip :: ip in ValidNatIPs(acs) ==> IsValidIP(ip)
  {
    if acs != [] {
      NatIPsAreValid(acs[..|acs| - 1]);
    }
  }

  /** With only external signing on, the principals are exactly the valid NAT
      addresses of all interfaces, in order. */
  lemma {:induction false} ExternalOnly(nics: seq<NetworkInterface>)
    ensures Principals(nics, true, false) == KeepValid(AllNatIPs(nics))
  {
    if nics != [] {
      var init := nics[..|nics| - 1];
      var acs := nics[|nics| - 1].accessConfigs;
      ExternalOnly(init);
      ValidNatIPsIsKeepValid(acs);
      KeepValidAppend(AllNatIPs(init), seq(|acs|, k requires 0 <= k < |acs| => acs[k].natIP));
    }
  }

  /** With only internal signing on, the principals are exactly the private
      internal addresses, one interface after another. */
  lemma {:induction false} InternalOnly(nics: seq<NetworkInterface>)
    ensures Principals(nics, false, true) == KeepPrivate(AllNetworkIPs(nics))
  {
    if nics != [] {
      var init := nics[..|nics| - 1];
      InternalOnly(init);
      assert AllNetworkIPs(nics) == AllNetworkIPs(init) + [nics[|nics| - 1].networkIP];
      KeepPrivateAppend(AllNetworkIPs(init), [nics[|nics| - 1].networkIP]);
      assert KeepPrivate([nics[|nics| - 1].networkIP])
          == (if IsValidPrivateIP(nics[|nics| - 1].networkIP) then [nics[|nics| - 1].networkIP] else []) by {
        assert [nics[|nics| - 1].networkIP][..0] == [];
      }
    }
  }

  /** With both flags off no address is selected. */
  lemma {:induction false} NeitherFlag(nics: seq<NetworkInterface>)
    ensures Principals(nics, false, false) == []
  {
    if nics != [] {
      NeitherFlag(nics[..|nics| - 1]);
    }
  }

  /** With both flags on, the principals are the valid NAT addresses together with
      the private internal addresses, with every repeat kept. */
  lemma {:induction false} BothFlags(nics: seq<NetworkInterface>)
    ensures multiset(Principals(nics, true, true))
         == multiset(Principals(nics, true, false)) + multiset(Principals(nics, false, true))
  {
    if nics != [] {
      BothFlags(nics[..|nics| - 1]);
    }
  }

  /** The scenario of one interface with external address 34.1.2.3 and internal
      address 10.0.0.5, external signing on and internal signing off. */
  lemma ExternalScenario()
    ensures Principals([NetworkInterface("10.0.0.5", [AccessConfig("34.1.2.3")])], true, false) == ["34.1.2.3"]
  {
    assert Text.DecimalString(3) == "3" && Text.DecimalString(4) == "4" && Text.DecimalString(34) == "34";
    assert Text.DecimalString(1) == "1" && Text.DecimalString(2) == "2";
    assert Text.Join(["2", "3"], '.') == "2.3";
    assert Text.Join(["1", "2", "3"], '.') == "1.2.3";
    assert Text.Join(["34", "1", "2", "3"], '.') == "34.1.2.3";
    ParseFormat([34, 1, 2, 3]);
    var acs := [AccessConfig("34.1.2.3")];
    assert acs[..0] == [];
    assert ValidNatIPs(acs) == ["34.1.2.3"];
  }

  lemma PrincipalsSnoc(nics: seq<NetworkInterface>, i: nat, signExternalIPs: bool, signInternalIPs: bool)
    requires i < |nics|
    ensures Principals(nics[..i + 1], signExternalIPs, signInternalIPs)
         == Principals(nics[..i], signExternalIPs, signInternalIPs) + NicPrincipals(nics[i], signExternalIPs, signInternalIPs)
  {
    assert nics[..i + 1][..i] == nics[..i];
  }

  lemma ValidNatIPsSnoc(acs: seq<AccessConfig>, j: nat)
    requires j < |acs|
    ensures ValidNatIPs(acs[..j + 1])
         == ValidNatIPs(acs[..j]) + (if IsValidIP(acs[j].natIP) then [acs[j].natIP] else [])
  {
    assert acs[..j + 1][..j] == acs[..j];
  }

  /** The inner loop at ca/ca.go:135-139: append each access config's NAT address
      that passes `isValidIP`, in order. */
  method AppendValidNatIPs(ips: seq<string>, accessConfigs: seq<AccessConfig>) returns (out: seq<string>)
    ensures out == ips + ValidNatIPs(accessConfigs)
  {
    out := ips;
    for j := 0 to |accessConfigs|
      invariant out == ips + ValidNatIPs(accessConfigs[..j])
    {
      ValidNatIPsSnoc(accessConfigs, j);
      if IsValidIP(accessConfigs[j].natIP) {
        out := out + [accessConfigs[j].natIP];
      }
    }
    assert accessConfigs[..|accessConfigs|] == accessConfigs;
  }

  /** The loop at ca/ca.go:132-146: for each interface, append the valid NAT
      addresses when external signing is on, then the private internal address
      when internal signing is on. */
  method SelectPrincipals(nics: seq<NetworkInterface>, signExternalIPs: bool, signInternalIPs: bool)
    returns (ips: seq<string>)
    ensures ips == Principals(nics, signExternalIPs, signInternalIPs)
  {
    ips := [];
    for i := 0 to |nics|
      invariant ips == Principals(nics[..i], signExternalIPs, signInternalIPs)
    {
      var nic := nics[i];
      if signExternalIPs {
        ips := AppendValidNatIPs(ips, nic.accessConfigs);
      }
      if signInternalIPs {
        if IsValidPrivateIP(nic.networkIP) {
          ips := ips + [nic.networkIP];
        }
      }
      PrincipalsSnoc(nics, i, signExternalIPs, signInternalIPs);
    }
    assert nics[..|nics|] == nics;
  }
}
