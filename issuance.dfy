/** The certificate authority of ca/ca.go: project resolution
    (`getUniqueProjectIDs`) and the per-instance flow of `signKeysInProject`.
    Every compute API call is replaced by its pre-fetched answer: the instance
    listing, each instance's guest attribute, the random bytes for its nonce
    and the outcome of its `SetMetadata` call. The method returns the
    `SetMetadata` calls it issued, in order, and how its loop ended. */
module Issuance {
  import opened Wrappers
  import opened Text
  import opened Slices
  import opened InstanceMetadata
  import opened PrincipalSelection
  import opened RateLimit
  import opened Signer
  import opened Projects

  const SecondsPerDay: nat := 24 * 60 * 60

  datatype Instance = Instance(
    id: InstanceId,
    name: string,
    zone: string,
    networkInterfaces: seq<NetworkInterface>,
    metadata: seq<Item>)

  /** One listed instance with the answers the compute API gives about it in
      this pass: the value of its guest attribute "hostkeys/ssh-ed25519" (None when the read
      fails), the bytes `rand.Read` delivers for its nonce, and whether its
      `SetMetadata` call succeeds. */
  datatype Probe = Probe(instance: Instance, guestKey: Option<string>, random: seq<Byte>, setMetadataOk: bool)

  datatype SetMetadataCall = SetMetadataCall(projectID: string, zone: string, instanceName: string, items: seq<Item>)

  /** How a project's loop ends: it ran to the end, the instance listing failed,
      a zone URL had too few segments (an index panic in the source), or a
      `SetMetadata` call failed. */
  datatype Status = Running | ListFailed | ZonePanic | WriteFailed

  /** The rate-limiter map, the `SetMetadata` calls issued so far, and the status. */
  datatype RunState = RunState(lastSigned: map<InstanceId, int>, calls: seq<SetMetadataCall>, status: Status)

  /** The settings `signKeysInProject` reads from the authority. */
  datatype Config = Config(
    signer: CaSigner,
    signInternalIPs: bool,
    signExternalIPs: bool,
    simulate: bool,
    validFor: int)

  /** `strings.Split(zone, "/")[8]`: the zone name at the end of a zone URL;
      None where the source indexes out of range. */
  function ZoneName(zoneUrl: string): Option<string> {
    var parts := Split(zoneUrl, '/');
    if |parts| > 8 then Some(parts[8]) else None
  }

  /** One iteration of the instance loop at ca/ca.go:110-170. */
  function Step(cfg: Config, crypto: Crypto, projectID: string, st: RunState, p: Probe, now: int): RunState {
    var inst := p.instance;
    if SignedWithin(st.lastSigned, inst.id, now) then st
    else
      match ZoneName(inst.zone)
      case None => st.(status := ZonePanic)
      case Some(zone) =>
        match p.guestKey
        case None => st
        case Some(sshKey) =>
          var ips := Principals(inst.networkInterfaces, cfg.signExternalIPs, cfg.signInternalIPs);
          var signedKey := SignPubkey(crypto, cfg.signer, sshKey, ips, cfg.validFor, now, p.random);
          if cfg.simulate then st
          else
            var call := SetMetadataCall(projectID, zone, inst.name, WithSignature(inst.metadata, signedKey));
            if p.setMetadataOk then RunState(st.lastSigned[inst.id := now], st.calls + [call], Running)
            else RunState(st.lastSigned, st.calls + [call], WriteFailed)
  }

  /** The instance loop over `probes`, starting from rate-limiter map `m0`,
      stopping at the first instance that ends it. */
  function Pass(cfg: Config, crypto: Crypto, projectID: string, m0: map<InstanceId, int>, probes: seq<Probe>,
                now: int): RunState
  {
    if probes == [] then RunState(m0, [], Running)
    else
      var before := Pass(cfg, crypto, projectID, m0, probes[..|probes| - 1], now);
      if before.status == Running then Step(cfg, crypto, projectID, before, probes[|probes| - 1], now)
      else before
  }

  /** `signKeysInProject` for one project: a failed listing ends it at once. */
  function ProjectPass(cfg: Config, crypto: Crypto, projectID: string, m0: map<InstanceId, int>,
                       listing: Option<seq<Probe>>, now: int): RunState
  {
    match listing
    case None => RunState(m0, [], ListFailed)
    case Some(probes) => Pass(cfg, crypto, projectID, m0, probes, now)
  }

  /** Once the loop has ended, the instances after it make no difference: a
      failed `SetMetadata` ends the whole project. */
  lemma {:induction false} AbortIsFinal(cfg: Config, crypto: Crypto, projectID: string, m0: map<InstanceId, int>,
                                        probes: seq<Probe>, rest: seq<Probe>, now: int)
    requires Pass(cfg, crypto, projectID, m0, probes, now).status != Running
    ensures Pass(cfg, crypto, projectID, m0, probes + rest, now) == Pass(cfg, crypto, projectID, m0, probes, now)
  {
    if rest == [] {
      assert probes + rest == probes;
    } else {
      var n := |rest| - 1;
      AbortIsFinal(cfg, crypto, projectID, m0, probes, rest[..n], now);
      assert (probes + rest)[..|probes + rest| - 1] == probes + rest[..n];
    }
  }

  /** In simulate mode nothing is written and nothing is recorded. */
  lemma {:induction false} SimulateWritesNothing(cfg: Config, crypto: Crypto, projectID: string,
                                                 m0: map<InstanceId, int>, probes: seq<Probe>, now: int)
    requires cfg.simulate
    ensures var r := Pass(cfg, crypto, projectID, m0, probes, now);
            r.lastSigned == m0 && r.calls == [] && r.status in {Running, ZonePanic}
  {
    if probes != [] {
      SimulateWritesNothing(cfg, crypto, projectID, m0, probes[..|probes| - 1], now);
    }
  }

  /** One step records nothing, or records the pass time for its instance after
      a found key and a successful write; it issues at most one call. */
  lemma StepRecords(cfg: Config, crypto: Crypto, projectID: string, st: RunState, p: Probe, now: int)
    ensures var r := Step(cfg, crypto, projectID, st, p, now);
            && (r.lastSigned == st.lastSigned
                || (p.guestKey.Some? && p.setMetadataOk && r.lastSigned == st.lastSigned[p.instance.id := now]))
            && |r.calls| <= |st.calls| + 1
  {
  }

  /** The limiter only gains or refreshes entries, at most one call is issued per
      instance, and an entry changes only for an instance whose key was found
      and whose `SetMetadata` succeeded; it is then set to the pass time. */
  lemma {:induction false} RecordedOnlyAfterWrite(cfg: Config, crypto: Crypto, projectID: string,
                                                  m0: map<InstanceId, int>, probes: seq<Probe>, now: int)
    ensures var r := Pass(cfg, crypto, projectID, m0, probes, now);
            && m0.Keys <= r.lastSigned.Keys
            && |r.calls| <= |probes|
            && forall id :: id in r.lastSigned && !(id in m0 && r.lastSigned[id] == m0[id]) ==>
                 && r.lastSigned[id] == now
                 && exists i :: 0 <= i < |probes| && probes[i].instance.id == id
                                && probes[i].guestKey.Some? && probes[i].setMetadataOk
  {
    if probes != [] {
      var n := |probes| - 1;
      var init := probes[..n];
      RecordedOnlyAfterWrite(cfg, crypto, projectID, m0, init, now);
      var before := Pass(cfg, crypto, projectID, m0, init, now);
      var r := Pass(cfg, crypto, projectID, m0, probes, now);
      if before.status == Running {
        StepRecords(cfg, crypto, projectID, before, probes[n], now);
      }
      forall id | id in r.lastSigned && !(id in m0 && r.lastSigned[id] == m0[id])
        ensures r.lastSigned[id] == now
        ensures exists i :: 0 <= i < |probes| && probes[i].instance.id == id
                            && probes[i].guestKey.Some? && probes[i].setMetadataOk
      {
        if id in before.lastSigned && r.lastSigned[id] == before.lastSigned[id] {
          var i :| 0 <= i < n && init[i].instance.id == id && init[i].guestKey.Some? && init[i].setMetadataOk;
          assert probes[i] == init[i];
        } else {
          assert probes[n].instance.id == id;
        }
      }
    }
  }

  /** A pass over instances that are all either rate-limited or have no key at
      the guest-attribute path (with a well-formed zone) changes nothing and
      writes nothing. */
  lemma {:induction false} QuietPass(cfg: Config, crypto: Crypto, projectID: string, m0: map<InstanceId, int>,
                                     probes: seq<Probe>, now: int)
    requires forall j :: 0 <= j < |probes| ==>
               SignedWithin(m0, probes[j].instance.id, now)
               || (ZoneName(probes[j].instance.zone).Some? && probes[j].guestKey.None?)
    ensures Pass(cfg, crypto, projectID, m0, probes, now) == RunState(m0, [], Running)
  {
    if probes != [] {
      var n := |probes| - 1;
      QuietPass(cfg, crypto, projectID, m0, probes[..n], now);
    }
  }

  /** Entries set to the pass time keep every limited instance limited. */
  lemma StepKeepsLimited(cfg: Config, crypto: Crypto, projectID: string, st: RunState, p: Probe, now: int,
                         id: InstanceId)
    requires SignedWithin(st.lastSigned, id, now)
    ensures SignedWithin(Step(cfg, crypto, projectID, st, p, now).lastSigned, id, now)
  {
  }

  /** After a pass that ran to the end outside simulate mode, every instance is
      either limited at the pass time or has no published key. */
  lemma {:induction false} CompletedPassCoversAll(cfg: Config, crypto: Crypto, projectID: string,
                                                  m0: map<InstanceId, int>, probes: seq<Probe>, now: int)
    requires !cfg.simulate
    requires Pass(cfg, crypto, projectID, m0, probes, now).status == Running
    ensures var m := Pass(cfg, crypto, projectID, m0, probes, now).lastSigned;
            forall j :: 0 <= j < |probes| ==>
              SignedWithin(m, probes[j].instance.id, now)
              || (ZoneName(probes[j].instance.zone).Some? && probes[j].guestKey.None?)
  {
    if probes != [] {
      var n := |probes| - 1;
      var init := probes[..n];
      var before := Pass(cfg, crypto, projectID, m0, init, now);
      assert before.status == Running;
      CompletedPassCoversAll(cfg, crypto, projectID, m0, init, now);
      var m := Pass(cfg, crypto, projectID, m0, probes, now).lastSigned;
      forall j | 0 <= j < n
        ensures SignedWithin(m, probes[j].instance.id, now)
                || (ZoneName(probes[j].instance.zone).Some? && probes[j].guestKey.None?)
      {
        assert probes[j] == init[j];
        if SignedWithin(before.lastSigned, probes[j].instance.id, now) {
          StepKeepsLimited(cfg, crypto, projectID, before, probes[n], now, probes[j].instance.id);
        }
      }
    }
  }

  /** Running a project twice in immediate succession: when the first pass ran to
      the end outside simulate mode, the second writes nothing and records
      nothing. */
  lemma SecondPassIsQuiet(cfg: Config, crypto: Crypto, projectID: string, m0: map<InstanceId, int>,
                          probes: seq<Probe>, now: int)
    requires !cfg.simulate
    requires Pass(cfg, crypto, projectID, m0, probes, now).status == Running
    ensures var m1 := Pass(cfg, crypto, projectID, m0, probes, now).lastSigned;
            Pass(cfg, crypto, projectID, m1, probes, now) == RunState(m1, [], Running)
  {
    var m1 := Pass(cfg, crypto, projectID, m0, probes, now).lastSigned;
    CompletedPassCoversAll(cfg, crypto, projectID, m0, probes, now);
    QuietPass(cfg, crypto, projectID, m1, probes, now);
  }

  /** The call writes, under `MetadataInjectedSigKey`, a certificate line or the
      empty string. */
  predicate CarriesSignature(c: SetMetadataCall) {
    && FirstWithKey(c.items, MetadataInjectedSigKey).Some?
    && var v := c.items[FirstWithKey(c.items, MetadataInjectedSigKey).value].value;
       v == "" || (|v| >= |CertPrefix| && v[..|CertPrefix|] == CertPrefix)
  }

  /** One step issues no call or appends one that carries a signature. */
  lemma StepCallCarriesSignature(cfg: Config, crypto: Crypto, projectID: string, st: RunState, p: Probe, now: int)
    ensures var r := Step(cfg, crypto, projectID, st, p, now);
            r.calls == st.calls
            || (exists c :: r.calls == st.calls + [c] && CarriesSignature(c))
  {
    var inst := p.instance;
    if !SignedWithin(st.lastSigned, inst.id, now) && ZoneName(inst.zone).Some? && p.guestKey.Some? {
      var ips := Principals(inst.networkInterfaces, cfg.signExternalIPs, cfg.signInternalIPs);
      var signedKey := SignPubkey(crypto, cfg.signer, p.guestKey.value, ips, cfg.validFor, now, p.random);
      SignatureStored(inst.metadata, signedKey);
    }
  }

  /** Every write puts the key under `MetadataInjectedSigKey`, and the value there
      is a certificate line or, when the key could not be decoded or parsed, the
      empty string: nothing checks the signer's result before writing it. */
  lemma {:induction false} WrittenValues(cfg: Config, crypto: Crypto, projectID: string, m0: map<InstanceId, int>,
                                         probes: seq<Probe>, now: int)
    ensures forall c :: c in Pass(cfg, crypto, projectID, m0, probes, now).calls ==> CarriesSignature(c)
  {
    if probes != [] {
      var n := |probes| - 1;
      WrittenValues(cfg, crypto, projectID, m0, probes[..n], now);
      var before := Pass(cfg, crypto, projectID, m0, probes[..n], now);
      if before.status == Running {
        StepCallCarriesSignature(cfg, crypto, projectID, before, probes[n], now);
      }
    }
  }

  /** A key that does not decode is still written, as the empty string. */
  lemma EmptySignatureStillWritten(cfg: Config, crypto: Crypto, projectID: string, st: RunState, p: Probe,
                                   now: int)
    requires !SignedWithin(st.lastSigned, p.instance.id, now)
    requires ZoneName(p.instance.zone).Some? && p.guestKey.Some? && !cfg.simulate
    requires DecodeKey(crypto, p.guestKey.value).None?
    ensures Step(cfg, crypto, projectID, st, p, now).calls
         == st.calls + [SetMetadataCall(projectID, ZoneName(p.instance.zone).value, p.instance.name,
                                        WithSignature(p.instance.metadata, ""))]
  {
  }

  /** The certificate authority (`CertificateAuthority`, ca/ca.go:22-34). */
  class CertificateAuthority {
    const config: Config
    const parallelism: int
    const projectIDs: seq<string>
    const folderIDs: seq<string>
    const limiter: RateLimiter

    /** `Create` (ca/ca.go:37-55), with the CA key and the configured project
        and folder lists already loaded; the validity in days becomes seconds. */
    constructor (signer: CaSigner, projectIDs: seq<string>, folderIDs: seq<string>, signInternalIPs: bool,
                 signExternalIPs: bool, parallelism: int, simulate: bool, daysValid: int)
      ensures config == Config(signer, signInternalIPs, signExternalIPs, simulate, daysValid * SecondsPerDay)
      ensures this.parallelism == parallelism
      ensures this.projectIDs == projectIDs && this.folderIDs == folderIDs
      ensures fresh(limiter) && limiter.lastSigned == map[]
    {
      config := Config(signer, signInternalIPs, signExternalIPs, simulate, daysValid * SecondsPerDay);
      this.parallelism := parallelism;
      this.projectIDs := projectIDs;
      this.folderIDs := folderIDs;
      limiter := new RateLimiter();
    }

    /** `getUniqueProjectIDs` (ca/ca.go:77-83): the configured projects followed
        by the projects under the configured folders, de-duplicated. None when a
        folder listing fails, which is fatal in the source. The configured
        projects keep their leading positions. */
    method GetUniqueProjectIDs(directory: Directory) returns (r: Option<seq<string>>)
      ensures r.None? <==> ActiveProjectIDs(directory, folderIDs).None?
      ensures r.Some? ==> r.value == Unique(projectIDs + ActiveProjectIDs(directory, folderIDs).value)
      ensures r.Some? ==> NoDuplicates(r.value)
      ensures r.Some? ==> |Unique(projectIDs)| <= |r.value| && r.value[..|Unique(projectIDs)|] == Unique(projectIDs)
      ensures r.Some? ==> forall p :: p in r.value <==> p in projectIDs || p in ActiveProjectIDs(directory, folderIDs).value
    {
      var folderProjects := GetActiveProjectIDs(directory, folderIDs);
      if folderProjects.None? {
        return None;
      }
      var allProjectIDs := projectIDs + folderProjects.value;
      var unique := MakeSliceUnique(allProjectIDs);
      UniqueOfAppendPrefix(projectIDs, folderProjects.value);
      return Some(unique);
    }

    /** `signKeysInProject` (ca/ca.go:91-173) over the listing of one project. */
    method SignKeysInProject(crypto: Crypto, projectID: string, listing: Option<seq<Probe>>, now: int)
      returns (calls: seq<SetMetadataCall>, status: Status)
      modifies limiter
      ensures RunState(limiter.lastSigned, calls, status)
           == ProjectPass(config, crypto, projectID, old(limiter.lastSigned), listing, now)
    {
      if listing.None? {
        return [], ListFailed;
      }
      var probes := listing.value;
      ghost var m0 := limiter.lastSigned;
      calls := [];
      for i := 0 to |probes|
        invariant Pass(config, crypto, projectID, m0, probes[..i], now) == RunState(limiter.lastSigned, calls, Running)
      {
        assert probes[..i + 1][..i] == probes[..i];
        assert probes == probes[..i + 1] + probes[i + 1..];
        var instance := probes[i].instance;
        var limited := limiter.HasSignedMetadataInLastDay(instance.id, now);
        if limited {
          continue;
        }
        var zone := ZoneName(instance.zone);
        if zone.None? {
          AbortIsFinal(config, crypto, projectID, m0, probes[..i + 1], probes[i + 1..], now);
          return calls, ZonePanic;
        }
        if probes[i].guestKey.None? {
          continue;
        }
        var sshKey := probes[i].guestKey.value;
        var ips := SelectPrincipals(instance.networkInterfaces, config.signExternalIPs, config.signInternalIPs);
        var signedKey := SignPubkey(crypto, config.signer, sshKey, ips, config.validFor, now, probes[i].random);
        if config.simulate {
          continue;
        }
        var metadata := new Metadata(instance.metadata);
        AddSignatureToMetadata(metadata, signedKey);
        calls := calls + [SetMetadataCall(projectID, zone.value, instance.name, metadata.items)];
        if !probes[i].setMetadataOk {
          AbortIsFinal(config, crypto, projectID, m0, probes[..i + 1], probes[i + 1..], now);
          return calls, WriteFailed;
        }
        limiter.RecordSigningMetadata(instance.id, now);
      }
      assert probes[..|probes|] == probes;
      return calls, Running;
    }
  }

  /** The scenario of explicit projects ["p1"] and one folder holding "p2" and
      "p1": the project set is ["p1", "p2"]. */
  lemma ProjectSetScenario()
    ensures Unique(["p1"] + ["p2", "p1"]) == ["p1", "p2"]
  {
    assert ["p1"] + ["p2", "p1"] == ["p1", "p2", "p1"];
    assert ["p1"][..0] == [];
    assert Unique(["p1"]) == ["p1"];
    assert ["p1", "p2"][..1] == ["p1"];
    assert Unique(["p1", "p2"]) == ["p1", "p2"];
    assert ["p1", "p2", "p1"][..2] == ["p1", "p2"];
  }
}
