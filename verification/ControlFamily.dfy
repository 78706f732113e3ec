/** The learned address-family demotions of the control plane, and what they do to a dial. */
module ControlFamily {
  import opened Options
  import opened ControlBackoff

  datatype Family = V4 | V6

  function Other(f: Family): (g: Family) { if f.V4? then V6 else V4 }

  datatype Policy = Auto | Force4 | Force6

  datatype Demotion = Demotion(until: int, strikes: nat)

  type Demotions = map<Family, Demotion>

  /** Which families the device can use at a moment. */
  datatype Probe = Probe(ipv4: bool, ipv6: bool)

  function Usable(p: Probe, f: Family): (b: bool) { if f.V4? then p.ipv4 else p.ipv6 }

  predicate Live(m: Demotions, f: Family, now: int)
  {
    f in m && now < m[f].until
  }

  function Strikes(m: Demotions, f: Family): (n: nat)
  {
    if f in m then m[f].strikes else 0
  }

  function Struck(m: Demotions, f: Family, now: int): (r: Demotions)
  {
    m[f := Demotion(now + Backoff(Strikes(m, f) + 1), Strikes(m, f) + 1)]
  }

  /** The family that alone has a live demotion. */
  function OnlyLive(m: Demotions, now: int): (r: Option<Family>)
  {
    if Live(m, V4, now) && !Live(m, V6, now) then Some(V4)
    else if Live(m, V6, now) && !Live(m, V4, now) then Some(V6)
    else None
  }

  /** The demotion a read applies: the only live one, if the other family is usable now. */
  function Applied(m: Demotions, now: int, probe: Probe): (r: Option<Family>)
  {
    match OnlyLive(m, now)
    case None => None
    case Some(f) => if Usable(probe, Other(f)) then Some(f) else None
  }

  /** A read drops the only live demotion when it may not be applied. */
  function AfterRead(m: Demotions, now: int, probe: Probe): (r: Demotions)
  {
    match OnlyLive(m, now)
    case None => m
    case Some(f) => if Usable(probe, Other(f)) then m else m - {f}
  }

  function AfterDemote(policy: Policy, m: Demotions, f: Family, now: int, probe: Probe): (r: Demotions)
  {
    if policy.Auto? && Usable(probe, Other(f)) && !Live(m, f, now) then Struck(m, f, now) else m
  }

  class Ledger {
    var policy: Policy
    var demoted: Demotions

    constructor ()
      ensures policy == Auto && demoted == map[]
    {
      policy, demoted := Auto, map[];
    }

    /** `controlFamilyDemote`. */
    method Demote(f: Family, now: int, probe: Probe) returns (took: bool)
      modifies this`demoted
      ensures demoted == AfterDemote(policy, old(demoted), f, now, probe)
      ensures took <==> policy.Auto? && Usable(probe, Other(f))
    {
      if policy != Auto { return false; }
      if !Usable(probe, Other(f)) { return false; }
      var entry := if f in demoted then demoted[f] else Demotion(now, 0);
      if now < entry.until { return true; }
      var strikes := entry.strikes + 1;
      var backoff := ShiftBase(strikes - 1);
      if backoff > MAX || backoff <= 0 { backoff := MAX; }
      demoted := demoted[f := Demotion(now + backoff, strikes)];
      return true;
    }

    /** `controlFamilyUndemote`. */
    method Undemote(f: Family) returns (had: bool)
      modifies this`demoted
      ensures demoted == old(demoted) - {f} && (had <==> f in old(demoted))
    {
      had := f in demoted;
      demoted := demoted - {f};
    }

    /** `controlFamilyClear`. */
    method Clear()
      modifies this`demoted
      ensures demoted == map[]
    {
      demoted := map[];
    }

    /** `controlFamilyLiveDemotion`: visits the entries in any order. */
    method LiveDemotion(now: int, probe: Probe) returns (r: Option<Family>)
      modifies this`demoted
      ensures r == Applied(old(demoted), now, probe) && demoted == AfterRead(old(demoted), now, probe)
    {
      var live: Option<Family> := None;
      var left := demoted.Keys;
      while left != {}
        invariant left <= demoted.Keys && demoted == old(demoted)
        invariant forall f :: f in demoted.Keys - left && Live(demoted, f, now) ==> live == Some(f)
        invariant live.Some? ==> live.value in demoted.Keys - left && Live(demoted, live.value, now)
        decreases |left|
      {
        var f :| f in left;
        left := left - {f};
        if now < demoted[f].until {
          if live.Some? {
            assert live.value != f;
            return None;
          }
          live := Some(f);
        }
      }
      if live.None? { return None; }
      if Usable(probe, Other(live.value)) { return live; }
      demoted := demoted - {live.value};
      return None;
    }

    /** `controlDialNetwork`; `literal` says the target is an address rather than a name. */
    method DialNetwork(network: string, literal: bool, now: int, probe: Probe) returns (r: Option<string>)
      modifies this`demoted
      ensures r == Dialed(policy, old(demoted), network, literal, now, probe)
      ensures demoted == if Reads(policy, network, literal) then AfterRead(old(demoted), now, probe) else old(demoted)
    {
      if literal { return Some(network); }
      if network == "tcp4" || network == "udp4" {
        return if policy == Force6 then None else Some(network);
      }
      if network == "tcp6" || network == "udp6" {
        return if policy == Force4 then None else Some(network);
      }
      if network != "tcp" && network != "udp" { return Some(network); }
      if policy == Force4 { return Some(network + "4"); }
      if policy == Force6 { return Some(network + "6"); }
      var demotedFamily := LiveDemotion(now, probe);
      match demotedFamily
      case Some(f) => return Some(if f.V6? then network + "4" else network + "6");
      case None => return Some(network);
    }
  }

  // ---- what a dial does ----

  predicate Agnostic(network: string) { network == "tcp" || network == "udp" }

  /** Only a family-agnostic dial of a name under Auto consults the ledger. */
  predicate Reads(policy: Policy, network: string, literal: bool)
  {
    !literal && policy.Auto? && Agnostic(network)
  }

  function Narrowed(network: string, f: Family): (r: string) { network + if f.V4? then "4" else "6" }

  function Dialed(policy: Policy, m: Demotions, network: string, literal: bool, now: int,
                  probe: Probe): (r: Option<string>)
  {
    if literal then Some(network)
    else if network in {"tcp4", "udp4"} then if policy.Force6? then None else Some(network)
    else if network in {"tcp6", "udp6"} then if policy.Force4? then None else Some(network)
    else if !Agnostic(network) then Some(network)
    else
      match policy
      case Force4 => Some(Narrowed(network, V4))
      case Force6 => Some(Narrowed(network, V6))
      case Auto =>
        match Applied(m, now, probe)
        case None => Some(network)
        case Some(f) => Some(Narrowed(network, Other(f)))
  }

  /**
   * A name dial under Auto is narrowed away from a family exactly when that family alone has a live
   * demotion and the other family is usable at that read.
   */
  lemma NarrowedExactly(m: Demotions, network: string, now: int, probe: Probe, f: Family)
    requires Agnostic(network)
    ensures Dialed(Auto, m, network, false, now, probe) == Some(Narrowed(network, Other(f))) <==>
            Live(m, f, now) && !Live(m, Other(f), now) && Usable(probe, Other(f))
  {
    NarrowedDiffers(network);
  }

  lemma NarrowedDiffers(network: string)
    ensures Narrowed(network, V4) != Narrowed(network, V6) && Narrowed(network, V4) != network
            && Narrowed(network, V6) != network
  {
    var n := |network|;
    assert Narrowed(network, V4)[n] == '4' && Narrowed(network, V6)[n] == '6';
  }

  /** A demotion never fails a dial, and never touches an explicit family or an address. */
  lemma DemotionNeverFails(policy: Policy, m: Demotions, network: string, literal: bool, now: int, probe: Probe)
    ensures Dialed(policy, m, network, literal, now, probe).None? <==>
            !literal && ((network in {"tcp4", "udp4"} && policy.Force6?)
                         || (network in {"tcp6", "udp6"} && policy.Force4?))
    ensures !Reads(policy, network, literal) ==>
              Dialed(policy, m, network, literal, now, probe) == Dialed(policy, map[], network, literal, now, probe)
  {
  }

  /** A read leaves no demotion behind that the next read could not apply. */
  lemma ReadTwice(m: Demotions, now: int, probe: Probe)
    ensures OnlyLive(AfterRead(m, now, probe), now) == Applied(m, now, probe)
    ensures AfterRead(AfterRead(m, now, probe), now, probe) == AfterRead(m, now, probe)
  {
  }

  /** Under a forced policy a dial of a name never goes out over the other family, whatever is demoted. */
  lemma ForcedNeverOther(m: Demotions, network: string, now: int, probe: Probe)
    ensures Dialed(Force4, m, network, false, now, probe) !in {Some("tcp6"), Some("udp6")}
    ensures Dialed(Force6, m, network, false, now, probe) !in {Some("tcp4"), Some("udp4")}
    ensures network == "tcp" ==> Dialed(Force4, m, network, false, now, probe) == Some("tcp4")
                                 && Dialed(Force6, m, network, false, now, probe) == Some("tcp6")
    ensures network == "udp" ==> Dialed(Force4, m, network, false, now, probe) == Some("udp4")
                                 && Dialed(Force6, m, network, false, now, probe) == Some("udp6")
  {
    assert "tcp" + "4" == "tcp4" && "tcp" + "6" == "tcp6" && "udp" + "4" == "udp4" && "udp" + "6" == "udp6";
    assert "tcp4"[3] != "tcp6"[3] && "udp4"[3] != "udp6"[3] && "tcp4"[0] != "udp6"[0] && "udp4"[0] != "tcp6"[0];
  }

  /** An address, an explicit family and any other network are dialed as they stand. */
  lemma DialedAsGiven(policy: Policy, m: Demotions, network: string, literal: bool, now: int, probe: Probe)
    requires literal || !Agnostic(network)
    ensures var r := Dialed(policy, m, network, literal, now, probe); r.Some? ==> r.value == network
  {
  }
}
