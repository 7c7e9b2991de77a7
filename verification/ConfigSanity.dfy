/**
 The connection checks of the configuration validator: every enabled component may name
 connections to other services, either internal ones or ones that are defined elsewhere.
 */
module ConfigSanity {
  import opened Wrappers

  datatype Service =
    | RALs | CDRs | SessionS | ChargerS | AttributeS | ResourceS | StatS | ThresholdS | SupplierS | SchedulerS
    | FreeSWITCHAgent | KamailioAgent | AsteriskAgent | DiameterAgent | RadiusAgent | DNSAgent | HTTPAgent
    | ERs | APIerSv1 | DispatcherS | FilterS

  /** `conns` lists the ids by which one component connects to another; `replication` those of SessionS. */
  datatype Config = Config(
    enabled: set<Service>,
    conns: (Service, Service) -> seq<string>,
    replication: seq<string>,
    rpcConns: set<string>)

  datatype Error =
    | NoConnections(from: Service, to: Service)
    | NotEnabled(to: Service, from: Service)
    | NotDefined(from: Service, id: string)

  datatype Check =
    | AtLeastOne(from: Service, to: Service)   // there is a connection
    | Every(from: Service, to: Service)        // every connection leads somewhere
    | Replicas                                 // so do the replication connections, none of which is internal

  /** The checks, in the order in which they are made. */
  const CHECKS: seq<Check> := [
    Every(RALs, StatS), Every(RALs, ThresholdS),
    Every(CDRs, ChargerS), Every(CDRs, RALs), Every(CDRs, AttributeS), Every(CDRs, StatS), Every(CDRs, ThresholdS),
    Every(SessionS, ChargerS), Every(SessionS, RALs), Every(SessionS, ResourceS), Every(SessionS, ThresholdS),
    Every(SessionS, StatS), Every(SessionS, SupplierS), Every(SessionS, AttributeS), Every(SessionS, CDRs), Replicas,
    AtLeastOne(FreeSWITCHAgent, SessionS), Every(FreeSWITCHAgent, SessionS),
    AtLeastOne(KamailioAgent, SessionS), Every(KamailioAgent, SessionS),
    AtLeastOne(AsteriskAgent, SessionS), Every(AsteriskAgent, SessionS),
    AtLeastOne(DiameterAgent, SessionS), Every(DiameterAgent, SessionS),
    AtLeastOne(RadiusAgent, SessionS), Every(RadiusAgent, SessionS),
    AtLeastOne(DNSAgent, SessionS), Every(DNSAgent, SessionS),
    Every(HTTPAgent, SessionS), Every(ChargerS, AttributeS), Every(ResourceS, ThresholdS), Every(StatS, ThresholdS),
    Every(SupplierS, AttributeS), Every(SupplierS, StatS), Every(SupplierS, ResourceS), Every(SchedulerS, CDRs),
    Every(ERs, SessionS), Every(APIerSv1, AttributeS), Every(APIerSv1, SchedulerS), Every(DispatcherS, AttributeS),
    Every(FilterS, StatS), Every(FilterS, ResourceS)
  ]

  /** Some components are checked whether or not they are enabled. */
  predicate IsOn(cfg: Config, s: Service) {
    s in cfg.enabled || s == HTTPAgent || s == APIerSv1 || s == FilterS
  }

  const META_INTERNAL: string := "*internal"

  predicate IsInternal(id: string) {
    META_INTERNAL <= id
  }

  function Source(c: Check): Service {
    if c.Replicas? then SessionS else c.from
  }

  function Ids(cfg: Config, c: Check): seq<string> {
    match c
    case AtLeastOne(_, _) => []
    case Every(from, to) => cfg.conns(from, to)
    case Replicas => cfg.replication
  }

  /** What is wrong with one connection id, if anything. */
  function Fault(cfg: Config, c: Check, id: string): Option<Error>
    requires !c.AtLeastOne?
  {
    if c.Every? && IsInternal(id) then
      if c.to in cfg.enabled then None else Some(NotEnabled(c.to, c.from))
    else if id in cfg.rpcConns then None
    else Some(NotDefined(Source(c), id))
  }

  /** A check holds: its component is off, or its connections are there and lead somewhere. */
  ghost predicate Holds(cfg: Config, c: Check) {
    IsOn(cfg, Source(c)) ==>
      && (c.AtLeastOne? ==> cfg.conns(c.from, c.to) != [])
      && (!c.AtLeastOne? ==> forall id :: id in Ids(cfg, c) ==> Fault(cfg, c, id) == None)
  }

  /** The error that a failing check reports: that of its first bad connection. */
  ghost predicate Reports(cfg: Config, c: Check, e: Error) {
    IsOn(cfg, Source(c)) &&
    if c.AtLeastOne? then cfg.conns(c.from, c.to) == [] && e == NoConnections(c.from, c.to)
    else
      exists i :: 0 <= i < |Ids(cfg, c)| && Fault(cfg, c, Ids(cfg, c)[i]) == Some(e)
                  && forall j :: 0 <= j < i ==> Fault(cfg, c, Ids(cfg, c)[j]) == None
  }

  method CheckOne(cfg: Config, c: Check) returns (err: Option<Error>)
    ensures err == None <==> Holds(cfg, c)
    ensures err.Some? ==> Reports(cfg, c, err.value)
  {
    if !IsOn(cfg, Source(c)) {
      return None;
    }
    if c.AtLeastOne? {
      return if cfg.conns(c.from, c.to) == [] then Some(NoConnections(c.from, c.to)) else None;
    }
    var ids := Ids(cfg, c);
    for i := 0 to |ids|
      invariant forall j :: 0 <= j < i ==> Fault(cfg, c, ids[j]) == None
    {
      err := Fault(cfg, c, ids[i]);
      if err.Some? {
        return;
      }
    }
    return None;
  }

  /** All connection checks: the configuration passes exactly when all hold, else the first one that does not is reported. */
  method CheckConnections(cfg: Config) returns (err: Option<Error>)
    ensures err == None <==> forall c :: c in CHECKS ==> Holds(cfg, c)
    ensures err.Some? ==>
              exists k :: 0 <= k < |CHECKS| && Reports(cfg, CHECKS[k], err.value)
                          && forall j :: 0 <= j < k ==> Holds(cfg, CHECKS[j])
  {
    hide CHECKS, Holds, Reports;
    for k := 0 to |CHECKS|
      invariant forall j :: 0 <= j < k ==> Holds(cfg, CHECKS[j])
    {
      err := CheckOne(cfg, CHECKS[k]);
      if err.Some? {
        assert CHECKS[k] in CHECKS;
        return;
      }
    }
    return None;
  }

  // ----- the service graph

  ghost predicate Accepted(cfg: Config) {
    forall c :: c in CHECKS ==> Holds(cfg, c)
  }

  /** A checked internal connection. */
  ghost predicate Linked(cfg: Config, a: Service, b: Service) {
    Every(a, b) in CHECKS && exists id :: id in cfg.conns(a, b) && IsInternal(id)
  }

  /** Each service of the chain has an internal connection to the next one. */
  ghost predicate IsChain(cfg: Config, chain: seq<Service>) {
    chain != [] && (|chain| > 1 ==> Linked(cfg, chain[0], chain[1]) && IsChain(cfg, chain[1..]))
  }

  ghost predicate EndsOn(cfg: Config, chain: seq<Service>) {
    IsChain(cfg, chain) && IsOn(cfg, chain[0]) ==> IsOn(cfg, chain[|chain| - 1])
  }

  /** Every chain of internal connections from a component that is on ends at a service that is on. */
  ghost predicate Closed(cfg: Config) {
    forall chain :: EndsOn(cfg, chain)
  }

  /** Wherever a chain from a component that is on ends, the other connections made there are defined. */
  ghost predicate Defined(cfg: Config) {
    forall a, b, id :: IsOn(cfg, a) && Every(a, b) in CHECKS && id in cfg.conns(a, b) && !IsInternal(id) ==>
                         id in cfg.rpcConns
  }

  /** The checks that are not about single connections to services. */
  ghost predicate OthersHold(cfg: Config) {
    forall c :: c in CHECKS && !c.Every? ==> Holds(cfg, c)
  }

  lemma {:induction false} ChainsStayOn(cfg: Config, chain: seq<Service>)
    requires Accepted(cfg)
    ensures EndsOn(cfg, chain)
    decreases |chain|
  {
    hide CHECKS;
    if IsChain(cfg, chain) && IsOn(cfg, chain[0]) && |chain| > 1 {
      var id :| id in cfg.conns(chain[0], chain[1]) && IsInternal(id);
      FaultlessConnection(cfg, chain[0], chain[1], id);
      ChainsStayOn(cfg, chain[1..]);
    }
  }

  lemma FaultlessConnection(cfg: Config, a: Service, b: Service, id: string)
    requires Accepted(cfg) && Every(a, b) in CHECKS && IsOn(cfg, a) && id in cfg.conns(a, b)
    ensures Fault(cfg, Every(a, b), id) == None
  {
    hide CHECKS, Fault, IsOn;
    assert Holds(cfg, Every(a, b));
    assert id in Ids(cfg, Every(a, b));
  }

  /** No check leads to a component that is always on. */
  lemma TargetsCanBeOff(c: Check)
    requires c in CHECKS && c.Every?
    ensures c.to != HTTPAgent && c.to != APIerSv1 && c.to != FilterS
  {
  }

  /**
   The configuration is accepted if and only if chains of internal connections from what is on
   reach only services that are on, all other connections made there are defined, and the
   remaining checks hold.
   */
  lemma AcceptedIsClosed(cfg: Config)
    ensures Accepted(cfg) <==> Closed(cfg) && Defined(cfg) && OthersHold(cfg)
  {
    hide CHECKS;
    if Accepted(cfg) {
      forall chain ensures EndsOn(cfg, chain) {
        ChainsStayOn(cfg, chain);
      }
      forall a, b, id | IsOn(cfg, a) && Every(a, b) in CHECKS && id in cfg.conns(a, b) && !IsInternal(id)
        ensures id in cfg.rpcConns
      {
        FaultlessConnection(cfg, a, b, id);
      }
    }
    if Closed(cfg) && Defined(cfg) && OthersHold(cfg) {
      forall c | c in CHECKS && c.Every? ensures Holds(cfg, c) {
        LinkHolds(cfg, c);
      }
    }
  }

  lemma LinkHolds(cfg: Config, c: Check)
    requires Closed(cfg) && Defined(cfg) && c in CHECKS && c.Every?
    ensures Holds(cfg, c)
  {
    TargetsCanBeOff(c);
    hide CHECKS;
    if IsOn(cfg, c.from) {
      forall id | id in cfg.conns(c.from, c.to) ensures Fault(cfg, c, id) == None {
        assert c == Every(c.from, c.to);
        if IsInternal(id) {
          assert Linked(cfg, c.from, c.to);
          assert [c.from, c.to][1..] == [c.to];
          assert IsChain(cfg, [c.from, c.to]);
          assert EndsOn(cfg, [c.from, c.to]);
        }
      }
    }
  }
}
