// The per-entry attestation gate, and the offline loop that re-verifies a lockfile with it.
module EntryTrust {
  import opened Common
  import opened EpochCommitment

  datatype EntryResult =
    | Trusted | Unattested | BundleMissing | BundleMalformed
    | DigestMismatch | SubjectMismatch | SignatureInvalid | SignerMismatch

  datatype Membership = PreEpoch | PostEpoch
  datatype Policy = Off | Warn | Strict

  datatype Subject = Subject(name: string, sha256: string)
  datatype Kind = AuthorSigned(signer: string) | MilpaVendored
  datatype Attestation = Attestation(kind: Kind, bundlePin: Option<string>, namespace: string)

  // What the bundle store gives back: a bundle, its one unconditional error
  // (TNG-ENTRY-BUNDLE-PIN-MISMATCH), or another, with the cause in its context if there is one.
  datatype Answer = Bundle(bytes: Bytes) | PinMismatch | Failed(cause: Option<string>)
  datatype Store = Store(isCached: string -> bool, get: string -> Answer)

  datatype Config = Config(policy: Policy, store: Option<Store>, verify: (Subject, Bytes, string) -> EntryResult,
                           vendorSigner: string)

  datatype GateOutcome = GateOutcome(result: EntryResult, membership: Option<Membership>, cause: Option<string>)

  // Refused carries the slug a strict policy raises.
  datatype GateError = BadPin | NoAlgorithmPrefix | Refused(slug: EntryResult)

  // ---- Classification and policy -----------------------------------------------------

  function Classify(status: Status, id: PreEpochIdentity): Option<Membership> {
    if !status.Armed? then None
    else if id in status.identities then Some(PreEpoch)
    else Some(PostEpoch)
  }

  /** Only an entry outside the committed set feels the configured policy in full. */
  function EffectivePolicy(policy: Policy, m: Option<Membership>): Policy {
    if m == Some(PostEpoch) then policy
    else if policy == Off then Off
    else Warn
  }

  // ---- The gate -----------------------------------------------------------------------

  function SubjectFor(id: PreEpochIdentity): Result<Subject, GateError> {
    match DigestOf(id.contentHash)
    case None => Err(NoAlgorithmPrefix)
    case Some(hex) => Ok(Subject("pkg:tianguis/" + id.namespace + "/" + id.name + "@" + id.version, hex))
  }

  function ExpectedSigner(att: Attestation, cfg: Config): string {
    if att.kind.AuthorSigned? then att.kind.signer else cfg.vendorSigner
  }

  /** The verifier trusts the pinned bundle for this very identity and the signer it should have. */
  ghost predicate Vouched(att: Attestation, id: PreEpochIdentity, cfg: Config) {
    && att.bundlePin.Some? && cfg.store.Some?
    && cfg.store.value.get(att.bundlePin.value).Bundle?
    && SubjectFor(id).Ok?
    && cfg.verify(SubjectFor(id).value, cfg.store.value.get(att.bundlePin.value).bytes, ExpectedSigner(att, cfg)) == Trusted
  }

  function EvaluateEntry(att: Option<Attestation>, id: PreEpochIdentity, cfg: Config, status: Status)
    : (r: Result<GateOutcome, GateError>)
    ensures r.Ok? ==> r.value.membership == Classify(status, id)
    ensures r.Ok? && r.value.result == Trusted <==> att.Some? && Vouched(att.value, id, cfg)
    ensures r.Err? ==> !r.error.Refused?
  {
    var m := Classify(status, id);
    if att.None? then Ok(GateOutcome(Unattested, m, None))
    else if att.value.bundlePin.None? then Ok(GateOutcome(BundleMissing, m, Some("no-pin")))
    else if cfg.store.None? then Ok(GateOutcome(BundleMissing, m, Some("unfetchable")))
    else
      match cfg.store.value.get(att.value.bundlePin.value)
      case PinMismatch => Err(BadPin)
      case Failed(cause) =>
        Ok(GateOutcome(BundleMissing, m, if cause.Some? then cause else Some("unfetchable")))
      case Bundle(bytes) =>
        match SubjectFor(id)
        case Err(e) => Err(e)
        case Ok(subject) => Ok(GateOutcome(cfg.verify(subject, bytes, ExpectedSigner(att.value, cfg)), m, None))
  }

  // ---- Enforcement ---------------------------------------------------------------------

  type EntryKey = (string, string, string)

  // What is printed: one warning to an entry, or a break-glass notice every time.
  datatype Line = Warning(key: EntryKey, slug: EntryResult) | BreakGlass(key: EntryKey)

  datatype Verdict = Silent | Notice | Raise | WarnOnce

  function Dispatch(o: GateOutcome, policy: Policy, breakGlass: bool): Verdict {
    var effective := EffectivePolicy(policy, o.membership);
    if policy == Off || o.result == Trusted || effective == Off then Silent
    else if breakGlass && effective == Strict && o.result == BundleMissing && o.cause == Some("unfetchable") then Notice
    else if effective == Strict then Raise
    else WarnOnce
  }

  /** A raise is for an entry outside the committed set, under a strict policy, that is not
      trusted; and break-glass lets through nothing but a bundle that could not be fetched. */
  lemma RaisesExactly(o: GateOutcome, policy: Policy, breakGlass: bool)
    ensures Dispatch(o, policy, breakGlass) == Raise <==>
            && policy == Strict && o.membership == Some(PostEpoch) && o.result != Trusted
            && !(breakGlass && o.result == BundleMissing && o.cause == Some("unfetchable"))
  {
  }

  ghost predicate WarnsAt(log: seq<Line>, i: nat, key: EntryKey)
    requires i < |log|
  {
    log[i].Warning? && log[i].key == key
  }

  class EntryGate {
    var warned: set<EntryKey>
    var log: seq<Line>

    /** The entries warned of are the ones remembered, and none was warned of twice. */
    ghost predicate WarnedOnce()
      reads this
    {
      && (forall key :: key in warned <==> exists i :: 0 <= i < |log| && WarnsAt(log, i, key))
      && (forall i, j :: 0 <= i < j < |log| && log[i].Warning? && log[j].Warning? ==> log[i].key != log[j].key)
    }

    constructor ()
      ensures warned == {} && log == [] && WarnedOnce()
    {
      warned, log := {}, [];
    }

    // A line to stderr; a warning is remembered.
    method Print(line: Line)
      requires WarnedOnce() && (line.Warning? ==> line.key !in warned)
      modifies this
      ensures WarnedOnce() && log == old(log) + [line]
      ensures warned == if line.Warning? then old(warned) + {line.key} else old(warned)
    {
      log := log + [line];
      if line.Warning? {
        warned := warned + {line.key};
      }
      forall i | 0 <= i < |log| - 1 && log[i].Warning? && line.Warning?
        ensures log[i].key != line.key
      {
        assert WarnsAt(old(log), i, log[i].key);
      }
      forall key
        ensures key in warned <==> exists i :: 0 <= i < |log| && WarnsAt(log, i, key)
      {
        if key in old(warned) {
          var i :| 0 <= i < |old(log)| && WarnsAt(old(log), i, key);
          assert WarnsAt(log, i, key);
        } else if key in warned {
          assert WarnsAt(log, |log| - 1, key);
        }
        if i :| 0 <= i < |log| && WarnsAt(log, i, key) {
          assert i < |log| - 1 ==> WarnsAt(old(log), i, key);
        }
      }
    }

    method EnforceEntryTrust(o: GateOutcome, policy: Policy, key: EntryKey, breakGlass: bool)
      returns (raised: Option<GateError>)
      requires WarnedOnce()
      modifies this
      ensures WarnedOnce()
      ensures raised == if Dispatch(o, policy, breakGlass) == Raise then Some(Refused(o.result)) else None
      ensures match Dispatch(o, policy, breakGlass)
              case Notice => warned == old(warned) && log == old(log) + [BreakGlass(key)]
              case WarnOnce =>
                && warned == old(warned) + {key}
                && log == old(log) + (if key in old(warned) then [] else [Warning(key, o.result)])
              case _ => warned == old(warned) && log == old(log)
    {
      raised := None;
      if policy == Off || o.result == Trusted {
        return;
      }
      var effective := EffectivePolicy(policy, o.membership);
      if breakGlass && effective == Strict && o.result == BundleMissing && o.cause == Some("unfetchable") {
        Print(BreakGlass(key));
        return;
      }
      if effective == Strict {
        return Some(Refused(o.result));
      }
      if key !in warned {
        Print(Warning(key, o.result));
      } else {
        assert warned == warned + {key};
      }
    }
  }

  // ---- Re-verifying a lockfile ------------------------------------------------------------

  datatype LockedDep = LockedDep(name: string, version: string, identity: Option<string>, attestation: Option<Attestation>)

  function IdentityOf(d: LockedDep): PreEpochIdentity
    requires d.attestation.Some?
  {
    PreEpochIdentity(d.attestation.value.namespace, d.name, d.version, if d.identity.Some? then d.identity.value else "")
  }

  /** Nothing is fetched: a bundle that is not cached is missing. */
  function DepOutcome(d: LockedDep, cfg: Config, status: Status): Result<GateOutcome, GateError>
    requires d.attestation.Some?
  {
    var att, id := d.attestation.value, IdentityOf(d);
    if att.bundlePin.None? then
      Ok(GateOutcome(BundleMissing, Classify(status, id), Some("no-pin")))
    else if cfg.store.None? || !cfg.store.value.isCached(att.bundlePin.value) then
      Ok(GateOutcome(BundleMissing, Classify(status, id), Some("unfetchable")))
    else
      EvaluateEntry(Some(att), id, cfg, status)
  }

  /** What the loop raises at a dep, if anything. */
  function DepError(d: LockedDep, cfg: Config, status: Status): Option<GateError> {
    if d.attestation.None? then None
    else
      match DepOutcome(d, cfg, status)
      case Err(e) => Some(e)
      case Ok(o) => if Dispatch(o, cfg.policy, false) == Raise then Some(Refused(o.result)) else None
  }

  ghost predicate IsTrusted(d: LockedDep, cfg: Config) {
    && d.attestation.Some? && Vouched(d.attestation.value, IdentityOf(d), cfg)
    && cfg.store.value.isCached(d.attestation.value.bundlePin.value)
  }

  ghost function CountTrusted(deps: seq<LockedDep>, cfg: Config): nat {
    if deps == [] then 0
    else CountTrusted(deps[..|deps| - 1], cfg) + if IsTrusted(deps[|deps| - 1], cfg) then 1 else 0
  }

  function KeyOf(d: LockedDep): EntryKey
    requires d.attestation.Some?
  {
    (d.attestation.value.namespace, d.name, d.version)
  }

  /** The dep is not trusted, and the policy has it warned of rather than refused. */
  predicate Warns(d: LockedDep, cfg: Config, status: Status) {
    && d.attestation.Some? && DepOutcome(d, cfg, status).Ok?
    && Dispatch(DepOutcome(d, cfg, status).value, cfg.policy, false) == WarnOnce
  }

  ghost function WarnKeys(deps: seq<LockedDep>, cfg: Config, status: Status): set<EntryKey> {
    if deps == [] then {}
    else
      var last := deps[|deps| - 1];
      WarnKeys(deps[..|deps| - 1], cfg, status) + if Warns(last, cfg, status) then {KeyOf(last)} else {}
  }

  lemma CountNext(deps: seq<LockedDep>, i: nat, cfg: Config, status: Status, warned: set<EntryKey>)
    requires i < |deps|
    ensures CountTrusted(deps[..i + 1], cfg) == CountTrusted(deps[..i], cfg) + (if IsTrusted(deps[i], cfg) then 1 else 0)
    ensures warned + WarnKeys(deps[..i + 1], cfg, status) ==
            (warned + WarnKeys(deps[..i], cfg, status)) + (if Warns(deps[i], cfg, status) then {KeyOf(deps[i])} else {})
  {
    assert deps[..i + 1][..i] == deps[..i];
  }

  lemma TrustedOutcome(d: LockedDep, cfg: Config, status: Status)
    requires d.attestation.Some? && DepOutcome(d, cfg, status).Ok?
    ensures DepOutcome(d, cfg, status).value.result == Trusted <==> IsTrusted(d, cfg)
    ensures DepOutcome(d, cfg, status).value.membership == Classify(status, IdentityOf(d))
  {
  }

  // The body of the loop, for a dep with an attestation.
  method ReverifyOne(gate: EntryGate, cfg: Config, dep: LockedDep, status: Status)
    returns (trusted: bool, raised: Option<GateError>)
    requires gate.WarnedOnce() && dep.attestation.Some?
    modifies gate
    ensures gate.WarnedOnce() && old(gate.log) <= gate.log
    ensures raised == DepError(dep, cfg, status)
    ensures raised.None? ==> (trusted <==> IsTrusted(dep, cfg))
    ensures raised.None? ==>
              gate.warned == old(gate.warned) + if Warns(dep, cfg, status) then {KeyOf(dep)} else {}
  {
    var att := dep.attestation.value;
    var id := IdentityOf(dep);
    var outcome: GateOutcome;
    if att.bundlePin.None? {
      outcome := GateOutcome(BundleMissing, Classify(status, id), Some("no-pin"));
    } else if cfg.store.None? || !cfg.store.value.isCached(att.bundlePin.value) {
      outcome := GateOutcome(BundleMissing, Classify(status, id), Some("unfetchable"));
    } else {
      var evaluated := EvaluateEntry(Some(att), id, cfg, status);
      if evaluated.Err? {
        return false, Some(evaluated.error);
      }
      outcome := evaluated.value;
    }
    TrustedOutcome(dep, cfg, status);
    trusted := outcome.result == Trusted;
    raised := gate.EnforceEntryTrust(outcome, cfg.policy, KeyOf(dep), false);
  }

  /** The loop raises at the first dep that gives it cause, and else counts the trusted and has
      warned of those a weaker policy lets pass. */
  method Reverify(gate: EntryGate, config: Option<Config>, deps: seq<LockedDep>, epochStatus: Option<Status>)
    returns (r: Result<nat, GateError>)
    requires gate.WarnedOnce()
    modifies gate
    ensures gate.WarnedOnce() && old(gate.log) <= gate.log
    ensures config.None? ==> r == Ok(0) && gate.log == old(gate.log)
    ensures config.Some? ==>
              var status := if epochStatus.Some? then epochStatus.value else Unarmed;
              && (r.Ok? <==> forall i :: 0 <= i < |deps| ==> DepError(deps[i], config.value, status).None?)
              && (r.Ok? ==> r.value == CountTrusted(deps, config.value))
              && (r.Ok? ==> gate.warned == old(gate.warned) + WarnKeys(deps, config.value, status))
              && (r.Err? ==> exists i ::
                    && 0 <= i < |deps| && DepError(deps[i], config.value, status) == Some(r.error)
                    && forall j :: 0 <= j < i ==> DepError(deps[j], config.value, status).None?)
  {
    if config.None? {
      return Ok(0);
    }
    var cfg := config.value;
    var status := if epochStatus.Some? then epochStatus.value else Unarmed;
    var trustedCount := 0;
    var i := 0;
    while i < |deps|
      invariant 0 <= i <= |deps|
      invariant gate.WarnedOnce() && old(gate.log) <= gate.log
      invariant forall j :: 0 <= j < i ==> DepError(deps[j], cfg, status).None?
      invariant trustedCount == CountTrusted(deps[..i], cfg)
      invariant gate.warned == old(gate.warned) + WarnKeys(deps[..i], cfg, status)
    {
      var dep := deps[i];
      CountNext(deps, i, cfg, status, old(gate.warned));
      if dep.attestation.Some? {
        var trusted, raised := ReverifyOne(gate, cfg, dep, status);
        if raised.Some? {
          return Err(raised.value);
        }
        if trusted {
          trustedCount := trustedCount + 1;
        }
      }
      i := i + 1;
    }
    assert deps[..i] == deps;
    r := Ok(trustedCount);
  }

  /** Under a strict policy and a status that was evaluated and enforced, a dep with an
      attestation passes exactly when it is trusted, or the index names no commitment, or its
      own four-field identity is in a set the index pointer commits to -- provided neither its
      pin nor its identity string is rejected outright. */
  lemma StrictPasses(d: LockedDep, cfg: Config, ph: Phase, pointer: Option<string>, sidecar: Option<Bytes>)
    requires cfg.policy == Strict && d.attestation.Some?
    requires !Evaluate(ph, pointer, sidecar).ArmingInvalid?
    ensures var status := Evaluate(ph, pointer, sidecar);
            && (DepError(d, cfg, status).None? <==>
                  && DepOutcome(d, cfg, status).Ok?
                  && (IsTrusted(d, cfg) || status.Unarmed? || (status.Armed? && IdentityOf(d) in status.identities)))
            && (DepError(d, cfg, status).None? ==>
                  || IsTrusted(d, cfg)
                  || pointer.None?
                  || exists s :: IdentityOf(d) in s && Committed(ph, pointer.value, s))
  {
    var status := Evaluate(ph, pointer, sidecar);
    if DepOutcome(d, cfg, status).Ok? {
      TrustedOutcome(d, cfg, status);
      RaisesExactly(DepOutcome(d, cfg, status).value, Strict, false);
    }
  }

  /** So for the whole lockfile, once the loop has come to its end. */
  lemma StrictReverified(deps: seq<LockedDep>, cfg: Config, ph: Phase, pointer: Option<string>, sidecar: Option<Bytes>)
    requires cfg.policy == Strict
    requires !Evaluate(ph, pointer, sidecar).ArmingInvalid?
    requires forall i :: 0 <= i < |deps| ==> DepError(deps[i], cfg, Evaluate(ph, pointer, sidecar)).None?
    ensures forall d :: d in deps && d.attestation.Some? ==>
              || IsTrusted(d, cfg)
              || pointer.None?
              || exists s :: IdentityOf(d) in s && Committed(ph, pointer.value, s)
  {
    forall d | d in deps && d.attestation.Some?
      ensures IsTrusted(d, cfg) || pointer.None? || exists s :: IdentityOf(d) in s && Committed(ph, pointer.value, s)
    {
      StrictPasses(d, cfg, ph, pointer, sidecar);
    }
  }
}
