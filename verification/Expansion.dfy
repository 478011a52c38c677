/**
 Requests to write where a scope does not reach, followed from the asking to the answer:
 what the engine decides alone, what it leaves to a person, and the count of its grants.
 */
module Expansion {
  import opened Wrappers
  import opened Sequences
  import opened GlobSyntax
  import opened GlobOverlap
  import opened Protection

  datatype Mode = Rules | AskPerson | DenyAll

  datatype Precheck = Passes | Red(exit: int) | CouldNotRun | NotRun

  datatype Proposal = Proposal(cmd: string, precheck: Precheck)

  /** Paths a session asked for, or paths found in the output of a red criterion. */
  datatype Ask =
    | Requested(paths: seq<string>, reason: string, proposal: Option<Proposal>)
    | Located(paths: seq<string>, criterion: string)

  datatype Decider = Rule | Person(id: string) | Evidence(criterion: string)

  datatype Bounds = Bounds(mode: Mode, maxFiles: nat, maxPerRun: Option<nat>, protected: Protected, beside: seq<string>)

  datatype Reach = Reach(path: string, reason: Reason)

  datatype Waiting =
    | ModeAsk
    | SharedWithBatch
    | CapExhausted(granted: nat, cap: nat)
    | Instructions

  datatype Denial =
    | ReachesProtected(reached: seq<Reach>)
    | ModeDeny
    | NoCriterion
    | PrecheckPasses
    | CriterionCouldNotRun
    | TooManyFiles(touched: nat, bound: nat)
    | NothingLeft
    | NotWidenable
    | Chosen(option: string, note: Option<string>)
  {
    /** A refusal no work can change. */
    predicate Stands() {
      ReachesProtected? || ModeDeny?
    }
  }

  datatype Decision =
    | Grant(paths: seq<string>, decider: Decider)
    | Escalate(paths: seq<string>, because: Waiting)
    | Deny(denial: Denial)

  datatype Candidate = Candidate(paths: seq<string>, decider: Decider, bounded: bool)

  datatype Screened = Settled(decision: Decision) | Open(candidate: Candidate)

  // ---------------------------------------------------------------- deciding

  /** The paths some protection reaches, each beside the reason `ReachedBy` gives for it. */
  function Reaching(paths: seq<string>, protected: Protected): (r: seq<Reach>)
    ensures r == [] <==> forall g :: g in paths ==> ReachedBy(protected.entries, g).None?
    ensures forall x :: x in r <==> x.path in paths && ReachedBy(protected.entries, x.path) == Some(x.reason)
  {
    if paths == [] then []
    else
      var rest := Reaching(paths[1..], protected);
      assert forall g :: g in paths <==> g == paths[0] || g in paths[1..];
      match ReachedBy(protected.entries, paths[0])
      case None => rest
      case Some(reason) => [Reach(paths[0], reason)] + rest
  }

  /** The reached paths come in the request's own order, each once. */
  lemma {:induction false} ReachingKeepsOrder(a: seq<string>, b: seq<string>, protected: Protected)
    ensures Reaching(a + b, protected) == Reaching(a, protected) + Reaching(b, protected)
    decreases |a|
  {
    if a == [] {
      EmptyConcat(b);
      EmptyConcat(Reaching(b, protected));
    } else {
      TailOfConcat(a, b);
      ReachingKeepsOrder(a[1..], b, protected);
      var r := ReachedBy(protected.entries, a[0]);
      if r.Some? {
        Assoc([Reach(a[0], r.value)], Reaching(a[1..], protected), Reaching(b, protected));
      }
    }
  }

  lemma {:induction false} ReachingOne(path: string, protected: Protected)
    ensures |Reaching([path], protected)| <= 1
  {
    assert [path][1..] == [];
  }

  predicate RefusesWhole(reached: seq<Reach>) {
    exists i :: 0 <= i < |reached| && !reached[i].reason.PersonMayGrant()
  }

  function PrecheckDenial(proposal: Option<Proposal>): Option<Denial> {
    match proposal
    case Some(Proposal(_, Passes)) => Some(PrecheckPasses)
    case Some(Proposal(_, CouldNotRun)) => Some(CriterionCouldNotRun)
    case _ => None
  }

  function ProposalOf(ask: Ask): Option<Proposal> {
    if ask.Requested? then ask.proposal else None
  }

  function ByMode(ask: Ask, mode: Mode, reachesInstructions: bool): Option<Decision> {
    if mode.DenyAll? then Some(Deny(ModeDeny))
    else if reachesInstructions then Some(Escalate(ask.paths, Instructions))
    else if ask.Requested? && ask.proposal.None? && mode.Rules? then Some(Deny(NoCriterion))
    else if ask.Requested? && mode.AskPerson? then Some(Escalate(ask.paths, ModeAsk))
    else None
  }

  /** Protection, pre-check, mode and batch: what settles a request before any file is read. */
  function Screen(ask: Ask, bounds: Bounds): Screened {
    ScreenReaching(ask, bounds, Reaching(ask.paths, bounds.protected))
  }

  function ScreenReaching(ask: Ask, bounds: Bounds, reached: seq<Reach>): Screened {
    var byMode := ByMode(ask, bounds.mode, reached != []);
    if RefusesWhole(reached) then Settled(Deny(ReachesProtected(reached)))
    else if PrecheckDenial(ProposalOf(ask)).Some? then Settled(Deny(PrecheckDenial(ProposalOf(ask)).value))
    else if byMode.Some? then Settled(byMode.value)
    else if exists i :: 0 <= i < |ask.paths| && ReachesAny(ask.paths[i], bounds.beside) then
      Settled(Escalate(ask.paths, SharedWithBatch))
    else
      Open(Candidate(ask.paths, if ask.Requested? then Rule else Evidence(ask.criterion), bounds.mode.Rules?))
  }

  /** A candidate too wide is denied before the cap is looked at. */
  function SettleAgainst(c: Candidate, touched: nat, grantedSoFar: nat, bounds: Bounds): Decision {
    if c.bounded && touched > bounds.maxFiles then Deny(TooManyFiles(touched, bounds.maxFiles))
    else if bounds.maxPerRun.Some? && grantedSoFar >= bounds.maxPerRun.value then
      Escalate(c.paths, CapExhausted(grantedSoFar, bounds.maxPerRun.value))
    else Grant(c.paths, c.decider)
  }

  /** The engine's whole decision, given how many touched files the paths cover and the grants so far. */
  function Decide(ask: Ask, bounds: Bounds, touched: nat, grantedSoFar: nat): Decision {
    match Screen(ask, bounds)
    case Settled(decision) => decision
    case Open(c) => SettleAgainst(c, if c.bounded then touched else 0, grantedSoFar, bounds)
  }

  function NodeOffer(paths: seq<string>, protected: Protected, widenable: bool): Result<seq<string>, Denial> {
    var reached := Reaching(paths, protected);
    if !widenable then Err(NotWidenable)
    else if RefusesWhole(reached) then Err(ReachesProtected(reached))
    else if paths == [] then Err(NothingLeft)
    else Ok(paths)
  }

  datatype HumanChoice = HumanChoice(option: string, who: string, freeText: Option<string>)

  const GRANT_OPTION := "grant"

  /** The answer a person gives, held to what may be offered. */
  function DecisionOfChoice(choice: HumanChoice, paths: seq<string>, protected: Protected, decider: Decider): Decision {
    if choice.option != GRANT_OPTION then Deny(Chosen(choice.option, choice.freeText))
    else
      match NodeOffer(paths, protected, true)
      case Ok(granted) => Grant(granted, decider)
      case Err(denial) => Deny(denial)
  }

  /** A request followed to its end: the engine decides, and what it escalates a person answers. */
  function Resolve(ask: Ask, bounds: Bounds, touched: nat, grantedSoFar: nat, choice: HumanChoice): Decision {
    match Decide(ask, bounds, touched, grantedSoFar)
    case Escalate(paths, _) => DecisionOfChoice(choice, paths, bounds.protected, Person(choice.who))
    case other => other
  }

  // ------------------------------------------------------------ grant safety

  lemma {:induction false} NotRefusedWhole(paths: seq<string>, protected: Protected, g: string, e: Entry)
    requires !RefusesWhole(Reaching(paths, protected))
    requires g in paths && e in protected.entries && MightOverlap(g, e.glob)
    ensures e.reason.PersonMayGrant()
  {
    var r := ReachedBy(protected.entries, g);
    var reached := Reaching(paths, protected);
    assert Reach(g, r.value) in reached;
    var i :| 0 <= i < |reached| && reached[i] == Reach(g, r.value);
    assert reached[i].reason.PersonMayGrant();
  }

  /** A request only the protection can still stop: the mode takes it, its criterion is red, nothing beside it is reached. */
  predicate Acceptable(ask: Ask, bounds: Bounds) {
    && !bounds.mode.DenyAll?
    && (ask.Requested? ==> bounds.mode.Rules? && ask.proposal.Some? && !ask.proposal.value.precheck.Passes? && !ask.proposal.value.precheck.CouldNotRun?)
    && (forall i :: 0 <= i < |ask.paths| ==> !ReachesAny(ask.paths[i], bounds.beside))
  }

  predicate WithinBounds(bounds: Bounds, touched: nat, grantedSoFar: nat) {
    && (bounds.mode.Rules? ==> touched <= bounds.maxFiles)
    && (bounds.maxPerRun.Some? ==> grantedSoFar < bounds.maxPerRun.value)
  }

  /**
   The engine grants exactly the acceptable requests within bounds that reach no
   protection at all, each whole, in the name of the rule that asked or the evidence
   that located.
   */
  lemma {:induction false} EngineGrantsExactly(ask: Ask, bounds: Bounds, touched: nat, grantedSoFar: nat)
    ensures Decide(ask, bounds, touched, grantedSoFar).Grant? <==>
            && (forall g :: g in ask.paths ==> ReachedBy(bounds.protected.entries, g).None?)
            && Acceptable(ask, bounds) && WithinBounds(bounds, touched, grantedSoFar)
    ensures Decide(ask, bounds, touched, grantedSoFar).Grant? ==>
            Decide(ask, bounds, touched, grantedSoFar) == Grant(ask.paths, if ask.Requested? then Rule else Evidence(ask.criterion))
  {
    ScreenOpensExactly(ask, bounds, Reaching(ask.paths, bounds.protected));
  }

  lemma {:induction false} ScreenOpensExactly(ask: Ask, bounds: Bounds, reached: seq<Reach>)
    ensures ScreenReaching(ask, bounds, reached).Open? <==> reached == [] && Acceptable(ask, bounds)
    ensures match ScreenReaching(ask, bounds, reached)
            case Open(c) => c == Candidate(ask.paths, if ask.Requested? then Rule else Evidence(ask.criterion), bounds.mode.Rules?)
            case Settled(decision) => !decision.Grant?
  {
  }

  /** The strictest protection comes first: a request that reaches what nobody may grant is denied for that, whatever else holds. */
  lemma {:induction false} UngrantableIsDenied(ask: Ask, bounds: Bounds, touched: nat, grantedSoFar: nat)
    ensures (exists g :: g in ask.paths && ReachedBy(bounds.protected.entries, g).Some?
                    && !ReachedBy(bounds.protected.entries, g).value.PersonMayGrant()) <==>
            Decide(ask, bounds, touched, grantedSoFar) == Deny(ReachesProtected(Reaching(ask.paths, bounds.protected)))
  {
    RefusesExactly(ask.paths, bounds.protected);
  }

  lemma {:induction false} RefusesExactly(paths: seq<string>, protected: Protected)
    ensures RefusesWhole(Reaching(paths, protected)) <==>
            exists g :: g in paths && ReachedBy(protected.entries, g).Some? && !ReachedBy(protected.entries, g).value.PersonMayGrant()
  {
    var reached := Reaching(paths, protected);
    if RefusesWhole(reached) {
      var i :| 0 <= i < |reached| && !reached[i].reason.PersonMayGrant();
      assert reached[i] in reached;
    }
    forall g | g in paths && ReachedBy(protected.entries, g).Some? && !ReachedBy(protected.entries, g).value.PersonMayGrant()
      ensures RefusesWhole(reached)
    {
      var x := Reach(g, ReachedBy(protected.entries, g).value);
      assert x in reached;
      var i :| 0 <= i < |reached| && reached[i] == x;
    }
  }

  /** A person's yes grants exactly the requests that hold a path and reach nothing nobody may grant. */
  lemma {:induction false} PersonGrantsExactly(choice: HumanChoice, paths: seq<string>, protected: Protected, decider: Decider)
    ensures DecisionOfChoice(choice, paths, protected, decider) == Grant(paths, decider) <==>
            && choice.option == GRANT_OPTION && paths != []
            && (forall g :: g in paths && ReachedBy(protected.entries, g).Some? ==> ReachedBy(protected.entries, g).value.PersonMayGrant())
    ensures DecisionOfChoice(choice, paths, protected, decider) == Grant(paths, decider) || DecisionOfChoice(choice, paths, protected, decider).Deny?
  {
    RefusesExactly(paths, protected);
  }

  // ------------------------------------------------- which answer each request gets

  /** Some path is held by a reason nobody may grant. */
  ghost predicate Forbidden(paths: seq<string>, protected: Protected) {
    exists g :: g in paths && ReachedBy(protected.entries, g).Some? && !ReachedBy(protected.entries, g).value.PersonMayGrant()
  }

  /** Some path is held, whatever holds it. */
  ghost predicate Touches(paths: seq<string>, protected: Protected) {
    exists g :: g in paths && ReachedBy(protected.entries, g).Some?
  }

  /** A session asked, and its criterion came out so. */
  predicate Found(ask: Ask, precheck: Precheck) {
    ask.Requested? && ask.proposal.Some? && ask.proposal.value.precheck == precheck
  }

  /** Neither the protection nor the criterion settles the request. */
  ghost predicate Heard(ask: Ask, bounds: Bounds) {
    !Forbidden(ask.paths, bounds.protected) && !Found(ask, Passes) && !Found(ask, CouldNotRun)
  }

  /** What is left when the mode has nothing to say either: a located path, or a proposal under the rules. */
  ghost predicate LeftOpen(ask: Ask, bounds: Bounds) {
    && Heard(ask, bounds) && !bounds.mode.DenyAll? && !Touches(ask.paths, bounds.protected)
    && (ask.Requested? ==> bounds.mode.Rules? && ask.proposal.Some?)
  }

  /** Some path might overlap what a request beside it holds. */
  ghost predicate Shares(ask: Ask, bounds: Bounds) {
    exists g, held :: g in ask.paths && held in bounds.beside && MightOverlap(g, held)
  }

  /** A request with more files than the bound, where the bound applies. */
  predicate TooWide(bounds: Bounds, touched: nat) {
    bounds.mode.Rules? && touched > bounds.maxFiles
  }

  lemma {:induction false} SharesExactly(ask: Ask, bounds: Bounds)
    ensures Shares(ask, bounds) <==> exists i :: 0 <= i < |ask.paths| && ReachesAny(ask.paths[i], bounds.beside)
  {
    if Shares(ask, bounds) {
      var g, held :| g in ask.paths && held in bounds.beside && MightOverlap(g, held);
      var i :| 0 <= i < |ask.paths| && ask.paths[i] == g;
      var j :| 0 <= j < |bounds.beside| && bounds.beside[j] == held;
      assert ReachesAny(ask.paths[i], bounds.beside);
    }
    forall i | 0 <= i < |ask.paths| && ReachesAny(ask.paths[i], bounds.beside) ensures Shares(ask, bounds) {
      var j :| 0 <= j < |bounds.beside| && MightOverlap(ask.paths[i], bounds.beside[j]);
      assert ask.paths[i] in ask.paths && bounds.beside[j] in bounds.beside;
    }
  }

  lemma {:induction false} WhatIsReached(ask: Ask, bounds: Bounds)
    ensures RefusesWhole(Reaching(ask.paths, bounds.protected)) <==> Forbidden(ask.paths, bounds.protected)
    ensures Reaching(ask.paths, bounds.protected) != [] <==> Touches(ask.paths, bounds.protected)
  {
    RefusesExactly(ask.paths, bounds.protected);
  }

  /** The first answers, for whatever was found to be reached. */
  lemma {:induction false} ScreenSettles(ask: Ask, bounds: Bounds, reached: seq<Reach>)
    ensures ScreenReaching(ask, bounds, reached) == Settled(Deny(PrecheckPasses)) <==> !RefusesWhole(reached) && Found(ask, Passes)
    ensures ScreenReaching(ask, bounds, reached) == Settled(Deny(CriterionCouldNotRun)) <==>
            !RefusesWhole(reached) && Found(ask, CouldNotRun)
    ensures var heard := !RefusesWhole(reached) && !Found(ask, Passes) && !Found(ask, CouldNotRun);
            && (ScreenReaching(ask, bounds, reached) == Settled(Deny(ModeDeny)) <==> heard && bounds.mode.DenyAll?)
            && (ScreenReaching(ask, bounds, reached) == Settled(Escalate(ask.paths, Instructions)) <==>
                  heard && !bounds.mode.DenyAll? && reached != [])
            && (ScreenReaching(ask, bounds, reached) == Settled(Escalate(ask.paths, ModeAsk)) <==>
                  heard && bounds.mode.AskPerson? && reached == [] && ask.Requested?)
            && (ScreenReaching(ask, bounds, reached) == Settled(Deny(NoCriterion)) <==>
                  heard && bounds.mode.Rules? && reached == [] && ask.Requested? && ask.proposal.None?)
  {
  }

  lemma {:induction false} SettledIsDecided(ask: Ask, bounds: Bounds, touched: nat, grantedSoFar: nat, decision: Decision)
    requires !decision.Grant? && !(decision.Deny? && decision.denial.TooManyFiles?)
    requires !(decision.Escalate? && decision.because.CapExhausted?)
    ensures Decide(ask, bounds, touched, grantedSoFar) == decision <==>
            ScreenReaching(ask, bounds, Reaching(ask.paths, bounds.protected)) == Settled(decision)
  {
  }

  /** A criterion that passed, or could not run, denies whatever the mode is; only a forbidden path is read before it. */
  lemma {:induction false} CriterionDeniesExactly(ask: Ask, bounds: Bounds, touched: nat, grantedSoFar: nat)
    ensures Decide(ask, bounds, touched, grantedSoFar) == Deny(PrecheckPasses) <==>
            !Forbidden(ask.paths, bounds.protected) && Found(ask, Passes)
    ensures Decide(ask, bounds, touched, grantedSoFar) == Deny(CriterionCouldNotRun) <==>
            !Forbidden(ask.paths, bounds.protected) && Found(ask, CouldNotRun)
  {
    WhatIsReached(ask, bounds);
    ScreenSettles(ask, bounds, Reaching(ask.paths, bounds.protected));
    SettledIsDecided(ask, bounds, touched, grantedSoFar, Deny(PrecheckPasses));
    SettledIsDecided(ask, bounds, touched, grantedSoFar, Deny(CriterionCouldNotRun));
  }

  /** What the mode answers before any file is read: it denies all, or it leaves instruction files and what it asks about to a person, or it wants a criterion. */
  lemma {:induction false} ModeAnswersExactly(ask: Ask, bounds: Bounds, touched: nat, grantedSoFar: nat)
    ensures Decide(ask, bounds, touched, grantedSoFar) == Deny(ModeDeny) <==> Heard(ask, bounds) && bounds.mode.DenyAll?
    ensures Decide(ask, bounds, touched, grantedSoFar) == Escalate(ask.paths, Instructions) <==>
            Heard(ask, bounds) && !bounds.mode.DenyAll? && Touches(ask.paths, bounds.protected)
    ensures Decide(ask, bounds, touched, grantedSoFar) == Escalate(ask.paths, ModeAsk) <==>
            Heard(ask, bounds) && bounds.mode.AskPerson? && !Touches(ask.paths, bounds.protected) && ask.Requested?
    ensures Decide(ask, bounds, touched, grantedSoFar) == Deny(NoCriterion) <==>
            && Heard(ask, bounds) && bounds.mode.Rules? && !Touches(ask.paths, bounds.protected)
            && ask.Requested? && ask.proposal.None?
  {
    WhatIsReached(ask, bounds);
    ScreenSettles(ask, bounds, Reaching(ask.paths, bounds.protected));
    SettledIsDecided(ask, bounds, touched, grantedSoFar, Deny(ModeDeny));
    SettledIsDecided(ask, bounds, touched, grantedSoFar, Escalate(ask.paths, Instructions));
    SettledIsDecided(ask, bounds, touched, grantedSoFar, Escalate(ask.paths, ModeAsk));
    SettledIsDecided(ask, bounds, touched, grantedSoFar, Deny(NoCriterion));
  }

  lemma {:induction false} ScreenLeavesOpen(ask: Ask, bounds: Bounds, reached: seq<Reach>, shares: bool)
    requires shares <==> exists i :: 0 <= i < |ask.paths| && ReachesAny(ask.paths[i], bounds.beside)
    ensures var open := && !RefusesWhole(reached) && !Found(ask, Passes) && !Found(ask, CouldNotRun)
                        && !bounds.mode.DenyAll? && reached == [] && (ask.Requested? ==> bounds.mode.Rules? && ask.proposal.Some?);
            && (ScreenReaching(ask, bounds, reached) == Settled(Escalate(ask.paths, SharedWithBatch)) <==> open && shares)
            && (ScreenReaching(ask, bounds, reached).Open? <==> open && !shares)
  {
  }

  lemma {:induction false} ScreenKeepsPaths(ask: Ask, bounds: Bounds, reached: seq<Reach>)
    ensures match ScreenReaching(ask, bounds, reached)
            case Open(c) => c.paths == ask.paths && c.bounded == bounds.mode.Rules?
            case Settled(Grant(_, _)) => false
            case Settled(Escalate(paths, because)) => paths == ask.paths && !because.CapExhausted?
            case Settled(Deny(denial)) => !denial.NothingLeft? && !denial.NotWidenable? && !denial.Chosen? && !denial.TooManyFiles?
  {
  }

  lemma {:induction false} ScreenAnswers(ask: Ask, bounds: Bounds)
    ensures Screen(ask, bounds) == Settled(Escalate(ask.paths, SharedWithBatch)) <==> LeftOpen(ask, bounds) && Shares(ask, bounds)
    ensures Screen(ask, bounds).Open? <==> LeftOpen(ask, bounds) && !Shares(ask, bounds)
  {
    WhatIsReached(ask, bounds);
    SharesExactly(ask, bounds);
    ScreenLeavesOpen(ask, bounds, Reaching(ask.paths, bounds.protected), Shares(ask, bounds));
  }

  /** What is left open waits for a person where it shares with the batch, is denied where it is too wide, and then waits where the cap is spent. */
  lemma {:induction false} LimitsAnswerExactly(ask: Ask, bounds: Bounds, touched: nat, grantedSoFar: nat, n: nat, bound: nat)
    ensures Decide(ask, bounds, touched, grantedSoFar) == Escalate(ask.paths, SharedWithBatch) <==>
            LeftOpen(ask, bounds) && Shares(ask, bounds)
    ensures Decide(ask, bounds, touched, grantedSoFar) == Deny(TooManyFiles(n, bound)) <==>
              && LeftOpen(ask, bounds) && !Shares(ask, bounds) && TooWide(bounds, touched)
              && n == touched && bound == bounds.maxFiles
    ensures Decide(ask, bounds, touched, grantedSoFar) == Escalate(ask.paths, CapExhausted(n, bound)) <==>
              && LeftOpen(ask, bounds) && !Shares(ask, bounds) && !TooWide(bounds, touched)
              && bounds.maxPerRun == Some(bound) && n == grantedSoFar >= bound
  {
    ScreenAnswers(ask, bounds);
    ScreenKeepsPaths(ask, bounds, Reaching(ask.paths, bounds.protected));
  }

  /** No other answer is given: what is not granted is denied, or left to a person with every path it asked for. */
  lemma {:induction false} NoOtherAnswer(ask: Ask, bounds: Bounds, touched: nat, grantedSoFar: nat)
    ensures match Decide(ask, bounds, touched, grantedSoFar)
            case Grant(paths, _) => paths == ask.paths
            case Escalate(paths, _) => paths == ask.paths
            case Deny(denial) => !denial.NothingLeft? && !denial.NotWidenable? && !denial.Chosen?
  {
    ScreenKeepsPaths(ask, bounds, Reaching(ask.paths, bounds.protected));
  }

  lemma {:induction false} SharedIsNotGranted(ask: Ask, bounds: Bounds, touched: nat, grantedSoFar: nat, g: string, held: string)
    requires g in ask.paths && held in bounds.beside && MightOverlap(g, held)
    ensures !Decide(ask, bounds, touched, grantedSoFar).Grant?
  {
    assert Shares(ask, bounds);
    ScreenAnswers(ask, bounds);
  }

  /** An engine grant selects no file that a scope of the batch selects, missed pairs apart. */
  lemma {:induction false} GrantSharesNothingWithBatch(
    ask: Ask, bounds: Bounds, touched: nat, grantedSoFar: nat, g: string, held: string, file: string)
    requires Decide(ask, bounds, touched, grantedSoFar).Grant?
    requires g in Decide(ask, bounds, touched, grantedSoFar).paths && held in bounds.beside && !Missed(g, held)
    ensures !(Selects(g, file) && Selects(held, file))
  {
    NoOtherAnswer(ask, bounds, touched, grantedSoFar);
    if Selects(g, file) && Selects(held, file) {
      OverlapIsSound(g, held, file);
      SharedIsNotGranted(ask, bounds, touched, grantedSoFar, g, held);
    }
  }

  /** What a person's answer is denied for: another choice with its words, a forbidden path, or no path left. */
  lemma {:induction false} PersonIsDeniedExactly(choice: HumanChoice, paths: seq<string>, protected: Protected, decider: Decider)
    ensures forall option, note :: DecisionOfChoice(choice, paths, protected, decider) == Deny(Chosen(option, note)) <==>
              choice.option != GRANT_OPTION && option == choice.option && note == choice.freeText
    ensures DecisionOfChoice(choice, paths, protected, decider) == Deny(ReachesProtected(Reaching(paths, protected))) <==>
            choice.option == GRANT_OPTION && Forbidden(paths, protected)
    ensures DecisionOfChoice(choice, paths, protected, decider) == Deny(NothingLeft) <==>
            choice.option == GRANT_OPTION && paths == []
  {
    RefusesExactly(paths, protected);
  }

  /** Where nothing may be widened, that is the answer whatever is asked; elsewhere a person is offered all of it or told what stops it. */
  lemma {:induction false} OfferIsExact(paths: seq<string>, protected: Protected, widenable: bool)
    ensures NodeOffer(paths, protected, widenable) == Err(NotWidenable) <==> !widenable
    ensures NodeOffer(paths, protected, widenable) == Err(ReachesProtected(Reaching(paths, protected))) <==>
            widenable && Forbidden(paths, protected)
    ensures NodeOffer(paths, protected, widenable) == Err(NothingLeft) <==> widenable && paths == []
    ensures NodeOffer(paths, protected, widenable) == Ok(paths) <==> widenable && !Forbidden(paths, protected) && paths != []
  {
    RefusesExactly(paths, protected);
  }

  /** No decision of the engine grants a glob that selects a protected file, whatever protects it. */
  lemma {:induction false} EngineGrantsNothingProtected(
    ask: Ask, bounds: Bounds, touched: nat, grantedSoFar: nat, g: string, e: Entry, file: string)
    requires Decide(ask, bounds, touched, grantedSoFar).Grant?
    requires g in Decide(ask, bounds, touched, grantedSoFar).paths && e in bounds.protected.entries
    requires !Missed(g, e.glob)
    ensures !(Selects(g, file) && Selects(e.glob, file))
  {
    EngineGrantsExactly(ask, bounds, touched, grantedSoFar);
    UnreachedSelectsNothing(bounds.protected.entries, g, e, file);
  }

  lemma {:induction false} UnreachedSelectsNothing(entries: seq<Entry>, g: string, e: Entry, file: string)
    requires ReachedBy(entries, g).None? && e in entries && !Missed(g, e.glob)
    ensures !(Selects(g, file) && Selects(e.glob, file))
  {
    if Selects(g, file) && Selects(e.glob, file) {
      UnreachedIsUnprotected(entries, g, e, file);
    }
  }

  /** What a person grants selects a protected file only where a person may grant it. */
  lemma {:induction false} PersonGrantsOnlyInstructions(
    choice: HumanChoice, paths: seq<string>, protected: Protected, decider: Decider, g: string, e: Entry, file: string)
    requires DecisionOfChoice(choice, paths, protected, decider).Grant?
    requires g in DecisionOfChoice(choice, paths, protected, decider).paths && e in protected.entries
    requires !Missed(g, e.glob) && Selects(g, file) && Selects(e.glob, file)
    ensures e.reason.PersonMayGrant()
  {
    UnreachedIsUnprotected(protected.entries, g, e, file);
    NotRefusedWhole(paths, protected, g, e);
  }

  /** Whoever decides in the end, no grant selects a file held by a reason nobody may grant. */
  lemma {:induction false} NobodyGrantsTheUngrantable(
    ask: Ask, bounds: Bounds, touched: nat, grantedSoFar: nat, choice: HumanChoice, g: string, e: Entry, file: string)
    requires Resolve(ask, bounds, touched, grantedSoFar, choice).Grant?
    requires g in Resolve(ask, bounds, touched, grantedSoFar, choice).paths && e in bounds.protected.entries
    requires !Missed(g, e.glob) && Selects(g, file) && Selects(e.glob, file)
    ensures e.reason.PersonMayGrant()
    ensures Resolve(ask, bounds, touched, grantedSoFar, choice).decider == Person(choice.who)
  {
    var decided := Decide(ask, bounds, touched, grantedSoFar);
    if decided.Grant? {
      EngineGrantsNothingProtected(ask, bounds, touched, grantedSoFar, g, e, file);
    } else {
      PersonGrantsOnlyInstructions(choice, decided.paths, bounds.protected, Person(choice.who), g, e, file);
    }
  }

  lemma {:induction false} GrantedIsNotRefused(ask: Ask, bounds: Bounds, touched: nat, grantedSoFar: nat, choice: HumanChoice)
    requires Resolve(ask, bounds, touched, grantedSoFar, choice).Grant?
    ensures !RefusesWhole(Reaching(Resolve(ask, bounds, touched, grantedSoFar, choice).paths, bounds.protected))
  {
    var decided := Decide(ask, bounds, touched, grantedSoFar);
    if decided.Grant? {
      EngineGrantsExactly(ask, bounds, touched, grantedSoFar);
    }
  }

  // ---------------------------------------------------------------- lifting

  /**
   Lifting takes from the granted files their instruction reason and nothing else, and
   from every other file nothing: a granted file is free exactly when no reason nobody
   may grant holds it.
   */
  lemma {:induction false} LiftingIsExact(base: Protected, paths: seq<string>, file: string)
    requires base.lifted == []
    ensures !SetSelects(paths, file) ==> ReasonOf(Lifting(base, paths, true), file) == ReasonOf(base, file)
    ensures SetSelects(paths, file) ==> (ReasonOf(Lifting(base, paths, true), file) == None <==>
              forall e :: e in base.entries && Selects(e.glob, file) ==> e.reason.PersonMayGrant())
  {
  }

  /** A file of an accepted offer is held by no reason nobody may grant, short of a missed pair. */
  lemma {:induction false} OfferedFileIsGrantable(base: Protected, paths: seq<string>, g: string, e: Entry, file: string)
    requires NodeOffer(paths, base, true).Ok? && g in paths && e in base.entries && !Missed(g, e.glob)
    requires Selects(g, file) && Selects(e.glob, file)
    ensures e.reason.PersonMayGrant()
  {
    UnreachedIsUnprotected(base.entries, g, e, file);
    NotRefusedWhole(paths, base, g, e);
  }

  /** Grants that do not build lift nothing. */
  lemma {:induction false} UnbuiltGrantsLiftNothing(base: Protected, granted: seq<string>, file: string)
    requires base.lifted == []
    ensures ReasonOf(Lifting(base, granted, false), file) == ReasonOf(base, file)
  {
  }

  // ------------------------------------------------------- standing refusals

  /** A denial that is certain without any criterion being run. */
  function StandingRefusal(paths: seq<string>, reason: string, cmd: Option<string>, bounds: Bounds): Option<Denial> {
    var proposal := if cmd.Some? then Some(Proposal(cmd.value, NotRun)) else None;
    match Screen(Requested(paths, reason, proposal), bounds)
    case Settled(Deny(denial)) => if denial.Stands() then Some(denial) else None
    case _ => None
  }

  /** A refusal stands exactly where the protection forbids a path, with every path it holds named, or where the mode denies all. */
  lemma {:induction false} StandingRefusalExactly(paths: seq<string>, reason: string, cmd: Option<string>, bounds: Bounds)
    ensures forall denial :: StandingRefusal(paths, reason, cmd, bounds) == Some(denial) <==>
              if Forbidden(paths, bounds.protected) then denial == ReachesProtected(Reaching(paths, bounds.protected))
              else bounds.mode.DenyAll? && denial == ModeDeny
  {
    RefusesExactly(paths, bounds.protected);
  }

  /**
   A request with a standing refusal is denied at the judgement too, whatever its
   criterion found, whatever was touched and granted. The judgement gives the same
   denial exactly when the protection refuses it, or its criterion neither passed nor
   failed to run: a pass or a stopped run is read before the mode.
   */
  lemma {:induction false} StandingRefusalStands(
    paths: seq<string>, reason: string, cmd: Option<string>, precheck: Precheck, bounds: Bounds, touched: nat, granted: nat)
    requires StandingRefusal(paths, reason, cmd, bounds).Some?
    ensures var denial := StandingRefusal(paths, reason, cmd, bounds).value;
            var asked := Requested(paths, reason, if cmd.Some? then Some(Proposal(cmd.value, precheck)) else None);
            var judged := Decide(asked, bounds, touched, granted);
            && judged.Deny?
            && (judged.denial == denial <==>
                denial.ReachesProtected? || cmd.None? || !(precheck.Passes? || precheck.CouldNotRun?))
  {
  }

  /** A request under a mode that denies all, its criterion passing: refused for the mode, and judged for the criterion. */
  lemma {:induction false} StandingRefusalExample(glob: string, cmd: string)
    ensures var bounds := Bounds(DenyAll, 0, None, Protected([], [], []), []);
            && StandingRefusal([glob], "", Some(cmd), bounds) == Some(ModeDeny)
            && Decide(Requested([glob], "", Some(Proposal(cmd, Passes))), bounds, 0, 0) == Deny(PrecheckPasses)
  {
    assert Reaching([glob], Protected([], [], [])) == [];
  }

  // ----------------------------------------------------------- the grant window

  /** The counter of one run's engine grants is 32 bits wide. */
  const U32 := 0x1_0000_0000

  datatype Member = Member(candidate: Candidate, touched: nat)

  /** What the members of a batch decide, in the order the window lets them in. */
  function Batch(members: seq<Member>, count: nat, bounds: Bounds): (r: (seq<Decision>, nat))
    ensures |r.0| == |members|
  {
    if members == [] then ([], count)
    else
      var decision := SettleAgainst(members[0].candidate, members[0].touched, count, bounds);
      var rest := Batch(members[1..], Raised(count, decision), bounds);
      ([decision] + rest.0, rest.1)
  }

  function Raised(count: nat, decision: Decision): nat {
    if decision.Grant? then (count + 1) % U32 else count
  }

  function Grants(decisions: seq<Decision>): nat {
    if decisions == [] then 0 else (if decisions[0].Grant? then 1 else 0) + Grants(decisions[1..])
  }

  /** The window: its count changes only by a decision made under it. */
  class GrantWindow {
    var engineGrants: nat

    constructor Seeded(grants: nat)
      ensures engineGrants == grants
    {
      engineGrants := grants;
    }

    method Settle(candidate: Candidate, touched: nat, bounds: Bounds) returns (decision: Decision, count: nat)
      modifies this
      ensures decision == SettleAgainst(candidate, touched, old(engineGrants), bounds)
      ensures engineGrants == count == Raised(old(engineGrants), decision)
    {
      decision := SettleAgainst(candidate, touched, engineGrants, bounds);
      if decision.Grant? {
        engineGrants := (engineGrants + 1) % U32;
      }
      count := engineGrants;
    }

    method SettleAll(members: seq<Member>, bounds: Bounds) returns (decisions: seq<Decision>)
      modifies this
      ensures (decisions, engineGrants) == Batch(members, old(engineGrants), bounds)
    {
      decisions := [];
      EmptyConcat(members);
      EmptyConcat(Batch(members, engineGrants, bounds).0);
      for i := 0 to |members|
        invariant Batch(members, old(engineGrants), bounds) ==
                  var rest := Batch(members[i..], engineGrants, bounds); (decisions + rest.0, rest.1)
      {
        var decision, _ := Settle(members[i].candidate, members[i].touched, bounds);
        assert members[i..][0] == members[i] && members[i..][1..] == members[i + 1..];
        ghost var rest := Batch(members[i + 1..], engineGrants, bounds);
        Assoc(decisions, [decision], rest.0);
        decisions := decisions + [decision];
      }
      EmptyConcat(decisions);
    }
  }

  /**
   The count is the seed and one for each grant, as far as 32 bits hold it. Under a cap
   it never passes the larger of the seed and the cap, so nothing wraps.
   */
  lemma {:induction false} CapHolds(members: seq<Member>, seed: nat, bounds: Bounds)
    requires seed < U32 && (bounds.maxPerRun.Some? ==> bounds.maxPerRun.value < U32)
    ensures var (decisions, count) := Batch(members, seed, bounds);
            && count == (seed + Grants(decisions)) % U32
            && (bounds.maxPerRun.Some? ==>
                  && count == seed + Grants(decisions)
                  && count <= (if seed >= bounds.maxPerRun.value then seed else bounds.maxPerRun.value))
  {
    if members != [] {
      var decision := SettleAgainst(members[0].candidate, members[0].touched, seed, bounds);
      CapHolds(members[1..], Raised(seed, decision), bounds);
      var rest := Batch(members[1..], Raised(seed, decision), bounds);
      assert ([decision] + rest.0)[1..] == rest.0;
      CountsOn(seed, Grants(rest.0));
    }
  }

  lemma {:induction false} CountsOn(seed: nat, more: nat)
    requires seed < U32
    ensures ((seed + 1) % U32 + more) % U32 == (seed + 1 + more) % U32
  {
    if seed + 1 == U32 {
      assert seed + 1 + more == more + U32;
      WrapsOnce(more);
    }
  }

  lemma {:induction false} WrapsOnce(n: nat)
    ensures (n + U32) % U32 == n % U32
  {
    assert n == (n / U32) * U32 + n % U32;
    assert n + U32 == (n / U32 + 1) * U32 + n % U32;
  }
}
