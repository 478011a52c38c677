/**
 The protected set every run starts from: the project's denies and approved tests, with
 what is fixed for every run. Such a set is where the blind spot of the overlap test
 matters, so this is where it is said exactly which sets it opens.
 */
module BuiltSets {
  import opened Wrappers
  import opened GlobSyntax
  import opened GlobOverlap
  import opened Protection
  import opened Expansion

  // --------------------------------------------------------------------- the set

  /** The trees and files an agent loads as its configuration. */
  const CONFIG := [".claude/**", ".mcp.json", ".codex/**", ".agents/skills/**"]

  const INSTRUCTIONS := ["**/AGENTS.md", "**/CLAUDE.md"]

  const REGISTER := [".git", ".git/**"]

  /** The roots of those trees and the directories above them. */
  const ROOTS := [".claude", ".codex", ".agents/skills", ".agents"]

  function Entries(reason: Reason, globs: seq<string>, onTheWay: bool): (entries: seq<Entry>)
    ensures forall e :: e in entries <==> e.glob in globs && e == Entry(reason, e.glob, onTheWay)
  {
    if globs == [] then [] else [Entry(reason, globs[0], onTheWay)] + Entries(reason, globs[1..], onTheWay)
  }

  function Joined(
    project: seq<string>, approved: seq<string>, config: seq<string>, instructions: seq<string>, register: seq<string>, roots: seq<string>)
    : Protected
  {
    Protected(
      Entries(ProjectDeny, project, false) + Entries(AgentConfig, config, false) + Entries(AgentInstructions, instructions, false)
      + Entries(ApprovedTest, approved, false) + Entries(GitRegister, register, false) + Entries(AgentConfig, roots, true), [], [])
  }

  /** The union every run's set starts from. */
  function Built(project: seq<string>, approved: seq<string>): Protected {
    Joined(project, approved, CONFIG, INSTRUCTIONS, REGISTER, ROOTS)
  }

  const AGENT_TREE := Entry(AgentConfig, ".claude/**", false)

  /** An entry at a name the engine fixes: it starts with a dot. */
  predicate IsRooted(e: Entry) {
    !e.reason.PersonMayGrant() && e.glob != "" && e.glob[0] == '.' && '\\' !in e.glob
  }

  /** An entry at an instruction file of any directory. */
  ghost predicate IsInstruction(e: Entry) {
    e.reason.PersonMayGrant() && exists name :: NamesDocument(name) && e.glob == "**/" + name
  }

  predicate NamesDocument(name: string) {
    name != "" && AllPlain(name) && name[|name| - 1] == 'd'
  }

  /** Each fixed list is in the set, every name for the reason of its list. */
  predicate HoldsLists(
    entries: seq<Entry>, config: seq<string>, instructions: seq<string>, register: seq<string>, roots: seq<string>)
  {
    && (forall g :: g in config ==> Entry(AgentConfig, g, false) in entries)
    && (forall g :: g in instructions ==> Entry(AgentInstructions, g, false) in entries)
    && (forall g :: g in register ==> Entry(GitRegister, g, false) in entries)
    && (forall g :: g in roots ==> Entry(AgentConfig, g, true) in entries)
  }

  /** What a set built from these denies and tests holds. */
  ghost predicate IsBuilt(set_: Protected, project: seq<string>, approved: seq<string>) {
    && set_.lifted == [] && HoldsLists(set_.entries, CONFIG, INSTRUCTIONS, REGISTER, ROOTS)
    && (forall e :: e in set_.entries ==>
          (e.reason.ProjectDeny? && e.glob in project) || (e.reason.ApprovedTest? && e.glob in approved) || IsRooted(e) || IsInstruction(e))
    && (forall g :: g in project ==> Entry(ProjectDeny, g, false) in set_.entries)
    && (forall g :: g in approved ==> Entry(ApprovedTest, g, false) in set_.entries)
  }

  lemma {:induction false} ConfigIsRooted(glob: string)
    requires glob in CONFIG || glob in REGISTER || glob in ROOTS
    ensures glob != "" && glob[0] == '.' && '\\' !in glob
  {
  }

  lemma {:induction false} InstructionsAreNamed(glob: string)
    requires glob in INSTRUCTIONS
    ensures exists name :: NamesDocument(name) && glob == "**/" + name
  {
    var first, second := "AGENTS.md", "CLAUDE.md";
    assert NamesDocument(first) && NamesDocument(second);
    assert "**/" + first == INSTRUCTIONS[0] && "**/" + second == INSTRUCTIONS[1];
  }

  lemma {:induction false} InOneOf<T>(a: seq<T>, b: seq<T>, c: seq<T>, d: seq<T>, f: seq<T>, g: seq<T>, x: T)
    ensures x in a + b + c + d + f + g <==> x in a || x in b || x in c || x in d || x in f || x in g
  {
  }

  /** The lists a set is built from, apart from the texts in them. */
  lemma {:induction false} JoinedIsBuilt(
    set_: Protected, project: seq<string>, approved: seq<string>, config: seq<string>, instructions: seq<string>,
    register: seq<string>, roots: seq<string>)
    requires set_ == Joined(project, approved, config, instructions, register, roots)
    requires forall g :: g in config || g in register || g in roots ==> g != "" && g[0] == '.' && '\\' !in g
    requires forall g :: g in instructions ==> exists name :: NamesDocument(name) && g == "**/" + name
    ensures set_.lifted == [] && HoldsLists(set_.entries, config, instructions, register, roots)
    ensures forall e :: e in set_.entries ==>
              (e.reason.ProjectDeny? && e.glob in project) || (e.reason.ApprovedTest? && e.glob in approved) || IsRooted(e) || IsInstruction(e)
    ensures (forall g :: g in project ==> Entry(ProjectDeny, g, false) in set_.entries)
    ensures (forall g :: g in approved ==> Entry(ApprovedTest, g, false) in set_.entries)
  {
    forall e {
      InOneOf(Entries(ProjectDeny, project, false), Entries(AgentConfig, config, false), Entries(AgentInstructions, instructions, false),
              Entries(ApprovedTest, approved, false), Entries(GitRegister, register, false), Entries(AgentConfig, roots, true), e);
    }
  }

  /** The set every run starts from is such a set. */
  lemma {:induction false} BuiltIsBuilt(project: seq<string>, approved: seq<string>)
    ensures IsBuilt(Built(project, approved), project, approved)
  {
    forall g | g in CONFIG || g in REGISTER || g in ROOTS ensures g != "" && g[0] == '.' && '\\' !in g {
      ConfigIsRooted(g);
    }
    forall g | g in INSTRUCTIONS ensures exists name :: NamesDocument(name) && g == "**/" + name {
      InstructionsAreNamed(g);
    }
    JoinedIsBuilt(Built(project, approved), project, approved, CONFIG, INSTRUCTIONS, REGISTER, ROOTS);
  }

  /** The trees and the file an agent loads as its configuration are in the set of every run, as such. */
  lemma {:induction false} ConfigIsHeld(set_: Protected, project: seq<string>, approved: seq<string>)
    requires IsBuilt(set_, project, approved)
    ensures Entry(AgentConfig, ".claude/**", false) in set_.entries && Entry(AgentConfig, ".mcp.json", false) in set_.entries
    ensures Entry(AgentConfig, ".codex/**", false) in set_.entries && Entry(AgentConfig, ".agents/skills/**", false) in set_.entries
  {
    assert CONFIG[0] == ".claude/**" && CONFIG[1] == ".mcp.json" && CONFIG[2] == ".codex/**" && CONFIG[3] == ".agents/skills/**";
  }

  /** And so are the instruction files and the register, each for its reason. */
  lemma {:induction false} InstructionsAndRegisterAreHeld(set_: Protected, project: seq<string>, approved: seq<string>)
    requires IsBuilt(set_, project, approved)
    ensures Entry(AgentInstructions, "**/AGENTS.md", false) in set_.entries && Entry(AgentInstructions, "**/CLAUDE.md", false) in set_.entries
    ensures Entry(GitRegister, ".git", false) in set_.entries && Entry(GitRegister, ".git/**", false) in set_.entries
  {
    assert INSTRUCTIONS[0] == "**/AGENTS.md" && INSTRUCTIONS[1] == "**/CLAUDE.md";
    assert REGISTER[0] == ".git" && REGISTER[1] == ".git/**";
  }

  /** The roots of those trees, and the directory above one, are held as themselves. */
  lemma {:induction false} RootsAreHeld(set_: Protected, project: seq<string>, approved: seq<string>)
    requires IsBuilt(set_, project, approved)
    ensures Entry(AgentConfig, ".claude", true) in set_.entries && Entry(AgentConfig, ".codex", true) in set_.entries
    ensures Entry(AgentConfig, ".agents/skills", true) in set_.entries && Entry(AgentConfig, ".agents", true) in set_.entries
  {
    assert ROOTS[0] == ".claude" && ROOTS[1] == ".codex" && ROOTS[2] == ".agents/skills" && ROOTS[3] == ".agents";
  }

  lemma {:induction false} JoinedHoldsExactly(
    project: seq<string>, approved: seq<string>, config: seq<string>, instructions: seq<string>, register: seq<string>, roots: seq<string>,
    e: Entry)
    ensures e in Joined(project, approved, config, instructions, register, roots).entries <==>
            match e.reason
            case ProjectDeny => e.glob in project && !e.onTheWay
            case AgentConfig => if e.onTheWay then e.glob in roots else e.glob in config
            case AgentInstructions => e.glob in instructions && !e.onTheWay
            case ApprovedTest => e.glob in approved && !e.onTheWay
            case GitRegister => e.glob in register && !e.onTheWay
  {
    InOneOf(Entries(ProjectDeny, project, false), Entries(AgentConfig, config, false), Entries(AgentInstructions, instructions, false),
            Entries(ApprovedTest, approved, false), Entries(GitRegister, register, false), Entries(AgentConfig, roots, true), e);
  }

  /** A run's set holds nothing but what the project denies, the approved tests, and the fixed names, each for its reason. */
  lemma {:induction false} BuiltHoldsExactly(project: seq<string>, approved: seq<string>, e: Entry)
    ensures e in Built(project, approved).entries <==>
            match e.reason
            case ProjectDeny => e.glob in project && !e.onTheWay
            case AgentConfig => if e.onTheWay then e.glob in ROOTS else e.glob in CONFIG
            case AgentInstructions => e.glob in INSTRUCTIONS && !e.onTheWay
            case ApprovedTest => e.glob in approved && !e.onTheWay
            case GitRegister => e.glob in REGISTER && !e.onTheWay
  {
    JoinedHoldsExactly(project, approved, CONFIG, INSTRUCTIONS, REGISTER, ROOTS, e);
  }

  lemma {:induction false} EntriesAt(reason: Reason, globs: seq<string>, onTheWay: bool)
    ensures |Entries(reason, globs, onTheWay)| == |globs|
    ensures forall i :: 0 <= i < |globs| ==> Entries(reason, globs, onTheWay)[i] == Entry(reason, globs[i], onTheWay)
  {
    if globs != [] {
      EntriesAt(reason, globs[1..], onTheWay);
    }
  }

  lemma {:induction false} DeniesComeFirst(project: seq<string>, approved: seq<string>)
    ensures |Built(project, approved).entries| >= |project|
    ensures forall i :: 0 <= i < |project| ==> Built(project, approved).entries[i] == Entry(ProjectDeny, project[i], false)
  {
    EntriesAt(ProjectDeny, project, false);
  }

  lemma {:induction false} FirstDenyIsNamed(entries: seq<Entry>, project: seq<string>, glob: string)
    requires |entries| >= |project| && forall i :: 0 <= i < |project| ==> entries[i] == Entry(ProjectDeny, project[i], false)
    requires forall e :: e in entries && e.reason.ProjectDeny? ==> e.glob in project
    ensures ReachedBy(entries, glob) == Some(ProjectDeny) <==> exists i :: 0 <= i < |project| && MightOverlap(glob, project[i])
  {
    if ReachedBy(entries, glob) == Some(ProjectDeny) {
      var e :| e in entries && MightOverlap(glob, e.glob) && e.reason == ProjectDeny;
      var i :| 0 <= i < |project| && project[i] == e.glob;
    }
    if i :| 0 <= i < |project| && MightOverlap(glob, project[i]) {
      var k := FirstMet(project, glob, i);
      ReachedByFirst(entries, glob, k);
    }
  }

  /** A request is told of a project's deny exactly when it meets one, whatever else it meets. */
  lemma {:induction false} DenyIsNamedFirst(project: seq<string>, approved: seq<string>, glob: string)
    ensures ReachedBy(Built(project, approved).entries, glob) == Some(ProjectDeny) <==>
            exists i :: 0 <= i < |project| && MightOverlap(glob, project[i])
  {
    DeniesComeFirst(project, approved);
    DeniesAreListed(project, approved);
    FirstDenyIsNamed(Built(project, approved).entries, project, glob);
  }

  lemma {:induction false} DeniesAreListed(project: seq<string>, approved: seq<string>)
    ensures forall e :: e in Built(project, approved).entries && e.reason.ProjectDeny? ==> e.glob in project
  {
    forall e | e in Built(project, approved).entries && e.reason.ProjectDeny? ensures e.glob in project {
      BuiltHoldsExactly(project, approved, e);
    }
  }

  lemma {:induction false} FirstMet(globs: seq<string>, glob: string, i: nat) returns (k: nat)
    requires i < |globs| && MightOverlap(glob, globs[i])
    ensures k < |globs| && MightOverlap(glob, globs[k]) && forall j :: 0 <= j < k ==> !MightOverlap(glob, globs[j])
    decreases i
  {
    if j :| 0 <= j < i && MightOverlap(glob, globs[j]) {
      k := FirstMet(globs, glob, j);
    } else {
      k := i;
    }
  }

  // ----------------------------------------------------- what the agents' tree refuses

  /** A glob of recursions alone reaches every tree, so a set that holds one refuses it. */
  lemma {:induction false} RecursionReachesTrees(a: string, tree: string)
    requires OnlyRecursions(a) && !IsLiteral(tree) && SuffixText(tree) == ""
    ensures MightOverlap(a, tree)
  {
    LoneRecursionIsText(a);
    assert a[0] == a[..3][0] == '*';
  }

  lemma {:induction false} AgentTreeShowsNoTail()
    ensures !IsLiteral(AGENT_TREE.glob) && SuffixText(AGENT_TREE.glob) == ""
  {
    var glob := AGENT_TREE.glob;
    assert |glob| == 10 && glob[9] == '*';
    assert LastStar(glob, 10) == 9;
  }

  lemma {:induction false} RecursionsAreRefused(paths: seq<string>, protected: Protected, g: string)
    requires AGENT_TREE in protected.entries && !RefusesWhole(Reaching(paths, protected)) && g in paths
    ensures !OnlyRecursions(g)
  {
    if OnlyRecursions(g) {
      AgentTreeShowsNoTail();
      RecursionReachesTrees(g, AGENT_TREE.glob);
      NotRefusedWhole(paths, protected, g, AGENT_TREE);
    }
  }

  /**
   In a set that holds the agents' tree, and whose globs are none of them recursions
   alone, a request that is not refused whole has no missed pair: its grants are safe
   without any condition on what was asked.
   */
  lemma {:induction false} BuiltSetsMissNothing(paths: seq<string>, protected: Protected, g: string, e: Entry)
    requires AGENT_TREE in protected.entries
    requires forall x :: x in protected.entries ==> !OnlyRecursions(x.glob)
    requires !RefusesWhole(Reaching(paths, protected)) && g in paths && e in protected.entries
    ensures !Missed(g, e.glob)
  {
    RecursionsAreRefused(paths, protected, g);
  }

  /** Where no deny of the project is recursions alone, no request at all is granted over what nobody may grant. */
  lemma {:induction false} EveryRequestIsSafe(
    ask: Ask, bounds: Bounds, touched: nat, grantedSoFar: nat, choice: HumanChoice, g: string, e: Entry, file: string)
    requires AGENT_TREE in bounds.protected.entries
    requires forall x :: x in bounds.protected.entries ==> !OnlyRecursions(x.glob)
    requires Resolve(ask, bounds, touched, grantedSoFar, choice).Grant?
    requires g in Resolve(ask, bounds, touched, grantedSoFar, choice).paths && e in bounds.protected.entries
    requires Selects(g, file) && Selects(e.glob, file)
    ensures e.reason.PersonMayGrant()
    ensures Resolve(ask, bounds, touched, grantedSoFar, choice).decider == Person(choice.who)
  {
    GrantedIsNotRefused(ask, bounds, touched, grantedSoFar, choice);
    BuiltSetsMissNothing(Resolve(ask, bounds, touched, grantedSoFar, choice).paths, bounds.protected, g, e);
    NobodyGrantsTheUngrantable(ask, bounds, touched, grantedSoFar, choice, g, e, file);
  }

  /** Over such a set every file of an accepted offer is free once it is lifted, and no other file changes. */
  lemma {:induction false} LiftedOfferIsFree(base: Protected, paths: seq<string>, file: string)
    requires AGENT_TREE in base.entries && (forall x :: x in base.entries ==> !OnlyRecursions(x.glob))
    requires base.lifted == [] && NodeOffer(paths, base, true).Ok?
    ensures SetSelects(paths, file) ==> ReasonOf(Lifting(base, paths, true), file) == None
    ensures !SetSelects(paths, file) ==> ReasonOf(Lifting(base, paths, true), file) == ReasonOf(base, file)
  {
    LiftingIsExact(base, paths, file);
    if SetSelects(paths, file) {
      var i :| 0 <= i < |paths| && Selects(paths[i], file);
      forall e | e in base.entries && Selects(e.glob, file) ensures e.reason.PersonMayGrant() {
        BuiltSetsMissNothing(paths, base, paths[i], e);
        OfferedFileIsGrantable(base, paths, paths[i], e, file);
      }
    }
  }

  // ------------------------------------------------------- exactly which sets are open

  /** A request, followed to its end, that is granted over a file nobody may grant. */
  datatype Breach = Breach(
    ask: Ask, bounds: Bounds, touched: nat, grantedSoFar: nat, choice: HumanChoice, glob: string, entry: Entry, file: string)

  ghost predicate IsBreach(set_: Protected, b: Breach) {
    var decision := Resolve(b.ask, b.bounds, b.touched, b.grantedSoFar, b.choice);
    && b.bounds.protected == set_
    && decision.Grant? && b.glob in decision.paths
    && b.entry in set_.entries && !b.entry.reason.PersonMayGrant()
    && Selects(b.glob, b.file) && Selects(b.entry.glob, b.file)
  }

  ghost predicate Unsafe(set_: Protected) {
    exists b :: IsBreach(set_, b)
  }

  /** A glob that shows neither a prefix nor a suffix: the test tells it apart from no wildcard glob. */
  predicate IsBlanket(glob: string) {
    !IsLiteral(glob) && PrefixText(glob) == "" && SuffixText(glob) == ""
  }

  predicate HoldsRecursion(set_: Protected) {
    exists i :: 0 <= i < |set_.entries| && !set_.entries[i].reason.PersonMayGrant() && OnlyRecursions(set_.entries[i].glob)
  }

  predicate HoldsBlanket(set_: Protected) {
    exists i :: 0 <= i < |set_.entries| && !set_.entries[i].reason.PersonMayGrant() && IsBlanket(set_.entries[i].glob)
  }

  lemma {:induction false} BlanketReaches(g: string, glob: string)
    requires !IsLiteral(g) && IsBlanket(glob)
    ensures MightOverlap(g, glob)
  {
  }

  /** A breach needs an entry of recursions alone, and no blanket beside it. */
  lemma {:induction false} BreachNeedsRecursion(set_: Protected, b: Breach)
    requires AGENT_TREE in set_.entries && IsBreach(set_, b)
    ensures HoldsRecursion(set_) && !HoldsBlanket(set_)
  {
    var decision := Resolve(b.ask, b.bounds, b.touched, b.grantedSoFar, b.choice);
    GrantedIsNotRefused(b.ask, b.bounds, b.touched, b.grantedSoFar, b.choice);
    RecursionsAreRefused(decision.paths, set_, b.glob);
    if !Missed(b.glob, b.entry.glob) {
      NobodyGrantsTheUngrantable(b.ask, b.bounds, b.touched, b.grantedSoFar, b.choice, b.glob, b.entry, b.file);
    }
    assert Missed(b.glob, b.entry.glob);
    var i :| 0 <= i < |set_.entries| && set_.entries[i] == b.entry;
    forall j | 0 <= j < |set_.entries| && IsBlanket(set_.entries[j].glob) ensures set_.entries[j].reason.PersonMayGrant() {
      BlanketReaches(b.glob, set_.entries[j].glob);
      NotRefusedWhole(decision.paths, set_, b.glob, set_.entries[j]);
    }
  }

  /** A sign no glob of the set holds. */
  predicate IsFree(set_: Protected, c: char) {
    IsPlain(c) && c != '/' && forall i :: 0 <= i < |set_.entries| ==> c !in set_.entries[i].glob
  }

  lemma {:induction false} FreeStarMeetsBlankets(c: char, glob: string)
    requires IsPlain(c) && c !in glob
    ensures MightOverlap(Starred([c], [c]), glob) <==> IsBlanket(glob)
  {
    var g := Starred([c], [c]);
    StarredShows([c], [c]);
    if IsLiteral(glob) {
      if Selects(g, glob) {
        PrefixHolds(g, glob);
      }
    } else {
      FreePrefixMeets(c, PrefixText(glob));
      FreeSuffixMeets(c, SuffixText(glob));
      PartsOfGlob(c, glob);
    }
  }

  lemma {:induction false} PartsOfGlob(c: char, glob: string)
    requires c !in glob
    ensures c !in PrefixText(glob) && c !in SuffixText(glob)
  {
  }

  lemma {:induction false} FreePrefixMeets(c: char, prefix: string)
    requires c !in prefix
    ensures [c] <= prefix || prefix <= [c] <==> prefix == ""
  {
    if prefix != "" {
      assert prefix[0] in prefix;
    }
  }

  lemma {:induction false} LastsMeet(s: string, t: string)
    requires s != "" && t != "" && s[|s| - 1] != t[|t| - 1]
    ensures !EndsWith(s, t)
  {
    if |t| <= |s| {
      assert s[|s| - |t|..][|t| - 1] == s[|s| - 1];
    }
  }

  lemma {:induction false} FreeSuffixMeets(c: char, suffix: string)
    requires c !in suffix
    ensures EndsWith([c], suffix) || EndsWith(suffix, [c]) <==> suffix == ""
  {
    if suffix == "" {
      assert [c][1..] == suffix;
    } else {
      assert suffix[|suffix| - 1] in suffix;
      LastsMeet([c], suffix);
      LastsMeet(suffix, [c]);
    }
  }

  lemma {:induction false} UnrefusedIsResolved(set_: Protected, g: string, choice: HumanChoice)
    requires choice.option == GRANT_OPTION && !RefusesWhole(Reaching([g], set_))
    ensures var r := Resolve(Requested([g], "", Some(Proposal("", Red(1)))), Bounds(Rules, 0, None, set_, []), 0, 0, choice);
            r.Grant? && r.paths == [g]
  {
    var ask := Requested([g], "", Some(Proposal("", Red(1))));
    var bounds := Bounds(Rules, 0, None, set_, []);
    if Reaching([g], set_) == [] {
      EngineGrantsExactly(ask, bounds, 0, 0);
    } else {
      assert Decide(ask, bounds, 0, 0) == Escalate([g], Instructions);
    }
  }

  /** A text, a star and a text that no reason nobody may grant is reached by. */
  ghost predicate IsOpening(set_: Protected, head: string, tail: string) {
    && AllText(head) && AllPlain(tail) && tail != "" && !EndsWith(tail, "/")
    && (forall e :: e in set_.entries && !e.reason.PersonMayGrant() ==> !MightOverlap(Starred(head, tail), e.glob))
  }

  function LongestText(entries: seq<Entry>): (n: nat)
    ensures forall e :: e in entries ==> |e.glob| <= n
  {
    if entries == [] then 0 else
      var rest := LongestText(entries[1..]);
      assert forall e :: e in entries <==> e == entries[0] || e in entries[1..];
      if |entries[0].glob| > rest then |entries[0].glob| else rest
  }

  function Filler(n: nat): (s: string)
    ensures |s| == n && AllPlain(s)
  {
    if n == 0 then "" else Filler(n - 1) + ['a']
  }

  /** Prefixes that go together with one of them made longer go together without. */
  lemma {:induction false} ShorterGoesTogether(a: string, more: string, b: string)
    requires a + more <= b || b <= a + more
    ensures a <= b || b <= a
  {
    if |a| <= |b| {
      assert a + more <= b ==> b[..|a|] == b[..|a + more|][..|a|];
      assert b <= a + more ==> b[..|a|] == (a + more)[..|b|][..|a|];
    } else {
      assert (a + more)[..|b|] == a[..|b|];
    }
  }

  /** A glob no entry reaches gives a starred text that none reaches either: its own ends, the first made longer than any literal. */
  lemma {:induction false} StarredStaysApart(g: string, glob: string, more: string)
    requires Compile(g).Some? && !IsLiteral(g) && SuffixText(g) != "" && !MightOverlap(g, glob) && AllPlain(more) && |glob| < |more|
    ensures !MightOverlap(Starred(PrefixText(g) + more, SuffixText(g)), glob)
  {
    var head, tail := PrefixText(g) + more, SuffixText(g);
    PrefixIsText(g);
    SuffixIsPlain(g);
    assert AllText(head);
    StarredShows(head, tail);
    if IsLiteral(glob) {
      if Selects(Starred(head, tail), glob) {
        PrefixHolds(Starred(head, tail), glob);
      }
    } else if head <= PrefixText(glob) || PrefixText(glob) <= head {
      ShorterGoesTogether(PrefixText(g), more, PrefixText(glob));
    }
  }

  lemma {:induction false} BreachGivesOpening(set_: Protected, b: Breach) returns (head: string, tail: string)
    requires AGENT_TREE in set_.entries && IsBreach(set_, b)
    ensures HoldsRecursion(set_) && IsOpening(set_, head, tail)
  {
    var g, decision := b.glob, Resolve(b.ask, b.bounds, b.touched, b.grantedSoFar, b.choice);
    BreachNeedsRecursion(set_, b);
    GrantedIsNotRefused(b.ask, b.bounds, b.touched, b.grantedSoFar, b.choice);
    RecursionsAreRefused(decision.paths, set_, g);
    if !Missed(g, b.entry.glob) {
      NobodyGrantsTheUngrantable(b.ask, b.bounds, b.touched, b.grantedSoFar, b.choice, g, b.entry, b.file);
    }
    var more := Filler(LongestText(set_.entries) + 1);
    head, tail := PrefixText(g) + more, SuffixText(g);
    PrefixIsText(g);
    SuffixIsPlain(g);
    forall e | e in set_.entries && !e.reason.PersonMayGrant() ensures !MightOverlap(Starred(head, tail), e.glob) {
      if MightOverlap(g, e.glob) {
        NotRefusedWhole(decision.paths, set_, g, e);
      }
      StarredStaysApart(g, e.glob, more);
    }
  }

  lemma {:induction false} OpeningIsBreach(set_: Protected, head: string, tail: string, entry: Entry) returns (b: Breach)
    requires IsOpening(set_, head, tail) && entry in set_.entries && !entry.reason.PersonMayGrant() && OnlyRecursions(entry.glob)
    ensures IsBreach(set_, b)
  {
    var g, choice := Starred(head, tail), HumanChoice(GRANT_OPTION, "", None);
    MissedPair(entry.glob, head, "", tail);
    RefusesExactly([g], set_);
    assert ReachedBy(set_.entries, g).Some? ==> ReachedBy(set_.entries, g).value.PersonMayGrant();
    UnrefusedIsResolved(set_, g, choice);
    b := Breach(Requested([g], "", Some(Proposal("", Red(1)))), Bounds(Rules, 0, None, set_, []), 0, 0, choice, g, entry, head + "" + tail);
  }

  /**
   Whatever signs its globs use, a set with the agents' tree is open to some request
   exactly when a reason nobody may grant holds recursions alone and some text, star and
   text is reached by none.
   */
  lemma {:induction false} UnsafeHasOpening(set_: Protected)
    requires AGENT_TREE in set_.entries
    ensures Unsafe(set_) <==> HoldsRecursion(set_) && exists head, tail :: IsOpening(set_, head, tail)
  {
    if Unsafe(set_) {
      var b :| IsBreach(set_, b);
      var head, tail := BreachGivesOpening(set_, b);
    }
    if HoldsRecursion(set_) && exists head, tail :: IsOpening(set_, head, tail) {
      var i :| 0 <= i < |set_.entries| && !set_.entries[i].reason.PersonMayGrant() && OnlyRecursions(set_.entries[i].glob);
      var head, tail :| IsOpening(set_, head, tail);
      var b := OpeningIsBreach(set_, head, tail, set_.entries[i]);
    }
  }

  lemma {:induction false} FreeStarIsOpening(set_: Protected, c: char)
    requires IsFree(set_, c) && !HoldsBlanket(set_)
    ensures IsOpening(set_, [c], [c])
  {
    assert [c][0..] == [c];
    forall e | e in set_.entries && !e.reason.PersonMayGrant() ensures !MightOverlap(Starred([c], [c]), e.glob) {
      var i :| 0 <= i < |set_.entries| && set_.entries[i] == e;
      FreeStarMeetsBlankets(c, e.glob);
    }
  }

  /**
   A set with the agents' tree is open to some request exactly when a reason nobody may
   grant holds recursions alone and none holds a blanket, as far as some sign is left
   that no glob of the set uses.
   */
  lemma {:induction false} UnsafeExactly(set_: Protected, c: char)
    requires AGENT_TREE in set_.entries && IsFree(set_, c)
    ensures Unsafe(set_) <==> HoldsRecursion(set_) && !HoldsBlanket(set_)
  {
    if Unsafe(set_) {
      var b :| IsBreach(set_, b);
      BreachNeedsRecursion(set_, b);
    }
    if HoldsRecursion(set_) && !HoldsBlanket(set_) {
      FreeStarIsOpening(set_, c);
      UnsafeHasOpening(set_);
    }
  }

  // ------------------------------------------------------------- the sets of a run

  lemma {:induction false} RootedIsNeither(e: Entry)
    requires IsRooted(e)
    ensures !OnlyRecursions(e.glob) && !IsBlanket(e.glob)
  {
    assert |e.glob| >= 3 ==> e.glob[..3][0] == e.glob[0];
    assert FirstWildcard(e.glob) > 0;
  }

  lemma {:induction false} DeniedAreEntries(set_: Protected, project: seq<string>, approved: seq<string>, g: string)
    requires IsBuilt(set_, project, approved) && (g in project || g in approved)
    ensures exists i :: 0 <= i < |set_.entries| && !set_.entries[i].reason.PersonMayGrant() && set_.entries[i].glob == g
  {
    var e := Entry(if g in project then ProjectDeny else ApprovedTest, g, false);
    var i :| 0 <= i < |set_.entries| && set_.entries[i] == e;
  }

  lemma {:induction false} EntriesAreDenied(set_: Protected, project: seq<string>, approved: seq<string>, e: Entry)
    requires IsBuilt(set_, project, approved) && e in set_.entries && !e.reason.PersonMayGrant()
    requires OnlyRecursions(e.glob) || IsBlanket(e.glob)
    ensures e.glob in project || e.glob in approved
  {
    if IsRooted(e) {
      RootedIsNeither(e);
    }
  }

  ghost predicate ListsRecursion(project: seq<string>, approved: seq<string>) {
    exists g :: (g in project || g in approved) && OnlyRecursions(g)
  }

  ghost predicate ListsBlanket(project: seq<string>, approved: seq<string>) {
    exists g :: (g in project || g in approved) && IsBlanket(g)
  }

  lemma {:induction false} RecursionsAreListed(set_: Protected, project: seq<string>, approved: seq<string>)
    requires IsBuilt(set_, project, approved)
    ensures HoldsRecursion(set_) <==> ListsRecursion(project, approved)
  {
    if HoldsRecursion(set_) {
      var i :| 0 <= i < |set_.entries| && !set_.entries[i].reason.PersonMayGrant() && OnlyRecursions(set_.entries[i].glob);
      EntriesAreDenied(set_, project, approved, set_.entries[i]);
    }
    if ListsRecursion(project, approved) {
      var g :| (g in project || g in approved) && OnlyRecursions(g);
      DeniedAreEntries(set_, project, approved, g);
    }
  }

  lemma {:induction false} BlanketsAreListed(set_: Protected, project: seq<string>, approved: seq<string>)
    requires IsBuilt(set_, project, approved)
    ensures HoldsBlanket(set_) <==> ListsBlanket(project, approved)
  {
    if HoldsBlanket(set_) {
      var i :| 0 <= i < |set_.entries| && !set_.entries[i].reason.PersonMayGrant() && IsBlanket(set_.entries[i].glob);
      EntriesAreDenied(set_, project, approved, set_.entries[i]);
    }
    if ListsBlanket(project, approved) {
      var g :| (g in project || g in approved) && IsBlanket(g);
      DeniedAreEntries(set_, project, approved, g);
    }
  }

  /** A built set is open exactly when the project's denies or its approved tests hold recursions alone and no blanket. */
  lemma {:induction false} BuiltUnsafeExactly(set_: Protected, project: seq<string>, approved: seq<string>, c: char)
    requires IsBuilt(set_, project, approved) && IsFree(set_, c)
    ensures Unsafe(set_) <==> ListsRecursion(project, approved) && !ListsBlanket(project, approved)
  {
    UnsafeExactly(set_, c);
    RecursionsAreListed(set_, project, approved);
    BlanketsAreListed(set_, project, approved);
  }

  /** So for the set a run starts from. */
  lemma {:induction false} RunUnsafeExactly(project: seq<string>, approved: seq<string>, c: char)
    requires IsFree(Built(project, approved), c)
    ensures Unsafe(Built(project, approved)) <==> ListsRecursion(project, approved) && !ListsBlanket(project, approved)
  {
    BuiltIsBuilt(project, approved);
    BuiltUnsafeExactly(Built(project, approved), project, approved, c);
  }

  // --------------------------------------------------------------- what it looks like

  lemma {:induction false} RootedIsApart(head: string, tail: string, e: Entry)
    requires AllPlain(head) && AllPlain(tail) && tail != "" && head != "" && head[0] != '.' && IsRooted(e)
    ensures !MightOverlap(Starred(head, tail), e.glob)
  {
    var g, glob := Starred(head, tail), e.glob;
    StarredShows(head, tail);
    if IsLiteral(glob) {
      if Selects(g, glob) {
        PrefixHolds(g, glob);
      }
    } else {
      assert FirstWildcard(glob) > 0;
      assert PrefixText(glob)[0] == '.';
    }
  }

  lemma {:induction false} InstructionIsApart(head: string, tail: string, glob: string, name: string)
    requires AllPlain(head) && AllPlain(tail) && tail != "" && tail[|tail| - 1] != 'd' && NamesDocument(name) && glob == "**/" + name
    ensures !MightOverlap(Starred(head, tail), glob)
  {
    StarredShows(head, tail);
    RecursionShowsText(glob, name);
    LastsMeet(tail, "/" + name);
    LastsMeet("/" + name, tail);
  }

  /** A starred text that no fixed name of a run meets. */
  predicate Clear(head: string, tail: string) {
    && AllPlain(head) && AllPlain(tail) && head != "" && head[0] != '.'
    && tail != "" && tail[|tail| - 1] != 'd' && tail[|tail| - 1] != '/'
  }

  lemma {:induction false} DenyIsApart(deny: string, head: string, tail: string)
    requires OnlyRecursions(deny) && Clear(head, tail)
    ensures !MightOverlap(Starred(head, tail), deny)
  {
    LastsMeet(tail, "/");
    MissedPair(deny, head, "", tail);
    StarredCompiles(head, tail);
    LoneRecursionIsText(deny);
    OverlapIsSymmetric(deny, Starred(head, tail));
  }

  lemma {:induction false} NothingReaches(set_: Protected, deny: string, head: string, tail: string)
    requires IsBuilt(set_, [deny], []) && OnlyRecursions(deny) && Clear(head, tail)
    ensures ReachedBy(set_.entries, Starred(head, tail)).None?
  {
    forall e | e in set_.entries ensures !MightOverlap(Starred(head, tail), e.glob) {
      if IsRooted(e) {
        RootedIsApart(head, tail, e);
      } else if IsInstruction(e) {
        var name :| NamesDocument(name) && e.glob == "**/" + name;
        InstructionIsApart(head, tail, e.glob, name);
      } else {
        DenyIsApart(deny, head, tail);
      }
    }
  }

  lemma {:induction false} EveryFileIsDenied(set_: Protected, deny: string, file: string)
    requires IsBuilt(set_, [deny], []) && OnlyRecursions(deny)
    ensures ReasonOf(set_, file) == Some(ProjectDeny)
  {
    var e := Entry(ProjectDeny, deny, false);
    LoneRecursionIsText(deny);
    assert deny in [deny];
    assert e in set_.entries && Holds(e, file, false);
  }

  /**
   What such an opening looks like in a run whose project denies every file by
   recursions alone: the engine itself grants every acceptable request for a clear
   starred text, and every file it selects is denied all the same.
   */
  lemma {:induction false} RecursionDenyIsMissed(
    deny: string, head: string, name: string, tail: string, ask: Ask, bounds: Bounds, touched: nat, grantedSoFar: nat)
    requires IsBuilt(bounds.protected, [deny], []) && OnlyRecursions(deny) && Clear(head, tail) && '/' !in name
    requires ask.paths == [Starred(head, tail)] && Acceptable(ask, bounds) && WithinBounds(bounds, touched, grantedSoFar)
    ensures Decide(ask, bounds, touched, grantedSoFar).Grant? && Decide(ask, bounds, touched, grantedSoFar).paths == ask.paths
    ensures Selects(Starred(head, tail), head + name + tail) && ReasonOf(bounds.protected, head + name + tail) == Some(ProjectDeny)
  {
    NothingReaches(bounds.protected, deny, head, tail);
    EngineGrantsExactly(ask, bounds, touched, grantedSoFar);
    StarredSelects(head, name, tail);
    EveryFileIsDenied(bounds.protected, deny, head + name + tail);
  }

  lemma {:induction false} ExampleIsAcceptable(set_: Protected, glob: string)
    ensures Acceptable(Requested([glob], "", Some(Proposal("cargo test", Red(101)))), Bounds(Rules, 10, None, set_, []))
  {
  }

  /** A request for the Rust files of `src` with a red criterion, in a project that denies one recursion. */
  lemma {:induction false} RecursionDenyExample(set_: Protected)
    requires IsBuilt(set_, ["**/"], [])
    ensures Decide(Requested([Starred("src/", ".rs")], "", Some(Proposal("cargo test", Red(101)))), Bounds(Rules, 10, None, set_, []), 1, 0).Grant?
    ensures ReasonOf(set_, "src/" + "a" + ".rs") == Some(ProjectDeny)
  {
    var deny, glob := "**/", Starred("src/", ".rs");
    assert deny[..3] == deny && deny[3..] == "";
    ExampleIsAcceptable(set_, glob);
    RecursionDenyIsMissed(deny, "src/", "a", ".rs", Requested([glob], "", Some(Proposal("cargo test", Red(101)))), Bounds(Rules, 10, None, set_, []), 1, 0);
  }
}
