/**
 A protected set: its globs, why each is in it, and what a person's grants take out of
 it again.
 */
module Protection {
  import opened Wrappers
  import opened GlobSyntax
  import opened GlobOverlap

  /** The reasons for protecting a path, the one that is named first coming first. */
  datatype Reason = ProjectDeny | AgentConfig | AgentInstructions | ApprovedTest | GitRegister {

    /** Whether a person's yes lifts this reason: no one's lifts the others. */
    predicate PersonMayGrant() {
      AgentInstructions?
    }

    function Rank(): nat {
      match this
      case ProjectDeny => 0
      case AgentConfig => 1
      case AgentInstructions => 2
      case ApprovedTest => 3
      case GitRegister => 4
    }
  }

  datatype Entry = Entry(reason: Reason, glob: string, onTheWay: bool)

  /** `lifted` is what the grants compile to: the grants, or nothing when they did not build. */
  datatype Protected = Protected(entries: seq<Entry>, granted: seq<string>, lifted: seq<string>)

  predicate SetSelects(globs: seq<string>, path: string) {
    exists i :: 0 <= i < |globs| && Selects(globs[i], path)
  }

  /** Whether `entry` holds `path` in a set whose lift covers the path or not. */
  predicate Holds(entry: Entry, path: string, lifted: bool) {
    Selects(entry.glob, path) && !(lifted && entry.reason.PersonMayGrant())
  }

  /** Why a request for `glob` is held: a reason nobody may grant if there is one, else the first. */
  function ReachedBy(entries: seq<Entry>, glob: string): (r: Option<Reason>)
    ensures r.None? <==> forall e :: e in entries ==> !MightOverlap(glob, e.glob)
    ensures r.Some? && !r.value.PersonMayGrant() <==>
            exists e :: e in entries && MightOverlap(glob, e.glob) && !e.reason.PersonMayGrant()
    ensures r.Some? ==> exists e :: e in entries && MightOverlap(glob, e.glob) && e.reason == r.value
  {
    if entries == [] then None
    else
      var head, rest := entries[0], ReachedBy(entries[1..], glob);
      assert forall e :: e in entries <==> e == head || e in entries[1..];
      if !MightOverlap(glob, head.glob) then rest
      else if head.reason.PersonMayGrant() && rest.Some? && !rest.value.PersonMayGrant() then rest
      else Some(head.reason)
  }

  /** Of the reasons nobody may grant, the first in the set's order is the one given. */
  lemma {:induction false} ReachedByFirst(entries: seq<Entry>, glob: string, k: nat)
    requires k < |entries| && MightOverlap(glob, entries[k].glob) && !entries[k].reason.PersonMayGrant()
    requires forall j :: 0 <= j < k && MightOverlap(glob, entries[j].glob) ==> entries[j].reason.PersonMayGrant()
    ensures ReachedBy(entries, glob) == Some(entries[k].reason)
    decreases k
  {
    if k > 0 {
      ReachedByFirst(entries[1..], glob, k - 1);
    }
  }

  /** The lowest-ranked reason of an entry that holds `path`. */
  function LeastReason(entries: seq<Entry>, path: string, lifted: bool): (r: Option<Reason>)
    ensures r.None? <==> forall e :: e in entries ==> !Holds(e, path, lifted)
    ensures r.Some? ==> exists e :: e in entries && Holds(e, path, lifted) && e.reason == r.value
    ensures r.Some? ==> forall e :: e in entries && Holds(e, path, lifted) ==> r.value.Rank() <= e.reason.Rank()
  {
    if entries == [] then None
    else
      var head, rest := entries[0], LeastReason(entries[1..], path, lifted);
      assert forall e :: e in entries <==> e == head || e in entries[1..];
      if !Holds(head, path, lifted) then rest
      else if rest.Some? && rest.value.Rank() < head.reason.Rank() then rest
      else Some(head.reason)
  }

  /** Some entry of this reason holds the path. */
  ghost predicate HeldFor(entries: seq<Entry>, path: string, lifted: bool, reason: Reason) {
    exists e :: e in entries && Holds(e, path, lifted) && e.reason == reason
  }

  /** A project's deny is named before the agents' configuration, that before an instruction file, that before an approved test, and the register last. */
  lemma {:induction false} FirstReasonIsNamed(entries: seq<Entry>, path: string, lifted: bool)
    ensures LeastReason(entries, path, lifted) ==
              if HeldFor(entries, path, lifted, ProjectDeny) then Some(ProjectDeny)
              else if HeldFor(entries, path, lifted, AgentConfig) then Some(AgentConfig)
              else if HeldFor(entries, path, lifted, AgentInstructions) then Some(AgentInstructions)
              else if HeldFor(entries, path, lifted, ApprovedTest) then Some(ApprovedTest)
              else if HeldFor(entries, path, lifted, GitRegister) then Some(GitRegister)
              else None
  {
    var r := LeastReason(entries, path, lifted);
    assert r.Some? ==> HeldFor(entries, path, lifted, r.value);
    forall reason | HeldFor(entries, path, lifted, reason) ensures r.Some? && r.value.Rank() <= reason.Rank() {
      var e :| e in entries && Holds(e, path, lifted) && e.reason == reason;
    }
  }

  function ReasonOf(set_: Protected, path: string): Option<Reason> {
    LeastReason(set_.entries, path, SetSelects(set_.lifted, path))
  }

  /** The set with some grants in force; grants that do not build have none. */
  function Lifting(set_: Protected, granted: seq<string>, builds: bool): Protected {
    set_.(granted := granted, lifted := if builds then granted else [])
  }

  /** Whether a grant might lift an instruction file of the set. */
  predicate LiftsSome(entries: seq<Entry>, glob: string) {
    exists i :: 0 <= i < |entries| && entries[i].reason.PersonMayGrant() && MightOverlap(glob, entries[i].glob)
  }

  function Lifters(entries: seq<Entry>, granted: seq<string>): (r: seq<string>)
    ensures forall g :: g in r <==> g in granted && LiftsSome(entries, g)
  {
    if granted == [] then []
    else
      assert forall g :: g in granted <==> g == granted[0] || g in granted[1..];
      (if LiftsSome(entries, granted[0]) then [granted[0]] else []) + Lifters(entries, granted[1..])
  }

  /** What a session hears of its grants: those that might lift something, and none of them if any failed to build. */
  function GrantsTold(set_: Protected): seq<string> {
    if set_.lifted == [] then [] else Lifters(set_.entries, set_.granted)
  }

  /** A glob nothing reaches selects no file an entry selects. */
  lemma {:induction false} UnreachedIsUnprotected(entries: seq<Entry>, glob: string, e: Entry, file: string)
    requires e in entries && Selects(glob, file) && Selects(e.glob, file) && !Missed(glob, e.glob)
    ensures MightOverlap(glob, e.glob) && ReachedBy(entries, glob).Some?
    ensures !e.reason.PersonMayGrant() ==> !ReachedBy(entries, glob).value.PersonMayGrant()
  {
    OverlapIsSound(glob, e.glob, file);
  }

  /** What a session hears of is some of what was granted, each glob of it one that might reach an instruction file, and nothing where a grant failed to build. */
  lemma {:induction false} ToldAreGranted(base: Protected, granted: seq<string>, builds: bool, g: string)
    ensures g in GrantsTold(Lifting(base, granted, builds)) <==>
            builds && g in granted && exists e :: e in base.entries && e.reason.PersonMayGrant() && MightOverlap(g, e.glob)
  {
    if LiftsSome(base.entries, g) {
      var i :| 0 <= i < |base.entries| && base.entries[i].reason.PersonMayGrant() && MightOverlap(g, base.entries[i].glob);
      assert base.entries[i] in base.entries;
    }
    if e :| e in base.entries && e.reason.PersonMayGrant() && MightOverlap(g, e.glob) {
      var i :| 0 <= i < |base.entries| && base.entries[i] == e;
    }
  }

  /** Every file whose reason a lift changes is selected by a grant its session is told of, missed pairs apart. */
  lemma {:induction false} LiftedFilesAreTold(base: Protected, granted: seq<string>, builds: bool, file: string)
    requires base.lifted == [] && ReasonOf(Lifting(base, granted, builds), file) != ReasonOf(base, file)
    requires forall g, e :: g in granted && e in base.entries ==> !Missed(g, e.glob)
    ensures exists g :: g in GrantsTold(Lifting(base, granted, builds)) && Selects(g, file)
  {
    var set_ := Lifting(base, granted, builds);
    assert SetSelects(set_.lifted, file);
    var i :| 0 <= i < |granted| && Selects(granted[i], file);
    assert granted[i] in granted;
    var e := LiftedEntry(base.entries, file);
    OverlapIsSound(granted[i], e.glob, file);
    ToldAreGranted(base, granted, builds, granted[i]);
  }

  lemma {:induction false} LiftedEntry(entries: seq<Entry>, file: string) returns (e: Entry)
    requires LeastReason(entries, file, true) != LeastReason(entries, file, false)
    ensures e in entries && e.reason.PersonMayGrant() && Selects(e.glob, file)
  {
    if e' :| e' in entries && e'.reason.PersonMayGrant() && Selects(e'.glob, file) {
      e := e';
    } else {
      SameHolders(entries, file);
    }
  }

  lemma {:induction false} SameHolders(entries: seq<Entry>, file: string)
    requires forall e :: e in entries && e.reason.PersonMayGrant() ==> !Selects(e.glob, file)
    ensures LeastReason(entries, file, true) == LeastReason(entries, file, false)
  {
    if entries != [] {
      assert entries[0] in entries;
      SameHolders(entries[1..], file);
    }
  }
}
