/**
 What the scanner promises of every script: each command trimmed and none empty, nothing
 said that the script does not say, and the separators separating what is quoted.
 */
module ShellCommands {
  import opened Sequences
  import opened ShellWords
  import opened ShellScanner

  // ------------------------------------------------------- trimmed, and none empty

  /** Text that white space neither begins nor ends. */
  predicate Inked(s: string) {
    s != "" && !IsWhitespace(s[0]) && !IsWhitespace(s[|s| - 1])
  }

  lemma {:induction false} InkedStays(s: string)
    requires Inked(s)
    ensures Trim(s) == s
  {
  }

  lemma {:induction false} TrimStartStarts(s: string)
    ensures TrimStart(s) == "" || !IsWhitespace(TrimStart(s)[0])
    decreases |s|
  {
    if s != "" && IsWhitespace(s[0]) {
      TrimStartStarts(s[1..]);
    }
  }

  lemma {:induction false} TrimEndEnds(s: string)
    requires s == "" || !IsWhitespace(s[0])
    ensures TrimEnd(s) == "" || Inked(TrimEnd(s))
    decreases |s|
  {
    if s != "" && IsWhitespace(s[|s| - 1]) {
      TrimEndEnds(s[..|s| - 1]);
    }
  }

  lemma {:induction false} TrimInks(s: string)
    ensures Trim(s) == "" || Inked(Trim(s))
  {
    TrimStartStarts(s);
    TrimEndEnds(TrimStart(s));
  }

  predicate AllInked(commands: seq<string>) {
    forall i :: 0 <= i < |commands| ==> Inked(commands[i])
  }

  lemma {:induction false} FinishedStaysInked(r: Reading)
    requires AllInked(r.commands)
    ensures AllInked(Finished(r).commands)
  {
    TrimInks(r.current);
  }

  /** Nothing but the place changed: `n` characters were passed over. */
  ghost predicate Passed(r: Reading, t: Reading, n: nat) {
    n <= |r.rest| && t.rest == r.rest[n..] && t.current == r.current && t.commands == r.commands
  }

  /** `n` characters were taken into the command being read. */
  ghost predicate Took(r: Reading, t: Reading, n: nat) {
    n <= |r.rest| && t.rest == r.rest[n..] && t.current == r.current + r.rest[..n] && t.commands == r.commands
  }

  lemma {:induction false} OperatorShape(r: Reading, split: Split)
    requires r.rest != ""
    ensures var t := AfterOperator(r, split);
            || t == BodiesSkipped(Finished(Past(r, 1)))
            || t == Finished(Past(r, 1))
            || (|r.rest| >= 2 && t == Finished(Past(r, 2)))
            || t == Taken(r, 1)
  {
  }

  ghost predicate TookInto(r: Reading, t: Reading, n: nat) {
    n <= |r.rest| && t == Taken(r, n).(quote := t.quote, nested := t.nested, backtick := t.backtick)
  }

  lemma {:induction false} InseparableShape(r: Reading) returns (n: nat)
    requires r.rest != ""
    ensures var t := AfterInseparable(r); (n <= |r.rest| && t == Past(r, n)) || TookInto(r, t, n)
  {
    var c := r.rest[0];
    n := if (c == '\\' && |r.rest| > 1) || (c == '$' && SecondIs(r, '(')) then 2 else 1;
  }

  lemma {:induction false} UnquotedShape(r: Reading, split: Split) returns (n: nat)
    requires r.rest != ""
    ensures var t := AfterUnquoted(r, split);
            || (n <= |r.rest| && t == Past(r, n))
            || TookInto(r, t, n)
            || (|r.rest| >= 2 && t == AfterHeredoc(r))
            || t == AfterOperator(r, split)
  {
    if Separable(r) {
      n := 1 + LineRun(r.rest[1..]);
    } else {
      n := InseparableShape(r);
    }
  }

  lemma {:induction false} StepStaysInked(r: Reading, split: Split)
    requires r.rest != "" && AllInked(r.commands)
    ensures AllInked(Step(r, split).commands)
  {
    if r.quote.Bare? {
      var n := UnquotedShape(r, split);
      if AfterUnquoted(r, split) == AfterOperator(r, split) {
        OperatorStaysInked(r, split);
      }
    }
  }

  lemma {:induction false} OperatorStaysInked(r: Reading, split: Split)
    requires r.rest != "" && AllInked(r.commands)
    ensures AllInked(AfterOperator(r, split).commands)
  {
    OperatorShape(r, split);
    FinishedStaysInked(Past(r, 1));
    if |r.rest| >= 2 {
      FinishedStaysInked(Past(r, 2));
    }
  }

  lemma {:induction false} ScanIsInked(r: Reading, split: Split)
    requires AllInked(r.commands)
    ensures AllInked(Scan(r, split))
    decreases |r.rest|
  {
    if r.rest == "" {
      FinishedStaysInked(r);
    } else {
      StepStaysInked(r, split);
      ScanIsInked(Step(r, split), split);
    }
  }

  /** Each command of a script is trimmed, and none is empty. */
  lemma {:induction false} CommandsAreTrimmed(script: string, split: Split)
    ensures forall i :: 0 <= i < |CommandsOf(script, split)| ==>
      CommandsOf(script, split)[i] != "" && Trim(CommandsOf(script, split)[i]) == CommandsOf(script, split)[i]
  {
    ScanIsInked(Start(script), split);
    forall i | 0 <= i < |CommandsOf(script, split)|
      ensures Trim(CommandsOf(script, split)[i]) == CommandsOf(script, split)[i]
    {
      InkedStays(CommandsOf(script, split)[i]);
    }
  }

  // ---------------------------------------------------------------- nothing invented

  /** `a` is `b` with characters left out. */
  ghost predicate Kept(a: string, b: string)
    decreases |b|
  {
    a == "" || (b != "" && (Kept(a, b[..|b| - 1]) || (a[|a| - 1] == b[|b| - 1] && Kept(a[..|a| - 1], b[..|b| - 1]))))
  }

  lemma {:induction false} KeptMore(a: string, b: string, t: string)
    requires Kept(a, b)
    ensures Kept(a + t, b + t)
    decreases |t|
  {
    if t == "" {
      EmptyConcat(a);
      EmptyConcat(b);
    } else {
      var n := |t| - 1;
      KeptMore(a, b, t[..n]);
      assert (a + t)[..|a + t| - 1] == a + t[..n] && (b + t)[..|b + t| - 1] == b + t[..n];
    }
  }

  lemma {:induction false} KeptSkip(a: string, b: string, t: string)
    requires Kept(a, b)
    ensures Kept(a, b + t)
    decreases |t|
  {
    if t == "" {
      EmptyConcat(b);
    } else {
      var n := |t| - 1;
      KeptSkip(a, b, t[..n]);
      assert (b + t)[..|b + t| - 1] == b + t[..n];
    }
  }

  lemma {:induction false} KeptThrough(a: string, b: string, c: string)
    requires Kept(a, b) && Kept(b, c)
    ensures Kept(a, c)
    decreases |c|
  {
    if a != "" {
      var c' := c[..|c| - 1];
      if Kept(b, c') {
        KeptThrough(a, b, c');
      } else if Kept(a, b[..|b| - 1]) {
        KeptThrough(a, b[..|b| - 1], c');
      } else {
        KeptThrough(a[..|a| - 1], b[..|b| - 1], c');
      }
    }
  }

  lemma {:induction false} KeptSelf(a: string)
    ensures Kept(a, a)
  {
    KeptMore("", "", a);
    EmptyConcat(a);
  }

  lemma {:induction false} KeptUnder(head: string, a: string, b: string)
    requires Kept(a, b)
    ensures Kept(head + a, head + b)
    decreases |b|
  {
    if a == "" {
      KeptSelf(head);
      KeptSkip(head, head, b);
      EmptyConcat(head);
    } else {
      var b' := b[..|b| - 1];
      assert (head + b)[..|head + b| - 1] == head + b' && (head + a)[..|head + a| - 1] == head + a[..|a| - 1];
      if Kept(a, b') {
        KeptUnder(head, a, b');
      } else {
        KeptUnder(head, a[..|a| - 1], b');
      }
    }
  }

  lemma {:induction false} TrimStartKept(s: string)
    ensures Kept(TrimStart(s), s)
    decreases |s|
  {
    if s != "" && IsWhitespace(s[0]) {
      TrimStartKept(s[1..]);
      HeadSplit(s);
      KeptUnder([s[0]], "", "");
      KeptPast(s[1..], [s[0]]);
      KeptThrough(TrimStart(s), s[1..], s);
    } else {
      KeptSelf(s);
    }
  }

  lemma {:induction false} KeptPast(a: string, head: string)
    ensures Kept(a, head + a)
  {
    KeptMore("", head, a);
    EmptyConcat(a);
  }

  lemma {:induction false} TrimEndKept(s: string)
    ensures Kept(TrimEnd(s), s)
    decreases |s|
  {
    if s != "" && IsWhitespace(s[|s| - 1]) {
      TrimEndKept(s[..|s| - 1]);
    } else {
      KeptSelf(s);
    }
  }

  lemma {:induction false} TrimKept(s: string)
    ensures Kept(Trim(s), s)
  {
    TrimStartKept(s);
    TrimEndKept(TrimStart(s));
    KeptThrough(Trim(s), TrimStart(s), s);
  }

  function Concat(commands: seq<string>): string {
    if commands == [] then "" else Concat(commands[..|commands| - 1]) + commands[|commands| - 1]
  }

  /** Everything a reading has said. */
  function Said(r: Reading): string {
    Concat(r.commands) + r.current
  }

  /** From `r` to `t` the reader ate `n` characters, and says nothing it had not said or eaten. */
  ghost predicate Moves(r: Reading, t: Reading, n: nat) {
    n <= |r.rest| && t.rest == r.rest[n..] && Kept(Said(t), Said(r) + r.rest[..n])
  }

  lemma {:induction false} MovesOn(r: Reading, t: Reading, u: Reading, n: nat, m: nat)
    requires Moves(r, t, n) && Moves(t, u, m)
    ensures Moves(r, u, n + m)
  {
    KeptMore(Said(t), Said(r) + r.rest[..n], t.rest[..m]);
    KeptThrough(Said(u), Said(t) + t.rest[..m], Said(r) + r.rest[..n] + t.rest[..m]);
    CutAgain(r.rest, n, m);
    Assoc(Said(r), r.rest[..n], t.rest[..m]);
  }

  lemma {:induction false} TakingMoves(r: Reading, t: Reading, n: nat)
    requires Took(r, t, n)
    ensures Moves(r, t, n)
  {
    Assoc(Concat(r.commands), r.current, r.rest[..n]);
    KeptSelf(Said(t));
  }

  lemma {:induction false} PassingMoves(r: Reading, t: Reading, n: nat)
    requires Passed(r, t, n)
    ensures Moves(r, t, n)
  {
    KeptSelf(Said(r));
    KeptSkip(Said(r), Said(r), r.rest[..n]);
  }

  lemma {:induction false} FinishingMoves(r: Reading)
    ensures Moves(r, Finished(r), 0)
  {
    var command := Trim(r.current);
    TrimKept(r.current);
    KeptUnder(Concat(r.commands), command, r.current);
    EmptyConcat(Said(r));
    EmptyConcat(r.rest);
    if command == "" {
      assert Finished(r).commands == r.commands && Finished(r).current == "";
    } else {
      var commands := r.commands + [command];
      assert Finished(r).commands == commands && Finished(r).current == "";
      assert commands[..|commands| - 1] == r.commands;
      EmptyConcat(Concat(commands));
    }
  }

  lemma {:induction false} PassedThenFinished(r: Reading, n: nat)
    requires n <= |r.rest|
    ensures Moves(r, Finished(Past(r, n)), n)
  {
    PassingMoves(r, Past(r, n), n);
    FinishingMoves(Past(r, n));
    MovesOn(r, Past(r, n), Finished(Past(r, n)), n, 0);
  }

  lemma {:induction false} BodyIsPassed(rest: string, delimiter: string) returns (n: nat)
    ensures n <= |rest| && PastBody(rest, delimiter) == rest[n..]
    decreases |rest|
  {
    var run := LineRun(rest);
    if run == |rest| || Trim(rest[..run]) == delimiter {
      n := if run == |rest| then run else run + 1;
    } else {
      var m := BodyIsPassed(rest[run + 1..], delimiter);
      n := run + 1 + m;
      CutAgain(rest, run + 1, m);
    }
  }

  lemma {:induction false} BodiesArePassed(rest: string, delimiters: seq<string>, k: nat) returns (n: nat)
    ensures n <= |rest| && PastBodies(rest, delimiters, k) == rest[n..]
    decreases |delimiters| - k
  {
    if k >= |delimiters| {
      n := 0;
      EmptyConcat(rest);
    } else {
      var a := BodyIsPassed(rest, delimiters[k]);
      var b := BodiesArePassed(rest[a..], delimiters, k + 1);
      n := a + b;
      CutAgain(rest, a, b);
    }
  }

  lemma {:induction false} LineEndMoves(r: Reading) returns (n: nat)
    requires r.rest != ""
    ensures Moves(r, BodiesSkipped(Finished(Past(r, 1))), n)
  {
    var ended := Finished(Past(r, 1));
    PassedThenFinished(r, 1);
    var m := BodiesArePassed(ended.rest, ended.heredocs, 0);
    PassingMoves(ended, BodiesSkipped(ended), m);
    MovesOn(r, ended, BodiesSkipped(ended), 1, m);
    n := 1 + m;
  }

  lemma {:induction false} OperatorMoves(r: Reading, split: Split) returns (n: nat)
    requires r.rest != ""
    ensures Moves(r, AfterOperator(r, split), n)
  {
    var t := AfterOperator(r, split);
    OperatorShape(r, split);
    if t == Taken(r, 1) {
      n := 1;
      TakingMoves(r, t, 1);
    } else if t == Finished(Past(r, 1)) {
      n := 1;
      PassedThenFinished(r, 1);
    } else if |r.rest| >= 2 && t == Finished(Past(r, 2)) {
      n := 2;
      PassedThenFinished(r, 2);
    } else {
      n := LineEndMoves(r);
    }
  }

  lemma {:induction false} DelimiterMoves(r: Reading) returns (n: nat)
    ensures Moves(r, WithDelimiter(r), n)
  {
    n := DelimiterRun(r.rest);
    TakingMoves(r, WithDelimiter(r), n);
  }

  lemma {:induction false} HeredocMoves(r: Reading) returns (n: nat)
    requires |r.rest| >= 2
    ensures Moves(r, AfterHeredoc(r), n)
  {
    var marked := Taken(r, 2);
    var m := MarkMoves(marked);
    n := TakenThenMoves(r, marked, 2, MarkRead(marked), m);
  }

  lemma {:induction false} TakenThenMoves(r: Reading, s: Reading, n: nat, t: Reading, m: nat) returns (all: nat)
    requires n <= |r.rest| && s == Taken(r, n) && Moves(s, t, m)
    ensures Moves(r, t, all)
  {
    TakingMoves(r, s, n);
    MovesOn(r, s, t, n, m);
    all := n + m;
  }

  lemma {:induction false} MarkMoves(marked: Reading) returns (n: nat)
    ensures Moves(marked, MarkRead(marked), n)
  {
    if NextIs(marked, '<') {
      n := 1;
      TakingMoves(marked, Taken(marked, 1), 1);
    } else {
      n := DashedMoves(marked);
    }
  }

  lemma {:induction false} DashedMoves(r: Reading) returns (n: nat)
    ensures var dashed := if NextIs(r, '-') then Taken(r, 1) else r;
            Moves(r, WithDelimiter(Taken(dashed, SpaceRun(dashed.rest))), n)
  {
    if NextIs(r, '-') {
      var dashed := Taken(r, 1);
      TakingMoves(r, dashed, 1);
      var m := SpacedDelimiterMoves(dashed);
      MovesOn(r, dashed, WithDelimiter(Taken(dashed, SpaceRun(dashed.rest))), 1, m);
      n := 1 + m;
    } else {
      n := SpacedDelimiterMoves(r);
    }
  }

  lemma {:induction false} SpacedDelimiterMoves(r: Reading) returns (n: nat)
    ensures Moves(r, WithDelimiter(Taken(r, SpaceRun(r.rest))), n)
  {
    var s := SpaceRun(r.rest);
    TakingMoves(r, Taken(r, s), s);
    var m := DelimiterMoves(Taken(r, s));
    MovesOn(r, Taken(r, s), WithDelimiter(Taken(r, s)), s, m);
    n := s + m;
  }

  lemma {:induction false} StepMoves(r: Reading, split: Split) returns (n: nat)
    requires r.rest != ""
    ensures Moves(r, Step(r, split), n)
  {
    var t := Step(r, split);
    n := |r.rest| - |t.rest|;
    if r.quote.Bare? {
      n := UnquotedMoves(r, split);
    } else {
      TakingMoves(r, t, n);
    }
  }

  lemma {:induction false} UnquotedMoves(r: Reading, split: Split) returns (n: nat)
    requires r.rest != ""
    ensures Moves(r, AfterUnquoted(r, split), n)
  {
    var t := AfterUnquoted(r, split);
    n := UnquotedShape(r, split);
    if n <= |r.rest| && t == Past(r, n) {
      PassingMoves(r, t, n);
    } else if TookInto(r, t, n) {
      TakingMoves(r, t, n);
    } else if t == AfterOperator(r, split) {
      n := OperatorMoves(r, split);
    } else {
      n := HeredocMoves(r);
    }
  }

  lemma {:induction false} ScanKeeps(r: Reading, split: Split)
    ensures Kept(Concat(Scan(r, split)), Said(r) + r.rest)
    decreases |r.rest|
  {
    if r.rest == "" {
      FinishingMoves(r);
      EmptyConcat(Concat(Finished(r).commands));
    } else {
      var t := Step(r, split);
      var n := StepMoves(r, split);
      ScanKeeps(t, split);
      KeptMore(Said(t), Said(r) + r.rest[..n], t.rest);
      Assoc(Said(r), r.rest[..n], r.rest[n..]);
      Rejoin(r.rest, n);
      KeptThrough(Concat(Scan(t, split)), Said(t) + t.rest, Said(r) + r.rest);
    }
  }

  /** The commands of a script, one after the other, are the script with characters left out: nothing is invented, and the order stays. */
  lemma {:induction false} CommandsInventNothing(script: string, split: Split)
    ensures Kept(Concat(CommandsOf(script, split)), script)
  {
    ScanKeeps(Start(script), split);
    EmptyConcat(script);
  }
}
