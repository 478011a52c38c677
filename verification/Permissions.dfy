/**
 Command permissions: a pattern matches a whole command, `*` taking any run of
 characters. The matcher keeps only the last star it met; the specification is the
 existence of a split.
 */
module Permissions {
  import opened Wrappers
  import opened Sequences

  /** `text` splits so that each star of `pattern` takes a run and every other character itself. */
  predicate Matches(pattern: string, text: string) {
    if pattern == "" then text == ""
    else if pattern[0] == '*' then
      exists k :: 0 <= k <= |text| && Matches(pattern[1..], text[k..])
    else
      text != "" && text[0] == pattern[0] && Matches(pattern[1..], text[1..])
  }

  /** The same said at once: one piece of text for each character of the pattern. */
  ghost predicate Splits(pattern: string, text: string) {
    exists pieces: seq<string> :: IsSplit(pattern, text, pieces)
  }

  ghost predicate IsSplit(pattern: string, text: string, pieces: seq<string>) {
    && |pieces| == |pattern|
    && Concat(pieces) == text
    && (forall i :: 0 <= i < |pattern| && pattern[i] != '*' ==> pieces[i] == [pattern[i]])
  }

  function Concat(pieces: seq<string>): string {
    if pieces == [] then "" else pieces[0] + Concat(pieces[1..])
  }

  lemma {:induction false} MatchesIsSplits(pattern: string, text: string)
    ensures Matches(pattern, text) <==> Splits(pattern, text)
  {
    if Matches(pattern, text) {
      var pieces := SplitOf(pattern, text);
      assert IsSplit(pattern, text, pieces);
    }
    if Splits(pattern, text) {
      var pieces :| IsSplit(pattern, text, pieces);
      SplitMatches(pattern, text, pieces);
    }
  }

  lemma {:induction false} SplitOf(pattern: string, text: string) returns (pieces: seq<string>)
    requires Matches(pattern, text)
    ensures IsSplit(pattern, text, pieces)
  {
    if pattern == "" {
      pieces := [];
    } else {
      var k := 1;
      if pattern[0] == '*' {
        k :| 0 <= k <= |text| && Matches(pattern[1..], text[k..]);
      }
      var rest := SplitOf(pattern[1..], text[k..]);
      pieces := [text[..k]] + rest;
      Rejoin(text, k);
      assert pieces[1..] == rest;
      assert pattern[0] != '*' ==> text[..k] == [pattern[0]];
      assert forall i :: 0 < i < |pattern| ==> pattern[i] == pattern[1..][i - 1] && pieces[i] == rest[i - 1];
    }
  }

  lemma {:induction false} SplitMatches(pattern: string, text: string, pieces: seq<string>)
    requires IsSplit(pattern, text, pieces)
    ensures Matches(pattern, text)
    decreases |pattern|
  {
    if pattern != "" {
      var k := |pieces[0]|;
      assert text[k..] == Concat(pieces[1..]) && text[..k] == pieces[0];
      assert forall i :: 0 <= i < |pattern| - 1 ==> pattern[1..][i] == pattern[i + 1] && pieces[1..][i] == pieces[i + 1];
      SplitMatches(pattern[1..], text[k..], pieces[1..]);
    }
  }

  // ------------------------------------------------------------------ the matcher

  /** What follows literal characters matches where they do. */
  lemma {:induction false} LiteralsThen(lit: string, rest: string, text: string)
    requires '*' !in lit
    ensures Matches(lit + rest, text) <==> lit <= text && Matches(rest, text[|lit|..])
    decreases |lit|
  {
    if lit == "" {
      EmptyConcat(rest);
      EmptyConcat(text);
    } else {
      TailOfConcat(lit, rest);
      if text != "" && text[0] == lit[0] {
        LiteralsThen(lit[1..], rest, text[1..]);
        assert lit <= text <==> lit[1..] <= text[1..];
        if |lit| <= |text| {
          assert text[1..][|lit| - 1..] == text[|lit|..];
        }
      }
    }
  }

  /** Some run for the star at `sp`, starting no earlier than `st`, matches the rest. */
  ghost predicate StarFrom(pattern: string, text: string, sp: nat, st: nat)
    requires sp < |pattern|
  {
    exists k :: st <= k <= |text| && Matches(pattern[sp + 1..], text[k..])
  }

  /** The pattern between the last star and `p` stands literally in the text from `st`. */
  ghost predicate Aligned(pattern: string, text: string, sp: nat, st: nat, p: nat, t: nat) {
    && sp < p <= |pattern| && st <= t <= |text| && p - (sp + 1) == t - st
    && pattern[sp + 1..p] == text[st..t]
    && '*' !in pattern[sp + 1..p]
  }

  /** Meeting a second star, the first need only be tried where it stands. */
  lemma {:induction false} LastStarSuffices(pattern: string, text: string, sp: nat, st: nat, p: nat, t: nat)
    requires Aligned(pattern, text, sp, st, p, t) && p < |pattern| && pattern[p] == '*'
    ensures StarFrom(pattern, text, sp, st) <==> StarFrom(pattern, text, p, t)
  {
    var lit, rest := pattern[sp + 1..p], pattern[p..];
    assert pattern[sp + 1..] == lit + rest && rest[0] == '*' && rest[1..] == pattern[p + 1..];
    if StarFrom(pattern, text, sp, st) {
      var k :| st <= k <= |text| && Matches(lit + rest, text[k..]);
      LiteralsThen(lit, rest, text[k..]);
      assert text[k..][|lit|..] == text[k + |lit|..];
      StarIsOpen(pattern, text, p, k + |lit|);
    }
    if StarFrom(pattern, text, p, t) {
      StarIsOpen(pattern, text, p, t);
      LiteralsThen(lit, rest, text[st..]);
      assert text[st..][|lit|..] == text[t..] && lit <= text[st..];
    }
  }

  /** A mismatch after the last star rules out the run it stands at. */
  lemma {:induction false} MismatchMovesStar(pattern: string, text: string, sp: nat, st: nat, p: nat, t: nat)
    requires Aligned(pattern, text, sp, st, p, t) && t < |text|
    requires p == |pattern| || (pattern[p] != '*' && pattern[p] != text[t])
    ensures StarFrom(pattern, text, sp, st) <==> StarFrom(pattern, text, sp, st + 1)
  {
    var lit, rest := pattern[sp + 1..p], pattern[p..];
    assert pattern[sp + 1..] == lit + rest;
    LiteralsThen(lit, rest, text[st..]);
    assert text[st..][|lit|..] == text[t..] && text[t..][0] == text[t];
  }

  /** At the end of the text, the star matches exactly when what is left of the pattern is stars. */
  lemma {:induction false} EndOfText(pattern: string, text: string, sp: nat, st: nat, p: nat)
    requires Aligned(pattern, text, sp, st, p, |text|)
    ensures StarFrom(pattern, text, sp, st) <==> Matches(pattern[p..], "")
  {
    var lit, rest := pattern[sp + 1..p], pattern[p..];
    assert pattern[sp + 1..] == lit + rest;
    LiteralsThen(lit, rest, text[st..]);
    assert text[st..][|lit|..] == "" && text[st..] == text[st..|text|];
    if StarFrom(pattern, text, sp, st) {
      var k :| st <= k <= |text| && Matches(pattern[sp + 1..], text[k..]);
      LiteralsThen(lit, rest, text[k..]);
      assert |lit| <= |text[k..]|;
      assert k == st;
    }
  }

  /** A pattern left at the end of the text matches only when every character is a star. */
  lemma {:induction false} StarsMatchNothing(pattern: string, p: nat)
    requires p <= |pattern|
    ensures p < |pattern| && pattern[p] == '*' ==> (Matches(pattern[p..], "") <==> Matches(pattern[p + 1..], ""))
    ensures p == |pattern| || pattern[p] != '*' ==> (Matches(pattern[p..], "") <==> p == |pattern|)
  {
    if p < |pattern| {
      assert pattern[p..][0] == pattern[p] && pattern[p..][1..] == pattern[p + 1..];
      EmptyConcat("");
    }
  }

  /** Where the search stands: nothing skipped before the first star, only the last star's run open after it. */
  ghost predicate Searching(pattern: string, text: string, star: Option<(nat, nat)>, p: nat, t: nat) {
    && p <= |pattern| && t <= |text|
    && match star
       case None => Matches(pattern, text) <==> Matches(pattern[p..], text[t..])
       case Some((sp, st)) =>
         Aligned(pattern, text, sp, st, p, t) && (Matches(pattern, text) <==> StarFrom(pattern, text, sp, st))
  }

  lemma {:induction false} SearchStarts(pattern: string, text: string)
    ensures Searching(pattern, text, None, 0, 0)
  {
    EmptyConcat(pattern);
    EmptyConcat(text);
  }

  lemma {:induction false} StarIsOpen(pattern: string, text: string, p: nat, t: nat)
    requires p < |pattern| && pattern[p] == '*' && t <= |text|
    ensures Matches(pattern[p..], text[t..]) <==> StarFrom(pattern, text, p, t)
  {
    assert pattern[p..][0] == '*' && pattern[p..][1..] == pattern[p + 1..];
    if Matches(pattern[p..], text[t..]) {
      var k :| 0 <= k <= |text[t..]| && Matches(pattern[p..][1..], text[t..][k..]);
      assert text[t..][k..] == text[t + k..];
    }
    if StarFrom(pattern, text, p, t) {
      var k :| t <= k <= |text| && Matches(pattern[p + 1..], text[k..]);
      assert text[t..][k - t..] == text[k..];
    }
  }

  lemma {:induction false} StarMet(pattern: string, text: string, star: Option<(nat, nat)>, p: nat, t: nat)
    requires Searching(pattern, text, star, p, t) && p < |pattern| && pattern[p] == '*'
    ensures Searching(pattern, text, Some((p, t)), p + 1, t)
  {
    assert pattern[p + 1..p + 1] == text[t..t];
    if star.Some? {
      LastStarSuffices(pattern, text, star.value.0, star.value.1, p, t);
    } else {
      StarIsOpen(pattern, text, p, t);
    }
  }

  lemma {:induction false} CharacterMet(pattern: string, text: string, star: Option<(nat, nat)>, p: nat, t: nat)
    requires Searching(pattern, text, star, p, t)
    requires p < |pattern| && t < |text| && pattern[p] == text[t] && pattern[p] != '*'
    ensures Searching(pattern, text, star, p + 1, t + 1)
  {
    if star.Some? {
      var (sp, st) := star.value;
      assert pattern[sp + 1..p + 1] == pattern[sp + 1..p] + [pattern[p]];
      assert text[st..t + 1] == text[st..t] + [text[t]];
    } else {
      assert pattern[p..][0] == pattern[p] && pattern[p..][1..] == pattern[p + 1..];
      assert text[t..][0] == text[t] && text[t..][1..] == text[t + 1..];
    }
  }

  lemma {:induction false} MismatchMet(pattern: string, text: string, star: Option<(nat, nat)>, p: nat, t: nat)
    requires Searching(pattern, text, star, p, t) && t < |text|
    requires p == |pattern| || (pattern[p] != '*' && pattern[p] != text[t])
    ensures star.None? ==> !Matches(pattern, text)
    ensures star.Some? ==> Searching(pattern, text, Some((star.value.0, star.value.1 + 1)), star.value.0 + 1, star.value.1 + 1)
  {
    if star.Some? {
      var (sp, st) := star.value;
      MismatchMovesStar(pattern, text, sp, st, p, t);
      assert pattern[sp + 1..sp + 1] == text[st + 1..st + 1];
    } else {
      assert text[t..][0] == text[t];
      assert p < |pattern| ==> pattern[p..][0] == pattern[p];
    }
  }

  lemma {:induction false} TextSpent(pattern: string, text: string, star: Option<(nat, nat)>, p: nat)
    requires Searching(pattern, text, star, p, |text|)
    ensures Matches(pattern, text) <==> Matches(pattern[p..], "")
  {
    if star.Some? {
      EndOfText(pattern, text, star.value.0, star.value.1, p);
    } else {
      assert text[|text|..] == "";
    }
  }

  function StarText(star: Option<(nat, nat)>): nat {
    if star.Some? then star.value.1 else 0
  }

  function StarsPassed(star: Option<(nat, nat)>): nat {
    if star.Some? then star.value.0 + 1 else 0
  }

  /** Passes over the stars left once the text is spent. */
  method OnlyStarsLeft(pattern: string, from: nat) returns (all: bool)
    requires from <= |pattern|
    ensures all <==> Matches(pattern[from..], "")
  {
    var p := from;
    while p < |pattern| && pattern[p] == '*'
      invariant from <= p <= |pattern|
      invariant Matches(pattern[from..], "") <==> Matches(pattern[p..], "")
    {
      StarsMatchNothing(pattern, p);
      p := p + 1;
    }
    StarsMatchNothing(pattern, p);
    all := p == |pattern|;
  }

  method GlobMatch(pattern: string, text: string) returns (matched: bool)
    ensures matched <==> Matches(pattern, text)
  {
    var p, t := 0, 0;
    var star: Option<(nat, nat)> := None;
    SearchStarts(pattern, text);
    while t < |text|
      invariant Searching(pattern, text, star, p, t)
      decreases |text| - StarText(star), |pattern| - StarsPassed(star), |text| - t
    {
      if p < |pattern| && pattern[p] == '*' {
        StarMet(pattern, text, star, p, t);
        star, p := Some((p, t)), p + 1;
      } else if p < |pattern| && pattern[p] == text[t] {
        CharacterMet(pattern, text, star, p, t);
        p, t := p + 1, t + 1;
      } else {
        MismatchMet(pattern, text, star, p, t);
        if star.None? {
          return false;
        }
        var (sp, st) := star.value;
        p, t, star := sp + 1, st + 1, Some((sp, st + 1));
      }
    }
    TextSpent(pattern, text, star, p);
    matched := OnlyStarsLeft(pattern, p);
  }

  // ------------------------------------------------------------------ the decision

  datatype CommandLists = CommandLists(deny: seq<string>, allow: seq<string>)

  datatype Permissions = Permissions(commands: Option<CommandLists>)

  datatype DeniedBy = ByDeny(pattern: string) | ByAllow

  datatype DeniedCommand = DeniedCommand(command: string, reason: DeniedBy)

  predicate MatchesAny(patterns: seq<string>, command: string) {
    exists i :: 0 <= i < |patterns| && Matches(patterns[i], command)
  }

  predicate Permitted(command: string, lists: CommandLists) {
    !MatchesAny(lists.deny, command) && (lists.allow == [] || MatchesAny(lists.allow, command))
  }

  /**
   Nothing is denied when nothing governs commands. Otherwise a command runs exactly when
   no deny matches and the allow list is empty or matches; a refusal names the first deny
   that matches, and the allow list only when no deny does.
   */
  method CommandViolation(command: string, permissions: Option<Permissions>) returns (r: Option<DeniedCommand>)
    ensures permissions.None? || permissions.value.commands.None? ==> r.None?
    ensures permissions.Some? && permissions.value.commands.Some? ==>
              var lists := permissions.value.commands.value;
              && (r.None? <==> Permitted(command, lists))
              && (r.Some? ==> r.value.command == command)
              && (r.Some? && r.value.reason.ByAllow? ==> !MatchesAny(lists.deny, command))
              && (r.Some? && r.value.reason.ByDeny? ==>
                    exists i :: 0 <= i < |lists.deny| && lists.deny[i] == r.value.reason.pattern
                             && Matches(lists.deny[i], command) && !MatchesAny(lists.deny[..i], command))
  {
    if permissions.None? || permissions.value.commands.None? {
      return None;
    }
    var lists := permissions.value.commands.value;
    for i := 0 to |lists.deny|
      invariant !MatchesAny(lists.deny[..i], command)
    {
      var matched := GlobMatch(lists.deny[i], command);
      if matched {
        return Some(DeniedCommand(command, ByDeny(lists.deny[i])));
      }
      LastSplit(lists.deny[..i + 1]);
      assert lists.deny[..i + 1][..i] == lists.deny[..i];
    }
    EmptyConcat(lists.deny);
    if lists.allow != [] {
      var any, i := false, 0;
      while i < |lists.allow| && !any
        invariant 0 <= i <= |lists.allow|
        invariant any <==> MatchesAny(lists.allow[..i], command)
      {
        any := GlobMatch(lists.allow[i], command);
        MatchesAnySnoc(lists.allow, i, command);
        i := i + 1;
      }
      if any {
        MatchesAnyPrefix(lists.allow, i, command);
      } else {
        EmptyConcat(lists.allow);
        return Some(DeniedCommand(command, ByAllow));
      }
    }
    return None;
  }

  lemma {:induction false} MatchesAnySnoc(patterns: seq<string>, i: nat, command: string)
    requires i < |patterns|
    ensures MatchesAny(patterns[..i + 1], command) <==> MatchesAny(patterns[..i], command) || Matches(patterns[i], command)
  {
    var more := patterns[..i + 1];
    assert more[i] == patterns[i];
    if MatchesAny(patterns[..i], command) {
      var k :| 0 <= k < i && Matches(patterns[..i][k], command);
      assert more[k] == patterns[..i][k];
    }
    if MatchesAny(more, command) {
      var k :| 0 <= k < |more| && Matches(more[k], command);
      if k < i { assert patterns[..i][k] == more[k]; }
    }
  }

  lemma {:induction false} MatchesAnyPrefix(patterns: seq<string>, i: nat, command: string)
    requires i <= |patterns| && MatchesAny(patterns[..i], command)
    ensures MatchesAny(patterns, command)
  {
    var k :| 0 <= k < i && Matches(patterns[..i][k], command);
    assert patterns[k] == patterns[..i][k];
  }
}
