/**
 What the signs of the glob language select, each between two plain texts: the paths are
 said without the tokens a glob compiles to.
 */
module GlobMeaning {
  import opened Wrappers
  import opened Sequences
  import opened GlobSyntax
  import opened GlobOverlap

  /** The path starts with the one text and ends with the other, and the two do not meet. */
  predicate Around(head: string, tail: string, path: string) {
    |head| + |tail| <= |path| && head <= path && EndsWith(path, tail)
  }

  /** What stands between the two. */
  function Middle(head: string, tail: string, path: string): string
    requires Around(head, tail, path)
  {
    path[|head|..|path| - |tail|]
  }

  lemma {:induction false} MiddleJoins(head: string, tail: string, path: string)
    requires Around(head, tail, path)
    ensures path == (head + Middle(head, tail, path)) + tail
  {
    assert path == path[..|path| - |tail|] + path[|path| - |tail|..];
    assert path[..|path| - |tail|] == path[..|head|] + path[|head|..|path| - |tail|];
  }

  lemma {:induction false} JoinedIsAround(head: string, mid: string, tail: string)
    ensures Around(head, tail, (head + mid) + tail) && Middle(head, tail, (head + mid) + tail) == mid
  {
    var path := (head + mid) + tail;
    assert path[..|head|] == head && path[|path| - |tail|..] == tail;
  }

  lemma {:induction false} SpelledIsAround(head: string, t: Token, tail: string, path: string)
    requires Spells((Literals(head) + [t]) + Literals(tail), path)
    ensures Around(head, tail, path) && TokenSpells(t, Middle(head, tail, path))
  {
    var k := SplitSpelling(Literals(head) + [t], Literals(tail), path);
    var front, back := path[..k], path[k..];
    Rejoin(path, k);
    LiteralsSpell(tail, back);
    var j := SplitSpelling(Literals(head), [t], front);
    Rejoin(front, j);
    LiteralsSpell(head, front[..j]);
    SingleSpelling(t, front[j..]);
    JoinedIsAround(head, front[j..], tail);
  }

  lemma {:induction false} AroundIsSpelled(head: string, t: Token, tail: string, path: string)
    requires Around(head, tail, path) && TokenSpells(t, Middle(head, tail, path))
    ensures Spells((Literals(head) + [t]) + Literals(tail), path)
  {
    var mid := Middle(head, tail, path);
    MiddleJoins(head, tail, path);
    LiteralsSpell(head, head);
    LiteralsSpell(tail, tail);
    SingleSpelling(t, mid);
    JoinSpelling(Literals(head), [t], head, mid);
    JoinSpelling(Literals(head) + [t], Literals(tail), head + mid, tail);
  }

  /** A glob that compiles to one token between two texts selects what the token spells between them. */
  lemma {:induction false} SelectsBetween(glob: string, head: string, t: Token, tail: string, path: string)
    requires Compile(glob) == Some((Literals(head) + [t]) + Literals(tail)) && (t.RecursivePrefix? ==> head != "" || tail != "")
    ensures Selects(glob, path) <==> Around(head, tail, path) && TokenSpells(t, Middle(head, tail, path))
  {
    var ts := (Literals(head) + [t]) + Literals(tail);
    assert ts[|head|] == t && |ts| == |head| + 1 + |tail|;
    if Spells(ts, path) {
      SpelledIsAround(head, t, tail, path);
    }
    if Around(head, tail, path) && TokenSpells(t, Middle(head, tail, path)) {
      AroundIsSpelled(head, t, tail, path);
    }
  }

  /** Where the parts of a glob stand. */
  lemma {:induction false} Laid(head: string, element: string, tail: string)
    ensures var glob, i := head + (element + tail), |head|;
            && glob[..i] == head && glob[i + |element|..] == tail && glob[i..i + |element|] == element
            && forall k :: 0 <= k < |element| ==> glob[i + k] == element[k]
  {
  }

  lemma {:induction false} HeadThen(glob: string, head: string, ts: seq<Token>)
    requires |head| <= |glob| && glob[..|head|] == head && AllText(head)
    requires Run(glob, |head|, State([Literals(head)], [])) == Some(State([ts], []))
    ensures Compile(glob) == Some(ts)
  {
    RunsHead(glob, head);
  }

  lemma {:induction false} ElementThen(glob: string, i: nat, j: nat, ts: seq<Token>, t: Token, tail: string)
    requires i <= j <= |glob| && glob[j..] == tail && AllPlain(tail)
    requires Run(glob, i, State([ts], [])) == Run(glob, j, State([ts + [t]], []))
    ensures Run(glob, i, State([ts], [])) == Some(State([(ts + [t]) + Literals(tail)], []))
  {
    StarredEnds(glob, j, ts + [t], tail);
  }

  /** A glob whose element compiles to one token. */
  lemma {:induction false} OneElement(glob: string, head: string, n: nat, t: Token, tail: string)
    requires |head| + n <= |glob| && glob[..|head|] == head && glob[|head| + n..] == tail && AllText(head) && AllPlain(tail)
    requires Run(glob, |head|, State([Literals(head)], [])) == Run(glob, |head| + n, State([Literals(head) + [t]], []))
    ensures Compile(glob) == Some((Literals(head) + [t]) + Literals(tail))
  {
    ElementThen(glob, |head|, |head| + n, Literals(head), t, tail);
    HeadThen(glob, head, (Literals(head) + [t]) + Literals(tail));
  }

  lemma {:induction false} OneStep(glob: string, i: nat, ts: seq<Token>, n: nat, t: Token)
    requires i < i + n <= |glob| && Step(glob, i, State([ts], [])) == Some((i + n, Push(State([ts], []), t)))
    ensures Run(glob, i, State([ts], [])) == Run(glob, i + n, State([ts + [t]], []))
  {
    assert Push(State([ts], []), t) == State([ts + [t]], []);
  }

  // -------------------------------------------------------------- one name, one sign

  /** A star takes any run of one name. */
  lemma {:induction false} StarSelectsExactly(head: string, tail: string, path: string)
    requires AllText(head) && AllPlain(tail)
    ensures Selects(head + ("*" + tail), path) <==> Around(head, tail, path) && '/' !in Middle(head, tail, path)
  {
    StarredCompiles(head, tail);
    SelectsBetween(Starred(head, tail), head, ZeroOrMore, tail, path);
  }

  /** A question mark takes any one sign but a separator. */
  lemma {:induction false} QuestionSelectsExactly(head: string, tail: string, path: string)
    requires AllText(head) && AllPlain(tail)
    ensures Selects(head + ("?" + tail), path) <==>
            Around(head, tail, path) && |Middle(head, tail, path)| == 1 && Middle(head, tail, path)[0] != '/'
  {
    var glob := head + ("?" + tail);
    Laid(head, "?", tail);
    assert glob[|head| + 0] == '?';
    OneStep(glob, |head|, Literals(head), 1, AnyChar);
    OneElement(glob, head, 1, AnyChar, tail);
    SelectsBetween(glob, head, AnyChar, tail, path);
  }

  /** A class of one range, behind a sign that negates it or not. */
  function RangeText(mark: string, lo: char, hi: char): string {
    if IsNegation(mark) then ['[', mark[0], lo, '-', hi, ']'] else ['[', lo, '-', hi, ']']
  }

  predicate IsNegation(mark: string) {
    mark == "!" || mark == "^"
  }

  predicate IsRangeEnd(lo: char, hi: char) {
    lo != '!' && lo != '^' && hi != ']'
  }

  lemma {:induction false} RangeBody(glob: string, j: nat, lo: char, hi: char)
    requires j + 4 <= |glob| && glob[j] == lo && glob[j + 1] == '-' && glob[j + 2] == hi && glob[j + 3] == ']' && hi != ']'
    ensures ClassBody(glob, j, true, false, []) == if hi < lo then None else Some(([Range(lo, hi)], j + 4))
  {
    assert [] + [Range(lo, lo)] == [Range(lo, lo)];
    assert [Range(lo, lo)][0 := Range(lo, hi)] == [Range(lo, hi)];
    assert ClassBody(glob, j, true, false, []) == ClassBody(glob, j + 1, false, false, [Range(lo, lo)]);
    assert ClassBody(glob, j + 1, false, false, [Range(lo, lo)]) == ClassBody(glob, j + 2, false, true, [Range(lo, lo)]);
    assert hi >= lo ==> ClassBody(glob, j + 2, false, true, [Range(lo, lo)]) == ClassBody(glob, j + 3, false, false, [Range(lo, hi)]);
  }

  lemma {:induction false} RangeParses(glob: string, i: nat, mark: string, lo: char, hi: char)
    requires IsRangeEnd(lo, hi) && i + |RangeText(mark, lo, hi)| <= |glob|
    requires forall k :: 0 <= k < |RangeText(mark, lo, hi)| ==> glob[i + k] == RangeText(mark, lo, hi)[k]
    ensures glob[i] == '['
    ensures ParseClass(glob, i + 1) == if hi < lo then None else Some((Class(IsNegation(mark), [Range(lo, hi)]), i + |RangeText(mark, lo, hi)|))
  {
    var text := RangeText(mark, lo, hi);
    assert glob[i + 0] == text[0] && glob[i + 1] == text[1] && glob[i + 2] == text[2] && glob[i + 3] == text[3] && glob[i + 4] == text[4];
    if IsNegation(mark) {
      assert glob[i + 5] == text[5];
      RangeBody(glob, i + 2, lo, hi);
    } else {
      RangeBody(glob, i + 1, lo, hi);
    }
  }

  lemma {:induction false} RangeSpells(mark: string, lo: char, hi: char, s: string)
    ensures TokenSpells(Class(IsNegation(mark), [Range(lo, hi)]), s) <==> |s| == 1 && (lo <= s[0] <= hi) != IsNegation(mark)
  {
    if |s| == 1 {
      assert InClass(s[0], [Range(lo, hi)]) <==> lo <= s[0] <= hi by {
        assert [Range(lo, hi)][0] == Range(lo, hi);
      }
    }
  }

  lemma {:induction false} NoElement(glob: string, head: string)
    requires |head| < |glob| && glob[..|head|] == head && AllText(head) && Step(glob, |head|, State([Literals(head)], [])) == None
    ensures Compile(glob) == None
  {
    RunsHead(glob, head);
  }

  lemma {:induction false} RangeCompiles(head: string, mark: string, lo: char, hi: char, tail: string)
    requires AllText(head) && AllPlain(tail) && IsRangeEnd(lo, hi)
    ensures Compile(head + (RangeText(mark, lo, hi) + tail))
         == if hi < lo then None else Some((Literals(head) + [Class(IsNegation(mark), [Range(lo, hi)])]) + Literals(tail))
  {
    var text := RangeText(mark, lo, hi);
    var glob, cls := head + (text + tail), Class(IsNegation(mark), [Range(lo, hi)]);
    Laid(head, text, tail);
    RangeParses(glob, |head|, mark, lo, hi);
    if hi < lo {
      NoElement(glob, head);
    } else {
      OneStep(glob, |head|, Literals(head), |text|, cls);
      OneElement(glob, head, |text|, cls, tail);
    }
  }

  /** A class takes one sign of its range, a negated one any other sign; a range that runs down is no glob. */
  lemma {:induction false} RangeSelectsExactly(head: string, mark: string, lo: char, hi: char, tail: string, path: string)
    requires AllText(head) && AllPlain(tail) && IsRangeEnd(lo, hi)
    ensures Selects(head + (RangeText(mark, lo, hi) + tail), path) <==>
            && lo <= hi && Around(head, tail, path) && |Middle(head, tail, path)| == 1
            && (lo <= Middle(head, tail, path)[0] <= hi) != IsNegation(mark)
  {
    RangeCompiles(head, mark, lo, hi, tail);
    if lo <= hi {
      SelectsBetween(head + (RangeText(mark, lo, hi) + tail), head, Class(IsNegation(mark), [Range(lo, hi)]), tail, path);
      if Around(head, tail, path) {
        RangeSpells(mark, lo, hi, Middle(head, tail, path));
      }
    }
  }

  /** What stands behind a text in a glob. */
  lemma {:induction false} Advance(glob: string, i: nat, text: string, rest: string)
    requires i <= |glob| && glob[i..] == text + rest
    ensures i + |text| <= |glob| && glob[i..i + |text|] == text && glob[i + |text|..] == rest
  {
  }

  lemma {:induction false} Begins(head: string, rest: string)
    ensures (head + rest)[..|head|] == head && (head + rest)[|head|..] == rest
  {
  }

  // -------------------------------------------------------------------- recursions

  lemma {:induction false} RunLeading(glob: string)
    requires |glob| >= 3 && glob[0] == '*' && glob[1] == '*' && glob[2] == '/'
    ensures Run(glob, 0, State([Literals("")], [])) == Run(glob, 3, State([Literals("") + [RecursivePrefix]], []))
  {
    OneStep(glob, 0, Literals(""), 3, RecursivePrefix);
  }

  /** A recursion at the start takes nothing, or directories down to a separator. */
  lemma {:induction false} LeadingRecursionSelectsExactly(tail: string, path: string)
    requires AllPlain(tail) && tail != ""
    ensures Selects("**/" + tail, path) <==> path == tail || EndsWith(path, "/" + tail)
  {
    var glob := "**/" + tail;
    assert glob[0] == '*' && glob[1] == '*' && glob[2] == '/' && glob[3..] == tail && glob[..0] == "";
    RunLeading(glob);
    OneElement(glob, "", 3, RecursivePrefix, tail);
    SelectsBetween(glob, "", RecursivePrefix, tail, path);
    BelowExactly(tail, path);
  }

  lemma {:induction false} BelowExactly(tail: string, path: string)
    ensures Around("", tail, path) && TokenSpells(RecursivePrefix, Middle("", tail, path)) <==> path == tail || EndsWith(path, "/" + tail)
  {
    if EndsWith(path, tail) {
      var n := |path| - |tail|;
      var mid := Middle("", tail, path);
      assert mid == path[..n];
      Rejoin(path, n);
      if n > 0 {
        assert mid[|mid| - 1] == path[n - 1];
        assert path[n - 1..] == [path[n - 1]] + tail;
      } else {
        assert mid == "" && path == tail;
      }
    }
    if EndsWith(path, "/" + tail) {
      assert path[|path| - |tail|..] == path[|path| - |tail| - 1..][1..];
    }
  }

  lemma {:induction false} RunSeparatorRecursion(glob: string, i: nat, ts: seq<Token>, tail: string)
    requires i <= |glob| && glob[i..] == ['/', '*', '*', '/'] + tail
    ensures i + 4 <= |glob| && glob[i + 4..] == tail
    ensures Run(glob, i, State([ts], [])) == Run(glob, i + 4, State([ts + [RecursiveZeroOrMore]], []))
  {
    Advance(glob, i, ['/', '*', '*', '/'], tail);
    var mark := glob[i..i + 4];
    assert glob[i] == mark[0] && glob[i + 1] == mark[1] && glob[i + 2] == mark[2] && glob[i + 3] == mark[3];
    OneStep(glob, i, ts, 1, Literal('/'));
    StepSeparatorRecursion(glob, i, ts);
  }

  lemma {:induction false} StepSeparatorRecursion(glob: string, i: nat, ts: seq<Token>)
    requires i + 4 <= |glob| && glob[i] == '/' && glob[i + 1] == '*' && glob[i + 2] == '*' && glob[i + 3] == '/'
    ensures Run(glob, i + 1, State([ts + [Literal('/')]], [])) == Run(glob, i + 4, State([ts + [RecursiveZeroOrMore]], []))
  {
    var slashed := State([ts + [Literal('/')]], []);
    assert Top(slashed)[..|ts|] == ts && Top(slashed)[|ts|] == Literal('/');
    assert WithTop(slashed, ts + [RecursiveZeroOrMore]) == State([ts + [RecursiveZeroOrMore]], []);
    assert Step(glob, i + 1, slashed) == Some((i + 4, State([ts + [RecursiveZeroOrMore]], [])));
  }

  lemma {:induction false} InnerRecursionCompiles(head: string, tail: string)
    requires AllText(head) && AllPlain(tail)
    ensures Compile(head + (['/', '*', '*', '/'] + tail)) == Some((Literals(head) + [RecursiveZeroOrMore]) + Literals(tail))
  {
    var rest := ['/', '*', '*', '/'] + tail;
    var glob := head + rest;
    Begins(head, rest);
    RunSeparatorRecursion(glob, |head|, Literals(head), tail);
    OneElement(glob, head, 4, RecursiveZeroOrMore, tail);
  }

  /** A recursion between two texts takes one separator, or directories between two. */
  lemma {:induction false} InnerRecursionSelectsExactly(head: string, tail: string, path: string)
    requires AllText(head) && AllPlain(tail)
    ensures Selects(head + (['/', '*', '*', '/'] + tail), path) <==>
            && Around(head, tail, path)
            && var mid := Middle(head, tail, path); mid != "" && mid[0] == '/' && mid[|mid| - 1] == '/'
  {
    InnerRecursionCompiles(head, tail);
    SelectsBetween(head + (['/', '*', '*', '/'] + tail), head, RecursiveZeroOrMore, tail, path);
  }

  /** Two stars alone select every path. */
  lemma {:induction false} RecursionSelectsAll(path: string)
    ensures Selects("**", path)
  {
    OneStep("**", 0, [], 2, RecursivePrefix);
    assert [] + [RecursivePrefix] == [RecursivePrefix];
    assert Run("**", 2, State([[RecursivePrefix]], [])) == Some(State([[RecursivePrefix]], []));
  }
}
