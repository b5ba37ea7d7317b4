// glob_match of src/util/glob.c without directory separators: one pass over the string that, on a mismatch, goes back
// to the last star only. Characters are bytes.
module Glob {
  import opened Wrappers

  const NUL: char := '\0'

  /** Whether char is signed is up to the compiler. It decides the order of the characters and which one is greatest. */
  datatype CharType = Signed | Unsigned {
    function Rank(c: char): int { if this == Signed && c > '\U{7F}' then c as int - 0x100 else c as int }
    function Greatest(): char { if this == Signed then '\U{7F}' else '\U{FF}' }
  }

  // The texts of C strings
  predicate Text(s: string) {
    forall i: nat | i < |s| :: NUL < s[i] <= '\U{FF}'
  }

  // What a C string reads as at a position; the terminator is at the end
  function At(s: string, i: nat): char { if i < |s| then s[i] else NUL }

  predicate InSpan(ct: CharType, c: char, lo: char, hi: char) { ct.Rank(lo) <= ct.Rank(c) <= ct.Rank(hi) }
  function Span(ct: CharType, lo: char, hi: char): set<char> { set c: char | c <= '\U{FF}' && InSpan(ct, c, lo, hi) }

  /** The members of a set between its bracket and its end, and where that end is: the closing bracket,
      or the terminator of an unclosed set. A span without an end closes the set early. */
  function Members(ct: CharType, p: string, i: nat, acc: set<char>): (r: (nat, set<char>))
    requires i <= |p|
    ensures i <= r.0 <= |p|
    ensures acc <= r.1
    decreases |p| - i
  {
    if i == |p| || p[i] == ']' then (i, acc)
    else if At(p, i + 1) == '-' then
      if At(p, i + 2) == ']' || At(p, i + 2) == NUL then (i + 2, acc)
      else Members(ct, p, i + 3, acc + Span(ct, p[i], p[i + 2]))
    else Members(ct, p, i + 1, acc + {p[i]})
  }

  predicate Inverted(p: string, i: nat) { At(p, i + 1) == '!' }
  function SetStart(p: string, i: nat): (r: nat)
    requires i < |p|
    ensures i < r <= |p|
  {
    if Inverted(p, i) then i + 2 else i + 1
  }

  /** A span of the set from i on ends at the greatest character: the counter that goes through it never gets beyond. */
  predicate Endless(ct: CharType, p: string, i: nat)
    requires i <= |p|
    decreases |p| - i
  {
    if i == |p| || p[i] == ']' then false
    else if At(p, i + 1) == '-' then
      if At(p, i + 2) == ']' || At(p, i + 2) == NUL then false
      else p[i + 2] == ct.Greatest() || Endless(ct, p, i + 3)
    else Endless(ct, p, i + 1)
  }

  // ---- What a pattern means ----

  // Where the token at i that matches one character ends, and whether it accepts c
  function TokenEnd(ct: CharType, p: string, i: nat): (e: nat)
    requires i < |p| && p[i] != '*'
    ensures i < e <= |p|
  {
    if p[i] != '[' then i + 1 else
    var (e, _) := Members(ct, p, SetStart(p, i), {});
    if e < |p| then e + 1 else |p|
  }

  // The bit of a character in the set of the token at i
  predicate InSet(ct: CharType, p: string, i: nat, c: char)
    requires i < |p|
  {
    (c in Members(ct, p, SetStart(p, i), {}).1) != Inverted(p, i)
  }

  predicate Unclosed(ct: CharType, p: string, i: nat)
    requires i < |p|
  {
    Members(ct, p, SetStart(p, i), {}).0 == |p|
  }

  predicate Accepts(ct: CharType, p: string, i: nat, c: char)
    requires i < |p| && p[i] != '*'
  {
    if p[i] == '?' then true
    else if p[i] == '[' then !Unclosed(ct, p, i) && InSet(ct, p, i, c)
    else c == p[i]
  }

  /** The pattern from i on matches the string from j on. */
  predicate Matches(ct: CharType, p: string, i: nat, s: string, j: nat)
    requires i <= |p| && j <= |s|
    decreases |p| - i, |s| - j
  {
    if i == |p| then j == |s|
    else if p[i] == '*' then Matches(ct, p, i + 1, s, j) || (j < |s| && Matches(ct, p, i, s, j + 1))
    else j < |s| && Accepts(ct, p, i, s[j]) && Matches(ct, p, TokenEnd(ct, p, i), s, j + 1)
  }

  // ---- Which patterns lead out of their strings, and for which matching does not end ----

  // Some character that can be in a string has its bit in the set of the token at i
  predicate HasMember(ct: CharType, p: string, i: nat)
    requires i < |p|
  {
    exists c: char :: NUL < c <= '\U{FF}' && InSet(ct, p, i, c)
  }

  /** A set that has the bit of the terminator, or an unclosed one that has some bit, comes behind tokens that all
      accept some character, with no endless set before it. */
  predicate CanOverrun(ct: CharType, p: string, i: nat)
    requires i <= |p|
    decreases |p| - i
  {
    if i == |p| then false
    else if p[i] == '*' then CanOverrun(ct, p, i + 1)
    else if p[i] != '[' then CanOverrun(ct, p, i + 1)
    else
      && !Endless(ct, p, SetStart(p, i))
      && (InSet(ct, p, i, NUL)
          || (HasMember(ct, p, i) && (Unclosed(ct, p, i) || CanOverrun(ct, p, TokenEnd(ct, p, i)))))
  }

  /** An endless set comes behind closed sets and other tokens that all accept some character. */
  predicate CanHang(ct: CharType, p: string, i: nat)
    requires i <= |p|
    decreases |p| - i
  {
    if i == |p| then false
    else if p[i] == '*' then CanHang(ct, p, i + 1)
    else if p[i] != '[' then CanHang(ct, p, i + 1)
    else
      || Endless(ct, p, SetStart(p, i))
      || (HasMember(ct, p, i) && !Unclosed(ct, p, i) && CanHang(ct, p, TokenEnd(ct, p, i)))
  }

  // From here on every token accepts its character, up to a set that leads out of the string or the pattern
  predicate RunsOut(ct: CharType, p: string, i: nat, s: string, j: nat)
    requires i <= |p| && j <= |s|
    decreases |p| - i
  {
    if i == |p| then false
    else if p[i] == '*' then RunsOut(ct, p, i + 1, s, j)
    else if p[i] == '[' && (Endless(ct, p, SetStart(p, i)) || !InSet(ct, p, i, At(s, j))) then false
    else if p[i] == '[' && (j == |s| || Unclosed(ct, p, i)) then true
    else j < |s| && Accepts(ct, p, i, s[j]) && RunsOut(ct, p, TokenEnd(ct, p, i), s, j + 1)
  }

  // From here on every token accepts its character, up to an endless set
  predicate Hangs(ct: CharType, p: string, i: nat, s: string, j: nat)
    requires i <= |p| && j <= |s|
    decreases |p| - i
  {
    if i == |p| then false
    else if p[i] == '*' then Hangs(ct, p, i + 1, s, j)
    else if p[i] == '[' && Endless(ct, p, SetStart(p, i)) then true
    else j < |s| && Accepts(ct, p, i, s[j]) && Hangs(ct, p, TokenEnd(ct, p, i), s, j + 1)
  }

  // Strings for which the pattern from i on does
  lemma {:induction false} RunsOutOf(ct: CharType, p: string, i: nat, before: string) returns (s: string)
    requires i <= |p| && Text(p) && CanOverrun(ct, p, i) && Text(before)
    ensures Text(s) && |before| <= |s| && RunsOut(ct, p, i, s, |before|) && s[..|before|] == before
    decreases |p| - i
  {
    if p[i] == '*' {
      s := RunsOutOf(ct, p, i + 1, before);
    } else if p[i] == '[' && InSet(ct, p, i, NUL) {
      s := before;
    } else {
      var c := SomeCharacter(ct, p, i);
      if p[i] == '[' && Unclosed(ct, p, i) {
        s := before + [c];
      } else {
        s := RunsOutOf(ct, p, TokenEnd(ct, p, i), before + [c]);
        assert s[|before|] == (before + [c])[|before|] == c;
        assert s[..|before|] == s[..|before + [c]|][..|before|];
      }
    }
  }

  lemma {:induction false} HangsOn(ct: CharType, p: string, i: nat, before: string) returns (s: string)
    requires i <= |p| && Text(p) && CanHang(ct, p, i) && Text(before)
    ensures Text(s) && |before| <= |s| && Hangs(ct, p, i, s, |before|) && s[..|before|] == before
    decreases |p| - i
  {
    if p[i] == '*' {
      s := HangsOn(ct, p, i + 1, before);
    } else if p[i] == '[' && Endless(ct, p, SetStart(p, i)) {
      s := before;
    } else {
      var c := SomeCharacter(ct, p, i);
      s := HangsOn(ct, p, TokenEnd(ct, p, i), before + [c]);
      assert s[|before|] == (before + [c])[|before|] == c;
      assert s[..|before|] == s[..|before + [c]|][..|before|];
    }
  }

  // A character that the token at i takes
  lemma SomeCharacter(ct: CharType, p: string, i: nat) returns (c: char)
    requires i < |p| && p[i] != '*' && Text(p) && (p[i] == '[' ==> HasMember(ct, p, i))
    ensures NUL < c <= '\U{FF}' && if p[i] == '[' then InSet(ct, p, i, c) else Accepts(ct, p, i, c)
  {
    if p[i] == '[' {
      c :| NUL < c <= '\U{FF}' && InSet(ct, p, i, c);
    } else {
      c := if p[i] == '?' then 'a' else p[i];
    }
  }

  lemma {:induction false} RunsOutSomewhere(ct: CharType, p: string, i: nat, s: string, j: nat)
    requires i <= |p| && j <= |s| && Text(s) && RunsOut(ct, p, i, s, j)
    ensures CanOverrun(ct, p, i)
    decreases |p| - i
  {
    if p[i] == '*' {
      RunsOutSomewhere(ct, p, i + 1, s, j);
    } else if j < |s| && (p[i] != '[' || !Unclosed(ct, p, i)) {
      RunsOutSomewhere(ct, p, TokenEnd(ct, p, i), s, j + 1);
    }
  }

  lemma {:induction false} HangsSomewhere(ct: CharType, p: string, i: nat, s: string, j: nat)
    requires i <= |p| && j <= |s| && Text(s) && Hangs(ct, p, i, s, j)
    ensures CanHang(ct, p, i)
    decreases |p| - i
  {
    if p[i] == '*' {
      HangsSomewhere(ct, p, i + 1, s, j);
    } else if p[i] != '[' || !Endless(ct, p, SetStart(p, i)) {
      HangsSomewhere(ct, p, TokenEnd(ct, p, i), s, j + 1);
    }
  }

  /** CanOverrun tells exactly the patterns for which some string makes the matcher run past an end: one that GlobMatch
      below reports Overrun for, while it does so for no string when the pattern is not one of them. */
  lemma OverrunsIff(ct: CharType, p: string)
    requires Text(p)
    ensures CanOverrun(ct, p, 0) <==> exists s: string :: Text(s) && RunsOut(ct, p, 0, s, 0)
  {
    if CanOverrun(ct, p, 0) {
      var s := RunsOutOf(ct, p, 0, "");
    }
    forall s: string | Text(s) && RunsOut(ct, p, 0, s, 0) ensures CanOverrun(ct, p, 0) {
      RunsOutSomewhere(ct, p, 0, s, 0);
    }
  }

  /** CanHang tells exactly the patterns for which some string makes the matcher not end, reported as NoEnd. */
  lemma HangsIff(ct: CharType, p: string)
    requires Text(p)
    ensures CanHang(ct, p, 0) <==> exists s: string :: Text(s) && Hangs(ct, p, 0, s, 0)
  {
    if CanHang(ct, p, 0) {
      var s := HangsOn(ct, p, 0, "");
    }
    forall s: string | Text(s) && Hangs(ct, p, 0, s, 0) ensures CanHang(ct, p, 0) {
      HangsSomewhere(ct, p, 0, s, 0);
    }
  }

  // ---- Patterns that do neither ----

  // A string of characters that are the same in both orders, without the greatest of either
  predicate Ascii(p: string) { forall i: nat | i < |p| :: NUL < p[i] < '\U{7F}' }

  lemma {:induction false} AsciiSets(ct: CharType, p: string, i: nat, acc: set<char>)
    requires i <= |p| && Ascii(p) && NUL !in acc
    ensures NUL !in Members(ct, p, i, acc).1 && !Endless(ct, p, i)
    decreases |p| - i
  {
    if i < |p| && p[i] != ']' {
      if At(p, i + 1) == '-' {
        if At(p, i + 2) != ']' && At(p, i + 2) != NUL {
          assert NUL !in Span(ct, p[i], p[i + 2]);
          AsciiSets(ct, p, i + 3, acc + Span(ct, p[i], p[i + 2]));
        }
      } else {
        AsciiSets(ct, p, i + 1, acc + {p[i]});
      }
    }
  }

  /** No inverted and no unclosed set from i on. */
  predicate Clean(ct: CharType, p: string, i: nat)
    requires i <= |p|
    decreases |p| - i
  {
    if i == |p| then true
    else if p[i] == '*' then Clean(ct, p, i + 1)
    else (p[i] == '[' ==> !Inverted(p, i) && !Unclosed(ct, p, i)) && Clean(ct, p, TokenEnd(ct, p, i))
  }

  lemma {:induction false} CleanIsSafe(ct: CharType, p: string, i: nat)
    requires i <= |p| && Ascii(p) && Clean(ct, p, i)
    ensures !CanOverrun(ct, p, i) && !CanHang(ct, p, i)
    decreases |p| - i
  {
    if i < |p| {
      if p[i] == '[' {
        AsciiSets(ct, p, SetStart(p, i), {});
      }
      CleanIsSafe(ct, p, if p[i] == '*' then i + 1 else TokenEnd(ct, p, i));
    }
  }

  // ---- Why the last star is enough ----

  // m one-character tokens lead from i to e
  ghost predicate Segment(ct: CharType, p: string, i: nat, e: nat, m: nat)
    requires i <= |p|
    decreases m
  {
    if m == 0 then i == e
    else i < |p| && p[i] != '*' && Segment(ct, p, TokenEnd(ct, p, i), e, m - 1)
  }

  lemma {:induction false} SegmentGrows(ct: CharType, p: string, i: nat, e: nat, m: nat)
    requires i <= |p| && Segment(ct, p, i, e, m) && e < |p| && p[e] != '*'
    ensures Segment(ct, p, i, TokenEnd(ct, p, e), m + 1)
    decreases m
  {
    if m > 0 {
      SegmentGrows(ct, p, TokenEnd(ct, p, i), e, m - 1);
    }
  }

  lemma {:induction false} SegmentConsumes(ct: CharType, p: string, i: nat, e: nat, m: nat, s: string, k: nat)
    requires i <= |p| && e <= |p| && k <= |s| && Segment(ct, p, i, e, m) && Matches(ct, p, i, s, k)
    ensures k + m <= |s| && Matches(ct, p, e, s, k + m)
    decreases m
  {
    if m > 0 {
      SegmentConsumes(ct, p, TokenEnd(ct, p, i), e, m - 1, s, k + 1);
    }
  }

  // A star that matches from j on also does from further left
  lemma {:induction false} StarAbsorbs(ct: CharType, p: string, i: nat, s: string, j: nat, k: nat)
    requires i < |p| && p[i] == '*' && j <= k <= |s| && Matches(ct, p, i, s, k)
    ensures Matches(ct, p, i, s, j)
    decreases k - j
  {
    if j < k {
      StarAbsorbs(ct, p, i, s, j + 1, k);
    }
  }

  lemma {:induction false} StarLeaves(ct: CharType, p: string, i: nat, s: string, j: nat) returns (k: nat)
    requires i < |p| && p[i] == '*' && j <= |s| && Matches(ct, p, i, s, j)
    ensures j <= k <= |s| && Matches(ct, p, i + 1, s, k)
    decreases |s| - j
  {
    if Matches(ct, p, i + 1, s, j) {
      k := j;
    } else {
      k := StarLeaves(ct, p, i, s, j + 1);
    }
  }

  // Any later match of the last star must pass the tokens matched since, each using up a character
  lemma LaterMatchesPass(ct: CharType, p: string, star: nat, next: nat, s: string, i: nat, j: nat)
    requires star < |p| && p[star] == '*' && i <= |p| && next <= j + 1 && j <= |s| && next > 0
    requires Segment(ct, p, star + 1, i, j - (next - 1))
    requires next <= |s| && Matches(ct, p, star, s, next)
    ensures exists k: nat :: j < k <= |s| && Matches(ct, p, i, s, k)
  {
    var k := StarLeaves(ct, p, star, s, next);
    SegmentConsumes(ct, p, star + 1, i, j - (next - 1), s, k);
  }

  // ---- The matcher ----

  datatype Outcome = Match | NoMatch | Overrun | NoEnd

  // The bit set filled by parse_range_def, and the position it stops at, unless it does not end
  method ParseRangeDef(ct: CharType, p: string, pos: nat)
    returns (end: nat, members: set<char>, invert: bool, noEnd: bool)
    requires pos < |p| && p[pos] == '[' && Text(p)
    ensures noEnd <==> Endless(ct, p, SetStart(p, pos))
    ensures !noEnd ==> invert == Inverted(p, pos) && (end, members) == Members(ct, p, SetStart(p, pos), {})
  {
    var patPos := pos;
    invert, noEnd := false, false;
    if At(p, patPos + 1) == '!' {
      patPos := patPos + 1;
      invert := true;
    }
    members := {};
    var rngPos := patPos + 1;
    while At(p, rngPos) != NUL && At(p, rngPos) != ']'
      invariant rngPos <= |p|
      invariant Members(ct, p, rngPos, members) == Members(ct, p, SetStart(p, pos), {})
      invariant Endless(ct, p, rngPos) <==> Endless(ct, p, SetStart(p, pos))
      decreases |p| - rngPos
    {
      if At(p, rngPos + 1) == '-' {
        var endCh := At(p, rngPos + 2);
        if endCh == ']' || endCh == NUL {
          rngPos := rngPos + 2;
          return rngPos, members, invert, false;
        }
        if endCh == ct.Greatest() {
          return rngPos, members, invert, true;
        }
        var added := AddSpan(ct, p[rngPos], endCh);
        members := members + added;
        rngPos := rngPos + 2;
      } else {
        members := members + {p[rngPos]};
      }
      rngPos := rngPos + 1;
    }
    return rngPos, members, invert, false;
  }

  // The character of a rank
  function OfRank(ct: CharType, r: int): char
    requires ct.Rank(ct.Greatest()) - 0xFF <= r <= ct.Rank(ct.Greatest())
  {
    (if r < 0 then r + 0x100 else r) as char
  }

  // The loop over the characters of a span, which ends as long as there is a greater one than the last
  method AddSpan(ct: CharType, lo: char, hi: char) returns (added: set<char>)
    requires lo <= '\U{FF}' && hi <= '\U{FF}' && hi != ct.Greatest()
    ensures added == Span(ct, lo, hi)
  {
    added := {};
    var ch := ct.Rank(lo);
    while ch <= ct.Rank(hi)
      invariant ct.Rank(lo) <= ch && (ch <= ct.Rank(hi) + 1 || ch == ct.Rank(lo))
      invariant added == set c: char | c <= '\U{FF}' && InSpan(ct, c, lo, hi) && ct.Rank(c) < ch
    {
      added := added + {OfRank(ct, ch)};
      ch := ch + 1;
    }
  }

  // The test of one pattern token other than a star against the current character
  method TestToken(ct: CharType, p: string, pos: nat, sCh: char)
    returns (accepted: bool, next: nat, overrun: bool, noEnd: bool)
    requires Text(p) && pos < |p| && p[pos] != '*'
    ensures noEnd <==> p[pos] == '[' && Endless(ct, p, SetStart(p, pos))
    ensures !noEnd && !overrun ==> (accepted <==> sCh != NUL && Accepts(ct, p, pos, sCh))
    ensures accepted && !noEnd && !overrun ==> next == TokenEnd(ct, p, pos)
    ensures !noEnd ==> (overrun <==> p[pos] == '[' && InSet(ct, p, pos, sCh) && (sCh == NUL || Unclosed(ct, p, pos)))
  {
    overrun, noEnd := false, false;
    if p[pos] == '?' {
      accepted, next := sCh != NUL, pos + 1;
    } else if p[pos] == '[' {
      var end, members, invert;
      end, members, invert, noEnd := ParseRangeDef(ct, p, pos);
      accepted, next := (sCh in members) != invert, end + 1;
      overrun := accepted && (sCh == NUL || end == |p|);
    } else {
      accepted, next := sCh == p[pos], pos + 1;
    }
  }

  /** glob_match. A step that would run past the end of either string is reported as Overrun, and the string does not
      match the pattern then; a set that is never done is reported as NoEnd. */
  method GlobMatch(ct: CharType, p: string, s: string) returns (r: Outcome)
    requires Text(p) && Text(s)
    ensures r != NoEnd ==> (r == Match <==> Matches(ct, p, 0, s, 0))
    ensures r == Overrun ==> CanOverrun(ct, p, 0)
    ensures r == NoEnd ==> CanHang(ct, p, 0)
    ensures RunsOut(ct, p, 0, s, 0) ==> r == Overrun
    ensures Hangs(ct, p, 0, s, 0) ==> r == NoEnd
  {
    var strPos: nat, patPos: nat := 0, 0;
    var star: Option<(nat, nat)> := None;   // pattern position of the last star, next string position to try
    while At(s, strPos) != NUL || At(p, patPos) != NUL
      invariant strPos <= |s| && patPos <= |p|
      invariant StarOk(ct, p, s, star, patPos, strPos)
      invariant Matches(ct, p, 0, s, 0) <==> Matches(ct, p, patPos, s, strPos) || StarMatches(ct, p, s, star)
      invariant CanOverrun(ct, p, patPos) || (star.Some? && CanOverrun(ct, p, star.value.0)) ==> CanOverrun(ct, p, 0)
      invariant CanHang(ct, p, patPos) || (star.Some? && CanHang(ct, p, star.value.0)) ==> CanHang(ct, p, 0)
      invariant RunsOut(ct, p, 0, s, 0) ==> RunsOut(ct, p, patPos, s, strPos)
      invariant Hangs(ct, p, 0, s, 0) ==> Hangs(ct, p, patPos, s, strPos)
      decreases Rank(p, s, star, patPos, strPos).0, Rank(p, s, star, patPos, strPos).1, |p| - patPos
    {
      var pCh, sCh := At(p, patPos), At(s, strPos);
      if pCh == '*' {
        NewStar(ct, p, s, star, patPos, strPos);
        star := Some((patPos, strPos + 1));
        patPos := patPos + 1;
        continue;
      }
      if pCh != NUL {
        var accepted, next, overrun, noEnd := TestToken(ct, p, patPos, sCh);
        if noEnd {
          return NoEnd;
        }
        if overrun {
          NoneLeft(ct, p, s, star, patPos, strPos);
          return Overrun;
        }
        if accepted {
          StepPast(ct, p, s, star, patPos, strPos);
          strPos, patPos := strPos + 1, next;
          continue;
        }
      }
      if star.Some? && sCh != NUL {
        strPos, patPos := star.value.1, star.value.0;
        continue;
      }
      if sCh == NUL {
        NoRoomLeft(ct, p, s, star, patPos);
      }
      return NoMatch;
    }
    return Match;
  }

  // At a star, whatever the last star could still match, this one can match from here
  lemma NewStar(ct: CharType, p: string, s: string, star: Option<(nat, nat)>, i: nat, j: nat)
    requires i < |p| && p[i] == '*' && j <= |s| && StarOk(ct, p, s, star, i, j)
    ensures (Matches(ct, p, i, s, j) || StarMatches(ct, p, s, star))
            <==> (Matches(ct, p, i + 1, s, j) || StarMatches(ct, p, s, Some((i, j + 1))))
    ensures StarOk(ct, p, s, Some((i, j + 1)), i + 1, j)
  {
    if StarMatches(ct, p, s, star) {
      var (ps, ss) := star.value;
      if i > ps {
        LaterMatchesPass(ct, p, ps, ss, s, i, j);
        var k: nat :| j < k <= |s| && Matches(ct, p, i, s, k);
        StarAbsorbs(ct, p, i, s, j, k);
      }
    }
  }

  lemma StepPast(ct: CharType, p: string, s: string, star: Option<(nat, nat)>, i: nat, j: nat)
    requires i < |p| && p[i] != '*' && StarOk(ct, p, s, star, i, j)
    ensures StarOk(ct, p, s, star, TokenEnd(ct, p, i), j + 1)
  {
    if star.Some? {
      SegmentGrows(ct, p, star.value.0 + 1, i, j - (star.value.1 - 1));
    }
  }

  // At the end of the string a mismatch is final
  lemma NoRoomLeft(ct: CharType, p: string, s: string, star: Option<(nat, nat)>, i: nat)
    requires i <= |p| && (i < |p| ==> p[i] != '*') && StarOk(ct, p, s, star, i, |s|)
    ensures !StarMatches(ct, p, s, star)
  {
    if StarMatches(ct, p, s, star) {
      LaterMatchesPass(ct, p, star.value.0, star.value.1, s, i, |s|);
    }
  }

  // At the end of the string, or of a pattern with an unclosed set, nothing can match any more
  lemma NoneLeft(ct: CharType, p: string, s: string, star: Option<(nat, nat)>, i: nat, j: nat)
    requires i < |p| && p[i] == '[' && j <= |s| && StarOk(ct, p, s, star, i, j)
    requires j == |s| || Unclosed(ct, p, i)
    ensures !Matches(ct, p, i, s, j) && !StarMatches(ct, p, s, star)
  {
    if StarMatches(ct, p, s, star) {
      LaterMatchesPass(ct, p, star.value.0, star.value.1, s, i, j);
    }
  }

  // Going back has just happened, or the tokens since the last star matched one character each
  ghost predicate StarOk(ct: CharType, p: string, s: string, star: Option<(nat, nat)>, i: nat, j: nat)
    requires i <= |p|
  {
    star.Some? ==>
      var (ps, ss) := star.value;
      && ps < |p| && p[ps] == '*' && 0 < ss <= j + 1
      && ((i == ps && j == ss) || (i > ps && Segment(ct, p, ps + 1, i, j - (ss - 1))))
  }

  ghost predicate StarMatches(ct: CharType, p: string, s: string, star: Option<(nat, nat)>)
  {
    star.Some? && star.value.0 <= |p| && star.value.1 <= |s| && Matches(ct, p, star.value.0, s, star.value.1)
  }

  // Stars move right, the retry position of a star moves right, and the pattern position moves right
  ghost function Rank(p: string, s: string, star: Option<(nat, nat)>, i: nat, j: nat): (int, int) {
    match star
    case None => (|p| + 1, 0)
    case Some((ps, ss)) => (|p| - ps, if i == ps then |s| + 1 - j else |s| + 2 - ss)
  }
}
