// The pattern syntax that the comment of glob_match in src/util/glob.c documents, and what its patterns mean, without
// positions in a text: what the matcher makes of a pattern written in it is what it means.
module GlobSyntax {
  import opened Glob

  datatype Item = One(c: char) | Span(lo: char, hi: char)

  datatype Token = Exactly(c: char) | AnyOne | AnyMany | OneOf(inverted: bool, items: seq<Item>)

  // ---- How it is written ----

  function ItemText(item: Item): (t: string)
    ensures t != ""
  {
    match item
    case One(c) => [c]
    case Span(lo, hi) => [lo, '-', hi]
  }

  function SetText(items: seq<Item>): string { if items == [] then "" else ItemText(items[0]) + SetText(items[1..]) }

  function TokenText(t: Token): string {
    match t
    case Exactly(c) => [c]
    case AnyOne => "?"
    case AnyMany => "*"
    case OneOf(inverted, items) => (if inverted then "[!" else "[") + SetText(items) + "]"
  }

  function PatternText(tokens: seq<Token>): string {
    if tokens == [] then "" else TokenText(tokens[0]) + PatternText(tokens[1..])
  }

  // A byte that is neither the terminator nor one of these
  predicate Free(c: char, special: string) { NUL < c <= '\U{FF}' && c !in special }

  // A span must not end at the greatest character, since the matcher does not end then
  predicate ItemOk(ct: CharType, item: Item) {
    match item
    case One(c) => Free(c, "]-")
    case Span(lo, hi) => Free(lo, "]-") && Free(hi, "]") && hi != ct.Greatest()
  }

  predicate ItemsOk(ct: CharType, items: seq<Item>) { forall k: nat | k < |items| :: ItemOk(ct, items[k]) }

  predicate TokenOk(ct: CharType, t: Token) {
    match t
    case Exactly(c) => Free(c, "*?[")
    case OneOf(inverted, items) =>
      && ItemsOk(ct, items)
      && (!inverted && items != [] ==> ItemText(items[0])[0] != '!')
    case _ => true
  }

  predicate PatternOk(ct: CharType, tokens: seq<Token>) {
    forall k: nat | k < |tokens| :: TokenOk(ct, tokens[k])
  }

  // ---- What it means ----

  // The value of a char of C
  function ValueOf(ct: CharType, c: char): int {
    var byte := c as int;
    if ct.Signed? && byte >= 128 then byte - 256 else byte
  }

  // Both ends of a span belong to it
  predicate Has(ct: CharType, item: Item, c: char) {
    match item
    case One(x) => c == x
    case Span(lo, hi) => ValueOf(ct, lo) <= ValueOf(ct, c) && ValueOf(ct, c) <= ValueOf(ct, hi)
  }

  predicate SomeHas(ct: CharType, items: seq<Item>, c: char) {
    exists k: nat :: k < |items| && Has(ct, items[k], c)
  }

  /** A string matches a list of tokens. */
  ghost predicate Means(ct: CharType, tokens: seq<Token>, s: string)
    decreases |tokens|
  {
    if tokens == [] then s == "" else
    var rest := tokens[1..];
    match tokens[0]
    case AnyMany => exists k: nat :: k <= |s| && Means(ct, rest, s[k..])
    case AnyOne => s != "" && Means(ct, rest, s[1..])
    case Exactly(c) => s != "" && s[0] == c && Means(ct, rest, s[1..])
    case OneOf(inverted, items) => s != "" && SomeHas(ct, items, s[0]) != inverted && Means(ct, rest, s[1..])
  }

  // ---- The matcher finds it ----

  ghost predicate IsAt(p: string, i: nat, t: string) {
    i + |t| <= |p| && forall k: nat | i <= k < i + |t| :: p[k] == t[k - i]
  }

  lemma IsAtParts(p: string, i: nat, a: string, b: string)
    requires IsAt(p, i, a + b)
    ensures IsAt(p, i, a) && IsAt(p, i + |a|, b)
  {
    assert forall k: nat | i + |a| <= k < i + |a| + |b| :: p[k] == b[k - i - |a|];
  }

  ghost function CharsOfItem(ct: CharType, item: Item): set<char> { set c: char | c <= '\U{FF}' && Has(ct, item, c) }

  ghost function CharsOf(ct: CharType, items: seq<Item>): set<char> {
    set c: char | c <= '\U{FF}' && SomeHas(ct, items, c)
  }

  lemma CharsOfMore(ct: CharType, items: seq<Item>)
    requires items != []
    ensures CharsOf(ct, items) == CharsOfItem(ct, items[0]) + CharsOf(ct, items[1..])
  {
    forall c: char ensures SomeHas(ct, items, c) <==> Has(ct, items[0], c) || SomeHas(ct, items[1..], c) {
      if k: nat :| k < |items[1..]| && Has(ct, items[1..][k], c) {
        assert Has(ct, items[k + 1], c);
      }
      if k: nat :| 0 < k < |items| && Has(ct, items[k], c) {
        assert Has(ct, items[1..][k - 1], c);
      }
    }
  }

  // Behind an item comes no hyphen
  lemma NoHyphen(ct: CharType, p: string, i: nat, items: seq<Item>)
    requires ItemsOk(ct, items) && IsAt(p, i, SetText(items) + "]")
    ensures i < |p| && p[i] != '-' && (items == [] <==> p[i] == ']')
  {
    if items != [] {
      assert ItemOk(ct, items[0]);
      assert p[i] == ItemText(items[0])[0];
    }
  }

  lemma ItemIs(ct: CharType, p: string, i: nat, item: Item, acc: set<char>)
    requires ItemOk(ct, item) && IsAt(p, i, ItemText(item)) && At(p, i + |ItemText(item)|) != '-'
    ensures Members(ct, p, i, acc) == Members(ct, p, i + |ItemText(item)|, acc + CharsOfItem(ct, item))
    ensures Endless(ct, p, i) <==> Endless(ct, p, i + |ItemText(item)|)
  {
    var t := ItemText(item);
    match item
    case One(c) =>
      assert p[i] == t[0];
      assert CharsOfItem(ct, item) == {c};
    case Span(lo, hi) =>
      assert p[i] == t[0] && p[i + 1] == t[1] && p[i + 2] == t[2];
      assert CharsOfItem(ct, item) == Glob.Span(ct, lo, hi);
  }

  /** The set that the matcher makes of the text of some items holds the characters of these items. */
  lemma {:induction false} SetIs(ct: CharType, p: string, i: nat, items: seq<Item>, acc: set<char>)
    requires ItemsOk(ct, items) && IsAt(p, i, SetText(items) + "]")
    ensures Members(ct, p, i, acc) == (i + |SetText(items)|, acc + CharsOf(ct, items)) && !Endless(ct, p, i)
    decreases |items|
  {
    NoHyphen(ct, p, i, items);
    if items == [] {
      assert acc + CharsOf(ct, items) == acc;
    } else {
      var t, rest := ItemText(items[0]), items[1..];
      assert SetText(items) + "]" == t + (SetText(rest) + "]");
      IsAtParts(p, i, t, SetText(rest) + "]");
      NoHyphen(ct, p, i + |t|, rest);
      ItemIs(ct, p, i, items[0], acc);
      CharsOfMore(ct, items);
      SetIs(ct, p, i + |t|, rest, acc + CharsOfItem(ct, items[0]));
      assert acc + CharsOfItem(ct, items[0]) + CharsOf(ct, rest) == acc + CharsOf(ct, items);
    }
  }

  // A token that accepts one character
  predicate AcceptsToken(ct: CharType, t: Token, c: char)
    requires t != AnyMany
  {
    match t
    case Exactly(x) => c == x
    case AnyOne => true
    case OneOf(inverted, items) => SomeHas(ct, items, c) != inverted
  }

  lemma TokenIs(ct: CharType, p: string, i: nat, t: Token, c: char)
    requires t != AnyMany && TokenOk(ct, t) && IsAt(p, i, TokenText(t)) && c <= '\U{FF}'
    ensures i < |p| && p[i] != '*' && TokenEnd(ct, p, i) == i + |TokenText(t)|
    ensures Accepts(ct, p, i, c) <==> AcceptsToken(ct, t, c)
  {
    if t.OneOf? {
      OneOfIs(ct, p, i, t.inverted, t.items);
    }
  }

  lemma OneOfIs(ct: CharType, p: string, i: nat, inverted: bool, items: seq<Item>)
    requires TokenOk(ct, OneOf(inverted, items)) && IsAt(p, i, TokenText(OneOf(inverted, items)))
    ensures i < |p| && p[i] == '[' && Inverted(p, i) == inverted
    ensures Members(ct, p, SetStart(p, i), {}) == (i + |TokenText(OneOf(inverted, items))| - 1, CharsOf(ct, items))
    ensures !Endless(ct, p, SetStart(p, i))
  {
    var begin, rest := if inverted then "[!" else "[", SetText(items) + "]";
    assert TokenText(OneOf(inverted, items)) == begin + rest;
    IsAtParts(p, i, begin, rest);
    if items != [] {
      assert rest[0] == ItemText(items[0])[0];
    }
    SetIs(ct, p, i + |begin|, items, {});
    assert {} + CharsOf(ct, items) == CharsOf(ct, items);
  }

  // From i on p is the text of these tokens
  ghost predicate EndsWith(ct: CharType, p: string, i: nat, tokens: seq<Token>) {
    PatternOk(ct, tokens) && IsAt(p, i, PatternText(tokens)) && i + |PatternText(tokens)| == |p|
  }

  lemma RestOk(ct: CharType, tokens: seq<Token>)
    requires PatternOk(ct, tokens) && tokens != []
    ensures TokenOk(ct, tokens[0]) && PatternOk(ct, tokens[1..])
  {
  }

  lemma Behind(ct: CharType, p: string, i: nat, tokens: seq<Token>) returns (next: nat, rest: seq<Token>)
    requires EndsWith(ct, p, i, tokens) && tokens != []
    ensures TokenOk(ct, tokens[0]) && IsAt(p, i, TokenText(tokens[0]))
    ensures next == i + |TokenText(tokens[0])| && rest == tokens[1..] && |rest| < |tokens|
    ensures EndsWith(ct, p, next, rest)
  {
    RestOk(ct, tokens);
    var t, behind := TokenText(tokens[0]), PatternText(tokens[1..]);
    assert PatternText(tokens) == t + behind;
    IsAtParts(p, i, t, behind);
    next, rest := i + |t|, tokens[1..];
  }

  // What the matcher does with a token
  lemma TokenStep(ct: CharType, p: string, i: nat, t: Token, s: string, j: nat, next: nat)
    requires t != AnyMany && TokenOk(ct, t) && IsAt(p, i, TokenText(t)) && Text(s) && j <= |s|
    requires next == i + |TokenText(t)|
    ensures Matches(ct, p, i, s, j) <==> j < |s| && AcceptsToken(ct, t, s[j]) && Matches(ct, p, next, s, j + 1)
  {
    TokenIs(ct, p, i, t, if j < |s| then s[j] else 'a');
  }

  lemma StarStep(ct: CharType, p: string, i: nat, s: string, j: nat, next: nat)
    requires IsAt(p, i, TokenText(AnyMany)) && j <= |s| && next == i + |TokenText(AnyMany)|
    ensures Matches(ct, p, i, s, j) <==> Matches(ct, p, next, s, j) || (j < |s| && Matches(ct, p, i, s, j + 1))
  {
    assert p[i] == TokenText(AnyMany)[0];
  }

  lemma HangStep(ct: CharType, p: string, i: nat, t: Token, next: nat)
    requires TokenOk(ct, t) && IsAt(p, i, TokenText(t)) && next == i + |TokenText(t)|
    ensures CanHang(ct, p, i) ==> CanHang(ct, p, next)
  {
    assert p[i] == TokenText(t)[0];
    if t != AnyMany {
      TokenIs(ct, p, i, t, 'a');
    }
    if t.OneOf? {
      OneOfIs(ct, p, i, t.inverted, t.items);
    }
  }

  /** Wherever a pattern of this syntax stands, the matcher takes it as what it means. */
  lemma {:induction false} MatchesFrom(ct: CharType, p: string, i: nat, tokens: seq<Token>, s: string, j: nat)
    requires EndsWith(ct, p, i, tokens) && Text(s) && j <= |s|
    ensures Matches(ct, p, i, s, j) <==> Means(ct, tokens, s[j..])
    decreases |tokens|, |s| - j
  {
    if tokens != [] {
      var next, rest := Behind(ct, p, i, tokens);
      if tokens[0] == AnyMany {
        StarStep(ct, p, i, s, j, next);
        StarMeans(ct, tokens, s, j);
        MatchesFrom(ct, p, next, rest, s, j);
        if j < |s| {
          MatchesFrom(ct, p, i, tokens, s, j + 1);
        }
      } else {
        TokenStep(ct, p, i, tokens[0], s, j, next);
        if j < |s| {
          TokenMeans(ct, tokens, s, j);
          MatchesFrom(ct, p, next, rest, s, j + 1);
        }
      }
    }
  }

  lemma TokenMeans(ct: CharType, tokens: seq<Token>, s: string, j: nat)
    requires tokens != [] && tokens[0] != AnyMany && j < |s|
    ensures Means(ct, tokens, s[j..]) <==> AcceptsToken(ct, tokens[0], s[j]) && Means(ct, tokens[1..], s[j + 1..])
  {
    assert s[j..][0] == s[j] && s[j..][1..] == s[j + 1..];
  }

  // A star matches nothing, or a character and what it matches behind that
  lemma StarMeans(ct: CharType, tokens: seq<Token>, s: string, j: nat)
    requires tokens != [] && tokens[0] == AnyMany && j <= |s|
    ensures Means(ct, tokens, s[j..])
            <==> Means(ct, tokens[1..], s[j..]) || (j < |s| && Means(ct, tokens, s[j + 1..]))
  {
    var rest, here := tokens[1..], s[j..];
    assert here[0..] == here;
    if Means(ct, tokens, here) {
      var k: nat :| k <= |here| && Means(ct, rest, here[k..]);
      if k > 0 {
        assert here[k..] == s[j + 1..][k - 1..];
      }
    }
    if j < |s| && Means(ct, tokens, s[j + 1..]) {
      var k: nat :| k <= |s[j + 1..]| && Means(ct, rest, s[j + 1..][k..]);
      assert here[k + 1..] == s[j + 1..][k..];
    }
  }

  lemma PatternIsText(ct: CharType, tokens: seq<Token>)
    requires PatternOk(ct, tokens)
    ensures Text(PatternText(tokens))
  {
    if tokens != [] {
      PatternIsText(ct, tokens[1..]);
      assert TokenOk(ct, tokens[0]);
      if tokens[0].OneOf? {
        SetIsText(ct, tokens[0].items);
      }
    }
  }

  lemma SetIsText(ct: CharType, items: seq<Item>)
    requires ItemsOk(ct, items)
    ensures Text(SetText(items))
  {
    if items != [] {
      assert ItemOk(ct, items[0]);
      SetIsText(ct, items[1..]);
    }
  }

  lemma {:induction false} EndsFrom(ct: CharType, p: string, i: nat, tokens: seq<Token>)
    requires EndsWith(ct, p, i, tokens)
    ensures !CanHang(ct, p, i)
    decreases |tokens|
  {
    if tokens != [] {
      var next, rest := Behind(ct, p, i, tokens);
      HangStep(ct, p, i, tokens[0], next);
      EndsFrom(ct, p, next, rest);
    }
  }

  /** Of a pattern of the documented syntax, Matches, which glob_match is proved to tell, is what the pattern means, and
      there is no string for which glob_match does not end. */
  lemma MatchesMeans(ct: CharType, tokens: seq<Token>, s: string)
    requires PatternOk(ct, tokens) && Text(s)
    ensures Text(PatternText(tokens)) && !CanHang(ct, PatternText(tokens), 0)
    ensures Matches(ct, PatternText(tokens), 0, s, 0) <==> Means(ct, tokens, s)
  {
    var p := PatternText(tokens);
    PatternIsText(ct, tokens);
    assert s[0..] == s;
    MatchesFrom(ct, p, 0, tokens, s, 0);
    EndsFrom(ct, p, 0, tokens);
  }
}
