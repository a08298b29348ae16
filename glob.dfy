/** Shell-style pattern matching as Python's `fnmatch.fnmatch` does it on
    POSIX: `*` matches any run of characters, `?` any one character,
    `[seq]` / `[!seq]` a character in / not in `seq`, every other character
    itself; the match is anchored to the whole name, case-sensitive, and has
    no backslash escape. A pattern is first read into tokens, the way
    `fnmatch.translate` reads it into a regular expression, and the tokens
    are then matched against the name. */
module Glob {
  import opened Common

  /** One member of a bracket expression: a character or a range `lo-hi`. */
  datatype ClassItem = Single(c: char) | Range(lo: char, hi: char)

  datatype Token =
    | Star                                            // `*`
    | AnyChar                                         // `?`
    | Class(negated: bool, items: seq<ClassItem>)     // `[...]`, `[!...]`
    | Lit(c: char)                                    // any other character

  predicate ItemMatches(item: ClassItem, c: char) {
    match item
    case Single(x) => c == x
    case Range(lo, hi) => lo <= c <= hi   // a reversed range matches nothing
  }

  /** Some member of the class accepts `c`. */
  predicate InItems(items: seq<ClassItem>, c: char) {
    exists i :: 0 <= i < |items| && ItemMatches(items[i], c)
  }

  predicate ClassMatches(negated: bool, items: seq<ClassItem>, c: char) {
    InItems(items, c) != negated
  }

  /** Whether a token other than `*` accepts the character `c`. */
  predicate TokenAccepts(t: Token, c: char) {
    match t
    case Star => true
    case AnyChar => true
    case Class(negated, items) => ClassMatches(negated, items, c)
    case Lit(x) => c == x
  }

  /** The members between the brackets: `x-y` with a character on both sides
      of the `-` is a range; a `-` first, last, or right after a range is
      itself a member. */
  function ClassItems(body: string): (items: seq<ClassItem>)
    decreases |body|
  {
    if body == [] then []
    else if |body| >= 3 && body[1] == '-' then [Range(body[0], body[2])] + ClassItems(body[3..])
    else [Single(body[0])] + ClassItems(body[1..])
  }

  /** Where the search for the closing `]` starts in the text `q` that
      follows a `[`: after a leading `!`, and after a `]` right behind it,
      which is a member and does not close the class. */
  function CloseSearchStart(q: string): (j: nat)
    ensures j <= |q|
    ensures (|q| > 0 && q[0] == '!') ==> 1 <= j
  {
    var j := if |q| > 0 && q[0] == '!' then 1 else 0;
    if j < |q| && q[j] == ']' then j + 1 else j
  }

  /** A range whose bounds are in the wrong order. */
  predicate IsReversed(item: ClassItem) {
    item.Range? && item.lo > item.hi
  }

  /** The members that follow the reversed ranges at the head of `items`. */
  function AfterReversed(items: seq<ClassItem>): (rest: seq<ClassItem>)
    ensures rest == [] || !IsReversed(rest[0])
  {
    if items != [] && IsReversed(items[0]) then AfterReversed(items[1..]) else items
  }

  /** A reversed range accepts no character, so the members after the
      leading reversed ranges accept what the whole class does. */
  lemma {:induction false} AfterReversedKeepsMembers(items: seq<ClassItem>, c: char)
    ensures InItems(AfterReversed(items), c) <==> InItems(items, c)
  {
    if items != [] && IsReversed(items[0]) {
      var tail := items[1..];
      AfterReversedKeepsMembers(tail, c);
      if InItems(tail, c) {
        var j :| 0 <= j < |tail| && ItemMatches(tail[j], c);
        assert items[j + 1] == tail[j];
      }
      if InItems(items, c) {
        var i :| 0 <= i < |items| && ItemMatches(items[i], c);
        assert i > 0 && tail[i - 1] == items[i];
      }
    }
  }

  /** The first member is `!` or a range from `!`. */
  predicate LeadsWithBang(items: seq<ClassItem>) {
    items != [] && match items[0]
      case Single(c) => c == '!'
      case Range(lo, _) => lo == '!'
  }

  /** The token `fnmatch.translate` makes of a class with no `!` of its own.
      It deletes every reversed range, and when the text left then starts
      with `!`, that `!` negates the rest: a range `!-hi` leaves `-` and `hi`
      as plain members, and a lone `!` leaves a class that accepts any
      character. Otherwise the members stand as read. */
  function PlainClass(items: seq<ClassItem>): (t: Token)
    ensures t.Class?
  {
    var rest := AfterReversed(items);
    if !LeadsWithBang(rest) then Class(false, items)
    else match rest[0]
      case Single(_) => Class(true, rest[1..])
      case Range(_, hi) => Class(true, [Single('-'), Single(hi)] + rest[1..])
  }

  /** The class token of a body, after a `!` or not. */
  function ClassOf(negated: bool, body: string): (t: Token)
    ensures t.Class?
  {
    if negated then Class(true, ClassItems(body)) else PlainClass(ClassItems(body))
  }

  /** Reads a bracket expression from the text `q` that follows a `[`: the
      class token and how many characters of `q` it takes, or None when no
      `]` closes it (the `[` is then an ordinary character). */
  function ScanClass(q: string): (r: Option<(Token, nat)>)
    ensures r.None? ==> forall k :: CloseSearchStart(q) <= k < |q| ==> q[k] != ']'
    ensures r.Some? ==> var (t, n) := r.value;
              && CloseSearchStart(q) < n <= |q| && q[n - 1] == ']'
              && (forall k :: CloseSearchStart(q) <= k < n - 1 ==> q[k] != ']')
              && var negated := |q| > 0 && q[0] == '!';
                 t == ClassOf(negated, q[(if negated then 1 else 0)..n - 1])
  {
    var negated := |q| > 0 && q[0] == '!';
    match IndexOf(q, ']', CloseSearchStart(q))
    case None => None
    case Some(e) => Some((ClassOf(negated, q[(if negated then 1 else 0)..e]), e + 1))
  }

  /** The tokens of a pattern, read left to right. */
  function Parse(p: string): (ts: seq<Token>)
    decreases |p|
  {
    if p == [] then []
    else if p[0] == '*' then [Star] + Parse(p[1..])
    else if p[0] == '?' then [AnyChar] + Parse(p[1..])
    else if p[0] == '[' then
      match ScanClass(p[1..])
      case None => [Lit('[')] + Parse(p[1..])
      case Some((t, n)) => [t] + Parse(p[1 + n..])
    else [Lit(p[0])] + Parse(p[1..])
  }

  /** The matcher: `*` either stops here or swallows one more character. */
  predicate Matches(ts: seq<Token>, s: string)
    decreases |ts|, |s|
  {
    if ts == [] then s == []
    else if ts[0].Star? then Matches(ts[1..], s) || (s != [] && Matches(ts, s[1..]))
    else s != [] && TokenAccepts(ts[0], s[0]) && Matches(ts[1..], s[1..])
  }

  /** `fnmatch.fnmatch(name, pattern)` on POSIX. */
  predicate FnMatch(name: string, pattern: string) {
    Matches(Parse(pattern), name)
  }

  /** Reference semantics: the strings a token sequence denotes, where `*`
      stands for some split of the string at any point. */
  ghost predicate Denotes(ts: seq<Token>, s: string)
    decreases |ts|
  {
    if ts == [] then s == []
    else if ts[0].Star? then exists k :: 0 <= k <= |s| && Denotes(ts[1..], s[k..])
    else |s| >= 1 && TokenAccepts(ts[0], s[0]) && Denotes(ts[1..], s[1..])
  }

  /** The matcher accepts exactly the strings the tokens denote. */
  lemma {:induction false} MatchesIffDenotes(ts: seq<Token>, s: string)
    decreases |ts|, |s|
    ensures Matches(ts, s) <==> Denotes(ts, s)
  {
    if ts == [] {
    } else if ts[0].Star? {
      MatchesIffDenotes(ts[1..], s);
      if s != [] {
        MatchesIffDenotes(ts, s[1..]);
      }
      if Matches(ts, s) {
        if Matches(ts[1..], s) {
          assert s[0..] == s;
        } else {
          var k' :| 0 <= k' <= |s[1..]| && Denotes(ts[1..], s[1..][k'..]);
          assert s[1..][k'..] == s[k' + 1..];
        }
      }
      if Denotes(ts, s) {
        var k :| 0 <= k <= |s| && Denotes(ts[1..], s[k..]);
        if k == 0 {
          assert s[k..] == s;
        } else {
          assert s[1..][k - 1..] == s[k..];
          assert Denotes(ts, s[1..]);
        }
      }
    } else {
      if s != [] {
        MatchesIffDenotes(ts[1..], s[1..]);
      }
    }
  }

  /** `*` matches every string, the empty one included. */
  lemma {:induction false} StarMatchesAll(s: string)
    ensures FnMatch(s, "*")
  {
    assert Parse("*") == [Star];
    if s != [] {
      StarMatchesAll(s[1..]);
    } else {
      assert Matches([], s);
    }
  }

  /** `?` matches exactly the strings of one character. */
  lemma QuestionMatchesOneChar(s: string)
    ensures FnMatch(s, "?") <==> |s| == 1
  {
    assert Parse("?") == [AnyChar];
    assert [AnyChar][1..] == [];
    if s != [] {
      assert Matches([AnyChar], s) <==> Matches([], s[1..]);
    }
  }

  predicate IsMeta(c: char) {
    c == '*' || c == '?' || c == '['
  }

  /** The tokens that match a string literally, character by character. */
  function Literal(p: string): (ts: seq<Token>)
    ensures |ts| == |p| && forall i :: 0 <= i < |p| ==> ts[i] == Lit(p[i])
  {
    if p == [] then [] else [Lit(p[0])] + Literal(p[1..])
  }

  lemma {:induction false} ParseWithoutMeta(p: string)
    requires forall i :: 0 <= i < |p| ==> !IsMeta(p[i])
    ensures Parse(p) == Literal(p)
  {
    if p != [] {
      ParseWithoutMeta(p[1..]);
    }
  }

  /** Literal tokens followed by `rest` match `s` iff `s` starts with the
      literal text and `rest` matches what follows it. */
  lemma {:induction false} LiteralPrefix(p: string, rest: seq<Token>, s: string)
    ensures Matches(Literal(p) + rest, s) <==>
              (|p| <= |s| && s[..|p|] == p && Matches(rest, s[|p|..]))
  {
    if p != [] {
      assert (Literal(p) + rest)[1..] == Literal(p[1..]) + rest;
      if s != [] {
        LiteralPrefix(p[1..], rest, s[1..]);
        if |p| <= |s| {
          assert s[1..][|p| - 1..] == s[|p|..];
        }
        if |p| <= |s| && s[..|p|] == p {
          assert s[1..][..|p| - 1] == p[1..];
        }
        if |p| <= |s| && s[1..][..|p| - 1] == p[1..] && s[0] == p[0] {
          assert s[..|p|] == [s[0]] + s[1..][..|p| - 1];
        }
      }
    } else {
      assert Literal(p) + rest == rest;
    }
  }

  /** A pattern without `*`, `?` or `[` matches exactly itself. */
  lemma PlainPatternMatchesItself(p: string, s: string)
    requires forall i :: 0 <= i < |p| ==> !IsMeta(p[i])
    ensures FnMatch(s, p) <==> s == p
  {
    ParseWithoutMeta(p);
    LiteralPrefix(p, [], s);
    assert Literal(p) + [] == Literal(p);
  }

  /** Parsing splits at a `*`: the part before it is read on its own. */
  lemma {:induction false} ParseWithoutMetaThenStar(p: string)
    requires forall i :: 0 <= i < |p| ==> !IsMeta(p[i])
    ensures Parse(p + "*") == Literal(p) + [Star]
  {
    if p == [] {
      assert p + "*" == "*";
    } else {
      assert (p + "*")[1..] == p[1..] + "*";
      ParseWithoutMetaThenStar(p[1..]);
    }
  }

  /** `prefix*` with a plain prefix, as in `us-east-*` or `m5.*`, matches
      exactly the strings that start with the prefix. */
  lemma PrefixStarMatches(prefix: string, s: string)
    requires forall i :: 0 <= i < |prefix| ==> !IsMeta(prefix[i])
    ensures FnMatch(s, prefix + "*") <==> (|prefix| <= |s| && s[..|prefix|] == prefix)
  {
    ParseWithoutMetaThenStar(prefix);
    LiteralPrefix(prefix, [Star], s);
    if |prefix| <= |s| {
      StarMatchesAll(s[|prefix|..]);
    }
    assert Parse("*") == [Star];
  }

  /** Between the brackets, a body without `-` lists single characters: the
      class holds exactly the characters of the body. */
  lemma {:induction false} ClassItemsWithoutDash(body: string, c: char)
    requires forall i :: 0 <= i < |body| ==> body[i] != '-'
    ensures InItems(ClassItems(body), c) <==> c in body
  {
    if body != [] {
      var tail := body[1..];
      ClassItemsWithoutDash(tail, c);
      var items := ClassItems(body);
      assert items == [Single(body[0])] + ClassItems(tail);
      assert c in body <==> c == body[0] || c in tail by {
        assert body == [body[0]] + tail;
      }
      if c == body[0] {
        assert ItemMatches(items[0], c);
      }
      if InItems(ClassItems(tail), c) {
        var j :| 0 <= j < |ClassItems(tail)| && ItemMatches(ClassItems(tail)[j], c);
        assert items[j + 1] == ClassItems(tail)[j];
      }
      if InItems(items, c) {
        var i :| 0 <= i < |items| && ItemMatches(items[i], c);
        if i > 0 {
          assert ClassItems(tail)[i - 1] == items[i];
          assert InItems(ClassItems(tail), c);
        }
      }
    }
  }

  /** The text after a `[` that holds no `]` before its last character is
      read whole as one class. */
  lemma ScanOneClass(q: string, negated: bool, body: string)
    requires |q| >= 2 && q[|q| - 1] == ']'
    requires negated <==> q[0] == '!'
    requires body == q[(if negated then 1 else 0)..|q| - 1] && body != []
    requires forall k :: 0 <= k < |body| ==> body[k] != ']'
    ensures ScanClass(q) == Some((ClassOf(negated, body), |q|))
  {
    var start := CloseSearchStart(q);
    assert start == (if negated then 1 else 0) by {
      assert q[if negated then 1 else 0] == body[0];
    }
    assert forall k :: start <= k < |q| - 1 ==> q[k] == body[k - start];
    assert ScanClass(q).Some?;
  }

  /** A `[` that a class follows reads as that class token. */
  lemma ParseClassThen(q: string, t: Token, n: nat)
    requires ScanClass(q) == Some((t, n))
    ensures Parse("[" + q) == [t] + Parse(q[n..])
  {
    assert ("[" + q)[1..] == q;
    assert ("[" + q)[1 + n..] == q[n..];
  }

  /** A pattern that is one bracket expression reads as one class token:
      `[` + `q`, where `q` holds no `]` before its last character. */
  lemma ParseOneClass(q: string, negated: bool, body: string)
    requires |q| >= 2 && q[|q| - 1] == ']'
    requires negated <==> q[0] == '!'
    requires body == q[(if negated then 1 else 0)..|q| - 1] && body != []
    requires forall k :: 0 <= k < |body| ==> body[k] != ']'
    ensures Parse("[" + q) == [ClassOf(negated, body)]
  {
    ScanOneClass(q, negated, body);
    ParseClassThen(q, ClassOf(negated, body), |q|);
    assert q[|q|..] == [];
  }

  /** `[seq]`: exactly the one-character names whose character is in `seq`
      (for a `seq` without `-` or `]` that does not start with `!`). */
  lemma ClassPatternMatches(body: string, s: string)
    requires body != [] && body[0] != '!'
    requires forall i :: 0 <= i < |body| ==> body[i] != '-' && body[i] != ']'
    ensures FnMatch(s, "[" + body + "]") <==> |s| == 1 && s[0] in body
  {
    var q := body + "]";
    assert "[" + body + "]" == "[" + q;
    assert q[..|q| - 1] == body;
    ParseOneClass(q, false, body);
    assert ClassItems(body)[0] == Single(body[0]);
    OneTokenMatches(Class(false, ClassItems(body)), s);
    if |s| == 1 {
      ClassItemsWithoutDash(body, s[0]);
    }
  }

  /** `[!seq]`: exactly the one-character names whose character is not in
      `seq` (for a `seq` without `-` or `]`). */
  lemma NegatedClassPatternMatches(body: string, s: string)
    requires body != []
    requires forall i :: 0 <= i < |body| ==> body[i] != '-' && body[i] != ']'
    ensures FnMatch(s, "[!" + body + "]") <==> |s| == 1 && s[0] !in body
  {
    var q := "!" + body + "]";
    assert "[!" + body + "]" == "[" + q;
    assert q[1..|q| - 1] == body;
    ParseOneClass(q, true, body);
    OneTokenMatches(Class(true, ClassItems(body)), s);
    if |s| == 1 {
      ClassItemsWithoutDash(body, s[0]);
    }
  }

  /** A single token other than `*` matches exactly the one-character
      strings it accepts. */
  lemma OneTokenMatches(t: Token, s: string)
    requires !t.Star?
    ensures Matches([t], s) <==> |s| == 1 && TokenAccepts(t, s[0])
  {
    assert [t][1..] == [];
    if s != [] {
      assert Matches([t], s) <==> TokenAccepts(t, s[0]) && Matches([], s[1..]);
    }
  }

  /** The members of a body that is a reversed range, `!`, then `body`:
      once the range is deleted, the `!` leads. */
  lemma ReversedRangeThenBangItems(lo: char, hi: char, body: string)
    requires lo > hi && (body == [] || body[0] != '-')
    ensures ClassOf(false, [lo, '-', hi, '!'] + body) == Class(true, ClassItems(body))
  {
    var text := [lo, '-', hi, '!'] + body;
    assert text[3..] == "!" + body;
    assert ("!" + body)[1..] == body;
    assert ClassItems("!" + body) == [Single('!')] + ClassItems(body);
    var items := ClassItems(text);
    assert items == [Range(lo, hi)] + ClassItems("!" + body);
    assert AfterReversed(items) == [Single('!')] + ClassItems(body);
  }

  /** A class with no `!` of its own whose first member is a reversed range
      followed by `!`: the range is deleted and the `!` negates the rest, so
      `[z-a!x]` matches exactly the one-character names other than `x`, and
      `[z-a!]` every one-character name. */
  lemma ReversedRangeThenBang(lo: char, hi: char, body: string, s: string)
    requires lo > hi && lo != '!' && lo != ']' && hi != ']'
    requires forall i :: 0 <= i < |body| ==> body[i] != '-' && body[i] != ']'
    ensures FnMatch(s, "[" + [lo, '-', hi, '!'] + body + "]") <==> |s| == 1 && s[0] !in body
  {
    var text := [lo, '-', hi, '!'] + body;
    var q := text + "]";
    assert "[" + [lo, '-', hi, '!'] + body + "]" == "[" + q;
    assert q[..|q| - 1] == text;
    ParseOneClass(q, false, text);
    ReversedRangeThenBangItems(lo, hi, body);
    OneTokenMatches(Class(true, ClassItems(body)), s);
    if |s| == 1 {
      ClassItemsWithoutDash(body, s[0]);
    }
  }

  /** `[lo-hi]` with its bounds in order: exactly the one-character names
      whose character lies in the range. */
  lemma RangeClassMatches(lo: char, hi: char, s: string)
    requires lo <= hi && lo != '!' && lo != ']' && hi != ']'
    ensures FnMatch(s, ['[', lo, '-', hi, ']']) <==> |s| == 1 && lo <= s[0] <= hi
  {
    var body := [lo, '-', hi];
    var q := body + "]";
    assert ['[', lo, '-', hi, ']'] == "[" + q;
    assert q[..|q| - 1] == body;
    ParseOneClass(q, false, body);
    assert body[3..] == [];
    assert ClassItems(body) == [Range(lo, hi)];
    var t := Class(false, [Range(lo, hi)]);
    assert ClassOf(false, body) == t;
    OneTokenMatches(t, s);
    if |s| == 1 {
      assert InItems([Range(lo, hi)], s[0]) <==> ItemMatches(Range(lo, hi), s[0]);
    }
  }
}
