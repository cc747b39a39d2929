/**
 * The documented syntax of the patterns of inet/common/PatternMatcher, and what the tokenizer makes of it.
 */
module PatternSyntax {

  import opened Strings
  import opened PatternMatchers

  /** A member of a set: a character, or all from one to another. */
  datatype Member = Single(c: char) | Span(lo: char, hi: char)

  /** The parts of a pattern; limits are digits, or nothing. */
  datatype Part =
    | Plain(text: string)
    | Escaped(text: string)
    | Question
    | Star
    | Stars
    | Set(negated: bool, members: seq<Member>)
    | Braces(lo: string, up: string)
    | Brackets(lo: string, up: string)

  // ------------------------------------------------------------ how a pattern is written

  /** Each character behind a backslash. */
  function Escape(text: string): string
  {
    if text == "" then "" else ['\\', text[0]] + Escape(text[1..])
  }

  function WrittenMember(m: Member): string { match m case Single(c) => [c] case Span(lo, hi) => [lo, '-', hi] }

  function WrittenMembers(ms: seq<Member>, rest: string): string
  {
    if ms == [] then rest else WrittenMember(ms[0]) + WrittenMembers(ms[1..], rest)
  }

  function WrittenSet(negated: bool, ms: seq<Member>, rest: string): string
  {
    (if negated then "{^" else "{") + WrittenMembers(ms, "}" + rest)
  }

  function Limited(open: char, lo: string, up: string, closing: char, rest: string): string
  {
    [open] + (lo + (".." + (up + ([closing] + rest))))
  }

  /** A part with what follows it. */
  function Written(part: Part, rest: string): string
  {
    match part
    case Plain(text) => text + rest
    case Escaped(text) => Escape(text) + rest
    case Question => "?" + rest
    case Star => "*" + rest
    case Stars => "**" + rest
    case Set(negated, members) => WrittenSet(negated, members, rest)
    case Braces(lo, up) => Limited('{', lo, up, '}', rest)
    case Brackets(lo, up) => Limited('[', lo, up, ']', rest)
  }

  function WrittenAll(parts: seq<Part>): string
  {
    if parts == [] then "" else Written(parts[0], WrittenAll(parts[1..]))
  }

  // ------------------------------------------------------------ what it means

  function RangeOf(m: Member): (char, char) { match m case Single(c) => (c, c) case Span(lo, hi) => (lo, hi) }

  function RangesOf(ms: seq<Member>): seq<(char, char)> { if ms == [] then [] else [RangeOf(ms[0])] + RangesOf(ms[1..]) }

  predicate IsText(part: Part) { part.Plain? || part.Escaped? || part.Brackets? }

  /** The token of a part other than text. */
  function ElemOf(part: Part, dotted: bool): Elem
    requires !IsText(part)
  {
    match part
    case Question => if dotted then CommonChar else AnyChar
    case Star => if dotted then CommonSeq else AnySeq
    case Stars => AnySeq
    case Set(negated, members) => if negated then NegSet(RangesOf(members)) else CharSet(RangesOf(members))
    case Braces(lo, up) => NumRange(Bound(lo), Bound(up))
  }

  /** The text that a pattern begins with, up to and including a bracket. */
  function Lead(parts: seq<Part>): string
  {
    if parts == [] || !IsText(parts[0]) then ""
    else if parts[0].Brackets? then "["
    else parts[0].text + Lead(parts[1..])
  }

  /** The tokens behind that text: a range in brackets is one between two pieces of text. */
  function Tail(parts: seq<Part>, dotted: bool): seq<Elem>
    decreases |parts|, 0
  {
    if parts == [] then []
    else if !IsText(parts[0]) then [ElemOf(parts[0], dotted)] + Meaning(parts[1..], dotted)
    else if parts[0].Brackets? then
      [NumRange(Bound(parts[0].lo), Bound(parts[0].up)), Literal("]" + Lead(parts[1..]))] + Tail(parts[1..], dotted)
    else Tail(parts[1..], dotted)
  }

  function Meaning(parts: seq<Part>, dotted: bool): seq<Elem>
    decreases |parts|, 1
  {
    (if Lead(parts) == "" then [] else [Literal(Lead(parts))]) + Tail(parts, dotted)
  }

  // ------------------------------------------------------------ where parts cannot stand

  function FirstOf(m: Member): char { if m.Single? then m.c else m.lo }

  /**
   * A closing brace is a member only in the first place, and not the end of a span; a dash behind a single character
   * makes a span, unless it is the last member.
   */
  predicate MembersOk(ms: seq<Member>, first: bool)
  {
    if ms == [] then !first
    else
      && (first || FirstOf(ms[0]) != '}') && MembersOk(ms[1..], false)
      && match ms[0]
         case Single(_) => ms[1..] == [] || FirstOf(ms[1]) != '-' || ms[1..] == [Single('-')]
         case Span(_, hi) => hi != '}'
  }

  /** The members must not read like limits or begin like a negation. */
  predicate SetOk(negated: bool, ms: seq<Member>)
  {
    MembersOk(ms, true) && (!negated ==> FirstOf(ms[0]) != '^') && LimitsAt(WrittenSet(negated, ms, ""), '}').NoLimits?
  }

  predicate PartOk(part: Part)
  {
    match part
    case Plain(text) => text != "" && !ContainsWildcards(text)
    case Escaped(text) => text != ""
    case Set(negated, members) => SetOk(negated, members)
    case Braces(lo, up) => AllDigits(lo) && AllDigits(up)
    case Brackets(lo, up) => AllDigits(lo) && AllDigits(up)
    case _ => true
  }

  /**
   * Two plain texts in a row are one; a star in front of a star makes two stars; and a backslash does not
   * take away the meaning of a bracket with limits.
   */
  predicate PartsOk(parts: seq<Part>)
  {
    parts != [] ==>
      && PartOk(parts[0]) && PartsOk(parts[1..])
      && (parts[0].Plain? && |parts| > 1 ==> !parts[1].Plain?)
      && (parts[0].Star? && |parts| > 1 ==> !parts[1].Star? && !parts[1].Stars?)
      && (parts[0].Escaped? && parts[0].text[|parts[0].text| - 1] == '[' ==> !StartsRange("[" + WrittenAll(parts[1..])))
  }

  // ------------------------------------------------------------ text

  /** A bracket with limits, "[n..m]", at the start of a text. */
  predicate StartsRange(s: string) { s != "" && s[0] == '[' && LimitsAt(s, ']').Limits? }

  lemma NoLimitsHere(s: string, closing: char)
    requires At(s, 1) != '.' && !IsDigit(At(s, 1))
    ensures LimitsAt(s, closing).NoLimits?
  {
  }

  lemma NoRangeHere(s: string)
    requires At(s, 1) != '.' && !IsDigit(At(s, 1))
    ensures !StartsRange(s)
  {
    NoLimitsHere(s, ']');
  }

  lemma NoRangeElsewhere(s: string)
    requires s != ""
    ensures s[0] != '[' ==> !StartsRange(s)
  {
  }

  lemma LimitsInText(s: string, open: char, lo: string, up: string, w: string, closing: char)
    requires AllDigits(lo) && AllDigits(up) && !IsDigit(closing) && w != "" && w[0] == closing
    requires s == [open] + (lo + (".." + (up + w)))
    ensures LimitsAt(s, closing) == Limits(Bound(lo), Bound(up), w)
  {
    hide DigitRun, Bound, AllDigits;
    var v := up + w;
    var u := ".." + v;
    assert s[1..] == lo + u && u[2..] == v;
    RunOfDigits(lo, u);
    RunOfDigits(up, w);
  }

  lemma RunOfDigits(digits: string, rest: string)
    requires AllDigits(digits) && !IsDigit(At(rest, 0))
    ensures DigitRun(digits + rest) == |digits|
    ensures (digits + rest)[..|digits|] == digits && (digits + rest)[|digits|..] == rest
  {
    assert (digits + rest)[..|digits|] == digits && (digits + rest)[|digits|..] == rest;
    DigitRunIsUnique(digits + rest, |digits|);
  }

  /** A text without two dots in a row that begins with a bracket, with something else than limits behind it. */
  lemma NoLimitsInPlain(plain: string, rest: string, closing: char)
    requires plain != "" && !TwoDots(plain) && !IsDigit(At(rest, 0)) && At(rest, 0) != '.'
    ensures LimitsAt(plain + rest, closing).NoLimits?
  {
    var s := plain + rest;
    var i := 1 + DigitRun(s[1..]);
    DigitRunIsMaximal(s[1..]);
    var t := s[1..];
    var digits := t[..i - 1];
    assert forall k :: 0 <= k < i - 1 ==> IsDigit(digits[k]);
    assert rest != "" ==> t[|plain| - 1] == rest[0];
    if i + 1 < |s| {
      assert s[1..][i - 1..] == s[i..];
      assert i + 1 < |plain| ==> !(plain[i] == '.' && plain[i + 1] == '.');
    }
  }

  lemma CharIsRead(c: char, t: string)
    requires !StopsLiteral(c) && c != '\\' && !StartsRange([c] + t)
    ensures LiteralAt([c] + t) == Before(c, LiteralAt(t))
  {
    hide LimitsAt;
    assert ([c] + t)[1..] == t;
  }

  lemma NoPrefix(scan: LiteralScan)
    ensures Prefixed("", scan) == scan
  {
    if scan.Scanned? { assert "" + scan.text == scan.text; }
  }

  lemma LongerPrefix(text: string, scan: LiteralScan)
    requires text != ""
    ensures Before(text[0], Prefixed(text[1..], scan)) == Prefixed(text, scan)
  {
    if scan.Scanned? { assert [text[0]] + (text[1..] + scan.text) == text + scan.text; }
  }

  lemma {:induction false} PlainIsRead(text: string, rest: string)
    requires !ContainsWildcards(text) && !IsDigit(At(rest, 0)) && At(rest, 0) != '.'
    ensures LiteralAt(text + rest) == Prefixed(text, LiteralAt(rest))
  {
    hide LimitsAt, LiteralAt;
    if text == "" {
      assert text + rest == rest;
      NoPrefix(LiteralAt(rest));
    } else {
      NoLimitsInPlain(text, rest, ']');
      NoTwoDotsBehind(text);
      assert forall c :: c in text[1..] ==> c in text;
      assert text[0] in text;
      hide TwoDots;
      PlainIsRead(text[1..], rest);
      assert [text[0]] + (text[1..] + rest) == text + rest;
      CharIsRead(text[0], text[1..] + rest);
      LongerPrefix(text, LiteralAt(rest));
    }
  }

  /** A backslash makes the next character part of the literal if and only if that does not start a bracket with limits. */
  lemma EscapedInLiteral(c: char, t: string)
    ensures LiteralAt(['\\', c] + t) == Before(c, LiteralAt(t)) <==> !StartsRange([c] + t)
  {
    hide LimitsAt;
    var s := ['\\', c] + t;
    assert s[1..] == [c] + t && s[2..] == t;
  }

  /** What the tokens of a text would be if `c`, in front of it, had no special meaning. */
  function WithPlain(c: char, t: string, dotted: bool): Outcome
  {
    match LiteralAt(t)
    case Overrun => Undefined
    case Scanned(text, rest) => Cons(Literal([c] + text), Tokenize(rest, true, dotted))
  }

  /** So it is for a whole pattern, unless the pattern is malformed further on in any case. */
  lemma EscapedInPattern(c: char, t: string, afterLiteral: bool, dotted: bool)
    ensures var outcome := Tokenize(['\\', c] + t, afterLiteral, dotted);
      outcome == WithPlain(c, t, dotted) <==> !StartsRange([c] + t) || !outcome.Tokens?
  {
    hide LimitsAt, LiteralAt;
    var s := ['\\', c] + t;
    EscapedInLiteral(c, t);
    if StartsRange([c] + t) {
      var limits := LimitsAt([c] + t, ']');
      var plain := LimitsArePlain([c] + t);
      assert ([c] + t)[1..] == t;
      assert s == ['\\'] + ([c] + t);
      BackslashBeforeRange([c] + t, afterLiteral, dotted);
      RangeAfterLiteral([c] + t, dotted);
      ClosingBracketIsLiteral(limits.rest, dotted);
      var scan := LiteralAt(limits.rest);
      assert LiteralAt(t) == Prefixed(plain, scan);
      if scan.Scanned? {
        assert WithPlain(c, t, dotted) == Cons(Literal([c] + (plain + scan.text)), Tokenize(scan.rest, true, dotted));
        var more := Tokenize(scan.rest, true, dotted);
        hide Tokenize, WithPlain;
        assert Tokenize(s, afterLiteral, dotted)
            == Cons(Literal("["), Cons(NumRange(limits.lo, limits.up), Cons(Literal(scan.text), more)));
        assert more.Tokens? ==> Tokenize(s, afterLiteral, dotted).elems[0] == Literal("[");
        assert |[c] + (plain + scan.text)| > |"["|;
      }
    }
  }

  lemma {:induction false} EscapeIsRead(text: string, rest: string)
    requires text != "" && text[|text| - 1] == '[' ==> !StartsRange("[" + rest)
    ensures LiteralAt(Escape(text) + rest) == Prefixed(text, LiteralAt(rest))
  {
    hide LiteralAt, StartsRange;
    if text == "" {
      assert Escape(text) + rest == rest;
      NoPrefix(LiteralAt(rest));
    } else {
      var c, t := text[0], Escape(text[1..]) + rest;
      assert Escape(text) + rest == ['\\', c] + t;
      EscapeIsRead(text[1..], rest);
      if text[1..] == "" {
        assert t == rest && (c == '[' ==> [c] + t == "[" + rest);
        NoRangeElsewhere([c] + t);
      } else {
        assert t[0] == '\\';
        NoRangeHere([c] + t);
      }
      EscapedInLiteral(c, t);
      LongerPrefix(text, LiteralAt(rest));
    }
  }

  // ------------------------------------------------------------ sets

  lemma {:induction false} MembersAreRead(ms: seq<Member>, rest: string, first: bool)
    requires MembersOk(ms, first)
    ensures RangesAt(WrittenMembers(ms, "}" + rest), first) == Closed(RangesOf(ms), rest)
  {
    var s := WrittenMembers(ms, "}" + rest);
    if ms == [] {
      assert s == "}" + rest && s[1..] == rest;
    } else {
      var t := WrittenMembers(ms[1..], "}" + rest);
      MembersAreRead(ms[1..], rest, false);
      MembersStart(ms[1..], rest);
      match ms[0]
      case Single(c) =>
        assert s[1..] == t && At(s, 1) == t[0];
        if ms[1..] == [Single('-')] { assert t == "-" + ("}" + rest) by { assert ms[1..][1..] == []; } }
      case Span(lo, hi) =>
        assert s[3..] == t && s[1] == '-' && s[2] == hi;
    }
  }

  lemma MembersStart(ms: seq<Member>, rest: string)
    ensures var t := WrittenMembers(ms, "}" + rest); t != "" && t[0] == if ms == [] then '}' else FirstOf(ms[0])
  {
  }

  lemma {:induction false} WrittenMembersSplit(ms: seq<Member>, x: string, rest: string)
    ensures WrittenMembers(ms, x + rest) == WrittenMembers(ms, x) + rest
  {
    if ms != [] {
      WrittenMembersSplit(ms[1..], x, rest);
      Assoc(WrittenMember(ms[0]), WrittenMembers(ms[1..], x), rest);
    }
  }

  lemma {:induction false} WrittenMembersEnd(ms: seq<Member>)
    ensures var t := WrittenMembers(ms, "}"); t != "" && t[|t| - 1] == '}'
  {
    if ms != [] { WrittenMembersEnd(ms[1..]); }
  }

  lemma LimitsSplit(s: string, closing: char) returns (lo: string, up: string)
    requires LimitsAt(s, closing).Limits?
    ensures var rest := LimitsAt(s, closing).rest; rest[0] == closing && s[1..] == lo + (".." + (up + rest))
    ensures AllDigits(lo) && AllDigits(up)
  {
    hide DigitRun, AllDigits, LimitsAt;
    LimitsParts(s, closing);
    var t := s[1..];
    var v := t[DigitRun(t)..][2..];
    lo, up := t[..DigitRun(t)], v[..DigitRun(v)];
    DigitRunIsMaximal(t);
    DigitRunIsMaximal(v);
    TwoSplits(t, DigitRun(t), v, DigitRun(v));
  }

  lemma TwoSplits(t: string, n: nat, v: string, m: nat)
    requires n <= |t| && m <= |v| && t[n..] == ".." + v
    ensures t == t[..n] + (".." + (v[..m] + v[m..]))
  {
    assert v[..m] + v[m..] == v;
    assert t[..n] + t[n..] == t;
  }

  lemma LimitsParts(s: string, closing: char)
    requires LimitsAt(s, closing).Limits?
    ensures s != "" && |s[1..][DigitRun(s[1..])..]| >= 2
    ensures var u := s[1..][DigitRun(s[1..])..];
      var v := u[2..];
      var w := LimitsAt(s, closing).rest;
      u == ".." + v && w == v[DigitRun(v)..] && w[0] == closing
  {
    hide DigitRun, Bound;
    var u := s[1..][DigitRun(s[1..])..];
    assert u == [u[0], u[1]] + u[2..];
  }

  /** Whether braces hold limits does not depend on what follows them. */
  lemma NoLimitsWithRest(x: string, rest: string)
    requires x != "" && x[|x| - 1] == '}' && |x| > 1 && LimitsAt(x, '}').NoLimits?
    ensures LimitsAt(x + rest, '}').NoLimits?
  {
    hide LimitsAt;
    var s := x + rest;
    if LimitsAt(s, '}').Limits? {
      var lo, up := LimitsSplit(s, '}');
      LimitsWithin(x, rest, lo, up, LimitsAt(s, '}').rest);
    }
  }

  lemma LimitsWithin(x: string, rest: string, lo: string, up: string, w: string)
    requires |x| > 1 && x[|x| - 1] == '}' && w != "" && w[0] == '}' && AllDigits(lo) && AllDigits(up)
    requires (x + rest)[1..] == lo + (".." + (up + w))
    ensures LimitsAt(x, '}').Limits?
  {
    hide LimitsAt, Bound;
    var inside := lo + (".." + up);
    assert inside + w == lo + (".." + (up + w));
    LimitsStayInside(x, rest, inside, w);
    var behind := x[|inside| + 1..];
    assert x == [x[0]] + (lo + (".." + (up + behind)));
    LimitsInText(x, x[0], lo, up, behind, '}');
  }

  lemma LimitsStayInside(x: string, rest: string, inside: string, w: string)
    requires |x| > 1 && x[|x| - 1] == '}' && w != "" && w[0] == '}' && '}' !in inside && (x + rest)[1..] == inside + w
    ensures |inside| + 1 < |x| && x[1..] == inside + x[|inside| + 1..] && x[|inside| + 1] == '}'
  {
    var s := inside + w;
    assert s[|x| - 2] == (x + rest)[1..][|x| - 2] == x[|x| - 1];
    assert |inside| <= |x| - 2;
    assert s[|inside|] == w[0];
    assert forall k :: 0 <= k < |inside| ==> inside[k] == s[k] == x[k + 1];
  }

  lemma SetStart(negated: bool, ms: seq<Member>, rest: string)
    requires SetOk(negated, ms)
    ensures var s := WrittenSet(negated, ms, rest); s != "" && s[0] == '{' && LimitsAt(s, '}').NoLimits?
  {
    hide LimitsAt;
    var x := WrittenSet(negated, ms, "");
    WrittenMembersEnd(ms);
    WrittenMembersSplit(ms, "}", rest);
    assert "}" + "" == "}";
    Assoc(if negated then "{^" else "{", WrittenMembers(ms, "}"), rest);
    assert x + rest == WrittenSet(negated, ms, rest);
    NoLimitsWithRest(x, rest);
  }

  lemma SetIsRead(negated: bool, ms: seq<Member>, rest: string)
    requires SetOk(negated, ms)
    ensures var s := WrittenSet(negated, ms, rest);
      s != "" && SetAt(s) == SetElem(if negated then NegSet(RangesOf(ms)) else CharSet(RangesOf(ms)), rest)
  {
    hide LimitsAt, RangesAt;
    var s, t := WrittenSet(negated, ms, rest), WrittenMembers(ms, "}" + rest);
    MembersAreRead(ms, rest, true);
    MembersStart(ms, rest);
    if negated {
      assert s[2..] == t && s[1] == '^';
    } else {
      assert s[1..] == t && s[1] == t[0];
    }
  }

  // ------------------------------------------------------------ whole patterns

  /** Where the tokenizer stands behind the text that a pattern begins with. */
  function Rest(parts: seq<Part>): string
  {
    if parts != [] && (parts[0].Plain? || parts[0].Escaped?) then Rest(parts[1..]) else WrittenAll(parts)
  }

  lemma StartOf(parts: seq<Part>)
    requires PartsOk(parts) && (parts != [] ==> !parts[0].Plain?)
    ensures var c := At(WrittenAll(parts), 0); !IsDigit(c) && c != '.'
  {
    if parts != [] {
      match parts[0]
      case Set(negated, members) => SetStart(negated, members, WrittenAll(parts[1..]));
      case _ =>
    }
  }

  /** The text that a pattern begins with is read as one literal. */
  lemma {:induction false} LeadIsRead(parts: seq<Part>)
    requires PartsOk(parts)
    ensures LiteralAt(WrittenAll(parts)) == Scanned(Lead(parts), Rest(parts))
    decreases |parts|
  {
    hide LimitsAt, LiteralAt, StartsRange, ContainsWildcards, AllDigits, SetOk, Limited;
    if parts == [] {
      NoTextIsRead("");
    } else {
      var rest := WrittenAll(parts[1..]);
      match parts[0]
      case Plain(text) =>
        LeadIsRead(parts[1..]);
        StartOf(parts[1..]);
        PlainIsRead(text, rest);
      case Escaped(text) =>
        LeadIsRead(parts[1..]);
        EscapeIsRead(text, rest);
      case Brackets(lo, up) => BracketsStart(lo, up, rest);
      case Set(negated, members) =>
        SetStart(negated, members, rest);
        NoTextIsRead(WrittenAll(parts));
      case Braces(lo, up) =>
        BracesStart(lo, up, rest);
        NoTextIsRead(WrittenAll(parts));
      case _ => NoTextIsRead(WrittenAll(parts));
    }
  }

  lemma NoTextIsRead(s: string)
    requires s != "" ==> StopsLiteral(s[0])
    ensures LiteralAt(s) == Scanned("", s)
  {
  }

  lemma BracesStart(lo: string, up: string, rest: string)
    ensures var s := Limited('{', lo, up, '}', rest); s != "" && s[0] == '{'
  {
  }

  lemma BracketsStart(lo: string, up: string, rest: string)
    requires AllDigits(lo) && AllDigits(up)
    ensures var s := Limited('[', lo, up, ']', rest);
      s != "" && s[0] == '[' && LimitsAt(s, ']') == Limits(Bound(lo), Bound(up), "]" + rest) && LiteralAt(s) == Scanned("[", s)
  {
    LimitsInText(Limited('[', lo, up, ']', rest), '[', lo, up, "]" + rest, ']');
    hide LimitsAt, AllDigits, Bound;
    RangeScan(Limited('[', lo, up, ']', rest));
  }

  lemma RangeScan(s: string)
    requires s != "" && s[0] == '[' && LimitsAt(s, ']').Limits?
    ensures LiteralAt(s) == Scanned("[", s)
  {
    hide LimitsAt;
  }

  /** A part other than text is one token. */
  lemma ElemIsRead(part: Part, rest: string, afterLiteral: bool, dotted: bool)
    requires PartOk(part) && !IsText(part) && (part.Star? ==> At(rest, 0) != '*')
    ensures Tokenize(Written(part, rest), afterLiteral, dotted) == Cons(ElemOf(part, dotted), Tokenize(rest, false, dotted))
  {
    hide LimitsAt, SetAt, LiteralAt;
    var s := Written(part, rest);
    match part
    case Set(negated, members) =>
      SetStart(negated, members, rest);
      SetIsRead(negated, members, rest);
    case Braces(lo, up) =>
      LimitsInText(s, '{', lo, up, "}" + rest, '}');
      assert ("}" + rest)[1..] == rest;
    case Stars => assert s[2..] == rest;
    case Question => assert s[1..] == rest;
    case Star => assert s[1..] == rest;
  }

  lemma NotAStar(parts: seq<Part>)
    requires PartsOk(parts) && parts != [] && !parts[0].Star? && !parts[0].Stars?
    ensures At(WrittenAll(parts), 0) != '*'
  {
    match parts[0]
    case Plain(text) => assert text[0] in text;
    case Set(negated, members) => SetStart(negated, members, WrittenAll(parts[1..]));
    case _ =>
  }

  lemma FirstIsRead(parts: seq<Part>, afterLiteral: bool, dotted: bool)
    requires PartsOk(parts) && parts != [] && !IsText(parts[0])
    ensures Tokenize(WrittenAll(parts), afterLiteral, dotted)
         == Cons(ElemOf(parts[0], dotted), Tokenize(WrittenAll(parts[1..]), false, dotted))
    ensures forall elems: seq<Elem> :: Cons(ElemOf(parts[0], dotted), Tokens(elems)) == Tokens([ElemOf(parts[0], dotted)] + elems)
  {
    hide Tokenize, LimitsAt, StartsRange, ContainsWildcards, AllDigits, SetOk;
    if parts[0].Star? && |parts| > 1 { NotAStar(parts[1..]); }
    ElemIsRead(parts[0], WrittenAll(parts[1..]), afterLiteral, dotted);
  }

  /** Behind its leading text, a pattern gives the tokens of the tail. */
  lemma {:induction false} TailIsRead(parts: seq<Part>, dotted: bool)
    requires PartsOk(parts)
    ensures Tokenize(Rest(parts), true, dotted) == Tokens(Tail(parts, dotted))
    decreases |parts|, 0
  {
    hide Tokenize, Limited, LimitsAt, StartsRange, ContainsWildcards, AllDigits, SetOk, Meaning, Cons, Bound, Lead;
    if parts == [] {
      NothingLeft(true, dotted);
    } else {
      if !IsText(parts[0]) {
        WrittenIsRead(parts[1..], dotted);
        FirstIsRead(parts, true, dotted);
      } else if parts[0].Brackets? {
        TailIsRead(parts[1..], dotted);
        BracketIsRead(parts[0].lo, parts[0].up, parts[1..], dotted);
        ConsTwo(NumRange(Bound(parts[0].lo), Bound(parts[0].up)), Literal("]" + Lead(parts[1..])), Tail(parts[1..], dotted));
      } else {
        TailIsRead(parts[1..], dotted);
      }
    }
  }

  lemma ConsTwo(d: Elem, e: Elem, elems: seq<Elem>)
    ensures Cons(d, Cons(e, Tokens(elems))) == Tokens([d, e] + elems)
  {
    assert [d] + ([e] + elems) == [d, e] + elems;
  }

  lemma NothingLeft(afterLiteral: bool, dotted: bool)
    ensures Tokenize("", afterLiteral, dotted) == Tokens([])
  {
  }

  lemma BracketIsRead(lo: string, up: string, parts: seq<Part>, dotted: bool)
    requires AllDigits(lo) && AllDigits(up) && PartsOk(parts)
    ensures Tokenize(Limited('[', lo, up, ']', WrittenAll(parts)), true, dotted)
         == Cons(NumRange(Bound(lo), Bound(up)), Cons(Literal("]" + Lead(parts)), Tokenize(Rest(parts), true, dotted)))
  {
    var rest := WrittenAll(parts);
    BracketsStart(lo, up, rest);
    RangeAfterLiteral(Limited('[', lo, up, ']', rest), dotted);
    LeadIsRead(parts);
    hide Tokenize, LimitsAt, Rest, Lead, WrittenAll;
    ClosingBracketIsLiteral("]" + rest, dotted);
    ClosingBracketScan(rest);
  }

  lemma ClosingBracketScan(rest: string)
    ensures LiteralAt("]" + rest) == Before(']', LiteralAt(rest))
  {
    hide LimitsAt;
    assert ("]" + rest)[1..] == rest;
  }

  /** A pattern in the documented syntax is read as what it means. */
  lemma {:induction false} WrittenIsRead(parts: seq<Part>, dotted: bool)
    requires PartsOk(parts)
    ensures Tokenize(WrittenAll(parts), false, dotted) == Tokens(Meaning(parts, dotted))
    decreases |parts|, 1
  {
    hide Tokenize, LiteralAt, LimitsAt, StartsRange, ContainsWildcards, AllDigits, SetOk, Rest;
    if parts == [] {
      NothingLeft(false, dotted);
    } else {
      if !IsText(parts[0]) {
        WrittenIsRead(parts[1..], dotted);
        FirstIsRead(parts, false, dotted);
      } else {
        TailIsRead(parts, dotted);
        LeadIsRead(parts);
        TextStart(parts);
        TextIsLiteral(WrittenAll(parts), dotted);
      }
    }
  }

  lemma TextStart(parts: seq<Part>)
    requires PartsOk(parts) && parts != [] && IsText(parts[0])
    ensures var s := WrittenAll(parts); s != "" && s[0] != '?' && s[0] != '*' && s[0] != '{'
    ensures Lead(parts) != ""
  {
    if parts[0].Plain? { assert parts[0].text[0] in parts[0].text; }
  }

  lemma TextIsLiteral(s: string, dotted: bool)
    requires s != "" && s[0] != '?' && s[0] != '*' && s[0] != '{'
    ensures var scan := LiteralAt(s);
      Tokenize(s, false, dotted) == if scan.Overrun? then Undefined else Cons(Literal(scan.text), Tokenize(scan.rest, true, dotted))
  {
    hide LimitsAt, LiteralAt;
  }

  // ------------------------------------------------------------ ranges in brackets

  function Decimal(n: nat): (s: string)
    ensures s != "" && AllDigits(s) && Number(s) == n
  {
    if n < 10 then
      var s := [(n + '0' as int) as char];
      assert s[..0] == "";
      s
    else
      var s := Decimal(n / 10) + [(n % 10 + '0' as int) as char];
      assert s[..|s| - 1] == Decimal(n / 10);
      s
  }

  function WrittenBound(n: int): string { if n < 0 then "" else Decimal(n) }

  function Bracketed(open: char, from: int, to: int, closing: char, rest: string): string
  {
    [open] + (WrittenBound(from) + (".." + (WrittenBound(to) + ([closing] + rest))))
  }

  lemma BracketedIsLimited(open: char, from: int, to: int, closing: char, rest: string)
    ensures Bracketed(open, from, to, closing, rest) == Limited(open, WrittenBound(from), WrittenBound(to), closing, rest)
  {
  }

  function PlainParts(text: string): seq<Part> { if text == "" then [] else [Plain(text)] }

  function AroundBrackets(t: string, from: int, to: int, u: string): seq<Part>
  {
    PlainParts(t) + ([Brackets(WrittenBound(from), WrittenBound(to))] + PlainParts(u))
  }

  /** A range in brackets between plain texts is one: the brackets belong to the texts around it. */
  lemma BracketInPlain(t: string, from: int, to: int, u: string, dotted: bool)
    requires !ContainsWildcards(t) && !ContainsWildcards(u) && from >= -1 && to >= -1
    ensures Tokenize(t + Bracketed('[', from, to, ']', u), false, dotted)
         == Tokens([Literal(t + "["), NumRange(from, to), Literal("]" + u)])
  {
    AroundBracketsIs(t, from, to, u, dotted);
    hide Tokenize, Meaning, WrittenAll;
    WrittenIsRead(AroundBrackets(t, from, to, u), dotted);
  }

  /** So it is behind a wildcard. */
  lemma BracketBehindWildcard(wildcard: Part, t: string, from: int, to: int, u: string, dotted: bool)
    requires wildcard == Question || wildcard == Star || wildcard == Stars
    requires !ContainsWildcards(t) && !ContainsWildcards(u) && from >= -1 && to >= -1
    ensures Tokenize(Written(wildcard, t + Bracketed('[', from, to, ']', u)), false, dotted)
         == Tokens([ElemOf(wildcard, dotted), Literal(t + "["), NumRange(from, to), Literal("]" + u)])
  {
    AroundBracketsIs(t, from, to, u, dotted);
    BracketInPlain(t, from, to, u, dotted);
    var parts := AroundBrackets(t, from, to, u);
    if wildcard.Star? { NotAStar(parts); }
    hide Tokenize, Meaning, WrittenAll;
    ElemIsRead(wildcard, WrittenAll(parts), false, dotted);
    assert [ElemOf(wildcard, dotted)] + [Literal(t + "["), NumRange(from, to), Literal("]" + u)]
        == [ElemOf(wildcard, dotted), Literal(t + "["), NumRange(from, to), Literal("]" + u)];
  }

  lemma AroundBracketsIs(t: string, from: int, to: int, u: string, dotted: bool)
    requires !ContainsWildcards(t) && !ContainsWildcards(u) && from >= -1 && to >= -1
    ensures var parts := AroundBrackets(t, from, to, u);
      && PartsOk(parts) && parts != [] && !parts[0].Star? && !parts[0].Stars?
      && WrittenAll(parts) == t + Bracketed('[', from, to, ']', u)
      && Meaning(parts, dotted) == [Literal(t + "["), NumRange(from, to), Literal("]" + u)]
  {
    var lo, up := WrittenBound(from), WrittenBound(to);
    var back, parts := [Brackets(lo, up)] + PlainParts(u), AroundBrackets(t, from, to, u);
    BracketedIsLimited('[', from, to, ']', u);
    assert AllDigits(lo) && AllDigits(up) && Bound(lo) == from && Bound(up) == to;
    hide WrittenBound, LimitsAt, ContainsWildcards, Limited, Bracketed;
    BackOfBrackets(lo, up, u, dotted);
    if t == "" {
      assert parts == back && t + "[" == "[" && t + WrittenAll(back) == WrittenAll(back);
    } else {
      assert parts[0] == Plain(t) && parts[1..] == back;
    }
  }

  lemma BackOfBrackets(lo: string, up: string, u: string, dotted: bool)
    requires AllDigits(lo) && AllDigits(up) && !ContainsWildcards(u)
    ensures var parts := [Brackets(lo, up)] + PlainParts(u);
      && PartsOk(parts) && WrittenAll(parts) == Limited('[', lo, up, ']', u) && Lead(parts) == "["
      && Tail(parts, dotted) == [NumRange(Bound(lo), Bound(up)), Literal("]" + u)]
      && Meaning(parts, dotted) == [Literal("["), NumRange(Bound(lo), Bound(up)), Literal("]" + u)]
  {
    hide LimitsAt, ContainsWildcards, Limited, Bound;
    var parts := [Brackets(lo, up)] + PlainParts(u);
    assert parts[1..] == PlainParts(u);
    PlainAlone(u, dotted);
    assert "]" + "" == "]";
  }

  lemma PlainAlone(u: string, dotted: bool)
    requires !ContainsWildcards(u)
    ensures var parts := PlainParts(u); PartsOk(parts) && WrittenAll(parts) == u && Lead(parts) == u && Tail(parts, dotted) == []
  {
    hide LimitsAt, ContainsWildcards;
    var parts := PlainParts(u);
    if u != "" {
      assert parts[1..] == [];
      assert u + "" == u && WrittenAll([]) == "" && Lead([]) == "" && Tail([], dotted) == [];
    }
  }

  /** Such a pattern stands for the texts with a number between the limits in between. */
  lemma BracketMatches(t: string, from: int, to: int, u: string, line: string)
    ensures Denotes([Literal(t + "["), NumRange(from, to), Literal("]" + u)], line) <==>
      exists digits: string :: IsNumeral(digits, from, to) && Between(t, digits, u) == line
  {
    var p := [Literal(t + "["), NumRange(from, to), Literal("]" + u)];
    LiteralHead(p, line);
    assert p[1..] == [NumRange(from, to), Literal("]" + u)];
    hide Denotes, IsNumeral;
    forall digits: string ensures Between(t, digits, u) == line <==> t + "[" <= line && line[|t| + 1..] == digits + ("]" + u) {
      BetweenIs(t, digits, u, line);
    }
    hide Between;
    if t + "[" <= line { NumeralBefore(from, to, "]" + u, line[|t| + 1..]); }
  }

  function Between(t: string, digits: string, u: string): string { t + "[" + digits + "]" + u }

  lemma BetweenIs(t: string, digits: string, u: string, line: string)
    ensures Between(t, digits, u) == line <==> t + "[" <= line && line[|t| + 1..] == digits + ("]" + u)
  {
    var s := Between(t, digits, u);
    assert s == (t + "[") + (digits + ("]" + u));
    assert s[|t| + 1..] == digits + ("]" + u);
    assert t + "[" <= line ==> line == (t + "[") + line[|t| + 1..];
  }

  lemma NumeralBefore(from: int, to: int, text: string, s: string)
    requires text != "" && !IsDigit(text[0])
    ensures Denotes([NumRange(from, to), Literal(text)], s) <==> exists digits: string :: IsNumeral(digits, from, to) && s == digits + text
  {
    var p := [NumRange(from, to), Literal(text)];
    var n := DigitRun(s);
    NumberHead(p, s);
    assert p[1..] == [Literal(text)];
    LiteralOnly(text, s[n..]);
    DigitRunIsMaximal(s);
    assert s == s[..n] + s[n..];
    hide Denotes, DigitRun;
    assert Denotes(p, s) ==> IsNumeral(s[..n], from, to) && s == s[..n] + text;
    forall digits: string | IsNumeral(digits, from, to) && s == digits + text ensures Denotes(p, s) {
      RunOfDigits(digits, text);
    }
  }

  /** A number that is written with digits and within its limits, of which a negative one is none. */
  predicate IsNumeral(digits: string, from: int, to: int)
  {
    digits != "" && AllDigits(digits) && (from >= 0 ==> from <= Number(digits)) && (to >= 0 ==> Number(digits) <= to)
  }

  // ------------------------------------------------------------ what single tokens stand for

  lemma OneElem(e: Elem, s: string)
    requires !e.End?
    ensures e.Literal? ==> (Denotes([e], s) <==> s == e.text)
    ensures e.AnyChar? ==> (Denotes([e], s) <==> |s| == 1)
    ensures e.CommonChar? ==> (Denotes([e], s) <==> |s| == 1 && s != ".")
    ensures e.CharSet? ==> (Denotes([e], s) <==> |s| == 1 && exists j :: 0 <= j < |e.ranges| && e.ranges[j].0 <= s[0] <= e.ranges[j].1)
    ensures e.NegSet? ==> (Denotes([e], s) <==> |s| == 1 && !exists j :: 0 <= j < |e.ranges| && e.ranges[j].0 <= s[0] <= e.ranges[j].1)
    ensures e.NumRange? ==> (Denotes([e], s) <==> IsNumeral(s, e.from, e.to))
    ensures e.AnySeq? ==> Denotes([e], s)
    ensures e.CommonSeq? ==> (Denotes([e], s) <==> '.' !in s)
  {
    assert [e][1..] == [];
    assert s[..|s|] == s && s[|s|..] == "";
    assert Denotes([e], s) <==> Fits(e, s, "") by {
      if Denotes([e], s) {
        var i :| 0 <= i <= |s| && Fits(e, s[..i], s[i..]) && Denotes([e][1..], s[i..]);
        assert i == |s|;
      }
      if Fits(e, s, "") { assert Fits([e][0], s[..|s|], s[|s|..]) && Denotes([e][1..], s[|s|..]); }
    }
  }

  /** A pattern that is well formed stands for the line. */
  ghost predicate StandsFor(pattern: string, dotted: bool, line: string)
  {
    Tokenize(pattern, false, dotted).Tokens? && Denotes(Tokenize(pattern, false, dotted).elems, line)
  }

  lemma PartStandsFor(part: Part, dotted: bool, line: string)
    requires PartOk(part) && !IsText(part)
    ensures StandsFor(Written(part, ""), dotted, line) <==> Denotes([ElemOf(part, dotted)], line)
  {
    hide Tokenize, SetOk, AllDigits, Denotes;
    NothingLeft(false, dotted);
    ElemIsRead(part, "", false, dotted);
    assert [ElemOf(part, dotted)] + [] == [ElemOf(part, dotted)];
  }

  /** The wildcards exclude the dot in dotted mode only, and two stars never do. */
  lemma WildcardsStandFor(dotted: bool, line: string)
    ensures StandsFor("?", dotted, line) <==> |line| == 1 && (dotted ==> line != ".")
    ensures StandsFor("*", dotted, line) <==> (dotted ==> '.' !in line)
    ensures StandsFor("**", dotted, line)
  {
    assert "?" + "" == "?" && "*" + "" == "*" && "**" + "" == "**";
    hide StandsFor, Denotes;
    PartStandsFor(Question, dotted, line);
    PartStandsFor(Star, dotted, line);
    PartStandsFor(Stars, dotted, line);
    OneElem(ElemOf(Question, dotted), line);
    OneElem(ElemOf(Star, dotted), line);
    OneElem(ElemOf(Stars, dotted), line);
  }

  predicate IsMember(c: char, ms: seq<Member>)
  {
    exists j :: 0 <= j < |ms| && match ms[j] case Single(d) => c == d case Span(lo, hi) => lo <= c <= hi
  }

  lemma {:induction false} RangesOfMembers(ms: seq<Member>)
    ensures |RangesOf(ms)| == |ms| && forall j :: 0 <= j < |ms| ==> RangesOf(ms)[j] == RangeOf(ms[j])
  {
    if ms != [] { RangesOfMembers(ms[1..]); }
  }

  lemma InRangesOfMembers(c: char, ms: seq<Member>)
    ensures (exists j :: 0 <= j < |RangesOf(ms)| && RangesOf(ms)[j].0 <= c <= RangesOf(ms)[j].1) <==> IsMember(c, ms)
  {
    RangesOfMembers(ms);
  }

  /** A set stands for one character, which is or is not among its members. */
  lemma SetStandsFor(negated: bool, ms: seq<Member>, dotted: bool, line: string)
    requires SetOk(negated, ms)
    ensures StandsFor(WrittenSet(negated, ms, ""), dotted, line) <==> |line| == 1 && IsMember(line[0], ms) != negated
  {
    hide StandsFor, Denotes, SetOk, WrittenSet, IsMember, RangesOf;
    assert PartOk(Set(negated, ms));
    PartStandsFor(Set(negated, ms), dotted, line);
    OneElem(ElemOf(Set(negated, ms), dotted), line);
    if |line| == 1 { InRangesOfMembers(line[0], ms); }
  }

  /** A range in braces stands for the numbers between its limits. */
  lemma BracesStandFor(from: int, to: int, dotted: bool, line: string)
    requires from >= -1 && to >= -1
    ensures StandsFor("{" + WrittenBound(from) + ".." + WrittenBound(to) + "}", dotted, line) <==> IsNumeral(line, from, to)
  {
    hide StandsFor, Denotes, WrittenBound, Bound, AllDigits, IsNumeral;
    var lo, up := WrittenBound(from), WrittenBound(to);
    BoundIsRead(from);
    BoundIsRead(to);
    BracesAre(lo, up);
    PartStandsFor(Braces(lo, up), dotted, line);
    OneElem(NumRange(from, to), line);
  }

  lemma BracesAre(lo: string, up: string)
    ensures Written(Braces(lo, up), "") == "{" + lo + ".." + up + "}"
  {
    assert ['}'] + "" == "}" && ['{'] == "{";
    var inside := ".." + (up + "}");
    assert inside == ".." + up + "}";
    assert "{" + (lo + inside) == "{" + lo + ".." + up + "}";
  }

  lemma BoundIsRead(n: int)
    requires n >= -1
    ensures AllDigits(WrittenBound(n)) && Bound(WrittenBound(n)) == n
  {
  }

  /** A substring match is a match from somewhere on with anything behind it. */
  lemma SurroundedMatchesInside(p: seq<Elem>, line: string)
    ensures Denotes(Surrounded(p), line) <==> exists i :: 0 <= i <= |line| && Denotes(p + [AnySeq], line[i..])
  {
    var q := if LastIs(p, AnySeq) then p else p + [AnySeq];
    forall s: string ensures Denotes(q, s) <==> Denotes(p + [AnySeq], s) {
      if LastIs(p, AnySeq) { TwiceIsOnce(p, s); }
    }
    if q[0] == AnySeq {
      forall i | 0 <= i <= |line| && Denotes(q, line[i..]) ensures Denotes(q, line) { LongerInFront(q, line, i); }
      assert line[0..] == line;
    } else {
      assert ([AnySeq] + q)[1..] == q;
    }
  }

  /** What begins with "**" also matches with anything in front. */
  lemma LongerInFront(q: seq<Elem>, line: string, i: nat)
    requires q != [] && q[0] == AnySeq && i <= |line| && Denotes(q, line[i..])
    ensures Denotes(q, line)
  {
    var s := line[i..];
    var j :| 0 <= j <= |s| && Fits(q[0], s[..j], s[j..]) && Denotes(q[1..], s[j..]);
    assert s[j..] == line[i + j..];
    assert Fits(q[0], line[..i + j], line[i + j..]);
  }

  /** A second "**" at the end changes nothing. */
  lemma {:induction false} TwiceIsOnce(p: seq<Elem>, s: string)
    requires LastIs(p, AnySeq)
    ensures Denotes(p, s) <==> Denotes(p + [AnySeq], s)
    decreases |p|
  {
    var more := p + [AnySeq];
    assert more[1..] == p[1..] + [AnySeq];
    if |p| == 1 {
      assert p == [AnySeq] && more[1..] == [AnySeq];
      AnySeqLast(s);
      AnySeqLast(s[0..]);
      assert Fits(more[0], s[..0], s[0..]) && Denotes(more[1..], s[0..]);
    } else {
      forall i | 0 <= i <= |s| ensures Denotes(p[1..], s[i..]) <==> Denotes(more[1..], s[i..]) { TwiceIsOnce(p[1..], s[i..]); }
    }
  }

  /** The documented test for wildcards: two dots in a row are the last of them. */
  lemma TwoDotsIsSubstring(s: string)
    ensures TwoDots(s) <==> Contains(s, "..")
  {
    if TwoDots(s) {
      var i :| 0 <= i < |s| - 1 && s[i] == '.' && s[i + 1] == '.';
      assert ".." <= s[i..];
    }
    if Contains(s, "..") {
      var i :| 0 <= i <= |s| && ".." <= s[i..];
      assert s[i..][0] == s[i] && s[i..][1] == s[i + 1];
    }
  }

  // ------------------------------------------------------------ escapes

  /** Escaping every character of a text gives a pattern for that text alone. */
  lemma EscapedTextIsPlain(text: string, line: string, dotted: bool)
    requires text != ""
    ensures Tokenize(Escape(text), false, dotted) == Tokens([Literal(text)])
    ensures Denotes([Literal(text)], line) <==> line == text
  {
    var parts := [Escaped(text)];
    assert parts[1..] == [] && Escape(text) + "" == Escape(text) && text + "" == text;
    assert !StartsRange("[" + "");
    assert Lead([]) == "" && Tail([], dotted) == [] && WrittenAll([]) == "";
    hide Tokenize, StartsRange, LimitsAt;
    assert Meaning(parts, dotted) == [Literal(text)];
    WrittenIsRead(parts, dotted);
    LiteralOnly(text, line);
  }

  predicate IsPlain(s: string) { forall i :: 0 <= i < |s| ==> IsDigit(s[i]) || s[i] == '.' }

  lemma {:induction false} LiteralOverPlain(plain: string, t: string)
    requires IsPlain(plain)
    ensures LiteralAt(plain + t) == Prefixed(plain, LiteralAt(t))
  {
    hide LimitsAt, LiteralAt;
    if plain == "" {
      assert plain + t == t;
      NoPrefix(LiteralAt(t));
    } else {
      assert [plain[0]] + (plain[1..] + t) == plain + t;
      LiteralOverPlain(plain[1..], t);
      CharIsRead(plain[0], plain[1..] + t);
      LongerPrefix(plain, LiteralAt(t));
    }
  }

  /** The limits themselves have no special meaning. */
  lemma LimitsArePlain(s: string) returns (plain: string)
    requires StartsRange(s)
    ensures var rest := LimitsAt(s, ']').rest;
      plain != "" && rest[0] == ']' && LiteralAt(s[1..]) == Prefixed(plain, LiteralAt(rest))
  {
    var lo, up := LimitsSplit(s, ']');
    var rest := LimitsAt(s, ']').rest;
    plain := lo + (".." + up);
    hide LimitsAt, LiteralAt, StartsRange, AllDigits, IsPlain;
    PlainJoin(lo, up);
    Assoc(lo, ".." + up, rest);
    Assoc("..", up, rest);
    LiteralOverPlain(plain, rest);
  }

  lemma PlainJoin(lo: string, up: string)
    requires AllDigits(lo) && AllDigits(up)
    ensures IsPlain(lo + (".." + up))
  {
  }

  lemma LimitsAreRead(open: char, from: int, to: int, closing: char, rest: string)
    requires from >= -1 && to >= -1 && !IsDigit(closing)
    ensures LimitsAt(Bracketed(open, from, to, closing, rest), closing) == Limits(from, to, [closing] + rest)
  {
    LimitsInText(Bracketed(open, from, to, closing, rest), open, WrittenBound(from), WrittenBound(to), [closing] + rest, closing);
  }

  lemma BracketedStart(open: char, from: int, to: int, closing: char, rest: string)
    ensures Bracketed(open, from, to, closing, rest) != "" && Bracketed(open, from, to, closing, rest)[0] == open
  {
  }

  lemma ClosingBracketIsLiteral(s: string, dotted: bool)
    requires s != "" && s[0] == ']'
    ensures var scan := LiteralAt(s);
      Tokenize(s, false, dotted) == if scan.Overrun? then Undefined else Cons(Literal(scan.text), Tokenize(scan.rest, true, dotted))
  {
    hide LimitsAt, LiteralAt;
  }

  /** Contrary to its description, a backslash does not take away the meaning of a bracket with limits. */
  lemma EscapedBracketIsStillARange(from: int, to: int, dotted: bool)
    requires from >= -1 && to >= -1
    ensures Tokenize(['\\'] + Bracketed('[', from, to, ']', ""), false, dotted)
         == Tokens([Literal("["), NumRange(from, to), Literal("]")])
  {
    hide LimitsAt, Tokenize;
    var t := Bracketed('[', from, to, ']', "");
    LimitsAreRead('[', from, to, ']', "");
    BracketedStart('[', from, to, ']', "");
    hide Bracketed;
    assert [']'] + "" == "]";
    PlainText("]", "]", dotted);
    assert !ContainsWildcards("]");
    RangeAfterLiteral(t, dotted);
    BackslashBeforeRange(t, false, dotted);
  }

  lemma RangeAfterLiteral(t: string, dotted: bool)
    requires StartsRange(t)
    ensures var limits := LimitsAt(t, ']');
      Tokenize(t, true, dotted) == Cons(NumRange(limits.lo, limits.up), Tokenize(limits.rest, false, dotted))
  {
    hide LimitsAt;
  }

  lemma BackslashBeforeRange(t: string, afterLiteral: bool, dotted: bool)
    requires t != "" && t[0] == '[' && LimitsAt(t, ']').Limits?
    ensures Tokenize(['\\'] + t, afterLiteral, dotted) == Cons(Literal("["), Tokenize(t, true, dotted))
  {
    hide LimitsAt;
    var s := ['\\'] + t;
    assert s[1..] == t;
    assert LiteralAt(s) == Scanned("[", t);
  }
}
