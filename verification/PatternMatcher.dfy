/**
 * The glob patterns of inet/common/PatternMatcher, in the case-sensitive mode: the tokenizer and the
 * backtracking matcher with its shortcuts.
 *
 * A cursor into a C string is an index, or the rest of the string; reading the terminator is reading
 * at the end.  What a token list means is `Denotes`, what a pattern text means is `Tokenize`.
 */
module PatternMatchers {

  import opened Options
  import opened Strings

  datatype Elem =
    | Literal(text: string)
    | AnyChar
    | CommonChar
    | CharSet(ranges: seq<(char, char)>)
    | NegSet(ranges: seq<(char, char)>)
    | NumRange(from: int, to: int)
    | AnySeq
    | CommonSeq
    | End

  predicate IsDigit(c: char) { '0' <= c <= '9' }

  function At(s: string, i: nat): char { if i < |s| then s[i] else '\0' }

  /** The length of the longest prefix of digits. */
  function DigitRun(s: string): (n: nat)
    ensures n <= |s|
  {
    if s == "" || !IsDigit(s[0]) then 0 else 1 + DigitRun(s[1..])
  }

  function Number(digits: string): int
  {
    if digits == "" then 0
    else 10 * Number(digits[..|digits| - 1]) + (digits[|digits| - 1] as int - '0' as int)
  }

  predicate AllDigits(s: string) { forall i :: 0 <= i < |s| ==> IsDigit(s[i]) }

  // ------------------------------------------------------------ meaning of a token list

  predicate InRanges(c: char, ranges: seq<(char, char)>)
  {
    exists j :: 0 <= j < |ranges| && ranges[j].0 <= c <= ranges[j].1
  }

  predicate InLimits(n: int, from: int, to: int) { (from >= 0 ==> n >= from) && (to >= 0 ==> n <= to) }

  /** Whether a token may stand for a piece of the line that has `rest` behind it. */
  predicate Fits(e: Elem, piece: string, rest: string)
  {
    match e
    case Literal(text) => piece == text
    case AnyChar => |piece| == 1
    case CommonChar => |piece| == 1 && piece[0] != '.'
    case CharSet(ranges) => |piece| == 1 && InRanges(piece[0], ranges)
    case NegSet(ranges) => |piece| == 1 && !InRanges(piece[0], ranges)
    case NumRange(from, to) =>
      piece != "" && AllDigits(piece) && !IsDigit(At(rest, 0)) && InLimits(Number(piece), from, to)
    case AnySeq => true
    case CommonSeq => '.' !in piece
    case End => false
  }

  /** A token list stands for the lines that can be cut into one fitting piece per token. */
  ghost predicate Denotes(p: seq<Elem>, s: string)
    decreases |p|
  {
    if p == [] then s == "" else exists i :: 0 <= i <= |s| && Fits(p[0], s[..i], s[i..]) && Denotes(p[1..], s[i..])
  }

  lemma NothingDenotes(s: string)
    ensures Denotes([], s) <==> s == ""
  {
  }

  lemma DenotesFixed(p: seq<Elem>, s: string, n: nat)
    requires p != [] && n <= |s|
    requires forall i :: 0 <= i <= |s| ==> (Fits(p[0], s[..i], s[i..]) <==> i == n)
    ensures Denotes(p, s) <==> Denotes(p[1..], s[n..])
  {
  }

  lemma DenotesNever(p: seq<Elem>, s: string)
    requires p != [] && forall i :: 0 <= i <= |s| ==> !Fits(p[0], s[..i], s[i..])
    ensures !Denotes(p, s)
  {
  }

  lemma LiteralHead(p: seq<Elem>, s: string)
    requires p != [] && p[0].Literal?
    ensures Denotes(p, s) <==> p[0].text <= s && Denotes(p[1..], s[|p[0].text|..])
  {
    var text := p[0].text;
    if text <= s {
      DenotesFixed(p, s, |text|);
    } else {
      assert forall i :: 0 <= i <= |s| ==> s[..i] <= s;
      DenotesNever(p, s);
    }
  }

  predicate IsSingle(e: Elem) { e.AnyChar? || e.CommonChar? || e.CharSet? || e.NegSet? }

  lemma SingleHead(p: seq<Elem>, s: string)
    requires p != [] && IsSingle(p[0])
    ensures Denotes(p, s) <==> s != "" && Fits(p[0], [s[0]], s[1..]) && Denotes(p[1..], s[1..])
  {
    assert s != "" ==> s[..1] == [s[0]];
    assert forall i :: 0 <= i <= |s| && Fits(p[0], s[..i], s[i..]) ==> i == 1;
    if s != "" && Fits(p[0], [s[0]], s[1..]) {
      DenotesFixed(p, s, 1);
    } else {
      DenotesNever(p, s);
    }
  }

  lemma {:induction false} DigitRunIsMaximal(s: string)
    ensures AllDigits(s[..DigitRun(s)]) && !IsDigit(At(s[DigitRun(s)..], 0))
  {
    if s != "" && IsDigit(s[0]) {
      DigitRunIsMaximal(s[1..]);
      var n := DigitRun(s[1..]);
      assert s[1..][..n] == s[1..n + 1] && s[1..][n..] == s[n + 1..];
      assert s[..n + 1] == [s[0]] + s[1..][..n];
    }
  }

  lemma DigitRunIsUnique(s: string, i: nat)
    requires i <= |s| && AllDigits(s[..i]) && !IsDigit(At(s[i..], 0))
    ensures i == DigitRun(s)
  {
    DigitRunIsMaximal(s);
    var n := DigitRun(s);
    assert forall j :: 0 <= j < n ==> IsDigit(s[..n][j]);
    assert forall j :: 0 <= j < i ==> IsDigit(s[..i][j]);
    assert At(s[n..], 0) == At(s, n) && At(s[i..], 0) == At(s, i);
  }

  lemma NumberHead(p: seq<Elem>, s: string)
    requires p != [] && p[0].NumRange?
    ensures var n := DigitRun(s);
      Denotes(p, s) <==> n > 0 && InLimits(Number(s[..n]), p[0].from, p[0].to) && Denotes(p[1..], s[n..])
  {
    var n := DigitRun(s);
    DigitRunIsMaximal(s);
    forall i | 0 <= i <= |s| && Fits(p[0], s[..i], s[i..]) ensures i == n {
      DigitRunIsUnique(s, i);
    }
    if n > 0 && InLimits(Number(s[..n]), p[0].from, p[0].to) {
      DenotesFixed(p, s, n);
    } else {
      DenotesNever(p, s);
    }
  }

  /** The wildcard `e` may take `n` characters of the line, but has found no match with fewer. */
  ghost predicate NotYet(e: Elem, tail: seq<Elem>, line: string, n: nat)
    requires n <= |line|
  {
    (e == CommonSeq ==> '.' !in line[..n]) && forall i :: 0 <= i < n ==> !Denotes(tail, line[i..])
  }

  lemma NotHere(e: Elem, tail: seq<Elem>, line: string, n: nat)
    requires n < |line| && NotYet(e, tail, line, n) && !Denotes(tail, line[n..]) && (e == CommonSeq ==> line[n] != '.')
    ensures NotYet(e, tail, line, n + 1)
  {
    hide Denotes;
    assert line[..n + 1] == line[..n] + [line[n]];
  }

  lemma MatchedHere(e: Elem, tail: seq<Elem>, line: string, n: nat)
    requires n <= |line| && (e == AnySeq || e == CommonSeq) && NotYet(e, tail, line, n) && Denotes(tail, line[n..])
    ensures Denotes([e] + tail, line)
  {
    var p := [e] + tail;
    assert p[1..] == tail && Fits(p[0], line[..n], line[n..]);
  }

  lemma MatchedNowhere(e: Elem, tail: seq<Elem>, line: string, n: nat)
    requires n <= |line| && (e == AnySeq || e == CommonSeq) && NotYet(e, tail, line, n) && !Denotes(tail, line[n..])
    requires n < |line| ==> e == CommonSeq && line[n] == '.'
    ensures !Denotes([e] + tail, line)
  {
    var p := [e] + tail;
    assert p[1..] == tail;
    forall i | 0 <= i <= |line| ensures !(Fits(p[0], line[..i], line[i..]) && Denotes(p[1..], line[i..])) {
      assert n < i ==> line[..i][n] == '.';
    }
  }

  lemma AnySeqLast(s: string)
    ensures Denotes([AnySeq], s)
  {
    assert Denotes([AnySeq][1..], s[|s|..]);
  }

  predicate EndsWith(s: string, t: string) { |t| <= |s| && s[|s| - |t|..] == t }

  lemma AnySeqBeforeLiteral(text: string, s: string)
    ensures Denotes([AnySeq, Literal(text)], s) <==> EndsWith(s, text)
  {
    var p := [AnySeq, Literal(text)];
    assert p[1..] == [Literal(text)];
    forall i | 0 <= i <= |s| ensures Denotes(p[1..], s[i..]) <==> s[i..] == text {
      LiteralHead(p[1..], s[i..]);
      assert p[1..][1..] == [];
    }
    if EndsWith(s, text) {
      assert Denotes(p[1..], s[|s| - |text|..]);
    }
  }

  /** A line that a pattern with a literal at its end stands for ends with that literal. */
  lemma {:induction false} LiteralAtEnd(p: seq<Elem>, s: string)
    requires p != [] && p[|p| - 1].Literal? && Denotes(p, s)
    ensures EndsWith(s, p[|p| - 1].text)
    decreases |p|
  {
    var i :| 0 <= i <= |s| && Fits(p[0], s[..i], s[i..]) && Denotes(p[1..], s[i..]);
    if |p| == 1 {
      assert s == s[..i] + s[i..];
    } else {
      LiteralAtEnd(p[1..], s[i..]);
      var text := p[|p| - 1].text;
      assert s[i..][|s[i..]| - |text|..] == s[|s| - |text|..];
    }
  }

  lemma LastTwoDiffer(p: seq<Elem>, s: string)
    requires p != [] && p[|p| - 1].Literal?
    requires var text := p[|p| - 1].text;
      |text| >= 2 && |s| >= 2 && (s[|s| - 1] != text[|text| - 1] || s[|s| - 2] != text[|text| - 2])
    ensures !Denotes(p, s)
  {
    var text := p[|p| - 1].text;
    if Denotes(p, s) {
      LiteralAtEnd(p, s);
    }
    if |text| <= |s| {
      var t := s[|s| - |text|..];
      assert t[|text| - 1] == s[|s| - 1] && t[|text| - 2] == s[|s| - 2];
    }
  }

  // ------------------------------------------------------------ meaning of a pattern text

  datatype Limits = NoLimits | Limits(lo: int, up: int, rest: string)

  function Bound(digits: string): int { if digits == "" then -1 else Number(digits) }

  /** "[n..m]" or "{n..m}" at the start of a text; `rest` begins at the closing character. */
  function LimitsAt(s: string, closing: char): (r: Limits)
    ensures r.Limits? ==> 0 < |r.rest| < |s|
  {
    if s == "" then NoLimits
    else
      var t := s[1..];
      var u := t[DigitRun(t)..];
      if |u| < 2 || u[0] != '.' || u[1] != '.' then NoLimits
      else
        var v := u[2..];
        var w := v[DigitRun(v)..];
        if w == "" || w[0] != closing then NoLimits
        else Limits(Bound(t[..DigitRun(t)]), Bound(v[..DigitRun(v)]), w)
  }

  datatype LiteralScan = Overrun | Scanned(text: string, rest: string)

  function Before(c: char, scan: LiteralScan): LiteralScan
  {
    match scan case Overrun => Overrun case Scanned(text, rest) => Scanned([c] + text, rest)
  }

  predicate StopsLiteral(c: char) { c == '?' || c == '{' || c == '*' }

  /** The literal at the start of a text.  A bracket with limits is its last character, and is left to be read again. */
  function LiteralAt(s: string): (r: LiteralScan)
    ensures r.Scanned? ==> |r.rest| <= |s| && |r.rest| + |r.text| <= |s| + 1
    ensures r.Scanned? && s != "" && !StopsLiteral(s[0]) && (s[0] == '[' ==> LimitsAt(s, ']').NoLimits?) ==> |r.rest| < |s|
    decreases |s|
  {
    if s == "" || StopsLiteral(s[0]) then Scanned("", s)
    else if s[0] == '\\' then
      if |s| == 1 then Overrun
      else if s[1] == '[' && LimitsAt(s[1..], ']').Limits? then Scanned([s[1]], s[1..])
      else Before(s[1], LiteralAt(s[2..]))
    else if s[0] == '[' && LimitsAt(s, ']').Limits? then Scanned([s[0]], s)
    else Before(s[0], LiteralAt(s[1..]))
  }

  datatype SetScan = Unclosed | Closed(ranges: seq<(char, char)>, rest: string)

  function BeforeRange(r: (char, char), scan: SetScan): SetScan
  {
    match scan case Unclosed => Unclosed case Closed(ranges, rest) => Closed([r] + ranges, rest)
  }

  /** The ranges up to the closing brace, which counts as a member when it is the first character. */
  function RangesAt(s: string, first: bool): (r: SetScan)
    ensures r.Closed? ==> |r.rest| < |s|
    decreases |s|
  {
    if s == "" then Unclosed
    else if s[0] == '}' && !first then Closed([], s[1..])
    else if At(s, 1) == '-' && |s| > 2 && s[2] != '}' then BeforeRange((s[0], s[2]), RangesAt(s[3..], false))
    else BeforeRange((s[0], s[0]), RangesAt(s[1..], false))
  }

  datatype SetElem = NoSet | SetElem(e: Elem, rest: string)

  function SetAt(s: string): (r: SetElem)
    requires s != ""
    ensures r.SetElem? ==> |r.rest| < |s| && !r.e.End? && !r.e.Literal?
  {
    var negated := At(s, 1) == '^';
    var members := RangesAt(if negated then s[2..] else s[1..], true);
    if members.Unclosed? then NoSet
    else SetElem(if negated then NegSet(members.ranges) else CharSet(members.ranges), members.rest)
  }

  datatype Outcome = Unmatched | Undefined | Tokens(elems: seq<Elem>)

  function Cons(e: Elem, t: Outcome): Outcome
  {
    match t case Tokens(elems) => Tokens([e] + elems) case _ => t
  }

  /**
   * The tokens of a text.  A literal that ends at a bracket with limits may have read nothing: then the same
   * text is looked at again, now behind a literal.
   */
  function Tokenize(s: string, afterLiteral: bool, dotted: bool): Outcome
    decreases |s|, !afterLiteral
  {
    if s == "" then Tokens([])
    else if s[0] == '?' then Cons(if dotted then CommonChar else AnyChar, Tokenize(s[1..], false, dotted))
    else if s[0] == '*' then
      if At(s, 1) == '*' then Cons(AnySeq, Tokenize(s[2..], false, dotted))
      else Cons(if dotted then CommonSeq else AnySeq, Tokenize(s[1..], false, dotted))
    else if s[0] == '{' then
      var limits := LimitsAt(s, '}');
      if limits.Limits? then Cons(NumRange(limits.lo, limits.up), Tokenize(limits.rest[1..], false, dotted))
      else
        var members := SetAt(s);
        if members.NoSet? then Unmatched else Cons(members.e, Tokenize(members.rest, false, dotted))
    else if s[0] == '[' && afterLiteral && LimitsAt(s, ']').Limits? then
      var limits := LimitsAt(s, ']');
      Cons(NumRange(limits.lo, limits.up), Tokenize(limits.rest, false, dotted))
    else
      var literal := LiteralAt(s);
      if literal.Overrun? then Undefined else Cons(Literal(literal.text), Tokenize(literal.rest, true, dotted))
  }

  predicate LastIs(p: seq<Elem>, e: Elem) { p != [] && p[|p| - 1] == e }

  /** Matching a substring is matching with "**" on both sides. */
  function Surrounded(p: seq<Elem>): seq<Elem>
  {
    var q := if LastIs(p, AnySeq) then p else p + [AnySeq];
    if q[0] == AnySeq then q else [AnySeq] + q
  }

  class PatternMatcher {
    var pattern: seq<Elem>

    ghost predicate Valid()
      reads this
    {
      LastIs(pattern, End) && End !in pattern[..|pattern| - 1]
    }

    /** The tokens without the end mark. */
    ghost function Elems(): seq<Elem>
      reads this
      requires Valid()
    {
      pattern[..|pattern| - 1]
    }

    constructor ()
      ensures pattern == []
    {
      pattern := [];
    }

    /** Reading "[n..m]" or "{n..m}"; on success the cursor moves to the closing character. */
    static method ParseNumRange(str: string, closing: char) returns (ok: bool, rest: string, lo: int, up: int)
      requires str != ""
      ensures LimitsAt(str, closing) == if ok then Limits(lo, up, rest) else NoLimits
      ensures !ok ==> rest == str
    {
      lo, up := -1, -1;
      var s := str[1..];
      if s != "" && IsDigit(s[0]) {
        lo := Atol(s);
        s := SkipDigits(s);
      }
      if |s| < 2 || s[0] != '.' || s[1] != '.' {
        return false, str, lo, up;
      }
      s := s[2..];
      if s != "" && IsDigit(s[0]) {
        up := Atol(s);
        s := SkipDigits(s);
      }
      if s == "" || s[0] != closing {
        return false, str, lo, up;
      }
      return true, s, lo, up;
    }

    static method Atol(s: string) returns (n: int)
      ensures n == Number(s[..DigitRun(s)])
    {
      n := 0;
      var k := 0;
      while k < |s| && IsDigit(s[k])
        invariant k <= |s| && AllDigits(s[..k]) && n == Number(s[..k])
      {
        assert s[..k + 1][..k] == s[..k];
        n := 10 * n + (s[k] as int - '0' as int);
        k := k + 1;
      }
      DigitRunIsUnique(s, k);
    }

    static method SkipDigits(s: string) returns (rest: string)
      ensures rest == s[DigitRun(s)..]
    {
      rest := s;
      while rest != "" && IsDigit(rest[0])
        invariant |rest| <= |s| && rest[DigitRun(rest)..] == s[DigitRun(s)..]
        decreases |rest|
      {
        assert rest[DigitRun(rest)..] == rest[1..][DigitRun(rest[1..])..];
        rest := rest[1..];
      }
    }

    static method ParseSet(str: string) returns (ok: bool, rest: string, e: Elem)
      requires str != ""
      ensures SetAt(str) == if ok then SetElem(e, rest) else NoSet
    {
      var s := str[1..];
      var negated := s != "" && s[0] == '^';
      if negated {
        s := s[1..];
      }
      ghost var start := s;
      var first := true;
      var ranges: seq<(char, char)> := [];
      while s != "" && (s[0] != '}' || first)
        invariant RangesAt(start, true) == Joined(ranges, RangesAt(s, first))
        decreases |s|
      {
        var range;
        if |s| > 2 && s[1] == '-' && s[2] != '}' {
          range := (s[0], s[2]);
          s := s[3..];
        } else {
          range := (s[0], s[0]);
          s := s[1..];
        }
        JoinedNext(ranges, range, RangesAt(s, false));
        ranges := ranges + [range];
        first := false;
      }
      if s == "" {
        return false, s, End;
      }
      return true, s[1..], if negated then NegSet(ranges) else CharSet(ranges);
    }

    static method ParseLiteralString(str: string) returns (ok: bool, s: string, text: string)
      ensures LiteralAt(str) == if ok then Scanned(text, s) else Overrun
    {
      text, s := "", str;
      while s != "" && s[0] != '?' && s[0] != '{' && s[0] != '*'
        invariant LiteralAt(str) == Prefixed(text, LiteralAt(s))
        decreases |s|
      {
        ghost var was, c := s, text;
        if s[0] == '\\' {
          s := s[1..];
          if s == "" {
            return false, s, text;
          }
        }
        if s[0] == '[' {
          var limits, _, _, _ := ParseNumRange(s, ']');
          if limits {
            text := text + [s[0]];
            return true, s, text;
          }
        }
        PrefixedNext(text, s[0], LiteralAt(s[1..]));
        text := text + [s[0]];
        s := s[1..];
      }
      return true, s, text;
    }

    /** One turn of the tokenizer's loop: the next token, unless the text is malformed. */
    static method NextElem(str: string, afterLiteral: bool, dottedpath: bool) returns (failure: Option<Outcome>, e: Elem, s: string)
      requires str != ""
      ensures failure.Some? ==> Tokenize(str, afterLiteral, dottedpath) == failure.value && !failure.value.Tokens?
      ensures failure.None? ==> !e.End? && (|s| < |str| || (s == str && e.Literal? && !afterLiteral))
      ensures failure.None? ==> Tokenize(str, afterLiteral, dottedpath) == Cons(e, Tokenize(s, e.Literal?, dottedpath))
    {
      failure, s := None, str;
      if s[0] == '?' {
        e := if dottedpath then CommonChar else AnyChar;
        s := s[1..];
        return;
      }
      if s[0] == '*' {
        if |s| > 1 && s[1] == '*' {
          e := AnySeq;
          s := s[2..];
        } else {
          e := if dottedpath then CommonSeq else AnySeq;
          s := s[1..];
        }
        return;
      }
      if s[0] == '{' {
        var ok, rest, lo, up := ParseNumRange(s, '}');
        if ok {
          e := NumRange(lo, up);
          s := rest[1..];
        } else {
          ok, s, e := ParseSet(s);
          if !ok {
            failure := Some(Unmatched);
          }
        }
        return;
      }
      if s[0] == '[' && afterLiteral {
        var ok, rest, lo, up := ParseNumRange(s, ']');
        if ok {
          return None, NumRange(lo, up), rest;
        }
      }
      var ok, rest, text := ParseLiteralString(s);
      s, e := rest, Literal(text);
      if !ok {
        failure := Some(Undefined);
      }
    }

    method SetPattern(patt: string, dottedpath: bool, fullstring: bool) returns (outcome: Outcome)
      modifies this
      ensures outcome == Tokenize(patt, false, dottedpath)
      ensures outcome.Tokens? ==>
        Valid() && Elems() == if fullstring then outcome.elems else Surrounded(outcome.elems)
    {
      hide Tokenize, Chained, Cons;
      pattern := [];
      var s := patt;
      var literal := false;
      ChainedEnds(pattern, Tokenize(patt, false, dottedpath), dottedpath);
      while s != ""
        invariant End !in pattern
        invariant literal == (pattern != [] && pattern[|pattern| - 1].Literal?)
        invariant Tokenize(patt, false, dottedpath) == Chained(pattern, Tokenize(s, literal, dottedpath))
        decreases |s|, !literal
      {
        var failure, e, rest := NextElem(s, literal, dottedpath);
        if failure.Some? {
          ChainedFailure(pattern, failure.value);
          return failure.value;
        }
        s, literal := rest, e.Literal?;
        ChainedNext(pattern, e, Tokenize(s, literal, dottedpath));
        pattern := pattern + [e];
      }
      outcome := Tokens(pattern);
      ChainedEnds(pattern, outcome, dottedpath);
      Complete(fullstring);
    }

    /** For a substring match the tokens get "**" at both ends; then comes the end mark. */
    method Complete(fullstring: bool)
      requires End !in pattern
      modifies this
      ensures Valid() && Elems() == if fullstring then old(pattern) else Surrounded(old(pattern))
    {
      ghost var elems := pattern;
      if !fullstring {
        if pattern == [] || pattern[|pattern| - 1] != AnySeq {
          pattern := pattern + [AnySeq];
        }
        if pattern[0] != AnySeq {
          pattern := [AnySeq] + pattern;
        }
      }
      assert pattern == if fullstring then elems else Surrounded(elems);
      ghost var whole := pattern;
      pattern := pattern + [End];
      assert pattern[..|pattern| - 1] == whole;
    }

    static method IsInSet(c: char, ranges: seq<(char, char)>) returns (r: bool)
      ensures r <==> InRanges(c, ranges)
    {
      var j := 0;
      while j < |ranges|
        invariant j <= |ranges| && forall i :: 0 <= i < j ==> !(ranges[i].0 <= c <= ranges[i].1)
      {
        if ranges[j].0 <= c <= ranges[j].1 {
          return true;
        }
        j := j + 1;
      }
      return false;
    }

    /** The tokens from `k` on. */
    ghost function Rest(k: nat): seq<Elem>
      reads this
      requires Valid() && k < |pattern|
    {
      pattern[k..|pattern| - 1]
    }

    lemma RestStep(k: nat)
      requires Valid() && k < |pattern|
      ensures pattern[k] == End <==> k == |pattern| - 1
      ensures k == |pattern| - 1 ==> Rest(k) == []
      ensures k < |pattern| - 1 ==> Rest(k) != [] && Rest(k)[0] == pattern[k] && Rest(k)[1..] == Rest(k + 1)
    {
      if k < |pattern| - 1 {
        assert pattern[k] == pattern[..|pattern| - 1][k];
      }
    }

    /** One token that stands for a fixed number of characters: the rest of the line, if it fits. */
    static method Advance(e: Elem, line: string) returns (ok: bool, s: string)
      requires !e.AnySeq? && !e.CommonSeq? && !e.End?
      ensures forall p :: p != [] && p[0] == e ==> (Denotes(p, line) <==> ok && Denotes(p[1..], s))
    {
      hide Denotes, InRanges;
      ok, s := false, line;
      if e.Literal? {
        forall p | p != [] && p[0] == e ensures Denotes(p, line) <==> e.text <= line && Denotes(p[1..], line[|e.text|..]) {
          LiteralHead(p, line);
        }
        if !(e.text <= s) {
          return;
        }
        s := s[|e.text|..];
      } else if e.NumRange? {
        forall p | p != [] && p[0] == e
          ensures var n := DigitRun(line);
            Denotes(p, line) <==> n > 0 && InLimits(Number(line[..n]), e.from, e.to) && Denotes(p[1..], line[n..])
        {
          NumberHead(p, line);
        }
        if s == "" || !IsDigit(s[0]) {
          return;
        }
        var num := Atol(s);
        s := SkipDigits(s);
        if (e.from >= 0 && num < e.from) || (e.to >= 0 && num > e.to) {
          return;
        }
      } else {
        forall p | p != [] && p[0] == e
          ensures Denotes(p, line) <==> line != "" && Fits(e, [line[0]], line[1..]) && Denotes(p[1..], line[1..])
        {
          SingleHead(p, line);
        }
        if s == "" || (e.CommonChar? && s[0] == '.') {
          return;
        }
        if e.CharSet? || e.NegSet? {
          var member := IsInSet(s[0], e.ranges);
          if member != e.CharSet? {
            return;
          }
        }
        s := s[1..];
      }
      ok := true;
    }

    method DoMatch(line: string, from: nat) returns (r: bool)
      requires Valid() && from < |pattern|
      ensures r <==> Denotes(Rest(from), line)
      decreases |pattern| - from, 1
    {
      hide Denotes, Fits, EndsWith;
      var s, k := line, from;
      while true
        invariant from <= k < |pattern|
        invariant Denotes(Rest(from), line) <==> Denotes(Rest(k), s)
        decreases |pattern| - k
      {
        RestStep(k);
        var e := pattern[k];
        match e {
          case AnySeq => {
            if k == |pattern| - 2 {
              assert Rest(k) == [AnySeq];
              AnySeqLast(s);
              return true;
            }
            if k == |pattern| - 3 && pattern[k + 1].Literal? {
              assert Rest(k) == [AnySeq, pattern[k + 1]];
              AnySeqBeforeLiteral(pattern[k + 1].text, s);
              return EndsWith(s, pattern[k + 1].text);
            }
            r := TrySeq(s, k);
            return;
          }
          case CommonSeq => {
            r := TrySeq(s, k);
            return;
          }
          case End => {
            assert Denotes([], s) <==> s == "" by { NothingDenotes(s); }
            return s == "";
          }
          case _ => {
            var ok;
            ok, s := Advance(e, s);
            if !ok {
              return false;
            }
          }
        }
        k := k + 1;
      }
    }

    /** The general case of both wildcards: ever more characters, of which a single star takes no dot. */
    method TrySeq(line: string, k: nat) returns (r: bool)
      requires Valid() && k < |pattern| - 1 && (pattern[k] == AnySeq || pattern[k] == CommonSeq)
      ensures r <==> Denotes(Rest(k), line)
      decreases |pattern| - k, 0
    {
      hide Denotes;
      RestStep(k);
      ghost var eaten := 0;
      var s := line;
      ghost var e, tail := pattern[k], Rest(k + 1);
      assert Rest(k) == [e] + tail;
      while true
        invariant 0 <= eaten <= |line| && s == line[eaten..] && NotYet(e, tail, line, eaten)
        decreases |s|
      {
        var matched := DoMatch(s, k + 1);
        if matched {
          MatchedHere(e, tail, line, eaten);
          return true;
        }
        if s == "" || (pattern[k] == CommonSeq && s[0] == '.') {
          MatchedNowhere(e, tail, line, eaten);
          return false;
        }
        NotHere(e, tail, line, eaten);
        s := s[1..];
        eaten := eaten + 1;
      }
    }

    /** Matching a line: exactly the lines that the tokens stand for. */
    method Matches(line: string) returns (r: bool)
      requires Valid()
      ensures r <==> Denotes(Elems(), line)
    {
      if |pattern| >= 2 {
        var e := pattern[|pattern| - 2];
        if e.Literal? {
          // a line with another ending cannot match
          var n, m := |e.text|, |line|;
          if n >= 2 && m >= 2 && (line[m - 1] != e.text[n - 1] || line[m - 2] != e.text[n - 2]) {
            LastTwoDiffer(Elems(), line);
            return false;
          }
        }
      }
      r := DoMatch(line, 0);
      assert Rest(0) == Elems();
    }
  }

  // ------------------------------------------------------------ the parsing loops

  function Joined(ranges: seq<(char, char)>, scan: SetScan): SetScan
  {
    match scan case Unclosed => Unclosed case Closed(more, rest) => Closed(ranges + more, rest)
  }

  lemma JoinedNext(ranges: seq<(char, char)>, r: (char, char), scan: SetScan)
    ensures Joined(ranges, BeforeRange(r, scan)) == Joined(ranges + [r], scan)
  {
    if scan.Closed? {
      assert ranges + ([r] + scan.ranges) == (ranges + [r]) + scan.ranges;
    }
  }

  function Prefixed(text: string, scan: LiteralScan): LiteralScan
  {
    match scan case Overrun => Overrun case Scanned(more, rest) => Scanned(text + more, rest)
  }

  lemma PrefixedNext(text: string, c: char, scan: LiteralScan)
    ensures Prefixed(text, Before(c, scan)) == Prefixed(text + [c], scan)
  {
    if scan.Scanned? {
      assert text + ([c] + scan.text) == (text + [c]) + scan.text;
    }
  }

  function Chained(p: seq<Elem>, t: Outcome): Outcome
  {
    match t case Tokens(elems) => Tokens(p + elems) case _ => t
  }

  lemma ChainedEnds(p: seq<Elem>, t: Outcome, dotted: bool)
    ensures Chained([], t) == t && Chained(p, Tokenize("", p != [] && p[|p| - 1].Literal?, dotted)) == Tokens(p)
  {
  }

  lemma ChainedFailure(p: seq<Elem>, t: Outcome)
    requires !t.Tokens?
    ensures Chained(p, t) == t
  {
  }

  lemma ChainedNext(p: seq<Elem>, e: Elem, t: Outcome)
    ensures Chained(p, Cons(e, t)) == Chained(p + [e], t)
  {
    if t.Tokens? {
      assert p + ([e] + t.elems) == (p + [e]) + t.elems;
    }
  }

  // ------------------------------------------------------------ texts without wildcards

  predicate TwoDots(s: string) { exists i :: 0 <= i < |s| - 1 && s[i] == '.' && s[i + 1] == '.' }

  predicate ContainsWildcards(s: string)
  {
    '?' in s || '*' in s || '\\' in s || '{' in s || TwoDots(s)
  }

  lemma NoLimitsWithoutDots(s: string, closing: char)
    requires !TwoDots(s)
    ensures LimitsAt(s, closing).NoLimits?
  {
    if s != "" {
      var i := 1 + DigitRun(s[1..]);
      if i + 1 < |s| {
        assert s[1..][i - 1..] == s[i..];
        assert !(s[i] == '.' && s[i + 1] == '.');
      }
    }
  }

  lemma {:induction false} WholeIsLiteral(s: string)
    requires !ContainsWildcards(s)
    ensures LiteralAt(s) == Scanned(s, "")
  {
    if s != "" {
      NoLimitsWithoutDots(s, ']');
      var t := s[1..];
      assert forall c :: c in t ==> c in s;
      NoTwoDotsBehind(s);
      hide TwoDots, LimitsAt;
      WholeIsLiteral(t);
    }
  }

  lemma NoTwoDotsBehind(s: string)
    requires s != "" && !TwoDots(s)
    ensures !TwoDots(s[1..])
  {
    var t := s[1..];
    forall i | 0 <= i < |t| - 1 ensures !(t[i] == '.' && t[i + 1] == '.') {
      var j := i + 1;
      assert !(s[j] == '.' && s[j + 1] == '.');
    }
  }

  /** A text without wildcards is one literal, so that matching the full string is comparing it. */
  lemma PlainText(s: string, line: string, dotted: bool)
    requires !ContainsWildcards(s)
    ensures Tokenize(s, false, dotted) == Tokens(if s == "" then [] else [Literal(s)])
    ensures Denotes(if s == "" then [] else [Literal(s)], line) <==> line == s
  {
    if s != "" {
      WholeIsLiteral(s);
      assert s[0] in s;
      NoLimitsWithoutDots(s, ']');
      assert Tokenize("", true, dotted) == Tokens([]);
      LiteralOnly(s, line);
    }
  }

  lemma LiteralOnly(text: string, line: string)
    ensures Denotes([Literal(text)], line) <==> line == text
  {
    LiteralHead([Literal(text)], line);
    assert [Literal(text)][1..] == [];
  }

  /** In substring mode such a text matches exactly the lines that it occurs in. */
  lemma PlainTextInside(s: string, line: string)
    requires !ContainsWildcards(s)
    ensures Denotes(Surrounded(if s == "" then [] else [Literal(s)]), line) <==> Contains(line, s)
  {
    if s == "" {
      AnySeqLast(line);
      assert "" <= line[0..];
    } else {
      var p := [AnySeq, Literal(s), AnySeq];
      assert Surrounded([Literal(s)]) == p;
      assert p[1..] == [Literal(s), AnySeq];
      forall i | 0 <= i <= |line| ensures Denotes(p[1..], line[i..]) <==> s <= line[i..] {
        LiteralHead(p[1..], line[i..]);
        assert p[1..][1..] == [AnySeq];
        if s <= line[i..] { AnySeqLast(line[i..][|s|..]); }
      }
      assert Denotes(p, line) <==> exists i :: 0 <= i <= |line| && Denotes(p[1..], line[i..]);
    }
  }

  // ------------------------------------------------------------ malformed texts

  predicate EndsInBackslash(s: string) { s != "" && s[|s| - 1] == '\\' }

  lemma {:induction false} LiteralOverrun(s: string)
    ensures LiteralAt(s).Overrun? ==> EndsInBackslash(s)
    ensures LiteralAt(s).Scanned? && EndsInBackslash(LiteralAt(s).rest) ==> EndsInBackslash(s)
    decreases |s|
  {
    hide LimitsAt;
    if s != "" {
      LiteralOverrun(s[1..]);
      if |s| > 1 { LiteralOverrun(s[2..]); }
    }
  }

  lemma {:induction false} RangesEnd(s: string, first: bool)
    ensures RangesAt(s, first).Closed? && EndsInBackslash(RangesAt(s, first).rest) ==> EndsInBackslash(s)
    decreases |s|
  {
    if s != "" {
      RangesEnd(s[1..], false);
      if |s| > 2 { RangesEnd(s[3..], false); }
    }
  }

  lemma SetEnd(s: string)
    requires s != ""
    ensures SetAt(s).SetElem? && EndsInBackslash(SetAt(s).rest) ==> EndsInBackslash(s)
  {
    RangesEnd(s[1..], true);
    if |s| > 1 { RangesEnd(s[2..], true); }
  }

  lemma LimitsEnd(s: string, closing: char)
    ensures LimitsAt(s, closing).Limits? && EndsInBackslash(LimitsAt(s, closing).rest[1..]) ==> EndsInBackslash(s)
    ensures LimitsAt(s, closing).Limits? && EndsInBackslash(LimitsAt(s, closing).rest) ==> EndsInBackslash(s)
  {
  }

  /** Reading past the terminator takes a backslash at the very end of the text. */
  lemma {:induction false} UndefinedNeedsBackslash(s: string, afterLiteral: bool, dotted: bool)
    requires !EndsInBackslash(s)
    ensures !Tokenize(s, afterLiteral, dotted).Undefined?
    decreases |s|, !afterLiteral
  {
    hide LimitsAt, SetAt, LiteralAt;
    if s != "" {
      if s[0] == '?' {
        UndefinedNeedsBackslash(s[1..], false, dotted);
      } else if s[0] == '*' {
        UndefinedNeedsBackslash(if At(s, 1) == '*' then s[2..] else s[1..], false, dotted);
      } else if s[0] == '{' {
        LimitsEnd(s, '}');
        SetEnd(s);
        if LimitsAt(s, '}').Limits? {
          UndefinedNeedsBackslash(LimitsAt(s, '}').rest[1..], false, dotted);
        } else if SetAt(s).SetElem? {
          UndefinedNeedsBackslash(SetAt(s).rest, false, dotted);
        }
      } else if s[0] == '[' && afterLiteral && LimitsAt(s, ']').Limits? {
        LimitsEnd(s, ']');
        UndefinedNeedsBackslash(LimitsAt(s, ']').rest, false, dotted);
      } else {
        LiteralOverrun(s);
        UndefinedNeedsBackslash(LiteralAt(s).rest, true, dotted);
      }
    }
  }
}
