/** Inline {{cel: ...}} expressions: the loop that evaluates each match of the input and replaces the first
    occurrence of its text, and the positional substitution it stands for. */
module CelTemplate {
  import opened Options
  import opened Strings

  const OPEN := "{{cel:"
  const CLOSE := "}}"

  /** \s of the regular expression. */
  predicate IsSpace(c: char) {
    c == ' ' || c == '\t' || c == '\n' || c == '\r' || c == '\U{0C}'
  }

  function TrimLeft(s: string): string {
    if s != [] && IsSpace(s[0]) then TrimLeft(s[1..]) else s
  }

  function TrimRight(s: string): string {
    if s != [] && IsSpace(s[|s| - 1]) then TrimRight(s[..|s| - 1]) else s
  }

  /** strings.Index */
  function Index(s: string, part: string): (r: Option<nat>)
    ensures r.Some? ==> r.value + |part| <= |s| && s[r.value..r.value + |part|] == part
    ensures r.Some? <==> Contains(s, part)
  {
    if part <= s then Some(0)
    else if s == [] then None
    else
      var i := Index(s[1..], part);
      if i.None? then None else
      assert s[i.value + 1..i.value + 1 + |part|] == s[1..][i.value..i.value + |part|];
      Some(i.value + 1)
  }

  /** A match of {{cel:\s*([\s\S]*?)\s*}}: its whole text, and the captured expression. */
  datatype Match = Match(text: string, expression: string)

  /** The input cut at its matches: text, match, text, ..., text. A match runs from the first opening to the
      first closing behind it. */
  datatype Pieces = Last(text: string) | Piece(text: string, found: Match, rest: Pieces)

  function Cut(s: string): (p: Pieces)
    ensures Source(p) == s
    decreases |s|
  {
    var next := FirstMatch(s);
    if next.None? then Last(s)
    else Piece(next.value.before, next.value.found, Cut(next.value.behind))
  }

  datatype Hit = Hit(before: string, found: Match, behind: string)

  function FirstMatch(s: string): (r: Option<Hit>)
    ensures r.Some? ==> s == r.value.before + (r.value.found.text + r.value.behind)
    ensures r.Some? ==> OPEN <= r.value.found.text && |r.value.behind| < |s|
  {
    var open := Index(s, OPEN);
    if open.None? then None else
    var body := s[open.value + |OPEN|..];
    var close := Index(body, CLOSE);
    if close.None? then None else
    var end := open.value + |OPEN| + close.value + |CLOSE|;
    CutTwice(s, open.value, |OPEN|, end);
    Some(Hit(s[..open.value], Match(s[open.value..end], TrimRight(TrimLeft(body[..close.value]))), s[end..]))
  }

  lemma CutTwice(s: string, i: nat, n: nat, j: nat)
    requires i + n <= j <= |s|
    ensures s == s[..i] + (s[i..j] + s[j..])
    ensures s[i..i + n] <= s[i..j]
  {
    assert s[i..j][..n] == s[i..i + n];
  }

  ghost function Source(p: Pieces): string {
    match p
    case Last(text) => text
    case Piece(text, found, rest) => text + (found.text + Source(rest))
  }

  /** FindAllStringSubmatch */
  function Matches(p: Pieces): seq<Match> {
    match p
    case Last(_) => []
    case Piece(_, found, rest) => [found] + Matches(rest)
  }

  type Evaluator = string -> Option<string>

  /** strings.Replace with a count of one. */
  function ReplaceFirst(s: string, part: string, value: string): string {
    var i := Index(s, part);
    if i.None? then s else s[..i.value] + value + s[i.value + |part|..]
  }

  /** The loop, as a function of what is still to be replaced. None is the evaluation error. */
  function ReplaceAll(s: string, matches: seq<Match>, eval: Evaluator): Option<string>
    decreases |matches|
  {
    if matches == [] then Some(s) else
    var evaluated := eval(matches[0].expression);
    if evaluated.None? then None
    else ReplaceAll(ReplaceFirst(s, matches[0].text, evaluated.value), matches[1..], eval)
  }

  method EvaluateAndReplaceCelExpressions(input: string, eval: Evaluator) returns (r: Option<string>)
    ensures r == ReplaceAll(input, Matches(Cut(input)), eval)
  {
    var matches := Matches(Cut(input));
    var result := input;
    for i := 0 to |matches|
      invariant ReplaceAll(input, matches, eval) == ReplaceAll(result, matches[i..], eval)
    {
      var evaluated := eval(matches[i].expression);
      if evaluated.None? {
        return None;
      }
      assert matches[i..][1..] == matches[i + 1..];
      result := ReplaceFirst(result, matches[i].text, evaluated.value);
    }
    r := Some(result);
  }

  /** Every match replaced where it stands. */
  ghost function Substituted(p: Pieces, eval: Evaluator): Option<string> {
    match p
    case Last(text) => Some(text)
    case Piece(text, found, rest) =>
      var evaluated := eval(found.expression);
      if evaluated.None? then None else
      var behind := Substituted(rest, eval);
      if behind.None? then None else Some(text + (evaluated.value + behind.value))
  }

  // ---- the shape of the cut ----

  /** Every match begins with the opening. */
  ghost predicate Opened(p: Pieces) {
    p.Piece? ==> OPEN <= p.found.text && Opened(p.rest)
  }

  lemma {:induction false} CutOpened(s: string)
    ensures Opened(Cut(s))
    decreases |s|
  {
    var next := FirstMatch(s);
    if next.Some? {
      CutOpened(next.value.behind);
    }
  }

  lemma {:induction false} BeforeIndex(s: string, part: string)
    requires Contains(s, part) && part != []
    ensures !Contains(s[..Index(s, part).value], part)
  {
    if part <= s {
      assert s[..0] == [];
    } else {
      BeforeIndex(s[1..], part);
      var i := Index(s[1..], part).value;
      assert s[..i + 1][1..] == s[1..][..i];
      assert part <= s[..i + 1] ==> part <= s;
    }
  }

  /** Space, tab, newline, carriage return and form feed. */
  const BLANKS := " \t\n\r\U{0C}"

  lemma SpacesAreBlanks(c: char)
    ensures IsSpace(c) <==> c in BLANKS
  {
    assert BLANKS[0] == ' ' && BLANKS[1] == '\t' && BLANKS[2] == '\n' && BLANKS[3] == '\r' && BLANKS[4] == '\U{0C}';
  }

  predicate AllSpace(s: string) {
    forall i :: 0 <= i < |s| ==> s[i] in BLANKS
  }

  /** The expression is the body without the space around it. */
  ghost predicate IsTrimmed(body: string, expression: string) {
    && (exists l, r :: AllSpace(l) && AllSpace(r) && body == l + expression + r)
    && (expression != [] ==> expression[0] !in BLANKS && expression[|expression| - 1] !in BLANKS)
  }

  /** A match is an opening, a body in which no closing begins, and a closing. */
  ghost predicate IsMatch(m: Match, body: string) {
    m.text == "{{cel:" + body + "}}" && !Contains(body + "}", "}}") && IsTrimmed(body, m.expression)
  }

  /** What the regular expression promises: leftmost matches, each as short as it can be, and none left behind. */
  ghost predicate WellCut(p: Pieces) {
    match p
    case Last(text) => forall i, j :: StandsAt(text, "{{cel:", i) && StandsAt(text, "}}", j) ==> j < i + 6
    case Piece(text, found, rest) => !Contains(text, "{{cel:") && (exists body :: IsMatch(found, body)) && WellCut(rest)
  }

  lemma {:induction false} TrimLeftMeaning(s: string) returns (l: string)
    ensures s == l + TrimLeft(s) && AllSpace(l)
    ensures TrimLeft(s) != [] ==> !IsSpace(TrimLeft(s)[0])
  {
    if s != [] {
      SpacesAreBlanks(s[0]);
    }
    if s != [] && IsSpace(s[0]) {
      l := TrimLeftMeaning(s[1..]);
      l := [s[0]] + l;
    } else {
      l := [];
    }
  }

  lemma {:induction false} TrimRightMeaning(s: string) returns (r: string)
    ensures s == TrimRight(s) + r && AllSpace(r)
    ensures TrimRight(s) != [] ==> !IsSpace(TrimRight(s)[|TrimRight(s)| - 1]) && TrimRight(s)[0] == s[0]
  {
    if s != [] {
      SpacesAreBlanks(s[|s| - 1]);
    }
    if s != [] && IsSpace(s[|s| - 1]) {
      r := TrimRightMeaning(s[..|s| - 1]);
      r := r + [s[|s| - 1]];
    } else {
      r := [];
    }
  }

  lemma {:induction false} NoClosingBegins(body: string, rest: string)
    requires !Contains(body, CLOSE) && Index(body + rest, CLOSE) == Some(|body|)
    ensures !Contains(body + "}", CLOSE)
  {
    if body == [] {
      assert (body + "}")[1..] == [];
    } else {
      assert (body + rest)[1..] == body[1..] + rest;
      NoClosingBegins(body[1..], rest);
      assert (body + "}")[1..] == body[1..] + "}";
      assert |body| == 1 ==> (body + rest)[1..3] == CLOSE && (body + rest)[1] == '}';
      assert !(CLOSE <= body + rest);
      assert |body| > 1 ==> (body + "}")[..2] == (body + rest)[..2];
      assert |body| == 1 ==> (body + "}")[..2] == (body + rest)[..2];
    }
  }

  lemma TrimMeaning(body: string)
    ensures IsTrimmed(body, TrimRight(TrimLeft(body)))
  {
    var l := TrimLeftMeaning(body);
    var r := TrimRightMeaning(TrimLeft(body));
    assert body == l + TrimRight(TrimLeft(body)) + r;
  }

  /** Up to the first closing: a body, then the closing. */
  lemma BodyMeaning(rest: string)
    requires Contains(rest, CLOSE)
    ensures var close := Index(rest, CLOSE).value;
            !Contains(rest[..close] + "}", CLOSE) && rest[..close + |CLOSE|] == rest[..close] + CLOSE
  {
    var close := Index(rest, CLOSE).value;
    BeforeIndex(rest, CLOSE);
    assert rest[..close] + rest[close..] == rest;
    NoClosingBegins(rest[..close], rest[close..]);
    assert rest[..close + |CLOSE|] == rest[..close] + rest[close..close + |CLOSE|];
  }

  /** The text from the opening to the end of the closing. */
  lemma MatchedText(s: string, open: nat, close: nat)
    requires open + |OPEN| + close + |CLOSE| <= |s| && s[open..open + |OPEN|] == OPEN
    requires s[open + |OPEN|..][..close + |CLOSE|] == s[open + |OPEN|..][..close] + CLOSE
    ensures s[open..open + |OPEN| + close + |CLOSE|] == OPEN + s[open + |OPEN|..][..close] + CLOSE
  {
    var rest := s[open + |OPEN|..];
    assert s[open..open + |OPEN| + close + |CLOSE|] == s[open..open + |OPEN|] + rest[..close + |CLOSE|];
    Assoc(OPEN, rest[..close], CLOSE);
  }

  lemma BodyIsMatch(s: string, open: nat, m: Match)
    requires open + |OPEN| <= |s| && s[open..open + |OPEN|] == OPEN && Contains(s[open + |OPEN|..], CLOSE)
    requires var rest := s[open + |OPEN|..];
             var close := Index(rest, CLOSE).value;
             && m.text == s[open..open + |OPEN| + close + |CLOSE|]
             && m.expression == TrimRight(TrimLeft(rest[..close]))
    ensures exists body :: IsMatch(m, body)
  {
    var rest := s[open + |OPEN|..];
    var close := Index(rest, CLOSE).value;
    BodyMeaning(rest);
    TrimMeaning(rest[..close]);
    MatchedText(s, open, close);
    assert IsMatch(m, rest[..close]);
  }

  lemma {:induction false} IndexLeast(s: string, part: string, i: nat)
    requires StandsAt(s, part, i)
    ensures Index(s, part).Some? && Index(s, part).value <= i
  {
    ContainsExactly(s, part);
    if !(part <= s) {
      assert i > 0 && s[1..][i - 1..i - 1 + |part|] == s[i..i + |part|];
      IndexLeast(s[1..], part, i - 1);
    }
  }

  lemma NoMatchMeaning(s: string)
    requires FirstMatch(s).None?
    ensures WellCut(Last(s))
  {
    forall i: nat, j: nat | StandsAt(s, "{{cel:", i) && StandsAt(s, "}}", j) ensures j < i + 6 {
      IndexLeast(s, OPEN, i);
      var behind := Index(s, OPEN).value + |OPEN|;
      if j >= behind {
        assert s[behind..][j - behind..j - behind + 2] == s[j..j + 2];
        assert StandsAt(s[behind..], CLOSE, j - behind);
        ContainsExactly(s[behind..], CLOSE);
      }
    }
  }

  lemma FoundMatchMeaning(s: string)
    requires FirstMatch(s).Some?
    ensures !Contains(FirstMatch(s).value.before, OPEN)
    ensures exists body :: IsMatch(FirstMatch(s).value.found, body)
  {
    BeforeIndex(s, OPEN);
    BodyIsMatch(s, Index(s, OPEN).value, FirstMatch(s).value.found);
  }

  lemma {:induction false} CutMeaning(s: string)
    ensures WellCut(Cut(s)) && Source(Cut(s)) == s
    decreases |s|
  {
    var next := FirstMatch(s);
    if next.None? {
      NoMatchMeaning(s);
    } else {
      FoundMatchMeaning(s);
      CutMeaning(next.value.behind);
    }
  }

  lemma {:induction false} ContainsMore(a: string, b: string, part: string)
    requires Contains(a, part)
    ensures Contains(a + b, part)
  {
    if part <= a {
      assert part <= a + b;
    } else {
      ContainsMore(a[1..], b, part);
      assert (a + b)[1..] == a[1..] + b;
    }
  }

  /** The opening does not overlap itself, so behind text without it, text that begins with it is found first. */
  lemma {:induction false} FoundBehind(a: string, m: string, b: string)
    requires OPEN <= m && !Contains(a, OPEN)
    ensures Index(a + (m + b), m) == Some(|a|)
  {
    var s := a + (m + b);
    if a == [] {
      assert s[..|m|] == m;
    } else {
      assert s[1..] == a[1..] + (m + b);
      FoundBehind(a[1..], m, b);
      OpeningOverlaps(a, m, b);
      assert m <= s ==> OPEN <= s;
    }
  }

  lemma OpeningOverlaps(a: string, m: string, b: string)
    requires a != [] && OPEN <= m
    ensures OPEN <= a + (m + b) ==> OPEN <= a
  {
    var s := a + (m + b);
    if |a| < |OPEN| {
      assert s[|a|] == m[0] == OPEN[0] && s[|a| + 1] == m[1] == OPEN[1];
    } else {
      assert a[..|OPEN|] == s[..|OPEN|];
    }
  }

  // ---- when the loop substitutes positionally ----

  lemma {:induction false} PrefixLacks(a: string, b: string, part: string)
    requires !Contains(a + b, part)
    ensures !Contains(a, part)
  {
    if Contains(a, part) {
      ContainsMore(a, b, part);
    }
  }

  lemma ReplaceBehind(ahead: string, m: string, rest: string, value: string)
    requires OPEN <= m && !Contains(ahead, OPEN)
    ensures ReplaceFirst(ahead + (m + rest), m, value) == ahead + value + rest
  {
    FoundBehind(ahead, m, rest);
    var s := ahead + (m + rest);
    assert s[..|ahead|] == ahead && s[|ahead| + |m|..] == rest;
  }

  /** What lies in front is left alone, and each replacement hits the match it was made for. */
  lemma {:induction false} LoopSubstitutes(front: string, p: Pieces, eval: Evaluator)
    requires Opened(p) && Substituted(p, eval).Some?
    requires !Contains(front + Substituted(p, eval).value, OPEN)
    ensures ReplaceAll(front + Source(p), Matches(p), eval) == Some(front + Substituted(p, eval).value)
    decreases p
  {
    if p.Piece? {
      var value := eval(p.found.expression).value;
      var ahead, behind := front + p.text, Substituted(p.rest, eval).value;
      Regroup(front, p.text, value, behind);
      Regroup(front, p.text, p.found.text, Source(p.rest));
      PrefixLacks(ahead, value + behind, OPEN);
      ReplaceBehind(ahead, p.found.text, Source(p.rest), value);
      LoopSubstitutes(ahead + value, p.rest, eval);
      assert Matches(p)[1..] == Matches(p.rest);
    }
  }

  lemma Assoc(a: string, b: string, c: string)
    ensures (a + b) + c == a + (b + c)
  {
  }

  lemma Regroup(a: string, b: string, c: string, d: string)
    ensures a + (b + (c + d)) == (a + b) + (c + d) == ((a + b) + c) + d
  {
  }

  /** Both fail exactly when some expression of the input does not evaluate. */
  ghost predicate AllEvaluate(p: Pieces, eval: Evaluator) {
    p.Piece? ==> eval(p.found.expression).Some? && AllEvaluate(p.rest, eval)
  }

  lemma {:induction false} BothFail(s: string, p: Pieces, eval: Evaluator)
    ensures ReplaceAll(s, Matches(p), eval).Some? <==> AllEvaluate(p, eval)
    ensures Substituted(p, eval).Some? <==> AllEvaluate(p, eval)
    decreases p
  {
    if p.Piece? {
      assert Matches(p)[1..] == Matches(p.rest);
      if eval(p.found.expression).Some? {
        BothFail(ReplaceFirst(s, p.found.text, eval(p.found.expression).value), p.rest, eval);
      }
    }
  }

  ghost predicate Agree(input: string, eval: Evaluator) {
    ReplaceAll(input, Matches(Cut(input)), eval) == Substituted(Cut(input), eval)
  }

  /** For every input and evaluator: the loop is the positional substitution if that contains no opening. */
  lemma LoopIsSubstitution(input: string, eval: Evaluator)
    requires Substituted(Cut(input), eval).Some? ==> !Contains(Substituted(Cut(input), eval).value, OPEN)
    ensures Agree(input, eval)
  {
    CutOpened(input);
    BothFail(input, Cut(input), eval);
    if Substituted(Cut(input), eval).Some? {
      assert "" + Source(Cut(input)) == input;
      assert "" + Substituted(Cut(input), eval).value == Substituted(Cut(input), eval).value;
      LoopSubstitutes("", Cut(input), eval);
    }
  }

  // ---- for which inputs that holds whatever the evaluator returns ----

  /** An evaluator that answers the first expression with the text of the second match. */
  ghost function Echo(p: Pieces): Evaluator
    requires p.Piece? && p.rest.Piece?
  {
    var first, second := p.found.expression, p.rest.found.text;
    expression => Some(if expression == first then "z" + second else "z")
  }

  /** Text in which no match can begin stays at the front through every further replacement. */
  lemma {:induction false} FrontStays(front: string, s: string, matches: seq<Match>, eval: Evaluator)
    requires !Contains(front, OPEN) && front != [] && front[|front| - 1] == 'z'
    requires forall i :: 0 <= i < |matches| ==> OPEN <= matches[i].text
    requires ReplaceAll(front + s, matches, eval).Some?
    ensures front <= ReplaceAll(front + s, matches, eval).value
    decreases |matches|
  {
    if matches != [] {
      var m, value := matches[0].text, eval(matches[0].expression).value;
      var found := Index(front + s, m);
      if found.Some? {
        NotWithin(front, s, m);
        var rest := ReplacedBehind(front, s, m, value);
        FrontStays(front, rest, matches[1..], eval);
      } else {
        FrontStays(front, s, matches[1..], eval);
      }
    }
  }

  /** A match found behind such text begins behind it. */
  lemma {:induction false} NotWithin(front: string, s: string, m: string)
    requires !Contains(front, OPEN) && front != [] && front[|front| - 1] == 'z'
    requires OPEN <= m && Index(front + s, m).Some?
    ensures Index(front + s, m).value >= |front|
  {
    NotAtStart(front, s, m);
    assert (front + s)[1..] == front[1..] + s;
    if |front| > 1 {
      NotWithin(front[1..], s, m);
    }
  }

  lemma StartOverlaps(front: string, s: string)
    requires front != [] && OPEN <= front + s
    ensures if |front| < |OPEN| then front[|front| - 1] == OPEN[|front| - 1] else OPEN <= front
  {
    var whole := front + s;
    assert whole[|front| - 1] == front[|front| - 1];
    assert |front| >= |OPEN| ==> whole[..|OPEN|] == front[..|OPEN|];
  }

  lemma NotAtStart(front: string, s: string, m: string)
    requires !Contains(front, OPEN) && front != [] && front[|front| - 1] == 'z' && OPEN <= m
    ensures !(m <= front + s)
  {
    if OPEN <= front + s {
      StartOverlaps(front, s);
    }
  }

  lemma ReplacedBehind(front: string, s: string, m: string, value: string) returns (rest: string)
    requires Index(front + s, m).Some? && Index(front + s, m).value >= |front|
    ensures ReplaceFirst(front + s, m, value) == front + rest
  {
    var at := Index(front + s, m).value;
    rest := (front + s)[|front|..at] + value + (front + s)[at + |m|..];
    assert (front + s)[..at] == front + (front + s)[|front|..at];
  }

  /** Substituted positionally, the first answer is followed by the brace of the second match. */
  lemma EchoOutput(p: Pieces)
    requires p.Piece? && p.rest.Piece? && Opened(p) && Substituted(p, Echo(p)).Some?
    ensures var out := Substituted(p, Echo(p)).value;
            |out| > |p.text| + 1 && out[|p.text| + 1] == '{'
  {
    var out := Substituted(p, Echo(p)).value;
    var m := p.rest.found.text;
    assert out[|p.text|..][1..][..|m|] == m;
    assert m[0] == OPEN[0];
  }

  lemma LoopNext(s: string, p: Pieces, eval: Evaluator, value: string)
    requires p.Piece? && eval(p.found.expression) == Some(value)
    ensures ReplaceAll(s, Matches(p), eval) == ReplaceAll(ReplaceFirst(s, p.found.text, value), Matches(p.rest), eval)
  {
    assert Matches(p)[1..] == Matches(p.rest);
  }

  /** The loop replaces the second match inside the first answer. */
  lemma EchoLoop(p: Pieces)
    requires p.Piece? && p.rest.Piece? && Opened(p) && AllEvaluate(p, Echo(p)) && !Contains(p.text, OPEN)
    ensures ReplaceAll(Source(p), Matches(p), Echo(p)).Some?
    ensures p.text + "zz" <= ReplaceAll(Source(p), Matches(p), Echo(p)).value
  {
    var eval, t, m, rest := Echo(p), p.text, p.rest.found.text, Source(p.rest);
    var value := eval(p.rest.found.expression).value;
    LoopNext(Source(p), p, eval, "z" + m);
    ReplaceBehind(t, p.found.text, rest, "z" + m);
    Assoc(t, "z", m);
    Assoc(t + "z", m, rest);
    LoopNext((t + "z") + (m + rest), p.rest, eval, value);
    NoOpeningThenZ(t);
    ReplaceBehind(t + "z", m, rest, value);
    NoOpeningThenZ(t + "z");
    EchoTail(t, value, rest);
    BothFail((t + "zz") + (value[1..] + rest), p.rest.rest, eval);
    MatchesOpened(p.rest.rest);
    FrontStays(t + "zz", value[1..] + rest, Matches(p.rest.rest), eval);
  }

  lemma EchoTail(t: string, value: string, rest: string)
    requires value != [] && value[0] == 'z'
    ensures (t + "z") + "z" == t + "zz" && (t + "z") + value + rest == (t + "zz") + (value[1..] + rest)
  {
    assert value == "z" + value[1..];
  }

  /** Answered by the echo, the second match is found inside the first answer. */
  lemma EchoDisagrees(p: Pieces)
    requires p.Piece? && p.rest.Piece? && Opened(p) && !Contains(p.text, OPEN)
    ensures ReplaceAll(Source(p), Matches(p), Echo(p)) != Substituted(p, Echo(p))
  {
    EchoEvaluates(p, p);
    BothFail(Source(p), p, Echo(p));
    EchoOutput(p);
    EchoLoop(p);
    assert (p.text + "zz")[|p.text| + 1] == 'z';
  }

  lemma {:induction false} MatchesOpened(p: Pieces)
    requires Opened(p)
    ensures forall i :: 0 <= i < |Matches(p)| ==> OPEN <= Matches(p)[i].text
  {
    if p.Piece? {
      MatchesOpened(p.rest);
    }
  }

  /** The text in front of the first match holds no opening. */
  lemma TextLacksOpening(input: string)
    requires Cut(input).Piece?
    ensures !Contains(Cut(input).text, OPEN)
  {
    BeforeIndex(input, OPEN);
  }

  lemma {:induction false} EchoEvaluates(p: Pieces, q: Pieces)
    requires p.Piece? && p.rest.Piece?
    ensures AllEvaluate(q, Echo(p))
  {
    if q.Piece? {
      EchoEvaluates(p, q.rest);
    }
  }

  lemma {:induction false} NoOpeningThenZ(text: string)
    requires !Contains(text, OPEN)
    ensures !Contains(text + "z", OPEN)
  {
    if text == [] {
      assert (text + "z")[1..] == [];
    } else {
      NoOpeningThenZ(text[1..]);
      assert (text + "z")[1..] == text[1..] + "z";
      if |text| < |OPEN| {
        assert (text + "z")[|text|] == 'z';
      } else {
        assert (text + "z")[..|OPEN|] == text[..|OPEN|] != OPEN;
      }
    }
  }

  /** With one match there is nothing to confuse. */
  lemma OneMatchAgrees(p: Pieces, eval: Evaluator)
    requires Opened(p) && (p.Piece? ==> p.rest.Last? && !Contains(p.text, OPEN))
    ensures ReplaceAll(Source(p), Matches(p), eval) == Substituted(p, eval)
  {
    if p.Piece? && eval(p.found.expression).Some? {
      var value := eval(p.found.expression).value;
      LoopNext(Source(p), p, eval, value);
      ReplaceBehind(p.text, p.found.text, Source(p.rest), value);
      Assoc(p.text, value, p.rest.text);
    }
  }

  /** The loop is the positional substitution for every evaluator exactly when the input has at most one match. */
  lemma AgreesForEveryEvaluator(input: string)
    ensures (forall eval: Evaluator :: Agree(input, eval)) <==> |Matches(Cut(input))| <= 1
  {
    var p := Cut(input);
    CutOpened(input);
    if p.Piece? {
      TextLacksOpening(input);
    }
    AgreesExactly(input, p);
  }

  lemma AgreesExactly(input: string, p: Pieces)
    requires p == Cut(input) && Source(p) == input && Opened(p) && (p.Piece? ==> !Contains(p.text, OPEN))
    ensures (forall eval: Evaluator :: Agree(input, eval)) <==> |Matches(p)| <= 1
  {
    if p.Piece? && p.rest.Piece? {
      EchoDisagrees(p);
      assert !Agree(input, Echo(p));
    } else {
      forall eval: Evaluator ensures Agree(input, eval) {
        OneMatchAgrees(p, eval);
      }
    }
  }

  lemma OneLetterMatch(c: char, behind: string)
    requires c != '}' && !IsSpace(c)
    ensures FirstMatch(OPEN + [c] + CLOSE + behind) == Some(Hit("", Match(OPEN + [c] + CLOSE, [c]), behind))
  {
    var s := OPEN + [c] + CLOSE + behind;
    assert OPEN <= s;
    var body := s[|OPEN|..];
    assert body == [c] + CLOSE + behind;
    assert body[1..] == CLOSE + behind && CLOSE <= body[1..];
    assert body[0] == c && !(CLOSE <= body);
    assert Index(body[1..], CLOSE) == Some(0);
    assert body[..1] == [c] && [c][1..] == [];
    assert s[0..|OPEN| + 1 + |CLOSE|] == OPEN + [c] + CLOSE;
    assert s[|OPEN| + 1 + |CLOSE|..] == behind;
  }

  /** The first expression yields the text of the second match, every other one yields x. */
  function Chained(first: string, second: string): Evaluator {
    expression => Some(if expression == first then second else "x")
  }

  /** {{cel:a}}{{cel:b}}, where a yields {{cel:b}} and b yields x: the loop puts the x where a stood, in front, and
      leaves the second match alone. */
  lemma TwoExpressionsConfused() returns (first: string, second: string, eval: Evaluator)
    ensures first == OPEN + "a" + CLOSE && second == OPEN + "b" + CLOSE && eval == Chained("a", second)
    ensures ReplaceAll(first + second, Matches(Cut(first + second)), eval) == Some("x" + second)
    ensures Substituted(Cut(first + second), eval) == Some(second + "x")
  {
    first, second := OPEN + "a" + CLOSE, OPEN + "b" + CLOSE;
    eval := Chained("a", second);
    var p := CutOfTwo('a', 'b', first, second, first + second);
    LoopOfTwo(p, first, second, "a", "b", "x", eval);
  }

  lemma LoopOfTwo(p: Pieces, first: string, second: string, a: string, b: string, x: string, eval: Evaluator)
    requires OPEN <= first && OPEN <= second
    requires p == Piece("", Match(first, a), Piece("", Match(second, b), Last("")))
    requires eval(a) == Some(second) && eval(b) == Some(x)
    ensures ReplaceAll(first + second, Matches(p), eval) == Some(x + second)
    ensures Substituted(p, eval) == Some(second + x)
  {
    LoopNext(first + second, p, eval, second);
    ReplacesFront(first, second, second);
    LoopNext(second + second, p.rest, eval, x);
    ReplacesFront(second, second, x);
    assert Matches(p.rest.rest) == [];
    assert Substituted(p.rest.rest, eval) == Some("");
    assert Substituted(p.rest, eval) == Some("" + (x + ""));
    assert "" + (x + "") == x && "" + (second + x) == second + x;
  }

  lemma ReplacesFront(m: string, behind: string, value: string)
    requires OPEN <= m
    ensures ReplaceFirst(m + behind, m, value) == value + behind
  {
    ReplaceBehind("", m, behind, value);
    assert "" + (m + behind) == m + behind && "" + value + behind == value + behind;
  }

  lemma CutAtFirst(s: string, hit: Hit)
    requires FirstMatch(s) == Some(hit)
    ensures Cut(s) == Piece(hit.before, hit.found, Cut(hit.behind))
  {
  }

  lemma CutOfTwo(a: char, b: char, first: string, second: string, input: string) returns (p: Pieces)
    requires a != '}' && !IsSpace(a) && b != '}' && !IsSpace(b)
    requires first == OPEN + [a] + CLOSE && second == OPEN + [b] + CLOSE && input == first + second
    ensures p == Cut(input) == Piece("", Match(first, [a]), Piece("", Match(second, [b]), Last("")))
  {
    assert second == second + "";
    OneLetterMatch(b, "");
    OneLetterMatch(a, second);
    CutAtFirst(second, Hit("", Match(second, [b]), ""));
    CutAtFirst(input, Hit("", Match(first, [a]), second));
    p := Cut(input);
  }
}
