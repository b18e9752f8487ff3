/**
 * The colouring engine `colorize_string` (colorizer.py:74-94). A cursor walks the input; at each
 * position the rules are tried in list order with `re.search("^" + pattern, input[index:])`, and
 * the first rule whose search succeeds decides what is written: a span around its whole match, or
 * around its first group when the match reports a `lastindex` above 1. When no rule matches, the
 * character under the cursor is copied and the cursor moves by one.
 *
 * The regular-expression engine is a parameter, `search`, standing for `re.search`. The scan is
 * specified in two layers: `Tokenize` cuts the input into pieces without looking at colours, and
 * `Paint` looks colours up, in the order the source does, and writes the spans.
 */
module Colorizer {
  import opened Wrappers
  import opened SeqFacts
  import opened RuleStore

  /** What the engine reads from a match object: `group()`, `lastindex` and `group(1)`. */
  datatype Match = Match(whole: string, lastIndex: Option<nat>, group1: Option<string>)

  /** The three ways a call of `re.search` ends: no match, a match, or `re.error` on a bad pattern. */
  datatype SearchResult = NoMatch | Found(m: Match) | PatternError

  /** `re.search(pattern, subject)`, as a function of its two arguments. */
  type Matcher = (string, string) -> SearchResult

  /** The pattern actually searched for a rule: its own, behind a `^`. */
  function Anchor(pattern: string): string {
    "^" + pattern
  }

  /** `match.lastindex and match.lastindex > 1`: the match reports a group numbered above 1. */
  predicate Narrowed(m: Match) {
    m.lastIndex.Some? && m.lastIndex.value > 1
  }

  /** The outcome of trying the rules in order at one position. */
  datatype Choice = NoRule | Chosen(rule: Rule, m: Match) | Invalid(pattern: string)

  /** The first rule whose search does not report `NoMatch`, and what its search reported. */
  function FirstMatch(rules: seq<Rule>, search: Matcher, subject: string): Choice {
    if rules == [] then NoRule
    else match search(Anchor(rules[0].pattern), subject)
      case PatternError => Invalid(rules[0].pattern)
      case Found(m) => Chosen(rules[0], m)
      case NoMatch => FirstMatch(rules[1..], search, subject)
  }

  /** A character copied as it is, or a token text to wrap in the colour of the rule `name`. */
  datatype Piece = Plain(c: char) | Token(name: string, text: string)

  /**
   * How the scan ends: at the end of the input; with `re.error` for `pattern`; with `len(None)` after
   * a narrowed match of rule `name` whose first group took no part; or stuck, because the text the
   * rule `name` reported is empty and the cursor would stay where it is forever.
   */
  datatype End = Finished | BadPattern(pattern: string) | NoGroup(name: string) | Stall(name: string)

  datatype Trace = Trace(pieces: seq<Piece>, end: End)

  function Prepend(p: Piece, t: Trace): Trace {
    Trace([p] + t.pieces, t.end)
  }

  /** The text a chosen match contributes: group 1 for a narrowed match, else the whole match. */
  function TokenText(m: Match): string
    requires !(Narrowed(m) && m.group1.None?)
  {
    if Narrowed(m) then m.group1.value else m.whole
  }

  /** One round of the scan: the piece written and the next cursor position, or how the scan ends. */
  datatype Round = Advance(piece: Piece, next: nat) | Halt(end: End)

  /** The round at cursor position `index`; a round that does not end the scan moves the cursor forward. */
  function RoundAt(input: string, rules: seq<Rule>, search: Matcher, index: nat): (r: Round)
    requires index < |input|
    ensures r.Advance? ==> r.next > index
  {
    match FirstMatch(rules, search, input[index..])
    case Invalid(pattern) => Halt(BadPattern(pattern))
    case NoRule => Advance(Plain(input[index]), index + 1)
    case Chosen(rule, m) =>
      if Narrowed(m) && m.group1.None? then Halt(NoGroup(rule.name))
      else if TokenText(m) == [] then Halt(Stall(rule.name))
      else Advance(Token(rule.name, TokenText(m)), index + |TokenText(m)|)
  }

  /** The pieces the scan produces from cursor position `index` on, and how it ends. */
  function Tokenize(input: string, rules: seq<Rule>, search: Matcher, index: nat): Trace
    decreases |input| - index
  {
    if index >= |input| then Trace([], Finished)
    else match RoundAt(input, rules, search, index)
      case Halt(end) => Trace([], end)
      case Advance(piece, next) => Prepend(piece, Tokenize(input, rules, search, next))
  }

  /** The exceptions `colorize_string` can raise: `re.error`, `KeyError` and `TypeError`. */
  datatype Fault = PatternFault(pattern: string) | MissingColor(name: string) | NoneGroupFault

  /** The result of a call: the HTML written, an exception, or a loop that never ends. */
  datatype Outcome = Html(text: string) | Error(fault: Fault) | Diverges

  /** The markup written around a token text. */
  function Span(color: string, text: string): string {
    "<span style=\"color:" + color + "\">" + text + "</span>"
  }

  /** Text written before an outcome: kept in front of HTML, lost when the call raises or never returns. */
  function Prefix(s: string, o: Outcome): Outcome {
    if o.Html? then Html(s + o.text) else o
  }

  /** How an end of scan turns into an outcome; the colour lookup comes first, as in the source. */
  function Conclude(end: End, colors: map<string, string>): Outcome {
    match end
    case Finished => Html("")
    case BadPattern(pattern) => Error(PatternFault(pattern))
    case NoGroup(name) => if name in colors then Error(NoneGroupFault) else Error(MissingColor(name))
    case Stall(name) => if name in colors then Diverges else Error(MissingColor(name))
  }

  /** The outcome of writing `pieces` and then reaching `end`, looking each token's colour up on the way. */
  function Paint(pieces: seq<Piece>, end: End, colors: map<string, string>): Outcome {
    if pieces == [] then Conclude(end, colors)
    else match pieces[0]
      case Plain(c) => Prefix([c], Paint(pieces[1..], end, colors))
      case Token(name, text) =>
        if name in colors then Prefix(Span(colors[name], text), Paint(pieces[1..], end, colors))
        else Error(MissingColor(name))
  }

  /** The outcome of the scan from cursor position `index` on. */
  function PaintFrom(input: string, colors: map<string, string>, rules: seq<Rule>, search: Matcher, index: nat): Outcome {
    var trace := Tokenize(input, rules, search, index);
    Paint(trace.pieces, trace.end, colors)
  }

  /** The outcome of `colorize_string(input, colors, rules)`. */
  function Colorize(input: string, colors: map<string, string>, rules: seq<Rule>, search: Matcher): Outcome {
    PaintFrom(input, colors, rules, search, 0)
  }

  /** A round where no rule matches: the character under the cursor is copied. */
  lemma StepPlain(input: string, colors: map<string, string>, rules: seq<Rule>, search: Matcher, index: nat)
    requires index < |input| && FirstMatch(rules, search, input[index..]) == NoRule
    ensures PaintFrom(input, colors, rules, search, index) ==
      Prefix([input[index]], PaintFrom(input, colors, rules, search, index + 1))
  {
    var rest := Tokenize(input, rules, search, index + 1);
    ConcatHead([Plain(input[index])], rest.pieces);
  }

  /** A round where a rule matches with a coloured name and a non-empty text: one span is written. */
  lemma StepToken(input: string, colors: map<string, string>, rules: seq<Rule>, search: Matcher, index: nat, rule: Rule, m: Match)
    requires index < |input| && FirstMatch(rules, search, input[index..]) == Chosen(rule, m)
    requires rule.name in colors && !(Narrowed(m) && m.group1.None?) && TokenText(m) != []
    ensures PaintFrom(input, colors, rules, search, index) ==
      Prefix(Span(colors[rule.name], TokenText(m)), PaintFrom(input, colors, rules, search, index + |TokenText(m)|))
  {
    var rest := Tokenize(input, rules, search, index + |TokenText(m)|);
    ConcatHead([Token(rule.name, TokenText(m))], rest.pieces);
  }

  /** The rounds that end the call, in the source's order of lookups: the colour first, then the group. */
  lemma StepHalts(input: string, colors: map<string, string>, rules: seq<Rule>, search: Matcher, index: nat)
    requires index < |input|
    ensures FirstMatch(rules, search, input[index..]).Invalid? ==>
      PaintFrom(input, colors, rules, search, index) == Error(PatternFault(FirstMatch(rules, search, input[index..]).pattern))
    ensures var choice := FirstMatch(rules, search, input[index..]);
      choice.Chosen? ==>
        if choice.rule.name !in colors then PaintFrom(input, colors, rules, search, index) == Error(MissingColor(choice.rule.name))
        else if Narrowed(choice.m) && choice.m.group1.None? then PaintFrom(input, colors, rules, search, index) == Error(NoneGroupFault)
        else TokenText(choice.m) == [] ==> PaintFrom(input, colors, rules, search, index) == Diverges
  {
  }

  /**
   * The inner `for rule in list(rules)` loop of `colorize_string`: searches the rules in order and
   * stops at the first one whose search does not report `NoMatch`.
   */
  method FindRule(rules: seq<Rule>, search: Matcher, subject: string) returns (choice: Choice)
    ensures choice == FirstMatch(rules, search, subject)
  {
    for k := 0 to |rules|
      invariant FirstMatch(rules, search, subject) == FirstMatch(rules[k..], search, subject)
    {
      var rule := rules[k];
      var result := search(Anchor(rule.pattern), subject);
      if result.PatternError? {
        return Invalid(rule.pattern);
      }
      if result.Found? {
        return Chosen(rule, result.m);
      }
      assert rules[k..][1..] == rules[k + 1..];
    }
    return NoRule;
  }

  /**
   * `colorize_string`. Where the source raises, the method returns the exception; where the source
   * would loop forever (a reported text is empty, so the cursor stays put and every later round
   * repeats this one), the method returns `Diverges` instead of looping.
   */
  method ColorizeString(inputBuffer: string, colors: map<string, string>, rules: seq<Rule>, search: Matcher)
    returns (r: Outcome)
    ensures r == Colorize(inputBuffer, colors, rules, search)
  {
    var index := 0;
    var outputBuffer := "";
    ghost var goal := Colorize(inputBuffer, colors, rules, search);
    PrefixEmpty(goal);
    while index < |inputBuffer|
      invariant goal == Prefix(outputBuffer, PaintFrom(inputBuffer, colors, rules, search, index))
      decreases |inputBuffer| - index
    {
      var choice := FindRule(rules, search, inputBuffer[index..]);
      StepHalts(inputBuffer, colors, rules, search, index);
      match choice
      case Invalid(pattern) =>
        return Error(PatternFault(pattern));
      case Chosen(rule, m) =>
        if rule.name !in colors {
          return Error(MissingColor(rule.name));
        }
        var advance;
        ghost var before := outputBuffer;
        if m.lastIndex.Some? && m.lastIndex.value > 1 {
          if m.group1.None? {
            return Error(NoneGroupFault);
          }
          outputBuffer := outputBuffer + Span(colors[rule.name], m.group1.value);
          advance := |m.group1.value|;
        } else {
          outputBuffer := outputBuffer + Span(colors[rule.name], m.whole);
          advance := |m.whole|;
        }
        if advance == 0 {
          return Diverges;
        }
        assert outputBuffer == before + Span(colors[rule.name], TokenText(m)) && advance == |TokenText(m)|;
        AdvanceToken(inputBuffer, colors, rules, search, index, before, rule, m, goal);
        index := index + advance;
      case NoRule =>
        AdvancePlain(inputBuffer, colors, rules, search, index, outputBuffer, goal);
        outputBuffer := outputBuffer + [inputBuffer[index]];
        index := index + 1;
    }
    ConcatEmpty(outputBuffer);
    return Html(outputBuffer);
  }

  /** The loop invariant of `ColorizeString` survives a round that copies a character. */
  lemma AdvancePlain(input: string, colors: map<string, string>, rules: seq<Rule>, search: Matcher, index: nat, out: string, goal: Outcome)
    requires index < |input| && FirstMatch(rules, search, input[index..]) == NoRule
    requires goal == Prefix(out, PaintFrom(input, colors, rules, search, index))
    ensures goal == Prefix(out + [input[index]], PaintFrom(input, colors, rules, search, index + 1))
  {
    StepPlain(input, colors, rules, search, index);
    PrefixPrefix(out, [input[index]], PaintFrom(input, colors, rules, search, index + 1));
  }

  /** The loop invariant of `ColorizeString` survives a round that writes a span. */
  lemma AdvanceToken(input: string, colors: map<string, string>, rules: seq<Rule>, search: Matcher, index: nat, out: string, rule: Rule, m: Match, goal: Outcome)
    requires index < |input| && FirstMatch(rules, search, input[index..]) == Chosen(rule, m)
    requires rule.name in colors && !(Narrowed(m) && m.group1.None?) && TokenText(m) != []
    requires goal == Prefix(out, PaintFrom(input, colors, rules, search, index))
    ensures goal ==
      Prefix(out + Span(colors[rule.name], TokenText(m)), PaintFrom(input, colors, rules, search, index + |TokenText(m)|))
  {
    StepToken(input, colors, rules, search, index, rule, m);
    PrefixPrefix(out, Span(colors[rule.name], TokenText(m)), PaintFrom(input, colors, rules, search, index + |TokenText(m)|));
  }

  lemma PrefixEmpty(o: Outcome)
    ensures Prefix("", o) == o
  {
    if o.Html? {
      ConcatEmpty(o.text);
    }
  }

  lemma PrefixPrefix(a: string, b: string, o: Outcome)
    ensures Prefix(a, Prefix(b, o)) == Prefix(a + b, o)
  {
    if o.Html? {
      ConcatAssoc(a, b, o.text);
    }
  }

  // Rule priority

  /** No rule is chosen exactly when the search of every rule reports no match. */
  lemma {:induction false} NoRuleIffNoMatch(rules: seq<Rule>, search: Matcher, subject: string)
    ensures FirstMatch(rules, search, subject) == NoRule <==>
      forall j :: 0 <= j < |rules| ==> search(Anchor(rules[j].pattern), subject).NoMatch?
  {
    if rules != [] {
      NoRuleIffNoMatch(rules[1..], search, subject);
      assert forall j :: 1 <= j < |rules| ==> rules[1..][j - 1] == rules[j];
    }
  }

  /**
   * The rule at position `j` decides when every earlier rule reports no match, whatever the rules
   * after it would match; a rule reporting no match hands the decision to the rest of the list.
   */
  lemma {:induction false} FirstMatchPriority(rules: seq<Rule>, search: Matcher, subject: string, j: nat)
    requires j < |rules|
    requires forall i :: 0 <= i < j ==> search(Anchor(rules[i].pattern), subject).NoMatch?
    ensures var result := search(Anchor(rules[j].pattern), subject);
      && (result.Found? ==> FirstMatch(rules, search, subject) == Chosen(rules[j], result.m))
      && (result.PatternError? ==> FirstMatch(rules, search, subject) == Invalid(rules[j].pattern))
      && (result.NoMatch? ==> FirstMatch(rules, search, subject) == FirstMatch(rules[j + 1..], search, subject))
  {
    if j > 0 {
      var rest := rules[1..];
      assert forall i :: 0 <= i < j - 1 ==> rest[i] == rules[i + 1];
      FirstMatchPriority(rest, search, subject, j - 1);
      assert rest[j - 1] == rules[j] && rest[j..] == rules[j + 1..];
    }
  }

  /** A chosen rule is one of the rules and its match is what its search reported; an invalid pattern is one whose search raised. */
  lemma {:induction false} ChosenRuleMatched(rules: seq<Rule>, search: Matcher, subject: string)
    ensures var choice := FirstMatch(rules, search, subject);
      && (choice.Chosen? ==> choice.rule in rules && search(Anchor(choice.rule.pattern), subject) == Found(choice.m))
      && (choice.Invalid? ==> search(Anchor(choice.pattern), subject).PatternError?)
  {
    if rules != [] && search(Anchor(rules[0].pattern), subject).NoMatch? {
      ChosenRuleMatched(rules[1..], search, subject);
    }
  }

  // Colour lookups

  /** Every token among `pieces` names a rule that has a colour. */
  predicate AllColored(pieces: seq<Piece>, colors: map<string, string>) {
    forall i :: 0 <= i < |pieces| && pieces[i].Token? ==> pieces[i].name in colors
  }

  /** The HTML for pieces whose tokens all have colours: characters as they are, tokens in spans. */
  function Render(pieces: seq<Piece>, colors: map<string, string>): string
    requires AllColored(pieces, colors)
  {
    if pieces == [] then ""
    else
      var head := match pieces[0]
        case Plain(c) => [c]
        case Token(name, text) => Span(colors[name], text);
      head + Render(pieces[1..], colors)
  }

  /** The rule names whose colours the scan looks up: every token's, and the one a stuck or group-less end names. */
  function Names(pieces: seq<Piece>, end: End): set<string> {
    EndNames(end) + set i | 0 <= i < |pieces| && pieces[i].Token? :: pieces[i].name
  }

  function EndNames(end: End): set<string> {
    match end
    case NoGroup(name) => {name}
    case Stall(name) => {name}
    case _ => {}
  }

  /** With every token coloured, the pieces are all written and the end alone decides the outcome. */
  lemma {:induction false} PaintColored(pieces: seq<Piece>, end: End, colors: map<string, string>)
    requires AllColored(pieces, colors)
    ensures Paint(pieces, end, colors) == Prefix(Render(pieces, colors), Conclude(end, colors))
  {
    if pieces != [] {
      assert forall i :: 1 <= i < |pieces| ==> pieces[1..][i - 1] == pieces[i];
      PaintColored(pieces[1..], end, colors);
      var head := match pieces[0] case Plain(c) => [c] case Token(name, text) => Span(colors[name], text);
      PrefixPrefix(head, Render(pieces[1..], colors), Conclude(end, colors));
    }
  }

  /** A `KeyError` for the first token without a colour, whatever follows it and whatever was written before. */
  lemma {:induction false} PaintFirstMissing(pieces: seq<Piece>, end: End, colors: map<string, string>, j: nat)
    requires j < |pieces| && pieces[j].Token? && pieces[j].name !in colors
    requires forall i :: 0 <= i < j && pieces[i].Token? ==> pieces[i].name in colors
    ensures Paint(pieces, end, colors) == Error(MissingColor(pieces[j].name))
  {
    if j > 0 {
      var rest := pieces[1..];
      assert forall i :: 0 <= i < j - 1 ==> rest[i] == pieces[i + 1];
      PaintFirstMissing(rest, end, colors, j - 1);
    }
  }

  /** The call returns HTML exactly when the scan reaches the end of the input and every token has a colour. */
  lemma {:induction false} PaintHtml(pieces: seq<Piece>, end: End, colors: map<string, string>)
    ensures Paint(pieces, end, colors).Html? <==> end.Finished? && AllColored(pieces, colors)
    ensures Paint(pieces, end, colors).Html? ==> Paint(pieces, end, colors).text == Render(pieces, colors)
  {
    if pieces != [] {
      PaintHtml(pieces[1..], end, colors);
      assert forall i :: 1 <= i < |pieces| ==> pieces[1..][i - 1] == pieces[i];
    }
  }

  /** Colours of names the scan never looks up make no difference: a rule that never matches may lack one. */
  lemma {:induction false} PaintReadsOnlyUsedColors(pieces: seq<Piece>, end: End, c1: map<string, string>, c2: map<string, string>)
    requires forall n :: n in Names(pieces, end) ==> (n in c1 <==> n in c2) && (n in c1 ==> c1[n] == c2[n])
    ensures Paint(pieces, end, c1) == Paint(pieces, end, c2)
  {
    if pieces != [] {
      assert Names(pieces[1..], end) <= Names(pieces, end) by {
        forall n | n in Names(pieces[1..], end) ensures n in Names(pieces, end) {
          if n !in EndNames(end) {
            var i :| 0 <= i < |pieces[1..]| && pieces[1..][i].Token? && pieces[1..][i].name == n;
            assert pieces[i + 1] == pieces[1..][i];
          }
        }
      }
      PaintReadsOnlyUsedColors(pieces[1..], end, c1, c2);
      if pieces[0].Token? {
        assert pieces[0].name in Names(pieces, end);
      }
    }
  }

  /** The outcome is `Diverges` exactly when the scan gets stuck after writing every piece and the stuck rule has a colour. */
  lemma {:induction false} PaintDiverges(pieces: seq<Piece>, end: End, colors: map<string, string>)
    ensures Paint(pieces, end, colors) == Diverges <==> end.Stall? && end.name in colors && AllColored(pieces, colors)
  {
    if pieces != [] {
      PaintDiverges(pieces[1..], end, colors);
      assert forall i :: 1 <= i < |pieces| ==> pieces[1..][i - 1] == pieces[i];
    }
  }

  // The scan

  /** Where no rule matches from `index` on, the rest of the input is copied unchanged. */
  lemma {:induction false} UnmatchedTextIsCopied(input: string, colors: map<string, string>, rules: seq<Rule>, search: Matcher, index: nat)
    requires index <= |input|
    requires forall i :: index <= i < |input| ==> FirstMatch(rules, search, input[i..]) == NoRule
    ensures PaintFrom(input, colors, rules, search, index) == Html(input[index..])
    decreases |input| - index
  {
    if index < |input| {
      UnmatchedTextIsCopied(input, colors, rules, search, index + 1);
      StepPlain(input, colors, rules, search, index);
      assert [input[index]] + input[index + 1..] == input[index..];
    } else {
      assert input[index..] == [];
    }
  }

  /** With an empty rule list the output is the input. */
  lemma NoRulesCopyInput(input: string, colors: map<string, string>, search: Matcher)
    ensures Colorize(input, colors, [], search) == Html(input)
  {
    UnmatchedTextIsCopied(input, colors, [], search, 0);
  }

  /**
   * A search whose whole match is always a prefix of the subject and whose first group is always a
   * prefix of the whole match. `re.search` need not behave so: `"^" + "a|b"` is `^a|b`, whose `b`
   * may be found further on.
   */
  ghost predicate Anchored(search: Matcher) {
    forall pattern, subject :: search(pattern, subject).Found? ==>
      && search(pattern, subject).m.whole <= subject
      && (search(pattern, subject).m.group1.Some? ==>
            search(pattern, subject).m.group1.value <= search(pattern, subject).m.whole)
  }

  /** What a piece contributes to the text: its character, or its token text. */
  function PieceText(p: Piece): string {
    match p
    case Plain(c) => [c]
    case Token(_, text) => text
  }

  /** The characters and token texts of `pieces`, in order, without markup. */
  function Texts(pieces: seq<Piece>): string {
    if pieces == [] then "" else PieceText(pieces[0]) + Texts(pieces[1..])
  }

  /** For an anchored search, a round's piece holds exactly the input characters the cursor moves over. */
  lemma RoundReadsInput(input: string, rules: seq<Rule>, search: Matcher, index: nat)
    requires Anchored(search) && index < |input|
    ensures var r := RoundAt(input, rules, search, index);
      r.Advance? ==> r.next <= |input| && input[index..r.next] == PieceText(r.piece)
  {
    var subject := input[index..];
    ChosenRuleMatched(rules, search, subject);
    match FirstMatch(rules, search, subject)
    case Invalid(_) =>
    case NoRule =>
    case Chosen(rule, m) =>
      if !(Narrowed(m) && m.group1.None?) && TokenText(m) != [] {
        var text := TokenText(m);
        assert search(Anchor(rule.pattern), subject).Found?;
        assert m.whole <= subject;
        if Narrowed(m) {
          assert m.group1.value <= m.whole;
          assert subject[..|text|] == m.whole[..|text|];
        }
        assert subject[..|text|] == text;
      }
  }

  lemma TextsCons(p: Piece, pieces: seq<Piece>)
    ensures Texts([p] + pieces) == PieceText(p) + Texts(pieces)
  {
    ConcatHead([p], pieces);
  }

  /**
   * For an anchored search the texts the scan produces are the input read from the cursor on: the
   * cursor never passes the end of the input, and a scan that reaches the end has used every character
   * exactly once.
   */
  lemma {:induction false} Reconstruction(input: string, rules: seq<Rule>, search: Matcher, index: nat)
    requires Anchored(search) && index <= |input|
    ensures var texts := Texts(Tokenize(input, rules, search, index).pieces);
      index + |texts| <= |input| && input[index..index + |texts|] == texts
    ensures Tokenize(input, rules, search, index).end.Finished? ==>
      Texts(Tokenize(input, rules, search, index).pieces) == input[index..]
    decreases |input| - index
  {
    if index < |input| {
      RoundReadsInput(input, rules, search, index);
      match RoundAt(input, rules, search, index)
      case Halt(_) =>
      case Advance(piece, next) =>
        Reconstruction(input, rules, search, next);
        var rest := Tokenize(input, rules, search, next);
        TextsCons(piece, rest.pieces);
        var texts := Texts(rest.pieces);
        AdjacentSlices(input, index, next, PieceText(piece), texts);
    }
  }

  /**
   * A search whose match, and its first group, are never longer than the subject: what `re.search`
   * guarantees of any match it finds in `input[index:]`, anchored or not.
   */
  ghost predicate Within(search: Matcher) {
    forall pattern, subject :: search(pattern, subject).Found? ==>
      && |search(pattern, subject).m.whole| <= |subject|
      && (search(pattern, subject).m.group1.Some? ==> |search(pattern, subject).m.group1.value| <= |subject|)
  }

  /**
   * Every round moves the cursor by the length of the text its piece holds; when the search keeps
   * its matches within the subject, the cursor stays within the input.
   */
  lemma RoundStaysWithin(input: string, rules: seq<Rule>, search: Matcher, index: nat)
    requires index < |input|
    ensures var r := RoundAt(input, rules, search, index);
      r.Advance? ==> r.next == index + |PieceText(r.piece)| && (Within(search) ==> r.next <= |input|)
  {
    var subject := input[index..];
    ChosenRuleMatched(rules, search, subject);
    match FirstMatch(rules, search, subject)
    case Invalid(_) =>
    case NoRule =>
    case Chosen(rule, m) =>
      if Within(search) {
        assert search(Anchor(rule.pattern), subject).Found?;
      }
  }

  /**
   * With a search that keeps its matches within the subject, the cursor never passes the end of
   * the input: the texts the scan reads from `index` on fit in what is left of the input.
   */
  lemma {:induction false} CursorStaysWithin(input: string, rules: seq<Rule>, search: Matcher, index: nat)
    requires Within(search) && index <= |input|
    ensures index + |Texts(Tokenize(input, rules, search, index).pieces)| <= |input|
    decreases |input| - index
  {
    if index < |input| {
      RoundStaysWithin(input, rules, search, index);
      match RoundAt(input, rules, search, index)
      case Halt(_) =>
      case Advance(piece, next) =>
        CursorStaysWithin(input, rules, search, next);
        TextsCons(piece, Tokenize(input, rules, search, next).pieces);
    }
  }

  /** A search that never reports an empty text. */
  ghost predicate Progressing(search: Matcher) {
    forall pattern, subject :: search(pattern, subject).Found? ==>
      && search(pattern, subject).m.whole != []
      && (search(pattern, subject).m.group1.Some? ==> search(pattern, subject).m.group1.value != [])
  }

  /** When every reported text is non-empty the cursor always moves, so the scan never gets stuck. */
  lemma {:induction false} ProgressNeverStalls(input: string, rules: seq<Rule>, search: Matcher, index: nat)
    requires Progressing(search)
    ensures !Tokenize(input, rules, search, index).end.Stall?
    decreases |input| - index
  {
    if index < |input| {
      var subject := input[index..];
      ChosenRuleMatched(rules, search, subject);
      var choice := FirstMatch(rules, search, subject);
      if choice.Chosen? {
        assert search(Anchor(choice.rule.pattern), subject).Found?;
      }
      match RoundAt(input, rules, search, index)
      case Halt(_) =>
      case Advance(_, next) => ProgressNeverStalls(input, rules, search, next);
    }
  }

  /** The rule chosen at cursor position `i` is named `name`. */
  predicate ChosenAt(input: string, rules: seq<Rule>, search: Matcher, i: nat, name: string) {
    i < |input| && FirstMatch(rules, search, input[i..]).Chosen? && FirstMatch(rules, search, input[i..]).rule.name == name
  }

  /** Every colour the scan looks up belongs to a rule chosen at some position from the cursor on. */
  lemma {:induction false} NamesAreChosenRules(input: string, rules: seq<Rule>, search: Matcher, index: nat, name: string)
    requires name in Names(Tokenize(input, rules, search, index).pieces, Tokenize(input, rules, search, index).end)
    ensures exists i :: index <= i && ChosenAt(input, rules, search, i, name)
    decreases |input| - index
  {
    var t := Tokenize(input, rules, search, index);
    if index < |input| {
      match RoundAt(input, rules, search, index)
      case Halt(end) =>
        assert ChosenAt(input, rules, search, index, name);
      case Advance(piece, next) =>
        var rest := Tokenize(input, rules, search, next);
        NamesCons(piece, rest.pieces, rest.end);
        if piece.Token? && piece.name == name {
          assert ChosenAt(input, rules, search, index, name);
        } else {
          NamesAreChosenRules(input, rules, search, next, name);
        }
    }
  }

  /** The names looked up for a piece followed by more pieces. */
  lemma NamesCons(p: Piece, pieces: seq<Piece>, end: End)
    ensures Names([p] + pieces, end) == (if p.Token? then {p.name} else {}) + Names(pieces, end)
  {
    var all := [p] + pieces;
    var rhs := (if p.Token? then {p.name} else {}) + Names(pieces, end);
    forall n | n in Names(all, end) ensures n in rhs {
      if n !in EndNames(end) {
        var i :| 0 <= i < |all| && all[i].Token? && all[i].name == n;
        if i > 0 {
          assert pieces[i - 1] == all[i];
        }
      }
    }
    forall n | n in rhs ensures n in Names(all, end) {
      if n !in EndNames(end) && !(p.Token? && n == p.name) {
        var i :| 0 <= i < |pieces| && pieces[i].Token? && pieces[i].name == n;
        assert all[i + 1] == pieces[i];
      } else if n !in EndNames(end) {
        assert all[0] == p;
      }
    }
  }

  /** Two colour tables agree on `name`. */
  predicate AgreeOn(c1: map<string, string>, c2: map<string, string>, name: string) {
    (name in c1 <==> name in c2) && (name in c1 ==> c1[name] == c2[name])
  }

  /**
   * A colour is looked up only for a rule that matches: tables that agree on the names of the rules
   * chosen somewhere in the input give the same outcome, so a rule that is never chosen may lack a colour.
   */
  lemma ColorsOfUnchosenRulesIgnored(input: string, c1: map<string, string>, c2: map<string, string>, rules: seq<Rule>, search: Matcher)
    requires forall i, name :: ChosenAt(input, rules, search, i, name) ==> AgreeOn(c1, c2, name)
    ensures Colorize(input, c1, rules, search) == Colorize(input, c2, rules, search)
  {
    var t := Tokenize(input, rules, search, 0);
    forall name | name in Names(t.pieces, t.end) ensures AgreeOn(c1, c2, name) {
      NamesAreChosenRules(input, rules, search, 0, name);
    }
    PaintReadsOnlyUsedColors(t.pieces, t.end, c1, c2);
  }

  // The outcome of a whole call

  /**
   * The call returns HTML exactly when the scan reaches the end of the input with every token
   * coloured; the HTML is the pieces with each token wrapped in its span, and for an anchored search
   * the pieces' texts make up the input.
   */
  lemma ColorizeHtml(input: string, colors: map<string, string>, rules: seq<Rule>, search: Matcher)
    ensures var t := Tokenize(input, rules, search, 0);
      && (Colorize(input, colors, rules, search).Html? <==> t.end.Finished? && AllColored(t.pieces, colors))
      && (Colorize(input, colors, rules, search).Html? ==>
            && Colorize(input, colors, rules, search).text == Render(t.pieces, colors)
            && (Anchored(search) ==> Texts(t.pieces) == input))
  {
    var t := Tokenize(input, rules, search, 0);
    PaintHtml(t.pieces, t.end, colors);
    if Anchored(search) {
      Reconstruction(input, rules, search, 0);
    }
  }

  /**
   * The call never returns exactly when the scan gets stuck on an empty text of a rule that has a
   * colour, every token before it coloured; a search that never reports an empty text rules it out.
   */
  lemma ColorizeDiverges(input: string, colors: map<string, string>, rules: seq<Rule>, search: Matcher)
    ensures var t := Tokenize(input, rules, search, 0);
      Colorize(input, colors, rules, search) == Diverges <==>
        t.end.Stall? && t.end.name in colors && AllColored(t.pieces, colors)
    ensures Progressing(search) ==> Colorize(input, colors, rules, search) != Diverges
  {
    var t := Tokenize(input, rules, search, 0);
    PaintDiverges(t.pieces, t.end, colors);
    if Progressing(search) {
      ProgressNeverStalls(input, rules, search, 0);
    }
  }

  // Examples

  /** Of two rules matching `if`, the first one listed colours it, whatever the second would match. */
  lemma PriorityExample(search: Matcher, keyword: Rule, identifier: Rule)
    requires keyword == Rule("kw", "if") && identifier == Rule("id", "[a-z]+")
    requires search(Anchor(keyword.pattern), "if") == Found(Match("if", None, None))
    ensures Colorize("if", map["kw" := "blue", "id" := "green"], [keyword, identifier], search)
      == Html("<span style=\"color:blue\">if</span>")
  {
    var colors := map["kw" := "blue", "id" := "green"];
    var rules := [keyword, identifier];
    assert "if"[0..] == "if";
    assert FirstMatch(rules, search, "if") == Chosen(keyword, Match("if", None, None));
    StepToken("if", colors, rules, search, 0, keyword, Match("if", None, None));
    assert PaintFrom("if", colors, rules, search, 2) == Html("");
    assert Span("blue", "if") + "" == "<span style=\"color:blue\">if</span>";
  }

  /** A match whose `lastindex` is 1 is not narrowed: the whole match is written, brackets included. */
  lemma SingleGroupWritesWholeMatch(search: Matcher, rule: Rule)
    requires search(Anchor(rule.pattern), "[x]") == Found(Match("[x]", Some(1), Some("x")))
    ensures Colorize("[x]", map[rule.name := "red"], [rule], search) == Html(Span("red", "[x]"))
  {
    var colors := map[rule.name := "red"];
    var m := Match("[x]", Some(1), Some("x"));
    assert "[x]"[0..] == "[x]";
    assert FirstMatch([rule], search, "[x]") == Chosen(rule, m);
    StepToken("[x]", colors, [rule], search, 0, rule, m);
    assert PaintFrom("[x]", colors, [rule], search, 3) == Html("");
    assert Span("red", "[x]") + "" == Span("red", "[x]");
  }

  /**
   * A narrowed match writes its first group and moves the cursor by the group's length only, from
   * the cursor; here the match starts at the cursor and is longer than the group, so the scan
   * resumes inside it: the text before the group is dropped and the group's text is read again.
   */
  lemma NarrowedMatchRescansFromGroupLength(search: Matcher, rule: Rule)
    requires search(Anchor(rule.pattern), "[x]") == Found(Match("[x]", Some(2), Some("x")))
    requires search(Anchor(rule.pattern), "x]") == NoMatch
    requires search(Anchor(rule.pattern), "]") == NoMatch
    ensures Colorize("[x]", map[rule.name := "red"], [rule], search) == Html(Span("red", "x") + "x]")
  {
    var colors := map[rule.name := "red"];
    var m := Match("[x]", Some(2), Some("x"));
    var input := "[x]";
    assert input[0..] == "[x]" && input[1..] == "x]" && input[2..] == "]";
    assert FirstMatch([rule], search, "[x]") == Chosen(rule, m);
    assert FirstMatch([rule], search, "x]") == NoRule;
    assert FirstMatch([rule], search, "]") == NoRule;
    StepToken(input, colors, [rule], search, 0, rule, m);
    StepPlain(input, colors, [rule], search, 1);
    StepPlain(input, colors, [rule], search, 2);
    assert PaintFrom(input, colors, [rule], search, 3) == Html("");
    assert Span("red", "x") + ("x" + ("]" + "")) == Span("red", "x") + "x]";
  }
}
