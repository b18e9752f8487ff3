/**
 * The rule-list parser `get_rules` (colorizer.py:57-63): every line is stripped, loses its newlines
 * and is cut at its FIRST `:`. The text before the colon is the rule's token name, kept as it is;
 * the text after it, stripped, is the rule's pattern. Rules keep the order of their lines, which
 * is their matching priority.
 */
module RuleStore {
  import opened Wrappers
  import opened PyStr
  import opened SeqFacts

  /** One rule: the token name it colours and the regular expression that recognises it. */
  datatype Rule = Rule(name: string, pattern: string)

  /** The `ValueError` raised by `lhs, rhs = line.split(":", 1)` for a line without a colon. */
  datatype RuleLineError = UnpackError(line: string)

  /** `line.strip().replace("\n", "")`. */
  function CleanRuleLine(line: string): string {
    Replace(Strip(line), '\n', "")
  }

  /** The rule one line gives, or the unpacking error it raises. */
  function RuleEntry(line: string): Result<Rule, RuleLineError> {
    var parts := SplitOnce(CleanRuleLine(line), ':');
    if |parts| == 2 then Success(Rule(parts[0], Strip(parts[1]))) else Failure(UnpackError(line))
  }

  /**
   * A line gives a rule exactly when its cleaned text holds a colon. The name is the text before the
   * first colon, unstripped; the pattern is the rest of the line, stripped, further colons included.
   */
  lemma RuleEntrySplitsAtFirstColon(line: string)
    ensures RuleEntry(line).Success? <==> ':' in CleanRuleLine(line)
    ensures RuleEntry(line).Success? ==>
      var text, rule := CleanRuleLine(line), RuleEntry(line).value;
      && ':' !in rule.name
      && |rule.name| < |text| && text[..|rule.name|] == rule.name && text[|rule.name|] == ':'
      && rule.pattern == Strip(text[|rule.name| + 1..])
    ensures RuleEntry(line).Failure? ==> RuleEntry(line).error == UnpackError(line)
  {
    var text := CleanRuleLine(line);
    var parts := SplitOnce(text, ':');
    if |parts| == 2 {
      assert Join(parts[1..], ':') == parts[1];
      assert text == parts[0] + [':'] + parts[1];
      assert text[|parts[0]| + 1..] == parts[1];
    }
  }

  /** The per-line results of `get_rules`'s loop, one per input line. */
  function RuleEntries(lines: seq<string>): seq<Result<Rule, RuleLineError>> {
    seq(|lines|, j requires 0 <= j < |lines| => RuleEntry(lines[j]))
  }

  /** The rule list of `lines`, in line order, or the first malformed line's error. */
  function ParseRules(lines: seq<string>): Result<seq<Rule>, RuleLineError> {
    Collect(RuleEntries(lines))
  }

  /** `get_rules`: appends one rule per line and stops at the first line without a colon. */
  method GetRules(inputLines: seq<string>) returns (r: Result<seq<Rule>, RuleLineError>)
    ensures r == ParseRules(inputLines)
  {
    ghost var entries := RuleEntries(inputLines);
    var rules: seq<Rule> := [];
    TakeEnds(entries);
    for i := 0 to |inputLines|
      invariant Collect(entries[..i]) == Success(rules)
    {
      var line := CleanRuleLine(inputLines[i]);
      var parts := SplitOnce(line, ':');
      if |parts| != 2 {
        CollectPerPosition(entries[..i], rules);
        forall j | 0 <= j < i ensures entries[j].Success? {
          assert entries[j] == entries[..i][j];
        }
        CollectFirstFailure(entries, i);
        return Failure(UnpackError(inputLines[i]));
      }
      var lhs, rhs := parts[0], parts[1];
      var rule := Rule(lhs, Strip(rhs));
      assert entries[i] == Success(rule);
      TakeOneMore(entries, i);
      CollectAppend(entries[..i], rules, rule);
      rules := rules + [rule];
    }
    return Success(rules);
  }

  /** Parsing succeeds with `rules` exactly when each line, in order, gives the rule at its position. */
  lemma OneRulePerLine(lines: seq<string>, rules: seq<Rule>)
    ensures ParseRules(lines) == Success(rules) <==>
      |rules| == |lines| && forall j :: 0 <= j < |lines| ==> RuleEntry(lines[j]) == Success(rules[j])
  {
    CollectPerPosition(RuleEntries(lines), rules);
  }

  /** Parsing fails exactly when some line has no colon, and the error is the first such line's. */
  lemma FirstMalformedRuleFails(lines: seq<string>, i: nat)
    requires i < |lines| && ':' !in CleanRuleLine(lines[i])
    requires forall j :: 0 <= j < i ==> ':' in CleanRuleLine(lines[j])
    ensures ParseRules(lines) == Failure(UnpackError(lines[i]))
  {
    forall j | 0 <= j <= i ensures RuleEntries(lines)[j] == RuleEntry(lines[j]) {
      RuleEntrySplitsAtFirstColon(lines[j]);
    }
    CollectFirstFailure(RuleEntries(lines), i);
  }
}
