/** The rule chains of a zod string schema. A field's schema is a list of
    rules in declaration order, each a check paired with the message that
    is reported when the check fails. zod runs every rule and collects one
    issue per failed rule; the form resolver keeps the first issue of each
    field, so the message a field shows is that of its first failing rule. */
module Rules {
  import Text
  import Numbers

  /** The checks the registration schema uses. */
  datatype Check =
    | MinLength(min: nat)             // `.min(n)`; `.nonempty()` is `.min(1)`
    | MaxLength(max: nat)             // `.max(n)`
    | Matches(charClass: Text.CharClass)  // `.refine(val => /[...]/.test(val))`
    | IsNumber                        // `.refine(val => !isNaN(parseFloat(val)))`
    | NumberAtLeast(bound: real)      // `.refine(val => parseFloat(val) >= bound)`
    | EmailFormat(isEmail: EmailTest) // `.email()`, with zod's format test supplied

  datatype Rule = Rule(check: Check, message: string)

  /** The outcome for one field: accepted, or the message shown under it. */
  datatype FieldResult = Ok | Err(message: string)

  /** zod's e-mail format test. Its regular expression is not part of this
      model, so the schema takes the test as a parameter. */
  type EmailTest = string -> bool

  /** Whether `v` passes check `c`. Lengths are counted the way JavaScript
      counts them, in UTF-16 code units. */
  predicate Holds(c: Check, v: string) {
    match c
    case MinLength(min) => Text.Utf16Length(v) >= min
    case MaxLength(max) => Text.Utf16Length(v) <= max
    case Matches(charClass) => Text.Contains(v, charClass)
    case IsNumber => !Numbers.ParseFloat(v).NaN?
    case NumberAtLeast(bound) => Numbers.AtLeast(Numbers.ParseFloat(v), bound)
    case EmailFormat(isEmail) => isEmail(v)
  }

  /** What passing a check says about the value: a length bound holds or
      fails on the number of characters only up to a factor of two, a
      character-class match needs a non-empty value, and a value at least
      the bound is a number. */
  lemma CheckBounds(c: Check, v: string)
    ensures c.MinLength? ==> (|v| >= c.min ==> Holds(c, v)) && (Holds(c, v) ==> 2 * |v| >= c.min)
    ensures c.MaxLength? ==> (Holds(c, v) ==> |v| <= c.max) && (2 * |v| <= c.max ==> Holds(c, v))
    ensures c.Matches? && Holds(c, v) ==> v != []
    ensures c.NumberAtLeast? && Holds(c, v) ==> Holds(IsNumber, v)
  {
  }

  predicate AllHold(rules: seq<Rule>, v: string) {
    forall i :: 0 <= i < |rules| ==> Holds(rules[i].check, v)
  }

  /** Rule `k` is the first rule of the chain that `v` fails. */
  predicate FailsFirstAt(rules: seq<Rule>, k: nat, v: string) {
    k < |rules| && AllHold(rules[..k], v) && !Holds(rules[k].check, v)
  }

  /** Running the chain short-circuit: the value is accepted when every rule
      holds, and otherwise the message of a rule that fails while all the
      rules before it hold is reported. */
  function FirstFailure(rules: seq<Rule>, v: string): (r: FieldResult)
    ensures r.Ok? <==> AllHold(rules, v)
    ensures r.Err? ==>
      exists k: nat :: FailsFirstAt(rules, k, v) && r.message == rules[k].message
  {
    if rules == [] then Ok
    else if !Holds(rules[0].check, v) then
      assert FailsFirstAt(rules, 0, v);
      Err(rules[0].message)
    else
      var r := FirstFailure(rules[1..], v);
      if r.Err? then
        var k: nat :| FailsFirstAt(rules[1..], k, v) && r.message == rules[1..][k].message;
        assert rules[1..][..k] == rules[1..k + 1];
        assert FailsFirstAt(rules, k + 1, v);
        r
      else
        r
  }

  /** A chain has at most one first failing rule. */
  lemma FailsFirstAtUnique(rules: seq<Rule>, k1: nat, k2: nat, v: string)
    requires FailsFirstAt(rules, k1, v) && FailsFirstAt(rules, k2, v)
    ensures k1 == k2
  {
  }

  /** The reported message is the first failing rule's message, whatever
      the rules after it say. */
  lemma FirstFailureAt(rules: seq<Rule>, k: nat, v: string)
    requires FailsFirstAt(rules, k, v)
    ensures FirstFailure(rules, v) == Err(rules[k].message)
  {
    var r := FirstFailure(rules, v);
    assert !AllHold(rules, v);
    var k': nat :| FailsFirstAt(rules, k', v) && r.message == rules[k'].message;
    FailsFirstAtUnique(rules, k, k', v);
  }

  /** The issues zod collects for a value: one message per failed rule, in
      declaration order. */
  function Issues(rules: seq<Rule>, v: string): (issues: seq<string>)
    ensures |issues| <= |rules|
    ensures issues == [] <==> AllHold(rules, v)
  {
    if rules == [] then []
    else
      var rest := Issues(rules[1..], v);
      assert AllHold(rules, v) <==>
        Holds(rules[0].check, v) && AllHold(rules[1..], v);
      if Holds(rules[0].check, v) then rest else [rules[0].message] + rest
  }

  /** The message the form shows, the first issue of the field, is the
      short-circuit result of the chain. */
  lemma {:induction false} FirstFailureIsFirstIssue(rules: seq<Rule>, v: string)
    ensures var issues := Issues(rules, v);
      FirstFailure(rules, v) == if issues == [] then Ok else Err(issues[0])
  {
    if rules != [] && Holds(rules[0].check, v) {
      FirstFailureIsFirstIssue(rules[1..], v);
    }
  }

  /** A chain that starts with `.trim()`: every rule sees the value with its
      surrounding whitespace removed. */
  function CheckTrimmed(rules: seq<Rule>, raw: string): (r: FieldResult)
    ensures r.Ok? <==> AllHold(rules, Text.Trim(raw))
  {
    FirstFailure(rules, Text.Trim(raw))
  }

  /** Whitespace around a value never changes a trimmed chain's result. */
  lemma CheckTrimmedIgnoresPadding(rules: seq<Rule>, p: string, v: string, q: string)
    requires Text.AllWhitespace(p) && Text.AllWhitespace(q)
    ensures CheckTrimmed(rules, p + v + q) == CheckTrimmed(rules, v)
  {
    Text.TrimIgnoresPadding(p, v, q);
  }

  /** A value and its trimmed form get the same result. */
  lemma CheckTrimmedOfTrimmed(rules: seq<Rule>, v: string)
    ensures CheckTrimmed(rules, Text.Trim(v)) == CheckTrimmed(rules, v)
  {
    Text.TrimIdempotent(v);
  }

  predicate DistinctMessages(rules: seq<Rule>) {
    forall i, j :: 0 <= i < j < |rules| ==> rules[i].message != rules[j].message
  }

  /** Two chains with the same checks in the same order accept the same
      values and fail at the same position, whatever their messages. */
  lemma {:induction false} MirroredChains(r1: seq<Rule>, r2: seq<Rule>, v: string)
    requires |r1| == |r2|
    requires forall i :: 0 <= i < |r1| ==> r1[i].check == r2[i].check
    requires DistinctMessages(r1) && DistinctMessages(r2)
    ensures FirstFailure(r1, v).Ok? <==> FirstFailure(r2, v).Ok?
    ensures forall k :: 0 <= k < |r1| ==>
      (FirstFailure(r1, v) == Err(r1[k].message) <==> FirstFailure(r2, v) == Err(r2[k].message))
  {
    if r1 != [] {
      if Holds(r1[0].check, v) {
        MirroredChains(r1[1..], r2[1..], v);
        NotFirstMessage(r1, v);
        NotFirstMessage(r2, v);
        forall k | 1 <= k < |r1|
          ensures FirstFailure(r1, v) == Err(r1[k].message) <==> FirstFailure(r2, v) == Err(r2[k].message)
        {
          assert r1[1..][k - 1] == r1[k] && r2[1..][k - 1] == r2[k];
        }
      }
    }
  }

  /** When the first rule holds, the chain never reports that rule's message
      (provided no later rule shares it). */
  lemma NotFirstMessage(rules: seq<Rule>, v: string)
    requires rules != [] && Holds(rules[0].check, v) && DistinctMessages(rules)
    ensures FirstFailure(rules, v) == FirstFailure(rules[1..], v)
    ensures FirstFailure(rules, v) != Err(rules[0].message)
  {
    var r := FirstFailure(rules, v);
    if r.Err? {
      var k: nat :| FailsFirstAt(rules, k, v) && r.message == rules[k].message;
      assert k != 0;
    }
  }
}
