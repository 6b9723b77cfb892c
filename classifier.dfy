/** The line classifier: `categorize_line` maps the message part of a log
    line to one of 23 lower-case event labels. The program writes it as an
    if/elif cascade; here the cascade is an ordered table of rules, each a
    list of cues (a substring test or a prefix test) and a label, evaluated
    first-match-wins, with "unknown" when no rule matches. */
module Classifier {
  import opened Text

  /** One test applied to a message: `text in message` or `message.startswith(text)`. */
  datatype Cue = Has(text: string) | Prefix(text: string)

  /** One branch of the cascade: it fires when any of its cues holds. */
  datatype Rule = Rule(cues: seq<Cue>, event: string)

  predicate CueHolds(c: Cue, message: string)
  {
    match c
    case Has(t) => Contains(message, t)
    case Prefix(t) => StartsWith(message, t)
  }

  predicate RuleFires(rule: Rule, message: string)
  {
    exists k :: 0 <= k < |rule.cues| && CueHolds(rule.cues[k], message)
  }

  /** The label of the final `else` branch. */
  const UNKNOWN := "unknown"

  /** The branches of `categorize_line`, in the program's order. */
  const Rules: seq<Rule> := [
    Rule([Has("Start Serving")], "started"),
    Rule([Has("Serving Complete")], "completed"),
    Rule([Prefix("['order")], "ordered"),
    Rule([Has("Serving: Dispensing Warning")], "dispense warning"),
    Rule([Has("Serving: Out Of Stock")], "out of stock warning"),
    Rule([Has("Serving Stopped")], "stopped"),
    Rule([Has("Serving: Out of Stock")], "out of stock"),
    Rule([Has("Fill Tube Start")], "started fill"),
    Rule([Has("Fill Tube Complete")], "finished fill"),
    Rule([Has("TypeError"), Has("KeyError")], "python error"),
    Rule([Has("Sync recipe failed")], "sync error"),
    Rule([Has("Cleaning"), Has("Circular"), Has("Draining"), Has("Empty Tubes")], "cleaning"),
    Rule([Has("Wait")], "wait"),
    Rule([Has("Fill Tube: No Flow Detected")], "no flow warning"),
    Rule([Has("Cloudbar login error")], "login error"),
    Rule([Has("Lost connection")], "lost connection"),
    Rule([Has("update package"), Has("useless files"), Has("Update")], "updating"),
    Rule([Has("Start Calibration"), Has("Calibration Complete")], "calibration"),
    Rule([Has("ordering_rety")], "retry order"),
    Rule([Has("customer_service_request")], "requested customer service"),
    Rule([Has("fill_tube_start")], "selected fill tube"),
    Rule([Has("weekly_cleaning_start")], "selected cleaning")
  ]

  /** Every label `categorize_line` can return. */
  const Labels: set<string> := {
    "started", "completed", "ordered", "dispense warning", "out of stock warning",
    "stopped", "out of stock", "started fill", "finished fill", "python error",
    "sync error", "cleaning", "wait", "no flow warning", "login error",
    "lost connection", "updating", "calibration", "retry order",
    "requested customer service", "selected fill tube", "selected cleaning", UNKNOWN
  }

  /** The position of the first rule at or after `from` that fires on
      `message`, or `|rules|` when none does. */
  function FirstFiring(rules: seq<Rule>, message: string, from: nat): (k: nat)
    requires from <= |rules|
    decreases |rules| - from
    ensures from <= k <= |rules|
    ensures k < |rules| ==> RuleFires(rules[k], message)
    ensures forall j :: from <= j < k ==> !RuleFires(rules[j], message)
  {
    if from == |rules| then from
    else if RuleFires(rules[from], message) then from
    else FirstFiring(rules, message, from + 1)
  }

  /** `categorize_line(message)`: total, and the label of the earliest rule
      that fires; "unknown" exactly when no rule fires. */
  function Categorize(message: string): (kind: string)
    ensures kind in Labels
    ensures kind == UNKNOWN <==> forall j :: 0 <= j < |Rules| ==> !RuleFires(Rules[j], message)
    ensures kind != UNKNOWN ==>
              exists k :: 0 <= k < |Rules| && RuleFires(Rules[k], message) && kind == Rules[k].event
                          && forall j :: 0 <= j < k ==> !RuleFires(Rules[j], message)
  {
    var k := FirstFiring(Rules, message, 0);
    RuleEvents();
    if k < |Rules| then Rules[k].event else UNKNOWN
  }

  /** Every rule's event is a label other than "unknown". */
  lemma RuleEvents()
    ensures forall j :: 0 <= j < |Rules| ==> Rules[j].event in Labels && Rules[j].event != UNKNOWN
  {
  }

  /** Precedence: whichever rule fires first decides the label, whatever
      later rules would also fire. */
  lemma EarliestRuleWins(message: string, k: nat)
    requires k < |Rules| && RuleFires(Rules[k], message)
    requires forall j :: 0 <= j < k ==> !RuleFires(Rules[j], message)
    ensures Categorize(message) == Rules[k].event
  {
  }

  /** The labels of the rules up to "Fill Tube Start". */
  lemma EarlyEvents()
    ensures forall j :: 0 <= j <= 7 ==>
              Rules[j].event in {"started", "completed", "ordered", "dispense warning",
                                 "out of stock warning", "stopped", "out of stock", "started fill"}
  {
  }

  /** A message holding "Fill Tube Start" is never classified "wait" (nor
      "unknown"): its rule stands before the "Wait" rule, so the result is
      "started fill" or the label of an even earlier rule. */
  lemma FillTubeStartOutranksWait(message: string)
    requires Contains(message, "Fill Tube Start")
    ensures Categorize(message) in {"started", "completed", "ordered", "dispense warning",
                                    "out of stock warning", "stopped", "out of stock", "started fill"}
  {
    assert Rules[7].cues[0] == Has("Fill Tube Start");
    assert RuleFires(Rules[7], message);
    EarlyEvents();
  }

  /** A cue that needs a character the message lacks cannot hold. */
  lemma CueNeedsCharacter(message: string, c: Cue, ch: char)
    requires ch in c.text && ch !in message
    ensures !CueHolds(c, message)
  {
  }

  /** Each of the first seven rules has a single cue holding a 'v' or a '['. */
  lemma EarlyCues()
    ensures forall j :: 0 <= j < 7 ==> |Rules[j].cues| == 1 && ('v' in Rules[j].cues[0].text || '[' in Rules[j].cues[0].text)
  {
  }

  /** A message holding "Fill Tube Start" but neither a 'v' nor a '['
      fires none of the earlier rules: it is classified "started fill",
      whatever later cues ("Wait" among them) it also holds. */
  lemma FillTubeStartWins(m: string)
    requires Contains(m, "Fill Tube Start") && 'v' !in m && '[' !in m
    ensures Categorize(m) == "started fill"
  {
    assert Rules[7].cues[0] == Has("Fill Tube Start");
    EarlyCues();
    forall j | 0 <= j < 7
      ensures !RuleFires(Rules[j], m)
    {
      var c := Rules[j].cues[0];
      if 'v' in c.text {
        CueNeedsCharacter(m, c, 'v');
      } else {
        CueNeedsCharacter(m, c, '[');
      }
    }
    EarliestRuleWins(m, 7);
  }

  /** A message with both a "Fill Tube Start" and a "Wait" cue is
      labelled "started fill". */
  lemma FillTubeStartAndWaitExample()
    ensures Categorize("---Fill Tube Start Wait") == "started fill"
  {
    var m := "---Fill Tube Start Wait";
    assert OccursAt(m, "Fill Tube Start", 3);
    assert 'v' !in m && '[' !in m;
    FillTubeStartWins(m);
  }

  /** A cue longer than the message cannot hold. */
  lemma CueTooLong(message: string, c: Cue)
    requires |message| < |c.text|
    ensures !CueHolds(c, message)
  {
  }

  /** Every cue except "Wait" is longer than four characters. */
  lemma CueLengths()
    ensures forall j, k :: 0 <= j < |Rules| && 0 <= k < |Rules[j].cues| ==>
                             |Rules[j].cues[k].text| > 4 || Rules[j].cues[k] == Has("Wait")
  {
  }

  /** A short message without 'W' satisfies no cue of the table. */
  lemma ShortMessageNoCue(m: string, c: Cue)
    requires |m| <= 4 && 'W' !in m
    requires |c.text| > 4 || c == Has("Wait")
    ensures !CueHolds(c, m)
  {
    if |c.text| > 4 {
      CueTooLong(m, c);
    } else {
      AbsentCharacter(m, "Wait", 'W');
    }
  }

  /** A message of at most four characters with no 'W' fires no rule:
      it is classified "unknown". */
  lemma ShortMessageIsUnknown(m: string)
    requires |m| <= 4 && 'W' !in m
    ensures Categorize(m) == UNKNOWN
  {
    CueLengths();
    forall j, k | 0 <= j < |Rules| && 0 <= k < |Rules[j].cues|
      ensures !CueHolds(Rules[j].cues[k], m)
    {
      ShortMessageNoCue(m, Rules[j].cues[k]);
    }
  }

  /** A short message with no cue, "---x", is labelled "unknown". */
  lemma UnknownExample()
    ensures Categorize("---x") == UNKNOWN
  {
    ShortMessageIsUnknown("---x");
  }

  /** A message holding "Serving Complete" but not "Start Serving" is
      classified "completed" (lower case). */
  lemma ServingCompleteWins(m: string)
    requires Contains(m, "Serving Complete") && !Contains(m, "Start Serving")
    ensures Categorize(m) == "completed"
  {
    assert Rules[1].cues[0] == Has("Serving Complete");
    assert Rules[0].cues == [Has("Start Serving")];
    EarliestRuleWins(m, 1);
  }

  /** "---Serving Complete" is labelled "completed". */
  lemma CompletedExample()
    ensures Categorize("---Serving Complete") == "completed"
  {
    var m := "---Serving Complete";
    assert OccursAt(m, "Serving Complete", 3);
    AbsentCharacter(m, "Start Serving", 'a');
    ServingCompleteWins(m);
  }
}
