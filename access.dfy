/**
 * The black/white list: configured (kind, user, command) rules, checked when the bot
 * starts, with an allow-everything rule put in front; for each command the last rule
 * that applies to the sender and the command decides.
 */
module Access {
  import opened Common
  import opened Text

  /** A bw_list tuple: "b" (deny) or "w" (allow), a user substring or "*", a command or "*". */
  datatype Rule = Rule(kind: string, user: string, command: string)

  /** The error validate_args raises for the first bad item (items counted from 1). */
  datatype RuleError = BadLength(item: nat, length: nat) | BadKind(item: nat)

  /** ('w','*','*'), inserted at index 0 of every list. */
  const Default := Rule("w", "*", "*")

  /**
   * validate_args on bw_list, each item given as the members of its tuple: an item must
   * have three members, and its first member must be "b" or "w"; the first item (in
   * list order) that fails raises.
   */
  function Validate(items: seq<seq<string>>): (r: Result<seq<Rule>, RuleError>)
    ensures r.Ok? ==> |r.value| == |items|
  {
    ValidateFrom(items, 0)
  }

  function ValidateFrom(items: seq<seq<string>>, k: nat): (r: Result<seq<Rule>, RuleError>)
    requires k <= |items|
    ensures r.Ok? ==> |r.value| == |items| - k
    decreases |items| - k
  {
    if k == |items| then Ok([])
    else
      var l := items[k];
      if |l| != 3 then Err(BadLength(k + 1, |l|))
      else if l[0] != "b" && l[0] != "w" then Err(BadKind(k + 1))
      else
        match ValidateFrom(items, k + 1)
        case Err(e) => Err(e)
        case Ok(rest) => Ok([Rule(l[0], l[1], l[2])] + rest)
  }

  /** An item validate_args accepts. */
  predicate WellFormedItem(l: seq<string>) {
    |l| == 3 && (l[0] == "b" || l[0] == "w")
  }

  /**
   * Validation accepts exactly the lists whose items are all well formed, keeping them in
   * order; otherwise it names the first bad item, counted from 1.
   */
  lemma {:induction false} ValidateFromMeaning(items: seq<seq<string>>, k: nat)
    requires k <= |items|
    ensures ValidateFrom(items, k).Ok? <==> forall i :: k <= i < |items| ==> WellFormedItem(items[i])
    ensures ValidateFrom(items, k).Ok? ==> forall i :: k <= i < |items| ==>
      ValidateFrom(items, k).value[i - k] == Rule(items[i][0], items[i][1], items[i][2])
    ensures ValidateFrom(items, k).Err? ==>
      var n := ValidateFrom(items, k).error.item;
      && k < n <= |items| && !WellFormedItem(items[n - 1])
      && forall i :: k <= i < n - 1 ==> WellFormedItem(items[i])
    decreases |items| - k
  {
    if k < |items| {
      ValidateFromMeaning(items, k + 1);
    }
  }

  lemma ValidateMeaning(items: seq<seq<string>>)
    ensures Validate(items).Ok? <==> forall i :: 0 <= i < |items| ==> WellFormedItem(items[i])
    ensures Validate(items).Ok? ==> forall i :: 0 <= i < |items| ==>
      Validate(items).value[i] == Rule(items[i][0], items[i][1], items[i][2])
    ensures Validate(items).Err? ==>
      var n := Validate(items).error.item;
      && 0 < n <= |items| && !WellFormedItem(items[n - 1])
      && forall i :: 0 <= i < n - 1 ==> WellFormedItem(items[i])
  {
    ValidateFromMeaning(items, 0);
  }

  /** The list the bot consults: the default rule, then the configured ones. */
  function Configure(rules: seq<Rule>): (r: seq<Rule>)
    ensures |r| == |rules| + 1 && r[0] == Default && r[1..] == rules
  {
    [Default] + rules
  }

  /**
   * Whether a rule applies: its user part is "*" or occurs in the sender's JID, and its
   * command part is "*" or is the command's name.
   */
  predicate Applies(rule: Rule, usr: string, cmd: string) {
    (rule.user == "*" || Contains(usr, rule.user)) && (rule.command == "*" || rule.command == cmd)
  }

  /** The last applying rule of a list, or None when none applies. */
  function LastApplying(rules: seq<Rule>, usr: string, cmd: string): Option<Rule> {
    if |rules| == 0 then None
    else if Applies(Last(rules), usr, cmd) then Some(Last(rules))
    else LastApplying(rules[..|rules| - 1], usr, cmd)
  }

  /**
   * LastApplying finds a rule of the list that applies and after which no rule applies,
   * and finds none exactly when no rule applies.
   */
  lemma {:induction false} LastApplyingMeaning(rules: seq<Rule>, usr: string, cmd: string)
    ensures LastApplying(rules, usr, cmd).None? <==>
      forall i :: 0 <= i < |rules| ==> !Applies(rules[i], usr, cmd)
    ensures LastApplying(rules, usr, cmd).Some? ==>
      exists i :: 0 <= i < |rules| && rules[i] == LastApplying(rules, usr, cmd).value
        && Applies(rules[i], usr, cmd) && forall j :: i < j < |rules| ==> !Applies(rules[j], usr, cmd)
  {
    if |rules| > 0 {
      var init := rules[..|rules| - 1];
      LastApplyingMeaning(init, usr, cmd);
      assert forall i :: 0 <= i < |init| ==> init[i] == rules[i];
      if !Applies(Last(rules), usr, cmd) && LastApplying(init, usr, cmd).Some? {
        var i :| 0 <= i < |init| && init[i] == LastApplying(init, usr, cmd).value &&
          Applies(init[i], usr, cmd) && forall j :: i < j < |init| ==> !Applies(init[j], usr, cmd);
        assert rules[i] == init[i];
      }
    }
  }

  /**
   * The rule loop of callback_message: every applying rule is assigned in turn, so the
   * last one is left. None stands for the unbound `applied` when no rule applies.
   */
  method Resolve(rules: seq<Rule>, usr: string, cmd: string) returns (applied: Option<Rule>)
    ensures applied == LastApplying(rules, usr, cmd)
  {
    applied := None;
    var i := 0;
    while i < |rules|
      invariant 0 <= i <= |rules|
      invariant applied == LastApplying(rules[..i], usr, cmd)
    {
      assert rules[..i + 1][..i] == rules[..i];
      if Applies(rules[i], usr, cmd) {
        applied := Some(rules[i]);
      }
      i := i + 1;
    }
    assert rules[..|rules|] == rules;
  }

  /** The verdict: the command runs when the deciding rule is a "w" rule. */
  function Allowed(rules: seq<Rule>, usr: string, cmd: string): bool
    requires LastApplying(rules, usr, cmd).Some?
  {
    LastApplying(rules, usr, cmd).value.kind == "w"
  }

  /**
   * With the default rule in front a rule always applies, and a sender may run a
   * command exactly when no configured rule applies or the last that does is "w".
   */
  lemma ConfiguredAlwaysDecides(rules: seq<Rule>, usr: string, cmd: string)
    ensures LastApplying(Configure(rules), usr, cmd).Some?
    ensures Allowed(Configure(rules), usr, cmd) <==>
      LastApplying(rules, usr, cmd).None? || LastApplying(rules, usr, cmd).value.kind == "w"
  {
    LastApplyingPrefix([Default], rules, usr, cmd);
    assert Applies(Default, usr, cmd);
  }

  /** The rules after a prefix decide whenever one of them applies. */
  lemma {:induction false} LastApplyingPrefix(pre: seq<Rule>, rules: seq<Rule>, usr: string, cmd: string)
    ensures LastApplying(pre + rules, usr, cmd) ==
      if LastApplying(rules, usr, cmd).Some? then LastApplying(rules, usr, cmd) else LastApplying(pre, usr, cmd)
  {
    if |rules| > 0 {
      var init := rules[..|rules| - 1];
      assert (pre + rules)[..|pre + rules| - 1] == pre + init;
      LastApplyingPrefix(pre, init, usr, cmd);
    } else {
      assert pre + rules == pre;
    }
  }

  /** A "b" rule for a user, listed last, denies that user every command. */
  lemma BlacklistLast(rules: seq<Rule>, user: string, usr: string, cmd: string)
    requires Contains(usr, user)
    ensures !Allowed(Configure(rules + [Rule("b", user, "*")]), usr, cmd)
  {
    var all := Configure(rules + [Rule("b", user, "*")]);
    assert Last(all) == Rule("b", user, "*");
  }
}
