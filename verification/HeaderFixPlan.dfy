/** Planning and applying the security-header fix (packages/cli/src/fix.ts).  The planner shows
    the user what will change; the executor looks at the project again and does it.  The two
    walk the same candidates with slightly different guards. */
module HeaderFixPlan {
  import opened Options
  import opened Sorting
  import opened Utf8

  type Text = seq<Scalar>

  const LIMIT: int := 1024 * 1024

  /** What the module fixes as constants: the two marker names, the inserted block, where the
      first match of the declaration pattern ends, and the character encoding of files. */
  datatype Rules = Rules(csp: Text, frame: Text, block: Text, decl: Text -> Option<nat>,
                         decode: seq<Byte> -> Text, encode: Text -> seq<Byte>)

  predicate Contains(text: Text, part: Text) {
    exists i: nat :: i <= |text| && OccursAt(text, part, i)
  }

  predicate OccursAt(text: Text, part: Text, i: nat) {
    i + |part| <= |text| && text[i..i + |part|] == part
  }

  /** What holds of those constants: the block declares a policy, a match lies in its text, and
      files are UTF-8. */
  ghost predicate Lawful(rules: Rules) {
    && Contains(rules.block, rules.csp)
    && (forall t: Text :: rules.decl(t).Some? ==> rules.decl(t).value <= |t|)
    && rules.decode == Decode && rules.encode == Encode
  }

  /** A candidate file: what `lstat` and `readFile` say about it. */
  datatype Node = Absent | Regular(bytes: seq<Byte>, readable: bool) | Irregular

  type Configs = seq<Node>

  // ---------------------------------------------------------------------
  // One candidate
  // ---------------------------------------------------------------------

  predicate TooLarge(rules: Rules, node: Node) {
    node.Regular? && (|node.bytes| > LIMIT || (node.readable && |rules.encode(rules.decode(node.bytes))| > LIMIT))
  }

  predicate Legible(rules: Rules, node: Node) {
    node.Regular? && node.readable && !TooLarge(rules, node)
  }

  datatype Decision = Pass | Declared | Patch(updated: Text)

  /** The first match stays and the block follows it. */
  function Patched(rules: Rules, text: Text, at: nat): Text {
    if at <= |text| then text[..at] + rules.block + text[at..] else text
  }

  function Decide(rules: Rules, node: Node): Decision {
    if !Legible(rules, node) then Pass
    else
      var text := rules.decode(node.bytes);
      if Contains(text, rules.csp) || Contains(text, rules.frame) then Declared
      else if rules.decl(text).Some? then Patch(Patched(rules, text, rules.decl(text).value))
      else Pass
  }

  // ---------------------------------------------------------------------
  // Planner and executor
  // ---------------------------------------------------------------------

  datatype Plan = Nothing | Skip(file: nat) | PlanPatch(file: nat, updated: Text)

  datatype Fixed = Threw | NoTarget | Skipped(file: nat) | Wrote(file: nat)

  /** `file` is the first candidate that decides anything. */
  ghost predicate FirstDecision(rules: Rules, configs: Configs, file: nat) {
    file < |configs| && Decide(rules, configs[file]) != Pass && AllPass(rules, configs, file)
  }

  ghost predicate AllPass(rules: Rules, configs: Configs, n: nat) {
    forall i :: 0 <= i < n && i < |configs| ==> Decide(rules, configs[i]) == Pass
  }

  ghost predicate NoneTooLarge(rules: Rules, configs: Configs, n: nat) {
    forall i :: 0 <= i < n && i < |configs| ==> !TooLarge(rules, configs[i])
  }

  /** The plan is the decision of the first candidate that makes one. */
  ghost predicate IsPlan(rules: Rules, configs: Configs, plan: Plan) {
    match plan
    case Nothing => AllPass(rules, configs, |configs|)
    case Skip(i) => FirstDecision(rules, configs, i) && Decide(rules, configs[i]).Declared?
    case PlanPatch(i, updated) => FirstDecision(rules, configs, i) && Decide(rules, configs[i]) == Patch(updated)
  }

  // ---------------------------------------------------------------------
  // The same, told from the files
  // ---------------------------------------------------------------------

  /** A regular file that can be read and is at most 1 MiB, on disk and as text. */
  predicate Usable(rules: Rules, node: Node) {
    node.Regular? && node.readable && |node.bytes| <= 1_048_576 && |rules.encode(rules.decode(node.bytes))| <= 1_048_576
  }

  predicate Oversized(rules: Rules, node: Node) {
    && node.Regular?
    && (|node.bytes| > 1_048_576 || (node.readable && |rules.encode(rules.decode(node.bytes))| > 1_048_576))
  }

  ghost predicate Mentions(text: Text, part: Text) {
    exists before, after :: text == Around(before, part, after)
  }

  function Around(before: Text, part: Text, after: Text): Text {
    before + part + after
  }

  lemma ContainsIff(text: Text, part: Text)
    ensures Contains(text, part) <==> Mentions(text, part)
  {
    if Contains(text, part) {
      var i: nat :| i <= |text| && OccursAt(text, part, i);
      assert text == Around(text[..i], part, text[i + |part|..]);
    }
    if before, after :| text == Around(before, part, after) {
      assert text[|before|..|before| + |part|] == part;
      assert OccursAt(text, part, |before|);
    }
  }

  /** The file names one of the two headers. */
  ghost predicate Declares(rules: Rules, node: Node) {
    Usable(rules, node) && (Mentions(rules.decode(node.bytes), rules.csp) || Mentions(rules.decode(node.bytes), rules.frame))
  }

  /** The file names neither and has a declaration to extend. */
  ghost predicate Extends(rules: Rules, node: Node) {
    && Usable(rules, node) && rules.decl(rules.decode(node.bytes)).Some?
    && !Mentions(rules.decode(node.bytes), rules.csp) && !Mentions(rules.decode(node.bytes), rules.frame)
  }

  /** `updated` is `text` with the block put in at `at`, and nothing else changed. */
  predicate Inserted(text: Text, block: Text, at: nat, updated: Text) {
    && at <= |text| && |updated| == |text| + |block|
    && updated[..at] == text[..at] && updated[at..at + |block|] == block && updated[at + |block|..] == text[at..]
  }

  ghost predicate Extended(rules: Rules, node: Node, updated: Text) {
    && Extends(rules, node)
    && var text := rules.decode(node.bytes);
       Inserted(text, rules.block, rules.decl(text).value, updated)
  }

  /** Candidate `i` is the first that declares headers or can be extended. */
  ghost predicate FirstUsed(rules: Rules, configs: Configs, i: nat) {
    && i < |configs| && (Declares(rules, configs[i]) || Extends(rules, configs[i]))
    && NoneUsed(rules, configs, i)
  }

  ghost predicate NoneUsed(rules: Rules, configs: Configs, n: nat) {
    forall k :: 0 <= k < n && k < |configs| ==> !Declares(rules, configs[k]) && !Extends(rules, configs[k])
  }

  ghost predicate NoneOversized(rules: Rules, configs: Configs, n: nat) {
    forall k :: 0 <= k < n && k < |configs| ==> !Oversized(rules, configs[k])
  }

  ghost predicate TellsPlan(rules: Rules, configs: Configs, plan: Plan) {
    match plan
    case Nothing => NoneUsed(rules, configs, |configs|)
    case Skip(i) => FirstUsed(rules, configs, i) && Declares(rules, configs[i])
    case PlanPatch(i, updated) => FirstUsed(rules, configs, i) && Extended(rules, configs[i], updated)
  }

  /** An execution that meets a file over the limit throws; otherwise the first used candidate is
      skipped, or replaced by its extension. */
  ghost predicate TellsFix(rules: Rules, before: Configs, fault: bool, fixed: Fixed, after: Configs) {
    match fixed
    case Threw =>
      && after == before
      && ((exists k :: 0 <= k < |before| && Oversized(rules, before[k]) && NoneUsed(rules, before, k))
          || (fault && exists i: nat :: FirstUsed(rules, before, i) && Extends(rules, before[i]) && NoneOversized(rules, before, i)))
    case NoTarget => after == before && NoneUsed(rules, before, |before|) && NoneOversized(rules, before, |before|)
    case Skipped(i) =>
      after == before && FirstUsed(rules, before, i) && NoneOversized(rules, before, i) && Declares(rules, before[i])
    case Wrote(i) =>
      && FirstUsed(rules, before, i) && NoneOversized(rules, before, i) && !fault
      && exists updated :: Extended(rules, before[i], updated) && after == before[i := Regular(rules.encode(updated), true)]
  }

  lemma DecidesAsTold(rules: Rules, node: Node)
    requires Lawful(rules)
    ensures Decide(rules, node) == Declared <==> Declares(rules, node)
    ensures Decide(rules, node).Patch? <==> Extends(rules, node)
    ensures Decide(rules, node).Patch? ==> Extended(rules, node, Decide(rules, node).updated)
    ensures Decide(rules, node) == Pass <==> !Declares(rules, node) && !Extends(rules, node)
    ensures TooLarge(rules, node) <==> Oversized(rules, node)
    ensures !(Declares(rules, node) && Extends(rules, node))
  {
    if Usable(rules, node) {
      ContainsIff(rules.decode(node.bytes), rules.csp);
      ContainsIff(rules.decode(node.bytes), rules.frame);
    }
    if Extends(rules, node) {
      var text := rules.decode(node.bytes);
      var at := rules.decl(text).value;
      assert at <= |text|;
      var updated := text[..at] + rules.block + text[at..];
      assert updated[..at] == text[..at] && updated[at..at + |rules.block|] == rules.block && updated[at + |rules.block|..] == text[at..];
    }
  }

  lemma AllDecideAsTold(rules: Rules, configs: Configs)
    requires Lawful(rules)
    ensures forall n: nat :: AllPass(rules, configs, n) <==> NoneUsed(rules, configs, n)
    ensures forall n: nat :: NoneTooLarge(rules, configs, n) <==> NoneOversized(rules, configs, n)
    ensures forall i: nat :: FirstDecision(rules, configs, i) <==> FirstUsed(rules, configs, i)
  {
    forall i | 0 <= i < |configs|
      ensures Decide(rules, configs[i]) == Pass <==> !Declares(rules, configs[i]) && !Extends(rules, configs[i])
      ensures TooLarge(rules, configs[i]) <==> Oversized(rules, configs[i])
    {
      DecidesAsTold(rules, configs[i]);
    }
  }

  lemma PlanAsTold(rules: Rules, configs: Configs, plan: Plan)
    requires Lawful(rules) && IsPlan(rules, configs, plan)
    ensures TellsPlan(rules, configs, plan)
  {
    AllDecideAsTold(rules, configs);
    if !plan.Nothing? { DecidesAsTold(rules, configs[plan.file]); }
  }

  /** The planner's look at one candidate: what it cannot use it passes over. */
  method Consider(rules: Rules, node: Node) returns (d: Decision)
    ensures d == Decide(rules, node)
  {
    if !node.Regular? || |node.bytes| > LIMIT || !node.readable {
      return Pass;
    }
    var text := rules.decode(node.bytes);
    if |rules.encode(text)| > LIMIT {
      return Pass;
    }
    if Contains(text, rules.csp) || Contains(text, rules.frame) {
      return Declared;
    }
    d := if rules.decl(text).Some? then Patch(Patched(rules, text, rules.decl(text).value)) else Pass;
  }

  /** The Next.js part of `planHeaderFixes`. */
  method PlanNextjs(rules: Rules, configs: Configs) returns (plan: Plan)
    ensures IsPlan(rules, configs, plan)
    ensures Lawful(rules) ==> TellsPlan(rules, configs, plan)
  {
    if Lawful(rules) { AllDecideAsTold(rules, configs); }
    for i := 0 to |configs|
      invariant AllPass(rules, configs, i)
    {
      var d := Consider(rules, configs[i]);
      if d != Pass {
        if Lawful(rules) { DecidesAsTold(rules, configs[i]); }
        return if d.Declared? then Skip(i) else PlanPatch(i, d.updated);
      }
    }
    plan := Nothing;
  }

  /** The executor's look at one candidate: a file over the limit is an error. */
  method Examine(rules: Rules, node: Node) returns (d: Option<Decision>)
    ensures d == if TooLarge(rules, node) then None else Some(Decide(rules, node))
  {
    if !node.Regular? {
      return Some(Pass);
    }
    if |node.bytes| > LIMIT {
      return None;
    }
    if !node.readable {
      return Some(Pass);
    }
    var text := rules.decode(node.bytes);
    if |rules.encode(text)| > LIMIT {
      return None;
    }
    if Contains(text, rules.csp) || Contains(text, rules.frame) {
      return Some(Declared);
    }
    d := Some(if rules.decl(text).Some? then Patch(Patched(rules, text, rules.decl(text).value)) else Pass);
  }

  /** One tree has one plan. */
  lemma PlanIsUnique(rules: Rules, configs: Configs, a: Plan, b: Plan)
    requires IsPlan(rules, configs, a) && IsPlan(rules, configs, b)
    ensures a == b
  {
  }

  /** The plan of a tree. */
  ghost function PlanOf(rules: Rules, configs: Configs): (plan: Plan)
    ensures IsPlan(rules, configs, plan)
  {
    if AllPass(rules, configs, |configs|) then Nothing
    else
      FirstExists(rules, configs, |configs|);
      var i: nat :| FirstDecision(rules, configs, i);
      if Decide(rules, configs[i]).Declared? then Skip(i) else PlanPatch(i, Decide(rules, configs[i]).updated)
  }

  lemma {:induction false} FirstExists(rules: Rules, configs: Configs, n: nat)
    requires n <= |configs| && !AllPass(rules, configs, n)
    ensures exists i: nat :: FirstDecision(rules, configs, i)
  {
    if AllPass(rules, configs, n - 1) {
      assert FirstDecision(rules, configs, n - 1);
    } else {
      FirstExists(rules, configs, n - 1);
    }
  }

  /** How far an execution looks before it stops: the deciding candidate, or all of them. */
  function Reach(configs: Configs, plan: Plan): nat {
    if plan.Nothing? then |configs| else plan.file
  }

  // ---------------------------------------------------------------------
  // The project
  // ---------------------------------------------------------------------

  datatype Kind = Nextjs | WithHelper | Unsupported

  /** The helper file: `access` follows a link, an exclusive write does not. */
  datatype Helper = Missing | Dangling | Present

  datatype HelperFix = HelperCreated | HelperKept | HelperThrew

  datatype State = State(configs: Configs, helper: Helper)

  datatype Target = ConfigFile(index: nat) | HelperFile

  datatype Receipt = Receipt(files: seq<Target>, authorized: bool)

  datatype Applied = Unapproved | PlanChanged | Failed | Changed(count: nat)

  /** The planned files that are not skips. */
  function Targets(kind: Kind, plan: Plan, helper: Helper): seq<Target> {
    if kind == Nextjs && plan.PlanPatch? then [ConfigFile(plan.file)]
    else if kind == WithHelper && !helper.Present? then [HelperFile]
    else []
  }

  ghost function Planned(rules: Rules, kind: Kind, state: State): seq<Target> {
    Targets(kind, PlanOf(rules, state.configs), state.helper)
  }

  /** Exactly the planned file differs, and it is what was planned for it. */
  ghost predicate AsPlanned(rules: Rules, kind: Kind, before: State, after: State) {
    var plan := PlanOf(rules, before.configs);
    || (&& kind == Nextjs && plan.PlanPatch?
        && after == before.(configs := before.configs[plan.file := Regular(rules.encode(plan.updated), true)]))
    || (kind == WithHelper && before.helper.Missing? && after == before.(helper := Present))
  }

  ghost predicate Approves(receipt: Option<Receipt>, files: seq<Target>) {
    receipt.Some? && receipt.value.authorized && SameMembers(files, receipt.value.files)
  }

  lemma ApprovalCarries(receipt: Option<Receipt>, a: seq<Target>, b: seq<Target>)
    requires Approves(receipt, a) && SameMembers(a, b)
    ensures Approves(receipt, b)
  {
  }

  lemma NonEmptyCarries(a: seq<Target>, b: seq<Target>)
    requires SameMembers(a, b) && b != []
    ensures a != []
  {
    assert b[0] in b;
  }

  /** An execution agrees with the plan of the tree, unless it throws. */
  ghost predicate IsFix(rules: Rules, before: Configs, fault: bool, fixed: Fixed, after: Configs) {
    var plan := PlanOf(rules, before);
    && (fixed == Threw <==> !NoneTooLarge(rules, before, Reach(before, plan)) || (plan.PlanPatch? && fault))
    && (fixed == NoTarget ==> plan == Nothing)
    && (fixed.Skipped? ==> plan == Skip(fixed.file))
    && (fixed.Wrote? ==> plan.PlanPatch? && plan.file == fixed.file)
    && after == if fixed.Wrote? then before[plan.file := Regular(rules.encode(plan.updated), true)] else before
  }

  lemma FixAsTold(rules: Rules, before: Configs, fault: bool, fixed: Fixed, after: Configs)
    requires Lawful(rules) && IsFix(rules, before, fault, fixed, after)
    ensures TellsFix(rules, before, fault, fixed, after)
  {
    var plan := PlanOf(rules, before);
    PlanAsTold(rules, before, plan);
    AllDecideAsTold(rules, before);
    if fixed == Threw && !NoneTooLarge(rules, before, Reach(before, plan)) {
      var k :| 0 <= k < Reach(before, plan) && k < |before| && TooLarge(rules, before[k]);
      assert Oversized(rules, before[k]) by { DecidesAsTold(rules, before[k]); }
    }
  }

  /** What writing comes to, and what it leaves, told from the tree before. */
  ghost predicate TellsWrite(rules: Rules, kind: Kind, before: State, fault: bool, applied: Applied, after: State) {
    match kind
    case Nextjs =>
      && after.helper == before.helper
      && exists fixed :: TellsFix(rules, before.configs, fault, fixed, after.configs)
                      && (applied == Failed <==> fixed.Threw?) && (applied == Changed(1) <==> fixed.Wrote?)
                      && (applied == Changed(0) <==> fixed.NoTarget? || fixed.Skipped?)
    case WithHelper =>
      && after.configs == before.configs
      && if before.helper != Missing then after == before && applied == Changed(0)
         else if fault then (after.helper == Missing || after.helper == Present) && applied == Failed
         else after.helper == Present && applied == Changed(1)
    case Unsupported => after == before && applied == Changed(0)
  }

  function Counted(fixed: Fixed): Applied {
    if fixed.Threw? then Failed else Changed(if fixed.Wrote? then 1 else 0)
  }

  /** The files an approval must name: the one to be extended, or a helper that is not there. */
  ghost predicate TellsTargets(rules: Rules, kind: Kind, state: State, files: seq<Target>) {
    match kind
    case Nextjs =>
      if NextExtended(rules, state.configs) then exists i: nat :: FirstUsed(rules, state.configs, i) && files == [ConfigFile(i)]
      else files == []
    case WithHelper => files == if state.helper == Present then [] else [HelperFile]
    case Unsupported => files == []
  }

  ghost predicate NextExtended(rules: Rules, configs: Configs) {
    exists i: nat :: FirstUsed(rules, configs, i) && Extends(rules, configs[i])
  }

  lemma OneFirst(rules: Rules, configs: Configs, i: nat, j: nat)
    requires FirstUsed(rules, configs, i) && FirstUsed(rules, configs, j)
    ensures i == j
  {
  }

  /** A file that declares headers is not extended. */
  lemma NotBoth(rules: Rules, node: Node)
    ensures !(Declares(rules, node) && Extends(rules, node))
  {
  }

  lemma NextOfPlan(rules: Rules, configs: Configs, plan: Plan)
    requires TellsPlan(rules, configs, plan)
    ensures NextExtended(rules, configs) <==> plan.PlanPatch?
  {
    if plan.PlanPatch? {
      assert FirstUsed(rules, configs, plan.file) && Extends(rules, configs[plan.file]);
    } else if i: nat :| FirstUsed(rules, configs, i) && Extends(rules, configs[i]) {
      NotBoth(rules, configs[i]);
      if plan.Skip? { OneFirst(rules, configs, i, plan.file); }
      assert false;
    }
  }

  lemma PlannedAsTold(rules: Rules, kind: Kind, state: State)
    requires Lawful(rules)
    ensures TellsTargets(rules, kind, state, Planned(rules, kind, state))
  {
    var plan := PlanOf(rules, state.configs);
    PlanAsTold(rules, state.configs, plan);
    NextOfPlan(rules, state.configs, plan);
  }

  class Project {
    /** The candidates in the order they are tried. */
    var configs: Configs
    var helper: Helper

    ghost function Now(): State
      reads this
    {
      State(configs, helper)
    }

    /** `fixNextjs`: on an unchanged tree it throws without writing, exactly when a file over the
        limit comes before the planned one or the replacement fails (`fault`); otherwise it does
        what was planned. */
    method FixNextjs(rules: Rules, fault: bool) returns (fixed: Fixed)
      modifies this`configs
      ensures IsFix(rules, old(configs), fault, fixed, configs)
      ensures Lawful(rules) ==> TellsFix(rules, old(configs), fault, fixed, configs)
    {
      fixed := Execute(rules, fault);
      if Lawful(rules) { FixAsTold(rules, old(configs), fault, fixed, configs); }
    }

    /** The loop of `fixNextjs`. */
    method Execute(rules: Rules, fault: bool) returns (fixed: Fixed)
      modifies this`configs
      ensures IsFix(rules, old(configs), fault, fixed, configs)
    {
      var i := 0;
      while i < |configs|
        invariant i <= |configs| && configs == old(configs)
        invariant AllPass(rules, configs, i) && NoneTooLarge(rules, configs, i)
      {
        var d := Examine(rules, configs[i]);
        if d == None {
          return Threw;
        }
        if d.value.Declared? {
          return Skipped(i);
        }
        if d.value.Patch? {
          if fault {
            return Threw;
          }
          configs := configs[i := Regular(rules.encode(d.value.updated), true)];
          return Wrote(i);
        }
        i := i + 1;
      }
      fixed := NoTarget;
    }

    /** `fixWithHelperFile`: planned as a creation whenever the path cannot be opened, but the
        exclusive write refuses a dangling link too.  A failed write may leave a partial file. */
    method FixWithHelperFile(fault: bool) returns (fixed: HelperFix)
      modifies this`helper
      ensures fixed == HelperCreated <==> old(helper).Missing? && !fault
      ensures fixed == HelperThrew <==> old(helper).Missing? && fault
      ensures helper != old(helper) ==> old(helper).Missing? && helper == Present
      ensures fixed == HelperCreated ==> helper == Present
    {
      var partial: bool := *;
      if helper.Present? || helper.Dangling? {
        return HelperKept;
      }
      if fault {
        if partial { helper := Present; }
        return HelperThrew;
      }
      helper := Present;
      fixed := HelperCreated;
    }

    method PlannedFiles(rules: Rules, kind: Kind) returns (files: seq<Target>)
      ensures files == Planned(rules, kind, Now())
    {
      files := [];
      if kind == Nextjs {
        var plan := PlanNextjs(rules, configs);
        PlanIsUnique(rules, configs, plan, PlanOf(rules, configs));
        if plan.PlanPatch? { files := [ConfigFile(plan.file)]; }
      } else if kind == WithHelper && !helper.Present? {
        files := [HelperFile];
      }
    }

    /** The writer `applyHeaderFixes` selects for the project type. */
    method WriteFixes(rules: Rules, kind: Kind, fault: bool) returns (applied: Applied)
      modifies this
      ensures Now() == old(Now()) || AsPlanned(rules, kind, old(Now()), Now())
      ensures applied == Changed(1) ==> AsPlanned(rules, kind, old(Now()), Now())
      ensures Now() != old(Now()) ==> Planned(rules, kind, old(Now())) != []
      ensures applied == Changed(0) ==> Now() == old(Now())
      ensures applied == Changed(1) ==> Planned(rules, kind, old(Now())) != []
      ensures applied in {Failed, Changed(0), Changed(1)}
      ensures applied == Failed ==>
                Now() == old(Now()) || (kind == WithHelper && old(Now()).helper.Missing? && Now() == old(Now()).(helper := Present))
      ensures Lawful(rules) ==> TellsWrite(rules, kind, old(Now()), fault, applied, Now())
    {
      if kind == Nextjs {
        var fixed := FixNextjs(rules, fault);
        applied := Counted(fixed);
      } else if kind == WithHelper {
        var fixed := FixWithHelperFile(fault);
        applied := if fixed.HelperThrew? then Failed else Changed(if fixed.HelperCreated? then 1 else 0);
      } else {
        applied := Changed(0);
      }
    }

    /** `applyHeaderFixes`.  Between the approval and the second plan the project may become
        anything (`edited`); from the second plan to the write it stays.  Without an approval of
        exactly the planned files, or when they are no longer the planned ones, nothing is
        written; otherwise only planned files change, to what was planned, under an approval. */
    method ApplyHeaderFixes(rules: Rules, kind: Kind, receipt: Option<Receipt>, order: (Target, Target) -> bool,
                            edited: State, fault: bool)
      returns (applied: Applied)
      requires TotalOrder(order)
      modifies this
      ensures applied == Unapproved <==>
                Planned(rules, kind, old(Now())) != [] && !Approves(receipt, Planned(rules, kind, old(Now())))
      ensures applied == Unapproved ==> Now() == old(Now())
      ensures applied != Unapproved ==>
                (applied == PlanChanged <==> !SameMembers(Planned(rules, kind, old(Now())), Planned(rules, kind, edited)))
      ensures applied == PlanChanged ==> Now() == edited
      ensures applied != Unapproved ==> Now() == edited || AsPlanned(rules, kind, edited, Now())
      ensures applied != Unapproved && Now() != edited ==> Approves(receipt, Planned(rules, kind, edited))
      ensures applied == Changed(0) ==> Now() == edited
      // A failed write leaves the tree as it was, or a helper file of whatever content.
      ensures applied == Failed ==> Now() == edited || (kind == WithHelper && edited.helper.Missing? && Now() == edited.(helper := Present))
      ensures applied == Changed(1) ==>
                Approves(receipt, Planned(rules, kind, edited)) && AsPlanned(rules, kind, edited, Now())
      // The same told from the files: what must be approved, and what the write comes to.
      ensures Lawful(rules) ==>
                && TellsTargets(rules, kind, old(Now()), Planned(rules, kind, old(Now())))
                && TellsTargets(rules, kind, edited, Planned(rules, kind, edited))
                && (applied != Unapproved && applied != PlanChanged ==> TellsWrite(rules, kind, edited, fault, applied, Now()))
    {
      if Lawful(rules) {
        PlannedAsTold(rules, kind, Now());
        PlannedAsTold(rules, kind, edited);
      }
      var files := PlannedFiles(rules, kind);
      if files != [] {
        if receipt == None {
          return Unapproved;
        }
        DecidesSameMembers(files, receipt.value.files, order);
        if !receipt.value.authorized || !SamePlannedFiles(files, receipt.value.files, order) {
          return Unapproved;
        }
      }
      configs, helper := edited.configs, edited.helper;
      var current := PlannedFiles(rules, kind);
      DecidesSameMembers(files, current, order);
      if !SamePlannedFiles(files, current, order) {
        return PlanChanged;
      }
      if current != [] {
        NonEmptyCarries(files, current);
        ApprovalCarries(receipt, files, current);
      }
      applied := WriteFixes(rules, kind, fault);
    }
  }

  // ---------------------------------------------------------------------
  // Comparing file sets
  // ---------------------------------------------------------------------

  /** `samePlannedFiles`: both lists without repetitions and sorted, compared entry by entry. */
  predicate SamePlannedFiles<T(==)>(left: seq<T>, right: seq<T>, order: (T, T) -> bool) {
    Sort(Distinct(left), order) == Sort(Distinct(right), order)
  }

  ghost predicate SameMembers<T(!new)>(left: seq<T>, right: seq<T>) {
    forall x :: x in left <==> x in right
  }

  /** Sorting makes the comparison one of sets: neither order nor repetition counts. */
  lemma DecidesSameMembers<T(!new)>(left: seq<T>, right: seq<T>, order: (T, T) -> bool)
    requires TotalOrder(order)
    ensures SamePlannedFiles(left, right, order) <==> SameMembers(left, right)
  {
    var a, b := Distinct(left), Distinct(right);
    SortMembers(a, order);
    SortMembers(b, order);
    if SameMembers(left, right) {
      SameElementsSameMultiset(a, b);
      SortPermuted(a, b, order);
    }
    if SamePlannedFiles(left, right, order) {
      forall x ensures x in left <==> x in right {
        assert x in left <==> x in Sort(a, order);
        assert x in right <==> x in Sort(b, order);
      }
    }
  }

  // ---------------------------------------------------------------------
  // Planning again
  // ---------------------------------------------------------------------

  lemma ContainsWithin(before: Text, block: Text, after: Text, part: Text)
    requires Contains(block, part)
    ensures Contains(before + block + after, part)
  {
    var i: nat :| i <= |block| && OccursAt(block, part, i);
    var text := before + block + after;
    assert text[|before|..|before| + |block|] == block;
    assert text[|before| + i..|before| + i + |part|] == block[i..i + |part|];
    assert OccursAt(text, part, |before| + i);
  }

  /** A candidate that was just patched declares its headers, unless it outgrew the limit. */
  lemma PatchedNodeDecides(rules: Rules, node: Node, updated: Text)
    requires Lawful(rules) && Decide(rules, node) == Patch(updated)
    ensures var patched := Regular(rules.encode(updated), true);
            && (Decide(rules, patched) == if |rules.encode(updated)| <= LIMIT then Declared else Pass)
            && (TooLarge(rules, patched) <==> |rules.encode(updated)| > LIMIT)
  {
    var text := rules.decode(node.bytes);
    var at := rules.decl(text).value;
    assert updated == text[..at] + rules.block + text[at..];
    ContainsWithin(text[..at], rules.block, text[at..], rules.csp);
    DecodeEncode(updated);
    DeclaringNodeDecides(rules, updated, rules.encode(updated));
  }

  lemma DeclaringNodeDecides(rules: Rules, text: Text, bytes: seq<Byte>)
    requires rules.decode(bytes) == text && rules.encode(text) == bytes && Contains(text, rules.csp)
    ensures Decide(rules, Regular(bytes, true)) == if |bytes| <= LIMIT then Declared else Pass
    ensures TooLarge(rules, Regular(bytes, true)) <==> |bytes| > LIMIT
  {
  }

  /** After a patch, planning again says "skip" for that file exactly while the patched file is
      within the limit; beyond it the planner passes it over and the next execution throws. */
  lemma ReplanAfterPatch(rules: Rules, configs: Configs, plan: Plan, again: Plan)
    requires Lawful(rules) && IsPlan(rules, configs, plan) && plan.PlanPatch?
    requires IsPlan(rules, configs[plan.file := Regular(rules.encode(plan.updated), true)], again)
    ensures again == Skip(plan.file) <==> |rules.encode(plan.updated)| <= LIMIT
    ensures |rules.encode(plan.updated)| > LIMIT ==>
              var after := configs[plan.file := Regular(rules.encode(plan.updated), true)];
              !NoneTooLarge(rules, after, Reach(after, again))
  {
    PatchedNodeDecides(rules, configs[plan.file], plan.updated);
    ReplanAt(rules, configs, plan, again, Regular(rules.encode(plan.updated), true));
  }

  lemma ReplanAt(rules: Rules, configs: Configs, plan: Plan, again: Plan, node: Node)
    requires IsPlan(rules, configs, plan) && plan.PlanPatch?
    requires IsPlan(rules, configs[plan.file := node], again)
    requires Decide(rules, node) == Declared || Decide(rules, node) == Pass
    ensures again == Skip(plan.file) <==> Decide(rules, node) == Declared
    ensures TooLarge(rules, node) ==> !NoneTooLarge(rules, configs[plan.file := node], Reach(configs[plan.file := node], again))
  {
    var i := plan.file;
    var after := configs[i := node];
    assert forall k :: 0 <= k < i ==> after[k] == configs[k];
    assert AllPass(rules, after, i);
    assert after[i] == node;
  }
}
