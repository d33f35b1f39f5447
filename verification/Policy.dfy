/** The Credential-neutral policy pipeline: check, apply rules, enforce the group's system policy,
    restore member order, check again. */
module Policy {
  import opened Wrappers
  import opened Text
  import opened Json
  import opened Capability
  import V = CapabilityValidation
  import R = RuleSet
  import RuleSetLaws
  import Log = ChangeLogLaws
  import W = SystemRewrite

  datatype SystemPolicy = Preserve | StripClient | Replace(content: Value) | StripAll

  /** State of a request between the stages. */
  datatype Enforced = Enforced(
    tree: Value, changes: seq<R.AppliedChange>, suppressed: bool, pending: bool, error: Option<R.PolicyError>)

  function TopLevel(tree: Value, key: string): Option<Value> {
    if tree.Obj? then Get(tree.members, key) else None
  }

  // ----- enforcement -----

  /** What the policy puts in place of the current system value. */
  function NextSystem(policy: SystemPolicy, current: Option<Value>): Option<Value> {
    match policy
    case Preserve => current
    case StripClient => if current.Some? then W.StripClient(current.value) else None
    case Replace(content) => Some(W.ReplaceStatic(if current.Some? then current.value else Null, content).0)
    case StripAll => None
  }

  function Reason(policy: SystemPolicy): string {
    match policy
    case Preserve => ""
    case StripClient => "system_strip_client"
    case Replace(_) => "system_replace"
    case StripAll => "system_strip_all"
  }

  function Enforce(policy: SystemPolicy, tree: Value, changes: seq<R.AppliedChange>): Enforced {
    EnforceWith(policy, tree, changes, NextSystem(policy, TopLevel(tree, "system")))
  }

  function EnforceWith(policy: SystemPolicy, tree: Value, changes: seq<R.AppliedChange>, next: Option<Value>): Enforced {
    var current := TopLevel(tree, "system");
    if current.Some? && !current.value.Str? && !current.value.Arr? then
      Enforced(tree, changes, false, false, Some(R.InvalidStructure))
    else if policy.Preserve? then Enforced(tree, changes, false, false, None)
    else if policy.Replace? && W.IsEmptyReplacement(policy.content) then Enforced(tree, changes, false, true, None)
    else PutSystem(tree, changes, next, Reason(policy), policy.StripAll?)
  }

  /** Write or remove the system member and record it. */
  function PutSystem(tree: Value, changes: seq<R.AppliedChange>, next: Option<Value>, reason: string, suppressed: bool): Enforced {
    var current := TopLevel(tree, "system");
    var edited := R.EditPointer(tree, "/system", if next.Some? then SetTo(next.value) else Delete);
    if edited.None? then Enforced(tree, changes, suppressed, false, Some(R.InvalidStructure)) else
      var after := TopLevel(edited.value, "system");
      Enforced(edited.value,
               if R.SameOption(current, after) then changes
               else changes + [R.AppliedChange("group_enforcement.system", "/system", current, after, reason, R.High)],
               suppressed, false, None)
  }

  method ApplyEnforcement(policy: SystemPolicy, d: R.Draft)
    returns (suppressed: bool, pending: bool, error: Option<R.PolicyError>)
    modifies d
    ensures Enforced(d.tree, d.changes, suppressed, pending, error) == Enforce(policy, old(d.tree), old(d.changes))
  {
    suppressed, pending, error := false, false, None;
    var current := TopLevel(d.tree, "system");
    if current.Some? && !current.value.Str? && !current.value.Arr? {
      error := Some(R.InvalidStructure);
      return;
    }
    var next: Option<Value>;
    match policy {
      case Preserve =>
        return;
      case StripClient =>
        next := if current.Some? then W.StripClient(current.value) else None;
      case Replace(content) =>
        if W.IsEmptyReplacement(content) {
          pending := true;
          return;
        }
        var replaced, rewrite := W.ReplaceSystemStatic(if current.Some? then current.value else Null, content);
        next := Some(replaced);
      case StripAll =>
        suppressed := true;
        next := None;
    }
    error := Put(d, next, Reason(policy), suppressed);
  }

  method Put(d: R.Draft, next: Option<Value>, reason: string, ghost suppressed: bool) returns (error: Option<R.PolicyError>)
    modifies d
    ensures Enforced(d.tree, d.changes, suppressed, false, error)
         == PutSystem(old(d.tree), old(d.changes), next, reason, suppressed)
  {
    var current := TopLevel(d.tree, "system");
    var ok;
    if next.Some? {
      ok := d.SetPointer("/system", next.value);
    } else {
      ok := d.RemovePointer("/system");
    }
    if !ok {
      return Some(R.InvalidStructure);
    }
    var after := TopLevel(d.tree, "system");
    if !R.SameOption(current, after) {
      d.changes := d.changes +
        [R.AppliedChange("group_enforcement.system", "/system", current, after, reason, R.High)];
    }
    error := None;
  }

  // ----- member order -----

  /** What one member becomes when `system` is moved right before `messages`. */
  function Moved(m: Member, system: Value): seq<Member> {
    if m.key == "messages" then [Member("system", system), m] else if m.key == "system" then [] else [m]
  }

  /** The members with `system` moved right before `messages`. */
  function Reorder(ms: seq<Member>, system: Value): seq<Member> {
    if ms == [] then [] else Moved(ms[0], system) + Reorder(ms[1..], system)
  }

  function Canonical(tree: Value): Value {
    if tree.Obj? && Get(tree.members, "system").Some? && Get(tree.members, "messages").Some?
    then Obj(Reorder(tree.members, Get(tree.members, "system").value)) else tree
  }

  lemma {:induction false} ReorderConcat(a: seq<Member>, b: seq<Member>, system: Value)
    ensures Reorder(a + b, system) == Reorder(a, system) + Reorder(b, system)
  {
    if a == [] {
      assert a + b == b;
    } else {
      assert (a + b)[1..] == a[1..] + b;
      ReorderConcat(a[1..], b, system);
    }
  }

  lemma {:induction false} ReorderLast(ms: seq<Member>, i: nat, system: Value)
    requires i < |ms|
    ensures Reorder(ms[..i + 1], system) == Reorder(ms[..i], system) + Moved(ms[i], system)
  {
    ReorderConcat(ms[..i], [ms[i]], system);
    assert ms[..i + 1] == ms[..i] + [ms[i]];
    assert [ms[i]][1..] == [];
  }

  method ReorderMembers(original: seq<Member>, system: Value) returns (reordered: seq<Member>)
    ensures reordered == Reorder(original, system)
  {
    reordered := [];
    for i := 0 to |original|
      invariant reordered == Reorder(original[..i], system)
    {
      ReorderLast(original, i, system);
      if original[i].key == "messages" {
        reordered := reordered + [Member("system", system)];
      }
      if original[i].key != "system" {
        reordered := reordered + [original[i]];
      }
    }
    assert original[..|original|] == original;
  }

  method CanonicalizeSystemOrder(d: R.Draft)
    modifies d`tree
    ensures d.tree == Canonical(old(d.tree))
  {
    if !d.tree.Obj? || Get(d.tree.members, "system").None? || Get(d.tree.members, "messages").None? {
      return;
    }
    var reordered := ReorderMembers(d.tree.members, Get(d.tree.members, "system").value);
    d.tree := Obj(reordered);
  }

  // ----- laws of the two stages -----

  lemma SystemPointer()
    ensures R.SplitPointer("/system") == Some(("", "system")) && Tokens("") == []
  {
    var p := "/system";
    assert p[1..] == "system" && '/' !in p[1..];
    OnlySlash(p);
    ReplaceNothing("system", '1', '/');
    ReplaceNothing("system", '0', '~');
  }

  lemma {:induction false} OnlySlash(p: string)
    requires p != "" && p[0] == '/' && '/' !in p[1..]
    ensures '/' in p && LastIndexOf(p, '/') == 0
  {
    if |p| > 1 {
      assert p[|p| - 1] == p[1..][|p| - 2];
      assert p[..|p| - 1][1..] == p[1..][..|p| - 2];
      OnlySlash(p[..|p| - 1]);
    }
  }

  lemma PutSystemOnly(tree: Value, changes: seq<R.AppliedChange>, next: Option<Value>, reason: string, suppressed: bool, key: string)
    requires tree.Obj? && DistinctKeys(tree.members)
    ensures var e := PutSystem(tree, changes, next, reason, suppressed);
            && e.error.None? && e.suppressed == suppressed && !e.pending
            && e.tree.Obj? && DistinctKeys(e.tree.members)
            && Get(e.tree.members, key) == if key == "system" then next else Get(tree.members, key)
  {
    SystemPointer();
    if next.Some? { GetInsert(tree.members, "system", next.value, key); } else { GetRemove(tree.members, "system", key); }
  }

  lemma EnforceWithKeeps(policy: SystemPolicy, tree: Value, changes: seq<R.AppliedChange>, next: Option<Value>, key: string)
    requires tree.Obj? && DistinctKeys(tree.members) && key != "system"
    ensures RuleSetLaws.Protects(tree, EnforceWith(policy, tree, changes, next).tree, key)
  {
    PutSystemOnly(tree, changes, next, Reason(policy), policy.StripAll?, key);
  }

  lemma EnforceWithSystem(policy: SystemPolicy, tree: Value, changes: seq<R.AppliedChange>, next: Option<Value>)
    requires tree.Obj? && DistinctKeys(tree.members)
    ensures var e := EnforceWith(policy, tree, changes, next);
            var before := TopLevel(tree, "system");
            && (e.error.Some? ==> e.tree == tree && e.changes == changes)
            && (e.error.Some? <==> before.Some? && !before.value.Str? && !before.value.Arr?)
            && (e.error.None? ==> TopLevel(e.tree, "system") == if e.pending || policy.Preserve? then before else next)
            && (e.pending <==> e.error.None? && policy.Replace? && W.IsEmptyReplacement(policy.content))
            && (e.suppressed <==> e.error.None? && policy.StripAll?)
  {
    PutSystemOnly(tree, changes, next, Reason(policy), policy.StripAll?, "system");
  }

  /** Enforcement touches nothing but the system member, and that only when it succeeds. */
  lemma EnforceTouchesOnlySystem(policy: SystemPolicy, tree: Value, changes: seq<R.AppliedChange>, key: string)
    requires tree.Obj? && DistinctKeys(tree.members) && key != "system"
    ensures RuleSetLaws.Protects(tree, Enforce(policy, tree, changes).tree, key)
    ensures var e := Enforce(policy, tree, changes);
            e.error.Some? ==> e.tree == tree && e.changes == changes
  {
    EnforceWithKeeps(policy, tree, changes, NextSystem(policy, TopLevel(tree, "system")), key);
    EnforceWithSystem(policy, tree, changes, NextSystem(policy, TopLevel(tree, "system")));
  }

  /** What the system member is afterwards, mode by mode; it fails only on a system that is neither
      text nor a list of blocks. */
  lemma EnforcedSystem(policy: SystemPolicy, tree: Value, changes: seq<R.AppliedChange>)
    requires tree.Obj? && DistinctKeys(tree.members)
    ensures var e := Enforce(policy, tree, changes);
            var before := TopLevel(tree, "system");
            && (e.error.Some? <==> before.Some? && !before.value.Str? && !before.value.Arr?)
            && (e.error.None? ==> TopLevel(e.tree, "system") == if e.pending then before else NextSystem(policy, before))
            && (e.pending <==> e.error.None? && policy.Replace? && W.IsEmptyReplacement(policy.content))
            && (e.suppressed <==> e.error.None? && policy.StripAll?)
  {
    EnforceWithSystem(policy, tree, changes, NextSystem(policy, TopLevel(tree, "system")));
  }

  /** Members other than `system`, in order. */
  function WithoutSystem(ms: seq<Member>): seq<Member> {
    if ms == [] then [] else (if ms[0].key != "system" then [ms[0]] else []) + WithoutSystem(ms[1..])
  }

  lemma {:induction false} WithoutSystemConcat(a: seq<Member>, b: seq<Member>)
    ensures WithoutSystem(a + b) == WithoutSystem(a) + WithoutSystem(b)
  {
    if a == [] {
      assert a + b == b;
    } else {
      assert (a + b)[1..] == a[1..] + b;
      WithoutSystemConcat(a[1..], b);
    }
  }

  /** The other members keep their order, and nothing is lost or duplicated among them. */
  lemma {:induction false} ReorderKeepsOthers(ms: seq<Member>, system: Value)
    ensures WithoutSystem(Reorder(ms, system)) == WithoutSystem(ms)
  {
    if ms != [] {
      ReorderKeepsOthers(ms[1..], system);
      WithoutSystemConcat(Moved(ms[0], system), Reorder(ms[1..], system));
      var moved := Moved(ms[0], system);
      if ms[0].key == "messages" {
        assert moved[1..] == [ms[0]] && [ms[0]][1..] == [];
      } else if ms[0].key != "system" {
        assert moved[1..] == [];
      }
    }
  }

  lemma FindTail(ms: seq<Member>, key: string)
    requires ms != [] && ms[0].key != key
    ensures Get(ms, key) == Get(ms[1..], key)
  {
    assert Find(ms, key) == 1 + Find(ms[1..], key);
  }

  lemma {:induction false} GetWithoutSystem(ms: seq<Member>, key: string)
    requires key != "system"
    ensures Get(WithoutSystem(ms), key) == Get(ms, key)
  {
    if ms != [] {
      GetWithoutSystem(ms[1..], key);
      var rest := WithoutSystem(ms[1..]);
      if ms[0].key == "system" {
        FindTail(ms, key);
        assert WithoutSystem(ms) == rest;
      } else if ms[0].key != key {
        FindTail(ms, key);
        FindTail([ms[0]] + rest, key);
        assert ([ms[0]] + rest)[1..] == rest;
      } else {
        assert Find(ms, key) == 0 && Find([ms[0]] + rest, key) == 0;
      }
    }
  }

  ghost predicate NoSystem(ms: seq<Member>) {
    forall i :: 0 <= i < |ms| ==> ms[i].key != "system"
  }

  /** `system` sits at index `i`, right in front of `messages`, and nowhere else. */
  ghost predicate Placed(ms: seq<Member>, system: Value, i: nat) {
    && i + 1 < |ms| && ms[i] == Member("system", system) && ms[i + 1].key == "messages"
    && forall j :: 0 <= j < |ms| && j != i ==> ms[j].key != "system"
  }

  lemma {:induction false} ReorderWithoutMessages(ms: seq<Member>, system: Value)
    requires forall i :: 0 <= i < |ms| ==> ms[i].key != "messages"
    ensures NoSystem(Reorder(ms, system))
  {
    if ms != [] {
      ReorderWithoutMessages(ms[1..], system);
    }
  }

  /** Restored order: `system` ends up right in front of `messages`, and only there. */
  lemma {:induction false} ReorderPlacesSystem(ms: seq<Member>, system: Value) returns (i: nat)
    requires DistinctKeys(ms) && Get(ms, "messages").Some?
    ensures Placed(Reorder(ms, system), system, i)
  {
    var rest := Reorder(ms[1..], system);
    if ms[0].key == "messages" {
      i := 0;
      ReorderWithoutMessages(ms[1..], system);
    } else {
      FindTail(ms, "messages");
      var at := ReorderPlacesSystem(ms[1..], system);
      i := |Moved(ms[0], system)| + at;
    }
  }

  /** Restoring the member order keeps what every key maps to. */
  lemma CanonicalKeepsMembers(tree: Value, key: string)
    requires tree.Obj? && DistinctKeys(tree.members)
    ensures Canonical(tree).Obj? && Get(Canonical(tree).members, key) == Get(tree.members, key)
  {
    if Canonical(tree) != tree {
      var system := Get(tree.members, "system").value;
      var r := Reorder(tree.members, system);
      if key == "system" {
        var i := ReorderPlacesSystem(tree.members, system);
        assert Find(r, "system") == i;
      } else {
        ReorderKeepsOthers(tree.members, system);
        GetWithoutSystem(r, key);
        GetWithoutSystem(tree.members, key);
      }
    }
  }

  // ----- the pipeline -----

  datatype Setup = Setup(
    capabilities: map<string, V.Snapshot>, ruleset: Option<R.CompiledRuleSet>, policy: SystemPolicy)

  datatype Adjusted = Adjusted(
    tree: Value, changes: seq<R.AppliedChange>, model: string, stream: bool, suppressed: bool, pending: bool,
    reusedOriginal: bool)

  /** Model name and stream flag of a structurally valid request. */
  function BaseStructure(tree: Value, requireMaxTokens: bool): Option<(string, bool)> {
    var model := TopLevel(tree, "model");
    var messages := TopLevel(tree, "messages");
    var maxTokens := TopLevel(tree, "max_tokens");
    var stream := TopLevel(tree, "stream");
    if !tree.Obj? || model.None? || !model.value.Str? || model.value.s == "" then None
    else if messages.None? || !messages.value.Arr? then None
    else if requireMaxTokens && maxTokens.None? then None
    else if maxTokens.Some? && !maxTokens.value.Null? && !(maxTokens.value.Num? && maxTokens.value.num.PosInt?) then None
    else if stream.Some? && !stream.value.Bool? then None
    else Some((model.value.s, stream.Some? && stream.value.b))
  }

  /** The facts conditions can see. */
  function Evaluation(context: Context, model: string, stream: bool): Context {
    context.(request := context.request["model" := Str(model)]["stream" := Bool(stream)])
  }

  /** Counting tokens does not ask for `max_tokens`. */
  function Filter(found: set<Diagnostic>, requireMaxTokens: bool): set<Diagnostic> {
    if requireMaxTokens then found else set d | d in found && d.path != "body:/max_tokens"
  }

  function Check(s: V.Snapshot, tree: Value, context: Context, final: bool, requireMaxTokens: bool): Option<R.PolicyError> {
    match V.AllFindings(s, tree, context, final)
    case Bad(e) => Some(R.MapRuntimeError(e))
    case Good(found) =>
      if Filter(found, requireMaxTokens) == {} then None else Some(R.CapabilityViolation(Filter(found, requireMaxTokens)))
  }

  function Ruled(setup: Setup, tree: Value, context: Context): R.Outcome {
    if setup.ruleset.Some? then R.ApplyAll(setup.ruleset.value.rules, tree, [], context) else R.Outcome(tree, [], None)
  }

  /** Rules, then enforcement, then member order. */
  function Adjust(setup: Setup, tree: Value, context: Context): Enforced {
    var ruled := Ruled(setup, tree, context);
    if ruled.error.Some? then Enforced(ruled.tree, ruled.changes, false, false, ruled.error) else
      var enforced := Enforce(setup.policy, ruled.tree, ruled.changes);
      if enforced.error.Some? || enforced.changes == [] then enforced
      else enforced.(tree := Canonical(enforced.tree))
  }

  function Process(setup: Setup, tree: Value, facts: Context, requireMaxTokens: bool): Result<Adjusted, R.PolicyError> {
    match BaseStructure(tree, requireMaxTokens)
    case None => Bad(R.InvalidStructure)
    case Some((model, stream)) =>
      if model !in setup.capabilities then Bad(R.ModelUnavailable) else
        var snapshot := setup.capabilities[model];
        var context := Evaluation(facts, model, stream);
        var precheck := Check(snapshot, tree, context, false, requireMaxTokens);
        if precheck.Some? then Bad(precheck.value) else
          var e := Adjust(setup, tree, context);
          if e.error.Some? then Bad(e.error.value)
          else if TopLevel(e.tree, "model") != Some(Str(model)) then Bad(R.CapabilityRuntimeConflict)
          else
            var postcheck := Check(snapshot, e.tree, context, true, requireMaxTokens);
            if postcheck.Some? then Bad(postcheck.value)
            else Good(Adjusted(e.tree, e.changes, model, stream, e.suppressed, e.pending, e.changes == []))
  }

  method ProcessWithOptions(setup: Setup, tree: Value, facts: Context, requireMaxTokens: bool)
    returns (r: Result<Adjusted, R.PolicyError>)
    ensures r == Process(setup, tree, facts, requireMaxTokens)
  {
    var base := BaseStructure(tree, requireMaxTokens);
    if base.None? {
      return Bad(R.InvalidStructure);
    }
    var (model, stream) := base.value;
    if model !in setup.capabilities {
      return Bad(R.ModelUnavailable);
    }
    var context := Evaluation(facts, model, stream);
    var precheck := RunCheck(setup.capabilities[model], tree, context, false, requireMaxTokens);
    if precheck.Some? {
      return Bad(precheck.value);
    }
    var e := RunAdjust(setup, tree, context);
    if e.error.Some? {
      return Bad(e.error.value);
    }
    if TopLevel(e.tree, "model") != Some(Str(model)) {
      return Bad(R.CapabilityRuntimeConflict);
    }
    var postcheck := RunCheck(setup.capabilities[model], e.tree, context, true, requireMaxTokens);
    if postcheck.Some? {
      return Bad(postcheck.value);
    }
    r := Good(Adjusted(e.tree, e.changes, model, stream, e.suppressed, e.pending, e.changes == []));
  }

  method RunCheck(s: V.Snapshot, tree: Value, context: Context, final: bool, requireMaxTokens: bool)
    returns (error: Option<R.PolicyError>)
    ensures error == Check(s, tree, context, final, requireMaxTokens)
  {
    var found := V.Validate(s, tree, context, final);
    if found.Bad? {
      return Some(R.MapRuntimeError(found.error));
    }
    var left := Filter(found.value, requireMaxTokens);
    error := if left == {} then None else Some(R.CapabilityViolation(left));
  }

  method RunAdjust(setup: Setup, tree: Value, context: Context) returns (e: Enforced)
    ensures e == Adjust(setup, tree, context)
  {
    var d := new R.Draft(tree);
    if setup.ruleset.Some? {
      var error := d.ApplyRules(setup.ruleset.value, context);
      if error.Some? {
        return Enforced(d.tree, d.changes, false, false, error);
      }
    }
    var suppressed, pending, error := ApplyEnforcement(setup.policy, d);
    if error.None? && d.changes != [] {
      CanonicalizeSystemOrder(d);
    }
    e := Enforced(d.tree, d.changes, suppressed, pending, error);
  }

  /** The rule set, if any, came out of the compiler. */
  ghost predicate Published(setup: Setup) {
    setup.ruleset.Some? ==>
      exists id: string, layers: seq<seq<R.RuleDefinition>> ::
        R.CompileLayers(id, layers) == Good(setup.ruleset.value)
  }

  lemma RulesKeepModelAndMessages(setup: Setup, tree: Value, context: Context, key: string)
    requires Published(setup) && tree.Obj? && DistinctKeys(tree.members) && RuleSetLaws.Protected(key)
    ensures var after := Ruled(setup, tree, context).tree;
            after.Obj? && DistinctKeys(after.members) && Get(after.members, key) == Get(tree.members, key)
  {
    if setup.ruleset.Some? {
      var id: string, layers: seq<seq<R.RuleDefinition>> :| R.CompileLayers(id, layers) == Good(setup.ruleset.value);
      RuleSetLaws.ModelAndMessagesUntouched(id, layers, tree, context);
    }
  }

  /** No adjustment reaches the model or the messages: what a request asks for is what is sent. */
  lemma AdjustKeepsModelAndMessages(setup: Setup, tree: Value, context: Context, key: string)
    requires Published(setup) && tree.Obj? && DistinctKeys(tree.members) && RuleSetLaws.Protected(key)
    ensures TopLevel(Adjust(setup, tree, context).tree, key) == Get(tree.members, key)
  {
    var ruled := Ruled(setup, tree, context);
    RulesKeepModelAndMessages(setup, tree, context, key);
    if ruled.error.None? {
      EnforceTouchesOnlySystem(setup.policy, ruled.tree, ruled.changes, key);
      CanonicalKeepsMembers(Enforce(setup.policy, ruled.tree, ruled.changes).tree, key);
    }
  }

  /** The check that the model is still the client's can never fail. */
  lemma ModelCheckNeverFires(setup: Setup, tree: Value, facts: Context, requireMaxTokens: bool)
    requires Published(setup) && tree.Obj? && DistinctKeys(tree.members)
    requires BaseStructure(tree, requireMaxTokens).Some?
    ensures var (model, stream) := BaseStructure(tree, requireMaxTokens).value;
            TopLevel(Adjust(setup, tree, Evaluation(facts, model, stream)).tree, "model") == Some(Str(model))
  {
    var (model, stream) := BaseStructure(tree, requireMaxTokens).value;
    AdjustKeepsModelAndMessages(setup, tree, Evaluation(facts, model, stream), "model");
  }

  /** A request that gets through names its model and carries its messages as the client sent them,
      and its adjusted form satisfies the final check. */
  lemma ProcessedRequest(setup: Setup, tree: Value, facts: Context, requireMaxTokens: bool)
    requires Published(setup) && tree.Obj? && DistinctKeys(tree.members)
    requires Process(setup, tree, facts, requireMaxTokens).Good?
    ensures var a := Process(setup, tree, facts, requireMaxTokens).value;
            && TopLevel(a.tree, "model") == Get(tree.members, "model") == Some(Str(a.model))
            && TopLevel(a.tree, "messages") == Get(tree.members, "messages")
            && a.model in setup.capabilities
            && Check(setup.capabilities[a.model], a.tree, Evaluation(facts, a.model, a.stream), true, requireMaxTokens).None?
  {
    var (model, stream) := BaseStructure(tree, requireMaxTokens).value;
    AdjustKeepsModelAndMessages(setup, tree, Evaluation(facts, model, stream), "model");
    AdjustKeepsModelAndMessages(setup, tree, Evaluation(facts, model, stream), "messages");
  }

  // ----- what gets through -----

  /** The system value each mode leaves: the client's, nothing, at most its billing block, or the
      replacement, where empty content leaves it to a template chosen later. */
  lemma SystemByMode(policy: SystemPolicy, tree: Value, changes: seq<R.AppliedChange>)
    requires tree.Obj? && DistinctKeys(tree.members) && Enforce(policy, tree, changes).error.None?
    ensures var (e, before) := (Enforce(policy, tree, changes), TopLevel(tree, "system"));
            var after := TopLevel(e.tree, "system");
            match policy
            case Preserve => after == before && !e.pending && !e.suppressed
            case StripAll => after == None && !e.pending && e.suppressed
            case StripClient => after == (if before.None? then None else W.StripClient(before.value)) && !e.pending && !e.suppressed
            case Replace(content) =>
              && !e.suppressed && (e.pending <==> content.Null? || content == Arr([]) || (content.Str? && Blank(content.s)))
              && after == if e.pending then before
                          else Some(W.ReplaceStatic(if before.None? then Null else before.value, content).0)
  {
    EnforcedSystem(policy, tree, changes);
  }

  /** The request names a model, has messages and, where asked, says how many tokens it may take. */
  predicate WellStructured(tree: Value, requireMaxTokens: bool, model: string, stream: bool) {
    && tree.Obj? && model != "" && Get(tree.members, "model") == Some(Str(model))
    && Get(tree.members, "messages").Some? && Get(tree.members, "messages").value.Arr?
    && (match Get(tree.members, "max_tokens")
        case None => !requireMaxTokens
        case Some(v) => v.Null? || (v.Num? && v.num.PosInt?))
    && (match Get(tree.members, "stream")
        case None => !stream
        case Some(v) => v == Bool(stream))
  }

  lemma StructureIs(tree: Value, requireMaxTokens: bool)
    ensures forall model, stream :: BaseStructure(tree, requireMaxTokens) == Some((model, stream)) <==>
              WellStructured(tree, requireMaxTokens, model, stream)
  {
  }

  /** Conditions see the caller's facts, with the model and the stream flag of the request itself. */
  lemma FactsAre(facts: Context, model: string, stream: bool, name: string)
    requires name == "model" || name == "stream" || name in facts.request
    ensures Evaluation(facts, model, stream).headers == facts.headers
    ensures name in Evaluation(facts, model, stream).request
    ensures Evaluation(facts, model, stream).request[name]
         == if name == "stream" then Bool(stream) else if name == "model" then Str(model) else facts.request[name]
    ensures forall n :: n in Evaluation(facts, model, stream).request ==> n == "model" || n == "stream" || n in facts.request
  {
  }

  /** Validation has nothing to say, or nothing but about `max_tokens` when only tokens are counted. */
  predicate Passes(findings: V.Findings, requireMaxTokens: bool) {
    findings.Good? && forall d :: d in findings.value ==> !requireMaxTokens && d.path == "body:/max_tokens"
  }

  lemma CheckIs(s: V.Snapshot, tree: Value, context: Context, final: bool, requireMaxTokens: bool)
    ensures Check(s, tree, context, final, requireMaxTokens).None? <==>
              Passes(V.AllFindings(s, tree, context, final), requireMaxTokens)
    ensures forall found :: Check(s, tree, context, final, requireMaxTokens) == Some(R.CapabilityViolation(found)) ==>
              found != {} && V.AllFindings(s, tree, context, final).Good?
              && forall d :: d in found <==> d in V.AllFindings(s, tree, context, final).value
                                             && (requireMaxTokens || d.path != "body:/max_tokens")
  {
    var findings := V.AllFindings(s, tree, context, final);
    if findings.Good? { FilteredOut(findings.value, requireMaxTokens); }
  }

  lemma FilteredOut(found: set<Diagnostic>, requireMaxTokens: bool)
    ensures forall d :: d in Filter(found, requireMaxTokens) <==> d in found && (requireMaxTokens || d.path != "body:/max_tokens")
    ensures Filter(found, requireMaxTokens) == {} <==> forall d :: d in found ==> !requireMaxTokens && d.path == "body:/max_tokens"
  {
    if Filter(found, requireMaxTokens) == {} {
      forall d | d in found ensures !requireMaxTokens && d.path == "body:/max_tokens" {
        assert d !in Filter(found, requireMaxTokens);
      }
    } else {
      var d :| d in Filter(found, requireMaxTokens);
    }
  }

  /** A request gets through exactly if it is well structured, its model is published, nothing is wrong
      with it as it came, adjusting it succeeds, and nothing is wrong with it then. */
  lemma GetsThroughIff(setup: Setup, tree: Value, facts: Context, requireMaxTokens: bool, model: string, stream: bool)
    requires Published(setup) && tree.Obj? && DistinctKeys(tree.members)
    requires WellStructured(tree, requireMaxTokens, model, stream)
    ensures var context := Evaluation(facts, model, stream);
            Process(setup, tree, facts, requireMaxTokens).Good? <==>
              && model in setup.capabilities
              && Passes(V.AllFindings(setup.capabilities[model], tree, context, false), requireMaxTokens)
              && Adjust(setup, tree, context).error.None?
              && Passes(V.AllFindings(setup.capabilities[model], Adjust(setup, tree, context).tree, context, true), requireMaxTokens)
    ensures Process(setup, tree, facts, requireMaxTokens).Good? ==>
              var (a, e) := (Process(setup, tree, facts, requireMaxTokens).value, Adjust(setup, tree, Evaluation(facts, model, stream)));
              && a.tree == e.tree && a.changes == e.changes && a.model == model && a.stream == stream
              && a.suppressed == e.suppressed && a.pending == e.pending && (a.reusedOriginal <==> e.changes == [])
  {
    StructureIs(tree, requireMaxTokens);
    var context := Evaluation(facts, model, stream);
    ModelCheckNeverFires(setup, tree, facts, requireMaxTokens);
    if model in setup.capabilities {
      CheckIs(setup.capabilities[model], tree, context, false, requireMaxTokens);
      CheckIs(setup.capabilities[model], Adjust(setup, tree, context).tree, context, true, requireMaxTokens);
    }
  }

  /** Which error stops a request, in the order of the stages. */
  lemma StoppedBy(setup: Setup, tree: Value, facts: Context, requireMaxTokens: bool, model: string, stream: bool)
    requires WellStructured(tree, requireMaxTokens, model, stream) && Process(setup, tree, facts, requireMaxTokens).Bad?
    ensures var (e, context) := (Process(setup, tree, facts, requireMaxTokens).error, Evaluation(facts, model, stream));
            if model !in setup.capabilities then e == R.ModelUnavailable
            else if !Passes(V.AllFindings(setup.capabilities[model], tree, context, false), requireMaxTokens) then
              Some(e) == Check(setup.capabilities[model], tree, context, false, requireMaxTokens)
            else Adjust(setup, tree, context).error.Some? ==> Some(e) == Adjust(setup, tree, context).error
  {
    StructureIs(tree, requireMaxTokens);
    if model in setup.capabilities {
      CheckIs(setup.capabilities[model], tree, Evaluation(facts, model, stream), false, requireMaxTokens);
    }
  }

  /** Without that structure nothing else is looked at. */
  lemma IllStructured(setup: Setup, tree: Value, facts: Context, requireMaxTokens: bool)
    requires forall model, stream :: !WellStructured(tree, requireMaxTokens, model, stream)
    ensures Process(setup, tree, facts, requireMaxTokens) == Bad(R.InvalidStructure)
  {
    if BaseStructure(tree, requireMaxTokens).Some? { SomeStructure(tree, requireMaxTokens); }
  }

  lemma SomeStructure(tree: Value, requireMaxTokens: bool)
    requires BaseStructure(tree, requireMaxTokens).Some?
    ensures exists model, stream :: WellStructured(tree, requireMaxTokens, model, stream)
  {
    StructureIs(tree, requireMaxTokens);
    var (model, stream) := BaseStructure(tree, requireMaxTokens).value;
    assert WellStructured(tree, requireMaxTokens, model, stream);
  }

  /** A request that was changed and has a system value goes out with it right before the messages. */
  lemma SystemGoesBeforeMessages(setup: Setup, tree: Value, facts: Context, requireMaxTokens: bool) returns (i: nat)
    requires Published(setup) && tree.Obj? && DistinctKeys(tree.members)
    requires Process(setup, tree, facts, requireMaxTokens).Good?
    requires var a := Process(setup, tree, facts, requireMaxTokens).value;
             !a.reusedOriginal && TopLevel(a.tree, "system").Some?
    ensures var a := Process(setup, tree, facts, requireMaxTokens).value;
            a.tree.Obj? && Placed(a.tree.members, TopLevel(a.tree, "system").value, i)
  {
    var a := Process(setup, tree, facts, requireMaxTokens).value;
    i := AdjustedOrder(setup, tree, Evaluation(facts, a.model, a.stream));
  }

  lemma AdjustedOrder(setup: Setup, tree: Value, context: Context) returns (i: nat)
    requires Published(setup) && tree.Obj? && DistinctKeys(tree.members) && Get(tree.members, "messages").Some?
    requires var e := Adjust(setup, tree, context);
             e.error.None? && e.changes != [] && TopLevel(e.tree, "system").Some?
    ensures var after := Adjust(setup, tree, context).tree;
            after.Obj? && Placed(after.members, TopLevel(after, "system").value, i)
  {
    var ruled := Ruled(setup, tree, context);
    var e := Enforce(setup.policy, ruled.tree, ruled.changes);
    RulesKeepModelAndMessages(setup, tree, context, "messages");
    EnforceTouchesOnlySystem(setup.policy, ruled.tree, ruled.changes, "messages");
    CanonicalKeepsMembers(e.tree, "system");
    i := ReorderPlacesSystem(e.tree.members, TopLevel(e.tree, "system").value);
  }

  // ----- when the original bytes are sent -----

  lemma SystemLookup(tree: Value)
    requires tree.Obj?
    ensures Pointer(tree, "/system") == TopLevel(tree, "system")
  {
    SystemPointer();
    Log.TopPointer(tree, "/system", "system");
  }

  /** Enforcement logs every change it makes. */
  lemma {:induction false} PutSystemIsLogged(tree: Value, changes: seq<R.AppliedChange>, next: Option<Value>, reason: string, suppressed: bool)
    requires tree.Obj? && WellFormed(tree)
    ensures var e := PutSystem(tree, changes, next, reason, suppressed);
            changes <= e.changes && (e.changes == changes ==> Same(tree, e.tree))
  {
    var edit := if next.Some? then SetTo(next.value) else Delete;
    SystemPointer();
    PutSystemOnly(tree, changes, next, reason, suppressed, "system");
    var after := R.EditPointer(tree, "/system", edit).value;
    SystemLookup(tree);
    SystemLookup(after);
    Log.EditIsOverlooked(tree, "/system", edit);
    var entry := R.AppliedChange("group_enforcement.system", "/system", TopLevel(tree, "system"), TopLevel(after, "system"), reason, R.High);
    assert |changes + [entry]| == |changes| + 1;
  }

  lemma {:induction false} EnforceWithIsLogged(policy: SystemPolicy, tree: Value, changes: seq<R.AppliedChange>, next: Option<Value>)
    requires tree.Obj? && WellFormed(tree)
    ensures var e := EnforceWith(policy, tree, changes, next);
            changes <= e.changes && (e.changes == changes ==> Same(tree, e.tree))
  {
    Log.SameReflexive(tree);
    PutSystemIsLogged(tree, changes, next, Reason(policy), policy.StripAll?);
  }

  lemma {:induction false} EnforceIsLogged(policy: SystemPolicy, tree: Value, changes: seq<R.AppliedChange>)
    requires tree.Obj? && WellFormed(tree)
    ensures var e := Enforce(policy, tree, changes);
            changes <= e.changes && (e.changes == changes ==> Same(tree, e.tree))
  {
    EnforceWithIsLogged(policy, tree, changes, NextSystem(policy, TopLevel(tree, "system")));
  }

  /** No rule of the set, if there is one, changes the tree without a log entry. */
  ghost predicate LogsAll(setup: Setup, tree: Value, context: Context) {
    setup.ruleset.Some? ==>
      Log.Sound(setup.ruleset.value.rules) && Log.NeverMisses(setup.ruleset.value.rules, tree, [], context)
  }

  lemma {:induction false} RuledSame(setup: Setup, tree: Value, context: Context)
    requires WellFormed(tree) && LogsAll(setup, tree, context)
    ensures var ruled := Ruled(setup, tree, context);
            WellFormed(ruled.tree) && (ruled.changes == [] ==> Same(tree, ruled.tree))
  {
    Log.SameReflexive(tree);
    if setup.ruleset.Some? { Log.NothingLoggedMeansSame(setup.ruleset.value.rules, tree, [], context); }
  }

  lemma {:induction false} AdjustSame(setup: Setup, tree: Value, context: Context)
    requires Published(setup) && tree.Obj? && WellFormed(tree) && LogsAll(setup, tree, context)
    ensures Adjust(setup, tree, context).changes == [] ==> Same(tree, Adjust(setup, tree, context).tree)
  {
    var ruled := Ruled(setup, tree, context);
    RuledSame(setup, tree, context);
    RulesKeepModelAndMessages(setup, tree, context, "model");
    EnforceIsLogged(setup.policy, ruled.tree, ruled.changes);
    var e := Enforce(setup.policy, ruled.tree, ruled.changes);
    if ruled.error.None? && e.changes == [] {
      Log.LogStands([], ruled.changes, e.changes);
      Log.SameTransitive(tree, ruled.tree, e.tree);
    }
  }

  /** If no rule escapes the log, then a request that goes out with its original bytes goes out as
      adjusted: the adjusted tree is equal to the client's. */
  lemma {:induction false} OriginalBytesAreTheAdjustedRequest(setup: Setup, tree: Value, facts: Context, requireMaxTokens: bool)
    requires Published(setup) && tree.Obj? && WellFormed(tree)
    requires Process(setup, tree, facts, requireMaxTokens).Good?
    requires var a := Process(setup, tree, facts, requireMaxTokens).value;
             a.reusedOriginal && LogsAll(setup, tree, Evaluation(facts, a.model, a.stream))
    ensures Same(tree, Process(setup, tree, facts, requireMaxTokens).value.tree)
  {
    var a := Process(setup, tree, facts, requireMaxTokens).value;
    AdjustSame(setup, tree, Evaluation(facts, a.model, a.stream));
  }
}
